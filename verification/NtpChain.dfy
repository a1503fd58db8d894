// The interleaved server chain over whole runs (RFC 9769 section 2), with
// bucket collisions, rate limiting, dropped and failed sends.  The reference is
// the log of completed replies.
module NtpChain {
  import opened Buffers
  import opened MachineInts
  import opened NtpTimestamp
  import opened NtpServer

  /** A reply that was sent to completion. */
  datatype Completed = Completed(e: Env, frame: Bytes, kod: bool, interleaved: bool)

  predicate EnvsOk(envs: seq<Env>) {
    forall i :: 0 <= i < |envs| ==> EnvOk(envs[i])
  }

  /** The server after a sequence of calls, and the replies completed on the way. */
  function Run(envs: seq<Env>): (r: (Server, seq<Completed>))
    requires EnvsOk(envs)
    ensures Shape(r.0)
    decreases |envs|
  {
    if envs == [] then (Fresh(), [])
    else
      var (s, log) := Run(envs[..|envs| - 1]);
      Extend(s, log, envs[|envs| - 1])
  }

  function Extend(s: Server, log: seq<Completed>, e: Env): (r: (Server, seq<Completed>))
    requires Shape(s) && EnvOk(e)
    ensures Shape(r.0)
  {
    var (t, out) := Serve(s, e);
    (t, if out.Sent? then log + [Completed(e, out.frame, out.kod, out.interleaved)] else log)
  }

  predicate LogOk(log: seq<Completed>) {
    forall i :: 0 <= i < |log| ==> |log[i].e.ip| == 4 && |log[i].frame| == 48 && Answers(log[i].e.req)
  }

  /** The last completed reply to the bucket that was not a Kiss-o'-Death. */
  function Latest(log: seq<Completed>, b: nat): (c: Option<Completed>)
    requires LogOk(log)
    ensures c.Some? ==> c.value in log && !c.value.kod && |c.value.frame| == 48
    decreases |log|
  {
    if log == [] then None
    else
      var c := log[|log| - 1];
      if BucketOf(c.e.ip) == b && !c.kod then Some(c) else Latest(log[..|log| - 1], b)
  }

  // ---- What is promised of each reply ----

  /** The request asks for an interleaved answer to reply c. */
  predicate Echoes(req: Bytes, c: Completed)
    requires |req| >= 48 && |c.frame| == 48
  {
    req[24..32] == c.frame[32..40] && req[32..40] != req[40..48]
  }

  /** The transmit time of a basic reply on the late path and on the blocking one. */
  function BasicTransmit(e: Env): Stamp {
    if e.staged && e.reaped then Calibrated(ReadClock(e, e.late), e.calibrationUs) else ReadClock(e, e.fallback)
  }

  /** Mode, origin and transmit time of a reply, given the replies before it. */
  predicate Justified(before: seq<Completed>, c: Completed)
    requires LogOk(before) && |c.e.ip| == 4 && |c.frame| == 48 && Answers(c.e.req)
  {
    var last, req := Latest(before, BucketOf(c.e.ip)), c.e.req;
    && (c.interleaved <==> !c.kod && last.Some? && Echoes(req, last.value))
    && (c.interleaved ==> c.frame[24..32] == req[32..40] && c.frame[40..48] == Wire(Measured(last.value.e)))
    && (!c.interleaved ==> c.frame[24..32] == req[40..48] && c.frame[40..48] == Wire(BasicTransmit(c.e)))
    && c.frame[32..40] == Wire(Receive(c.e))
    && (c.kod ==> KissOfDeath(c.frame))
  }

  /** LI 3 together with stratum 0, refid RATE, and no delay or dispersion. */
  predicate KissOfDeath(frame: Bytes)
    requires |frame| == 48
  {
    frame[0] / 64 == 3 && frame[0] % 8 == 4 && frame[1] == 0 && frame[4..12] == Zeros8() && frame[12..16] == RATE_ID
  }

  // ---- Invariant ----

  predicate BucketInv(s: Server, log: seq<Completed>, b: nat)
    requires Shape(s) && LogOk(log) && b < BUCKETS
  {
    && |s.ilTx[b]| == 8
    && match Latest(log, b)
       case None => !s.valid[b]
       case Some(c) => s.valid[b] && s.ilRx[b] == c.frame[32..40] && s.ilTx[b] == Wire(Measured(c.e))
  }

  predicate Inv(s: Server, log: seq<Completed>) {
    Shape(s) && LogOk(log) && forall b :: 0 <= b < BUCKETS ==> BucketInv(s, log, b)
  }

  lemma AnswerSized(e: Env, kod: bool, interleaved: bool, saved: Bytes, late: bool)
    requires |e.req| >= 48 && |saved| == 8
    ensures Sized(Answer(e, kod, interleaved, saved, late))
  {
    hide Wire, Receive, ReadClock, Calibrated;
  }

  /** What one completed answer looks like on the wire. */
  lemma AnswerOnWire(e: Env, kod: bool, interleaved: bool, saved: Bytes, late: bool)
    requires Answers(e.req) && |saved| == 8
    ensures var frame := Encode(Answer(e, kod, interleaved, saved, late));
            && |frame| == 48
            && frame[24..32] == (if interleaved then e.req[32..40] else e.req[40..48])
            && frame[32..40] == Wire(Receive(e))
            && frame[40..48] == (if interleaved then saved
                                 else if late then Wire(Calibrated(ReadClock(e, e.late), e.calibrationUs))
                                 else Wire(ReadClock(e, e.fallback)))
            && (kod ==> KissOfDeath(frame))
  {
    hide Encode, Wire, Receive, ReadClock, Calibrated, KissOfDeath;
    var r := Answer(e, kod, interleaved, saved, late);
    AnswerSized(e, kod, interleaved, saved, late);
    FieldOffsets(r);
    if kod { KodOnWire(r, Version(e.req)); }
  }

  lemma KodOnWire(r: Reply, version: nat)
    requires Sized(r) && version <= 4 && r.head == Head(3, version, 0) && r.refid == RATE_ID
    requires r.delay == BE32(0) && r.dispersion == BE32(0)
    ensures |Encode(r)| == 48 && KissOfDeath(Encode(r))
  {
    var w := Encode(r);
    assert w[0] == r.head[0] && w[1] == r.head[1];
    assert w[4..12] == r.delay + r.dispersion && w[12..16] == r.refid;
  }

  lemma TallyKeeps(s: Server, log: seq<Completed>, b: nat, now: U32)
    requires Inv(s, log) && b < BUCKETS
    ensures Inv(Tally(s, b, now), log)
  {
    hide Latest;
    forall k | 0 <= k < BUCKETS ensures BucketInv(Tally(s, b, now), log, k) {
      assert BucketInv(s, log, k);
    }
  }

  lemma AdvanceKeeps(s: Server, log: seq<Completed>, b: nat, c: Completed)
    requires Inv(s, log) && b < BUCKETS && LogOk(log + [c]) && !c.kod
    requires |c.e.ip| == 4 && |c.frame| == 48 && BucketOf(c.e.ip) == b
    requires c.frame[32..40] == Wire(Receive(c.e))
    ensures Inv(Advance(s, b, Wire(Receive(c.e)), Wire(Measured(c.e))), log + [c])
  {
    hide BucketOf, Wire, Receive, Measured;
    var t := Advance(s, b, Wire(Receive(c.e)), Wire(Measured(c.e)));
    assert (log + [c])[..|log|] == log;
    forall k | 0 <= k < BUCKETS ensures BucketInv(t, log + [c], k) {
      assert BucketInv(s, log, k);
    }
  }

  lemma KodKeeps(s: Server, log: seq<Completed>, c: Completed)
    requires Inv(s, log) && LogOk(log + [c]) && c.kod
    ensures Inv(s, log + [c])
  {
    hide BucketOf, Wire, Measured;
    assert (log + [c])[..|log|] == log;
    forall k | 0 <= k < BUCKETS ensures BucketInv(s, log + [c], k) {
      assert BucketInv(s, log, k);
    }
  }

  /** One call keeps the invariant, and a reply it completes is justified by the log. */
  lemma ServeKeeps(s: Server, log: seq<Completed>, e: Env)
    requires Inv(s, log) && EnvOk(e)
    ensures var (t, log2) := Extend(s, log, e);
            && Inv(t, log2)
            && (log2 != log ==> log2[..|log2| - 1] == log && Justified(log, log2[|log|]))
  {
    hide Encode, Tally, BucketOf, Answer, Wire, Receive, Measured, Advance, Latest, KissOfDeath, BucketInv;
    if Answers(e.req) {
      var b := BucketOf(e.ip);
      var t := Tally(s, b, Wrap32(Receive(e).sec - UNIX_EPOCH));
      TallyKeeps(s, log, b, Wrap32(Receive(e).sec - UNIX_EPOCH));
      RespondKeeps(t, log, b, e);
    }
  }

  lemma RespondKeeps(t: Server, log: seq<Completed>, b: nat, e: Env)
    requires Inv(t, log) && EnvOk(e) && Answers(e.req) && b == BucketOf(e.ip)
    ensures var kod, interleaved := OverBudget(t, b), Interleaves(t, b, e.req);
            var (u, out) := Respond(t, b, e, kod, interleaved);
            if out.Sent? then
              var c := Completed(e, out.frame, out.kod, out.interleaved);
              |c.frame| == 48 && Inv(u, log + [c]) && Justified(log, c)
            else Inv(u, log)
  {
    hide Encode, BucketOf, Answer, Wire, Receive, Measured, Advance, Latest, KissOfDeath;
    var kod, interleaved := OverBudget(t, b), Interleaves(t, b, e.req);
    var (u, out) := Respond(t, b, e, kod, interleaved);
    assert BucketInv(t, log, b);
    AnswerOnWire(e, kod, interleaved, t.ilTx[b], e.staged && e.reaped);
    if out.Sent? {
      var c := Completed(e, out.frame, out.kod, out.interleaved);
      hide BucketInv;
      if kod { KodKeeps(t, log, c); } else { AdvanceKeeps(t, log, b, c); }
    }
  }

  // ---- Every run ----

  lemma {:induction false} RunInv(envs: seq<Env>)
    requires EnvsOk(envs)
    ensures Inv(Run(envs).0, Run(envs).1)
    ensures forall i :: 0 <= i < |Run(envs).1| ==> Justified(Run(envs).1[..i], Run(envs).1[i])
    decreases |envs|
  {
    hide Serve, Justified, Latest;
    if envs == [] {
      FreshInv();
    } else {
      var (s, log) := Run(envs[..|envs| - 1]);
      RunInv(envs[..|envs| - 1]);
      ServeKeeps(s, log, envs[|envs| - 1]);
      var log2 := Run(envs).1;
      forall i | 0 <= i < |log2| ensures Justified(log2[..i], log2[i]) {
        if i < |log| {
          assert log2[..i] == log[..i];
        } else {
          assert log2[..i] == log;
        }
      }
    }
  }

  lemma FreshInv()
    ensures Inv(Fresh(), [])
  {
  }

  /** In every run, with bucket collisions, rate limiting and failed sends: a
      completed reply is interleaved exactly when it is not a Kiss-o'-Death and
      its request echoes the receive time of the last completed reply of its
      bucket; it then carries the measured send time of that reply and the
      client's receive time as origin, and otherwise the client's transmit time
      as origin; a Kiss-o'-Death is always basic. */
  lemma InterleavedChain(envs: seq<Env>, i: nat)
    requires EnvsOk(envs) && i < |Run(envs).1|
    ensures var log := Run(envs).1;
            LogOk(log) && Justified(log[..i], log[i])
  {
    RunInv(envs);
  }

  /** Reply j is the last one to the bucket that was not a Kiss-o'-Death. */
  predicate LastOf(log: seq<Completed>, b: nat, j: nat)
    requires LogOk(log) && j < |log|
  {
    && !log[j].kod && BucketOf(log[j].e.ip) == b
    && forall k :: j < k < |log| ==> log[k].kod || BucketOf(log[k].e.ip) != b
  }

  lemma {:induction false} LatestIsLast(log: seq<Completed>, b: nat, j: nat)
    requires LogOk(log) && j < |log| && LastOf(log, b, j)
    ensures Latest(log, b) == Some(log[j])
    decreases |log|
  {
    hide BucketOf;
    var init := log[..|log| - 1];
    if j < |init| {
      assert forall k :: j < k < |init| ==> init[k] == log[k];
      LatestIsLast(init, b, j);
    }
  }

  lemma {:induction false} SomeLast(log: seq<Completed>, b: nat, k: nat) returns (j: nat)
    requires LogOk(log) && k < |log| && !log[k].kod && BucketOf(log[k].e.ip) == b
    ensures k <= j < |log| && LastOf(log, b, j)
    decreases |log|
  {
    hide BucketOf;
    var last := |log| - 1;
    if k == last || (!log[last].kod && BucketOf(log[last].e.ip) == b) {
      j := last;
    } else {
      j := SomeLast(log[..last], b, k);
      assert forall i :: j < i < last ==> log[..last][i] == log[i];
    }
  }

  /** An interleaved reply that echoes reply k carries the measured time of reply
      k itself if and only if the last reply completed to the bucket before it is
      k, or was measured at the same time.  That last reply has the same receive
      time in any case, so it does whenever no later one shares k's receive time. */
  lemma NoForeignTimestamp(envs: seq<Env>, i: nat, k: nat)
    requires EnvsOk(envs) && k < i < |Run(envs).1| && LogOk(Run(envs).1)
    requires var log := Run(envs).1;
             && log[i].interleaved && !log[k].kod && BucketOf(log[k].e.ip) == BucketOf(log[i].e.ip)
             && log[i].e.req[24..32] == log[k].frame[32..40]
    ensures var log, b := Run(envs).1, BucketOf(Run(envs).1[i].e.ip);
            && (log[i].frame[40..48] == Wire(Measured(log[k].e)) <==>
                  forall j :: k < j < i && LastOf(log[..i], b, j) ==> Measured(log[j].e) == Measured(log[k].e))
            && (forall j :: k <= j < i && LastOf(log[..i], b, j) ==> log[j].frame[32..40] == log[k].frame[32..40])
            && ((forall j :: k < j < i && !log[j].kod && BucketOf(log[j].e.ip) == b ==>
                   log[j].frame[32..40] != log[k].frame[32..40])
                ==> log[i].frame[40..48] == Wire(Measured(log[k].e)))
  {
    hide Run, Measured, Wire, Receive, KissOfDeath, BucketOf, Latest, BasicTransmit, LastOf;
    InterleavedChain(envs, i);
    var log, b := Run(envs).1, BucketOf(Run(envs).1[i].e.ip);
    var j := SomeLast(log[..i], b, k);
    forall m | k <= m < i && LastOf(log[..i], b, m) ensures m == j {
      OnlyOneLast(log[..i], b, m, j);
    }
    LatestIsLast(log[..i], b, j);
    LastIsCompleted(log[..i], b, j);
    WireInjective(Measured(log[j].e), Measured(log[k].e));
  }

  lemma OnlyOneLast(log: seq<Completed>, b: nat, i: nat, j: nat)
    requires LogOk(log) && i < |log| && j < |log| && LastOf(log, b, i) && LastOf(log, b, j)
    ensures i == j
  {
    hide BucketOf;
  }

  lemma LastIsCompleted(log: seq<Completed>, b: nat, j: nat)
    requires LogOk(log) && j < |log| && LastOf(log, b, j)
    ensures !log[j].kod && BucketOf(log[j].e.ip) == b
  {
  }

  /** The pair kept for the next exchange never has transmit equal to receive: the
      calibrated time of the send is kept as it is unless it equals the receive
      time, and then with its lowest bit turned. */
  lemma SavedPairDistinct(e: Env)
    ensures Wire(Measured(e)) != Wire(Receive(e))
    ensures var m := Calibrated(ReadClock(e, e.txEnd), e.calibrationUs);
            && Measured(e).sec == m.sec && Measured(e).frac / 2 == m.frac / 2
            && (Measured(e).frac % 2 == m.frac % 2 <==> m != Receive(e))
  {
    hide Wire, Receive, Calibrated, ReadClock;
    WireInjective(Measured(e), Receive(e));
  }

  // ---- The two transmit paths ----

  lemma CalibratedInjective(a: Stamp, b: Stamp, us: int)
    ensures Calibrated(a, us) == Calibrated(b, us) <==> a == b
  {
    hide Calibrated, Units;
    CalibrationCancels(a, b, us);
    if Calibrated(a, us) == Calibrated(b, us) {
      ZeroDifference(Units(b), Units(a));
      UnitsDetermineStamp(a, b);
    }
  }

  lemma ZeroDifference(x: nat, y: nat)
    requires x < 0x1_0000_0000_0000_0000 && y < 0x1_0000_0000_0000_0000
    requires (x - y) % 0x1_0000_0000_0000_0000 == 0
    ensures x == y
  {
  }

  /** RFC 9769 forbids a reply whose transmit time equals its receive time.  In
      every run that happens exactly when, in an interleaved reply, the time saved
      for the last exchange is this one's receive time; in a basic reply or a
      Kiss-o'-Death, when the two clock readings coincide: before calibration on
      the late path, against the calibrated arrival on the blocking path. */
  lemma EqualStampsByMode(envs: seq<Env>, i: nat)
    requires EnvsOk(envs) && i < |Run(envs).1| && LogOk(Run(envs).1)
    ensures var log := Run(envs).1;
            var c, last := log[i], Latest(log[..i], BucketOf(log[i].e.ip));
            && (c.interleaved ==> last.Some? && !c.kod)
            && (c.frame[40..48] == c.frame[32..40] <==>
                  if c.interleaved then Measured(last.value.e) == Receive(c.e)
                  else if c.e.staged && c.e.reaped then ReadClock(c.e, c.e.late) == Arrival(c.e)
                  else ReadClock(c.e, c.e.fallback) == Receive(c.e))
  {
    hide Run, Measured, Wire, KissOfDeath, BucketOf, Latest, ReadClock, Calibrated, Arrival;
    InterleavedChain(envs, i);
    var log := Run(envs).1;
    var c, last := log[i], Latest(log[..i], BucketOf(log[i].e.ip));
    if c.interleaved {
      WireInjective(Measured(last.value.e), Receive(c.e));
    } else {
      WireInjective(BasicTransmit(c.e), Receive(c.e));
      CalibratedInjective(ReadClock(c.e, c.e.late), Arrival(c.e), c.e.calibrationUs);
    }
  }

  /** While locked, against one pulse and rate and without a captured arrival, the
      readings of the late path coincide exactly when the corrected microseconds do. */
  lemma LockedEqualReadings(e: Env)
    requires e.locked && !CaptureTrusted(e) && e.late.pps.Some? && e.late.pps == e.arrival.pps && e.late.ppm == e.arrival.ppm
    ensures var p, ppm := e.late.pps.value, e.late.ppm;
            ReadClock(e, e.late) == Arrival(e) <==>
            Delta64(e.late.us, p, ppm) % 4_294_967_296_000_000 == Delta64(e.arrival.us, p, ppm) % 4_294_967_296_000_000
  {
    hide CaptureTrusted, ComputeNtpTimestamp, Delta64;
    ReadingsCoincide(e.late.us, e.arrival.us, e.late.pps.value, e.late.ppm);
  }

  lemma UnlockedReading(e: Env, t: Instant)
    requires !e.locked
    ensures ReadClock(e, t) == Stamp(Wrap32(t.wall + UNIX_EPOCH), 0) && Arrival(e) == ReadClock(e, e.arrival)
  {
  }

  /** Two unlocked readings, one of them calibrated, coincide exactly when the
      calibration is a whole number of seconds and makes up their difference. */
  lemma WholeSecondsCoincide(x: nat, y: nat, us: int)
    ensures Stamp(Wrap32(x + UNIX_EPOCH), 0) == Calibrated(Stamp(Wrap32(y + UNIX_EPOCH), 0), us) <==>
            us % 1_000_000 == 0 && Wrap32(x - y + us / 1_000_000) == 0
  {
    hide Units, FromUnits, UsToUnits;
    var a, b := Stamp(Wrap32(x + UNIX_EPOCH), 0), Stamp(Wrap32(y + UNIX_EPOCH), 0);
    if Units(a) == Units(Calibrated(b, us)) { UnitsDetermineStamp(a, Calibrated(b, us)); }
    SplitUnits(x + UNIX_EPOCH, 0, Wrap32(x + UNIX_EPOCH));
    SplitUnits(y + UNIX_EPOCH, 0, Wrap32(y + UNIX_EPOCH));
    SameInEra((x + UNIX_EPOCH) * 0x1_0000_0000, (y + UNIX_EPOCH) * 0x1_0000_0000, UsToUnits(us));
    assert (x + UNIX_EPOCH) * 0x1_0000_0000 - (y + UNIX_EPOCH) * 0x1_0000_0000 == (x - y) * 0x1_0000_0000;
    WholeSeconds(x - y, UsToUnits(us));
    CorrectionUnits(us);
  }

  lemma SameInEra(x: int, y: int, u: int)
    ensures x % 0x1_0000_0000_0000_0000 == (y % 0x1_0000_0000_0000_0000 - u) % 0x1_0000_0000_0000_0000
       <==> (x - y + u) % 0x1_0000_0000_0000_0000 == 0
  {
    var p, q := x % 0x1_0000_0000_0000_0000, (y - u) % 0x1_0000_0000_0000_0000;
    EraBorrow(y, u);
    EraDifference(x, y - u);
    assert x - (y - u) == x - y + u;
    if (p - q) % 0x1_0000_0000_0000_0000 == 0 { ZeroDifference(p, q); }
  }

  lemma EraBorrow(y: int, u: int)
    ensures (y % 0x1_0000_0000_0000_0000 - u) % 0x1_0000_0000_0000_0000 == (y - u) % 0x1_0000_0000_0000_0000
  {
    var k, r := y / 0x1_0000_0000_0000_0000, y % 0x1_0000_0000_0000_0000;
    assert y - u == (r - u) + k * 0x1_0000_0000_0000_0000;
  }

  lemma WholeSeconds(d: int, u: int)
    ensures (d * 0x1_0000_0000 + u) % 0x1_0000_0000_0000_0000 == 0
       <==> u % 0x1_0000_0000 == 0 && (d + u / 0x1_0000_0000) % 0x1_0000_0000 == 0
  {
    var q, r := d + u / 0x1_0000_0000, u % 0x1_0000_0000;
    assert d * 0x1_0000_0000 + u == q * 0x1_0000_0000 + r;
    var k, m := q / 0x1_0000_0000, q % 0x1_0000_0000;
    QuotientUnique(q * 0x1_0000_0000 + r, k, m * 0x1_0000_0000 + r);
  }

  /** A correction is whole seconds in timestamp units exactly if it is in microseconds. */
  lemma CorrectionUnits(us: int)
    ensures UsToUnits(us) % 0x1_0000_0000 == 0 <==> us % 1_000_000 == 0
    ensures us % 1_000_000 == 0 ==> UsToUnits(us) == us / 1_000_000 * 0x1_0000_0000
  {
    if us >= 0 {
      PositiveCorrection(us);
    } else {
      PositiveCorrection(-us);
      NegatedSeconds(UsToUnits(-us));
      NegatedMicros(-us);
    }
  }

  lemma PositiveCorrection(us: nat)
    ensures UsToUnits(us) % 0x1_0000_0000 == 0 <==> us % 1_000_000 == 0
    ensures us % 1_000_000 == 0 ==> UsToUnits(us) == us / 1_000_000 * 0x1_0000_0000
  {
    FractionIsFloor(us);
    FractionInjective(us % 1_000_000, 0);
    AddWraps(us % 1_000_000 * 0x1_0000_0000 / 1_000_000, us / 1_000_000);
    SmallMod(us % 1_000_000 * 0x1_0000_0000 / 1_000_000);
  }

  lemma NegatedSeconds(n: int)
    ensures (-n) % 0x1_0000_0000 == 0 <==> n % 0x1_0000_0000 == 0
  {
  }

  lemma NegatedMicros(n: int)
    ensures (-n) % 1_000_000 == 0 <==> n % 1_000_000 == 0
    ensures n % 1_000_000 == 0 ==> (-n) / 1_000_000 == -(n / 1_000_000)
  {
  }

  /** Unlocked, a basic reply of the late path has equal stamps exactly when it is
      stamped in the wall second of its arrival; one of the blocking path when the
      calibration is whole seconds and makes up the difference; an interleaved one,
      under one calibration, when the last exchange left in the second of this
      arrival and not in that of its own. */
  lemma UnlockedEqualStamps(envs: seq<Env>, i: nat)
    requires EnvsOk(envs) && i < |Run(envs).1| && LogOk(Run(envs).1) && !Run(envs).1[i].e.locked
    requires var log := Run(envs).1;
             var last := Latest(log[..i], BucketOf(log[i].e.ip));
             log[i].interleaved ==> last.Some? && !last.value.e.locked && last.value.e.calibrationUs == log[i].e.calibrationUs
    ensures var log := Run(envs).1;
            var c, last := log[i], Latest(log[..i], BucketOf(log[i].e.ip));
            c.frame[40..48] == c.frame[32..40] <==>
              if c.interleaved then
                Wrap32(last.value.e.txEnd.wall - c.e.arrival.wall) == 0
                && Wrap32(last.value.e.txEnd.wall - last.value.e.arrival.wall) != 0
              else if c.e.staged && c.e.reaped then Wrap32(c.e.late.wall - c.e.arrival.wall) == 0
              else c.e.calibrationUs % 1_000_000 == 0
                   && Wrap32(c.e.fallback.wall - c.e.arrival.wall + c.e.calibrationUs / 1_000_000) == 0
  {
    hide Run, Latest, BucketOf, Measured, ReadClock, Arrival, Calibrated, KissOfDeath;
    EqualStampsByMode(envs, i);
    var c := Run(envs).1[i];
    UnlockedReading(c.e, c.e.arrival);
    UnlockedReading(c.e, c.e.late);
    UnlockedReading(c.e, c.e.fallback);
    SameSecond(c.e.late.wall, c.e.arrival.wall);
    WholeSecondsCoincide(c.e.fallback.wall, c.e.arrival.wall, c.e.calibrationUs);
    if c.interleaved {
      UnlockedMeasured(Latest(Run(envs).1[..i], BucketOf(c.e.ip)).value.e, c.e);
    }
  }

  lemma SameSecond(x: nat, y: nat)
    ensures Stamp(Wrap32(x + UNIX_EPOCH), 0) == Stamp(Wrap32(y + UNIX_EPOCH), 0) <==> Wrap32(x - y) == 0
  {
    WrapDifference(x + UNIX_EPOCH, y + UNIX_EPOCH);
  }

  /** The time measured for one unlocked exchange against the arrival of another. */
  lemma UnlockedMeasured(p: Env, e: Env)
    requires !p.locked && !e.locked && p.calibrationUs == e.calibrationUs
    ensures Measured(p) == Receive(e) <==>
            Wrap32(p.txEnd.wall - e.arrival.wall) == 0 && Wrap32(p.txEnd.wall - p.arrival.wall) != 0
  {
    hide ReadClock, Calibrated, Arrival, FlipLowBit;
    var us := e.calibrationUs;
    UnlockedReading(p, p.txEnd);
    UnlockedReading(p, p.arrival);
    UnlockedReading(e, e.arrival);
    var sent, came, next := ReadClock(p, p.txEnd), Arrival(p), Arrival(e);
    CalibratedInjective(sent, came, us);
    CalibratedInjective(sent, next, us);
    SameSecond(p.txEnd.wall, p.arrival.wall);
    SameSecond(p.txEnd.wall, e.arrival.wall);
    if sent == came { FlippedIsNoSecond(Calibrated(sent, us), next, us, p.txEnd.wall, e.arrival.wall); }
  }

  /** A timestamp with its low bit flipped is no longer whole seconds away. */
  lemma FlippedIsNoSecond(s: Stamp, next: Stamp, us: int, x: nat, y: nat)
    requires s == Calibrated(Stamp(Wrap32(x + UNIX_EPOCH), 0), us) && next == Stamp(Wrap32(y + UNIX_EPOCH), 0)
    ensures s.(frac := FlipLowBit(s.frac)) != Calibrated(next, us)
  {
    hide FlipLowBit;
    SameFraction(Wrap32(x + UNIX_EPOCH), Wrap32(y + UNIX_EPOCH), us);
  }

  lemma SameFraction(a: U32, b: U32, us: int)
    ensures Calibrated(Stamp(a, 0), us).frac == Calibrated(Stamp(b, 0), us).frac
  {
    hide *;
    CalibratedFrac(a, us);
    CalibratedFrac(b, us);
  }

  lemma CalibratedFrac(sec: U32, us: int)
    ensures Calibrated(Stamp(sec, 0), us).frac == (-UsToUnits(us)) % 0x1_0000_0000
  {
    hide UsToUnits, FromUnits;
    LowHalf(sec * 0x1_0000_0000 - UsToUnits(us));
    AddWraps(-UsToUnits(us), sec);
  }

  lemma LowHalf(v: int)
    ensures FromUnits(v).frac == v % 0x1_0000_0000
  {
    hide Units;
    AddWraps(v % 0x1_0000_0000_0000_0000, v / 0x1_0000_0000_0000_0000 * 0x1_0000_0000);
  }

  lemma AddWraps(w: int, k: int)
    ensures (w + k * 0x1_0000_0000) % 0x1_0000_0000 == w % 0x1_0000_0000
  {
    assert w + k * 0x1_0000_0000 == (w / 0x1_0000_0000 + k) * 0x1_0000_0000 + w % 0x1_0000_0000;
  }

  /** On the late path the turnaround t3 - t2 is the difference of the clock
      readings; the blocking path leaves t3 uncalibrated and shifts it. */
  lemma Turnaround(e: Env)
    ensures Elapsed(Calibrated(ReadClock(e, e.late), e.calibrationUs), Receive(e)) == Elapsed(ReadClock(e, e.late), Arrival(e))
    ensures Elapsed(ReadClock(e, e.fallback), Receive(e))
         == (Units(ReadClock(e, e.fallback)) - Units(Arrival(e)) + UsToUnits(e.calibrationUs)) % 0x1_0000_0000_0000_0000
  {
    CalibrationCancels(Arrival(e), ReadClock(e, e.late), e.calibrationUs);
    OneSidedCalibration(Arrival(e), ReadClock(e, e.fallback), e.calibrationUs);
  }

  /** The arrival that is served is the clock's reading or a captured one within
      2 ms of the cross-check's reading; when both readings of the clock agree it
      is within 2 ms of the clock either way. */
  lemma ArrivalNearClock(e: Env)
    ensures Arrival(e) == ReadClock(e, e.arrival) || -0.002 < StampDiff(Arrival(e), ReadClock(e, e.poll)) < 0.002
    ensures ReadClock(e, e.poll) == ReadClock(e, e.arrival) ==> -0.002 < StampDiff(Arrival(e), ReadClock(e, e.arrival)) < 0.002
  {
    var p := ReadClock(e, e.arrival);
    hide ReadClock;
    assert Signed32(p.sec - p.sec) == 0;
  }

  // ---- The rate budget over runs ----

  function SecondOf(e: Env): U32 {
    Wrap32(Receive(e).sec - UNIX_EPOCH)
  }

  /** Requests to the bucket since the last one that fell in another second. */
  function Trailing(envs: seq<Env>, b: nat, now: U32): nat
    requires EnvsOk(envs)
    decreases |envs|
  {
    if envs == [] then 0
    else
      var e, before := envs[|envs| - 1], envs[..|envs| - 1];
      if !Answers(e.req) || BucketOf(e.ip) != b then Trailing(before, b, now)
      else if SecondOf(e) == now then 1 + Trailing(before, b, now)
      else 0
  }

  /** Requests to any bucket since the last one that fell in another second. */
  function TrailingAll(envs: seq<Env>, now: U32): nat
    decreases |envs|
  {
    if envs == [] then 0
    else
      var e, before := envs[|envs| - 1], envs[..|envs| - 1];
      if !Answers(e.req) then TrailingAll(before, now)
      else if SecondOf(e) == now then 1 + TrailingAll(before, now)
      else 0
  }

  lemma {:induction false} CountsAreTrailing(envs: seq<Env>, b: nat, now: U32)
    requires EnvsOk(envs) && b < BUCKETS
    ensures var s := Run(envs).0;
            && (if s.sec[b] == now then s.count[b] else 0) == Trailing(envs, b, now)
            && (if s.windowSec == now then s.windowCount else 0) == TrailingAll(envs, now)
    decreases |envs|
  {
    hide BucketOf, Receive;
    if envs != [] {
      var e, before := envs[|envs| - 1], envs[..|envs| - 1];
      CountsAreTrailing(before, b, now);
      ServeTallies(Run(before).0, e);
      hide Serve;
    }
  }

  lemma TrailingBound(envs: seq<Env>, b: nat, now: U32)
    requires EnvsOk(envs)
    ensures Trailing(envs, b, now) <= |envs| && TrailingAll(envs, now) <= |envs|
    decreases |envs|
  {
    if envs != [] { TrailingBound(envs[..|envs| - 1], b, now); }
  }

  lemma ServeTallies(s: Server, e: Env)
    requires Shape(s) && EnvOk(e)
    ensures var t, u := Serve(s, e).0, if Answers(e.req) then Tally(s, BucketOf(e.ip), SecondOf(e)) else s;
            t.sec == u.sec && t.count == u.count && t.windowSec == u.windowSec && t.windowCount == u.windowCount
  {
    hide BucketOf, Receive, Tally, OverBudget, Interleaves, Answer, Encode, Wire, Measured;
  }

  /** In every run a reply is a Kiss-o'-Death exactly when it is more than the
      20th request of its bucket, or the 200th overall, without a change of second. */
  lemma KodIffOverBudget(envs: seq<Env>, e: Env)
    requires EnvsOk(envs) && EnvOk(e)
    ensures var out := Serve(Run(envs).0, e).1;
            out.Sent? ==> (out.kod <==>
              1 + Trailing(envs, BucketOf(e.ip), SecondOf(e)) > 20 || 1 + TrailingAll(envs, SecondOf(e)) > 200)
  {
    hide BucketOf, Receive, Answer, Encode, Wire, Measured, Run, Trailing, TrailingAll, Advance;
    CountsAreTrailing(envs, BucketOf(e.ip), SecondOf(e));
  }

  // ---- Two short runs ----

  /** A reachable request whose late send completes, in a run short of any budget. */
  lemma ShortRunSends(envs: seq<Env>, e: Env)
    requires EnvsOk(envs) && EnvOk(e) && |envs| < CLIENT_BUDGET && Answers(e.req)
    requires e.reachable && e.staged && e.reaped
    ensures EnvsOk(envs + [e])
    ensures var before, log := Run(envs).1, Run(envs + [e]).1;
            |log| == |before| + 1 && log[..|before|] == before && log[|before|].e == e && !log[|before|].kod
  {
    hide BucketOf, Receive, Answer, Encode, Wire, Measured, Run, Trailing, TrailingAll, Advance, Interleaves;
    var b := BucketOf(e.ip);
    CountsAreTrailing(envs, b, SecondOf(e));
    TrailingBound(envs, b, SecondOf(e));
    RunExtends(envs, e);
  }

  lemma RunExtends(envs: seq<Env>, e: Env)
    requires EnvsOk(envs) && EnvOk(e)
    ensures EnvsOk(envs + [e]) && Run(envs + [e]) == Extend(Run(envs).0, Run(envs).1, e)
  {
    hide Extend;
    assert (envs + [e])[..|envs|] == envs;
  }

  /** A client request with these origin, receive and transmit fields. */
  function Request(origin: Bytes, receive: Bytes, transmit: Bytes): (req: Bytes)
    requires |origin| == |receive| == |transmit| == 8
    ensures Answers(req) && req[24..32] == origin && req[32..40] == receive && req[40..48] == transmit
  {
    [0x23] + seq(23, _ => 0) + origin + receive + transmit
  }

  /** An unlocked exchange: request, wall second of arrival and of departure. */
  function Unlocked(ip: Bytes, req: Bytes, came: nat, left: nat): Env {
    var arrival, departure := Instant(0, came, None, 0.0), Instant(0, left, None, 0.0);
    Env(req, ip, false, None, 0, 0, None, 0, arrival, arrival, departure, departure, departure, true, true, true, true)
  }

  function Second(wall: nat): Stamp {
    Stamp(Wrap32(wall + UNIX_EPOCH), 0)
  }

  lemma UnlockedTimes(ip: Bytes, req: Bytes, came: nat, left: nat)
    ensures var e := Unlocked(ip, req, came, left);
            && Receive(e) == Second(came) && (Second(left) != Second(came) ==> Measured(e) == Second(left))
  {
    hide Calibrated, FlipLowBit;
    ZeroCorrection(Second(came));
    ZeroCorrection(Second(left));
  }

  const CLIENT: Bytes := [192, 168, 1, 10]
  const OTHER: Bytes := [192, 168, 1, 99]

  /** Different addresses, one bucket. */
  lemma Collision()
    ensures BucketOf(CLIENT) == BucketOf(OTHER) == 0
  {
    assert FromBE32(CLIENT) == 3232235786 && FromBE32(OTHER) == 3232235875;
    assert 3232235786 * 2654435761 % 0x1_0000_0000 == 30175722;
    assert 3232235875 * 2654435761 % 0x1_0000_0000 == 51757171;
  }

  const ONES: Bytes := [1, 1, 1, 1, 1, 1, 1, 1]

  /** The echo of a reply received in this second. */
  function Echo(wall: nat): Bytes {
    Request(Wire(Second(wall)), ONES, Zeros8())
  }

  function Opening(): Bytes {
    Request(Zeros8(), Zeros8(), ONES)
  }

  /** A request whose late send is sure to complete while the budget lasts. */
  predicate Sendable(e: Env) {
    EnvOk(e) && Answers(e.req) && e.reachable && e.staged && e.reaped
  }

  /** What is promised of a reply, given the last completed one of its bucket. */
  predicate Follows(c: Completed, e: Env, p: Env)
    requires |c.frame| == 48 && Answers(e.req)
  {
    && c.e == e && c.frame[32..40] == Wire(Receive(e))
    && (c.interleaved <==> e.req[24..32] == Wire(Receive(p)) && e.req[32..40] != e.req[40..48])
    && (c.interleaved ==> c.frame[40..48] == Wire(Measured(p)))
  }

  lemma JustifiedFollows(before: seq<Completed>, c: Completed, j: nat)
    requires LogOk(before) && |c.e.ip| == 4 && |c.frame| == 48 && Answers(c.e.req) && Justified(before, c) && !c.kod
    requires j < |before| && LastOf(before, BucketOf(c.e.ip), j) && before[j].frame[32..40] == Wire(Receive(before[j].e))
    ensures Follows(c, c.e, before[j].e)
  {
    hide BucketOf, Wire, Receive, Measured, Latest, LastOf, BasicTransmit, KissOfDeath;
    LatestIsLast(before, BucketOf(c.e.ip), j);
  }

  /** Two requests of one bucket from a fresh start. */
  lemma TwoReplies(e1: Env, e2: Env)
    requires Sendable(e1) && Sendable(e2) && BucketOf(e1.ip) == BucketOf(e2.ip)
    ensures EnvsOk([e1, e2])
    ensures var log := Run([e1, e2]).1;
            && |log| == 2 && LogOk(log) && !log[0].kod && !log[1].kod
            && log[0].e == e1 && log[0].frame[32..40] == Wire(Receive(e1))
            && log[1].e == e2 && Follows(log[1], e2, e1)
  {
    hide BucketOf, Wire, Receive, Measured, Latest, BasicTransmit, KissOfDeath, Run, Follows;
    assert [e1, e2] == [] + [e1] + [e2];
    RunNothing();
    ShortRunSends([], e1);
    ShortRunSends([] + [e1], e2);
    InterleavedChain([e1, e2], 0);
    InterleavedChain([e1, e2], 1);
    JustifiedFollows(Run([e1, e2]).1[..1], Run([e1, e2]).1[1], 0);
  }

  lemma RunNothing()
    ensures Run([]).1 == []
  {
  }

  /** A third request of the same bucket. */
  lemma ThreeReplies(e1: Env, e2: Env, e3: Env)
    requires Sendable(e1) && Sendable(e2) && Sendable(e3) && BucketOf(e1.ip) == BucketOf(e2.ip) == BucketOf(e3.ip)
    ensures EnvsOk([e1, e2, e3])
    ensures var log := Run([e1, e2, e3]).1;
            && |log| == 3 && LogOk(log) && log[0].e == e1 && log[1].e == e2
            && log[0].frame[32..40] == Wire(Receive(e1)) && Follows(log[2], e3, e2)
  {
    hide BucketOf, Wire, Receive, Measured, Latest, BasicTransmit, KissOfDeath, Run, Follows;
    TwoReplies(e1, e2);
    assert [e1, e2, e3] == [e1, e2] + [e3];
    ShortRunSends([e1, e2], e3);
    assert Run([e1, e2, e3]).1[..2] == Run([e1, e2]).1;
    InterleavedChain([e1, e2, e3], 1);
    InterleavedChain([e1, e2, e3], 2);
    JustifiedFollows(Run([e1, e2, e3]).1[..2], Run([e1, e2, e3]).1[2], 1);
  }

  /** Equal stamps are not confined to basic replies: unlocked, an exchange of
      seconds 100 to 101 followed by its echo in second 101 gives an interleaved
      reply whose transmit time equals its receive time. */
  lemma InterleavedEqualStamps()
    ensures var envs := [Unlocked(CLIENT, Opening(), 100, 101), Unlocked(CLIENT, Echo(100), 101, 102)];
            && EnvsOk(envs) && |Run(envs).1| == 2 && |Run(envs).1[1].frame| == 48
            && Run(envs).1[1].interleaved && Run(envs).1[1].frame[40..48] == Run(envs).1[1].frame[32..40]
  {
    hide Run, BucketOf, Receive, Measured, Wire, Request;
    TwoReplies(Unlocked(CLIENT, Opening(), 100, 101), Unlocked(CLIENT, Echo(100), 101, 102));
    UnlockedTimes(CLIENT, Opening(), 100, 101);
    UnlockedTimes(CLIENT, Echo(100), 101, 102);
  }

  /** A collision can hand out another client's timestamp: unlocked, both clients
      of one bucket arrive in second 100, and the echo of the first is answered
      with the time at which the reply to the second left. */
  lemma ForeignTimestampServed()
    ensures var envs := [Unlocked(CLIENT, Opening(), 100, 101), Unlocked(OTHER, Opening(), 100, 102),
                         Unlocked(CLIENT, Echo(100), 103, 103)];
            && EnvsOk(envs) && |Run(envs).1| == 3 && LogOk(Run(envs).1)
            && var log := Run(envs).1;
               && log[0].e.ip == log[2].e.ip != log[1].e.ip
               && log[2].interleaved && log[2].e.req[24..32] == log[0].frame[32..40]
               && log[2].frame[40..48] == Wire(Measured(log[1].e)) != Wire(Measured(log[0].e))
  {
    hide Run, BucketOf, Receive, Measured, Wire, Request;
    Collision();
    var e1, e2 := Unlocked(CLIENT, Opening(), 100, 101), Unlocked(OTHER, Opening(), 100, 102);
    ThreeReplies(e1, e2, Unlocked(CLIENT, Echo(100), 103, 103));
    UnlockedTimes(CLIENT, Opening(), 100, 101);
    UnlockedTimes(OTHER, Opening(), 100, 102);
    WireInjective(Second(101), Second(102));
    assert CLIENT[3] != OTHER[3];
  }

  // ---- Frames that leave without their completion being seen ----

  /** A staged frame that may have left before the blocking send of the same reply
      differs from it in the transmit field at most, and not at all if interleaved. */
  lemma StrayDiffersInTransmit(s: Server, e: Env)
    requires Shape(s) && EnvOk(e) && forall b :: 0 <= b < BUCKETS ==> |s.ilTx[b]| == 8
    ensures var out := Serve(s, e).1;
            out.Sent? && out.stray.Some? ==>
              && |out.frame| == |out.stray.value| == 48 && out.stray.value[..40] == out.frame[..40]
              && (out.interleaved ==> out.stray.value == out.frame)
  {
    hide BucketOf, Receive, Measured, Wire, Advance, OverBudget, Interleaves, Answer, Encode;
    if Answers(e.req) {
      var b := BucketOf(e.ip);
      var t := Tally(s, b, SecondOf(e));
      SameButTransmit(e, OverBudget(t, b), Interleaves(t, b, e.req), t.ilTx[b]);
    }
  }

  lemma SameButTransmit(e: Env, kod: bool, interleaved: bool, saved: Bytes)
    requires |e.req| >= 48 && |saved| == 8
    ensures var late, blocking := Encode(Answer(e, kod, interleaved, saved, true)), Encode(Answer(e, kod, interleaved, saved, false));
            && |late| == |blocking| == 48 && late[..40] == blocking[..40] && (interleaved ==> late == blocking)
  {
    hide Wire, Receive, ReadClock, Calibrated;
    AnswerSized(e, kod, interleaved, saved, true);
    AnswerSized(e, kod, interleaved, saved, false);
  }

  // ---- The initial second of a bucket ----

  /** Buckets start at second 0xFFFFFFFF, which does occur: unlocked, with a
      positive calibration below a second, exactly at wall second 0 modulo 2^32. */
  lemma InitialSecondOccurs(e: Env, b: nat)
    requires !e.locked && 0 < e.calibrationUs < 1_000_000 && b < 64
    ensures Fresh().sec[b] == 0xFFFF_FFFF
    ensures SecondOf(e) == Fresh().sec[b] <==> e.arrival.wall % 0x1_0000_0000 == 0
  {
    hide Units, FromUnits, UsToUnits;
    UnlockedReading(e, e.arrival);
    var s := Wrap32(e.arrival.wall + UNIX_EPOCH);
    FractionIsFloor(e.calibrationUs);
    FractionOfSecond(e.calibrationUs);
    PlainUnits(Stamp(s, 0));
    BorrowedSecond(s, UsToUnits(e.calibrationUs));
    SecondBefore(e.arrival.wall);
  }

  lemma FractionOfSecond(us: nat)
    requires 0 < us < 1_000_000
    ensures 0 < UsToUnits(us) < 0x1_0000_0000
  {
  }

  lemma SecondBefore(wall: nat)
    ensures Wrap32(Wrap32(Wrap32(wall + UNIX_EPOCH) - 1) - UNIX_EPOCH) == 0xFFFF_FFFF <==> wall % 0x1_0000_0000 == 0
  {
    hide Wrap32;
    var a := wall + UNIX_EPOCH;
    WrapTwice(a, 1);
    WrapTwice(a - 1, UNIX_EPOCH);
    LastSecond(wall);
  }

  lemma WrapTwice(a: int, n: int)
    ensures Wrap32(Wrap32(a) - n) == Wrap32(a - n)
  {
    AddWraps(a - n, -(a / 0x1_0000_0000));
  }

  lemma LastSecond(wall: nat)
    ensures Wrap32(wall - 1) == 0xFFFF_FFFF <==> wall % 0x1_0000_0000 == 0
  {
    AddWraps(wall - 1, -(wall / 0x1_0000_0000));
  }

  lemma BorrowedSecond(s: U32, u: nat)
    requires 0 < u < 0x1_0000_0000
    ensures FromUnits(s * 0x1_0000_0000 - u).sec == Wrap32(s - 1)
  {
    hide Units;
    var v := s * 0x1_0000_0000 - u;
    if s == 0 { QuotientUnique(v, -1, v + 0x1_0000_0000_0000_0000); } else { QuotientUnique(v, 0, v); }
  }
}
