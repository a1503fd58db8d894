// What a client finds on the wire: header, times and outcome of every request
// over whole runs, read back from the 48 bytes.
module NtpReply {
  import opened Buffers
  import opened MachineInts
  import opened NtpTimestamp
  import opened NtpServer
  import opened NtpChain

  // ---- Every completed frame is an encoded reply ----

  ghost predicate Framed(c: Completed) {
    && Answers(c.e.req) && !(c.kod && c.interleaved)
    && exists saved: Bytes :: |saved| == 8
         && c.frame == Encode(Answer(c.e, c.kod, c.interleaved, saved, c.e.staged && c.e.reaped))
  }

  lemma {:induction false} RunFramed(envs: seq<Env>)
    requires EnvsOk(envs)
    ensures forall i :: 0 <= i < |Run(envs).1| ==> Framed(Run(envs).1[i])
    decreases |envs|
  {
    hide Serve, Encode, Answer, Framed;
    if envs != [] {
      var before := envs[..|envs| - 1];
      RunFramed(before);
      RunInv(before);
      ServeFramed(Run(before).0, Run(before).1, envs[|envs| - 1]);
    }
  }

  lemma ServeFramed(s: Server, log: seq<Completed>, e: Env)
    requires Inv(s, log) && EnvOk(e)
    ensures var out := Serve(s, e).1; out.Sent? ==> Framed(Completed(e, out.frame, out.kod, out.interleaved))
  {
    hide Encode, Answer, BucketOf, Receive, Measured, Wire, Advance, Latest;
    if Answers(e.req) {
      var b := BucketOf(e.ip);
      assert BucketInv(s, log, b);
      assert Tally(s, b, SecondOf(e)).ilTx == s.ilTx;
    }
  }

  // ---- The header ----

  /** The client's version, held between 3 and 4. */
  function ClampedVersion(asked: nat): nat {
    if asked < 3 then 3 else if asked > 4 then 4 else asked
  }

  lemma HeadByte(li: nat, version: nat)
    requires li <= 3 && version <= 4
    ensures var x := li * 64 + version * 8 + 4; x < 0x100 && x / 64 == li && x / 8 % 8 == version && x % 8 == 4
  {
    var x := li * 64 + version * 8 + 4;
    assert x / 8 == li * 8 + version;
  }

  lemma FieldsOnWire(r: Reply)
    requires Sized(r)
    ensures var w := Encode(r);
            && |w| == 48 && w[..4] == r.head && w[4..8] == r.delay && w[8..12] == r.dispersion && w[12..16] == r.refid
            && w[16..24] == r.reference && w[24..32] == r.origin && w[32..40] == r.receive && w[40..48] == r.transmit
  {
  }

  /** In every run, in wire bytes: a Kiss-o'-Death has leap 3, stratum 0, refid
      RATE and no delay or dispersion; any other reply has leap 0 and stratum 1
      with refid PPS if the server was locked, else leap 3 and stratum 16; all
      have the clamped version, mode 4, and carry the inputs in their fields. */
  lemma ReplyHeader(envs: seq<Env>, i: nat)
    requires EnvsOk(envs) && i < |Run(envs).1|
    ensures LogOk(Run(envs).1)
    ensures var c := Run(envs).1[i];
            var f, e := c.frame, c.e;
            && f[0] / 64 == (if !c.kod && e.locked then 0 else 3)
            && f[1] == (if c.kod then 0 else if e.locked then 1 else 16)
            && f[0] / 8 % 8 == ClampedVersion(e.req[0] / 8 % 8) && f[0] % 8 == 4
            && f[2] == 6 && f[3] == 0xEC
            && FromBE32(f[4..8]) == (if c.kod then 0 else e.rootDelay)
            && FromBE32(f[8..12]) == (if c.kod then 0 else e.dispersion)
            && f[12..16] == (if c.kod then [0x52, 0x41, 0x54, 0x45] else if e.locked then [0x50, 0x50, 0x53, 0] else [0, 0, 0, 0])
            && (if e.locked && e.reference.Some? then
                  FromBE32(f[16..20]) == e.reference.value.sec && FromBE32(f[20..24]) == e.reference.value.frac
                else f[16..24] == [0, 0, 0, 0, 0, 0, 0, 0])
  {
    hide Run, Encode, Answer, Latest, Wire, Receive, FromBE32, BE32;
    RunInv(envs);
    RunFramed(envs);
    var c := Run(envs).1[i];
    var saved: Bytes :| |saved| == 8
      && c.frame == Encode(Answer(c.e, c.kod, c.interleaved, saved, c.e.staged && c.e.reaped));
    AnswerHeader(c.e, c.kod, c.interleaved, saved, c.e.staged && c.e.reaped);
  }

  lemma AnswerHeader(e: Env, kod: bool, interleaved: bool, saved: Bytes, late: bool)
    requires Answers(e.req) && |saved| == 8
    ensures var f := Encode(Answer(e, kod, interleaved, saved, late));
            && |f| == 48
            && f[0] / 64 == (if !kod && e.locked then 0 else 3)
            && f[1] == (if kod then 0 else if e.locked then 1 else 16)
            && f[0] / 8 % 8 == ClampedVersion(e.req[0] / 8 % 8) && f[0] % 8 == 4
            && f[2] == 6 && f[3] == 0xEC
            && FromBE32(f[4..8]) == (if kod then 0 else e.rootDelay)
            && FromBE32(f[8..12]) == (if kod then 0 else e.dispersion)
            && f[12..16] == (if kod then [0x52, 0x41, 0x54, 0x45] else if e.locked then [0x50, 0x50, 0x53, 0] else [0, 0, 0, 0])
            && (if e.locked && e.reference.Some? then
                  FromBE32(f[16..20]) == e.reference.value.sec && FromBE32(f[20..24]) == e.reference.value.frac
                else f[16..24] == [0, 0, 0, 0, 0, 0, 0, 0])
  {
    hide Encode, Receive, ReadClock, Calibrated, BE32, FromBE32, Wire;
    var r := Answer(e, kod, interleaved, saved, late);
    AnswerSized(e, kod, interleaved, saved, late);
    FieldsOnWire(r);
    var f := Encode(r);
    assert f[0] == f[..4][0] && f[1] == f[..4][1] && f[2] == f[..4][2] && f[3] == f[..4][3];
    HeadByte(0, Version(e.req));
    HeadByte(3, Version(e.req));
    BE32RoundTrip(e.rootDelay);
    BE32RoundTrip(e.dispersion);
    BE32RoundTrip(0);
    if e.locked && e.reference.Some? {
      assert f[16..20] == f[16..24][..4] && f[20..24] == f[16..24][4..];
      WireReads(e.reference.value);
    }
  }

  lemma WireReads(s: Stamp)
    ensures Wire(s)[..4] == BE32(s.sec) && Wire(s)[4..] == BE32(s.frac)
    ensures FromBE32(Wire(s)[..4]) == s.sec && FromBE32(Wire(s)[4..]) == s.frac
  {
    hide BE32, FromBE32;
    BE32RoundTrip(s.sec);
    BE32RoundTrip(s.frac);
  }

  /** Uncalibrated and unlocked, the receive field is the wall second of the
      arrival counted from 1900: 70 years with 17 leap days before 1970. */
  lemma UnlockedReceive(envs: seq<Env>, i: nat)
    requires EnvsOk(envs) && i < |Run(envs).1| && !Run(envs).1[i].e.locked && Run(envs).1[i].e.calibrationUs == 0
    ensures LogOk(Run(envs).1)
    ensures var c := Run(envs).1[i];
            && FromBE32(c.frame[32..36]) == (c.e.arrival.wall + (70 * 365 + 17) * 86400) % 0x1_0000_0000
            && FromBE32(c.frame[36..40]) == 0
  {
    hide Run, Latest, FromBE32, Measured, BasicTransmit, KissOfDeath, Wire, Arrival, Calibrated, ReadClock;
    InterleavedChain(envs, i);
    var c := Run(envs).1[i];
    UnlockedReading(c.e, c.e.arrival);
    ZeroCorrection(Arrival(c.e));
    WireReads(Receive(c.e));
    assert c.frame[32..36] == c.frame[32..40][..4] && c.frame[36..40] == c.frame[32..40][4..];
  }

  // ---- The arrival ----

  /** Timestamps at most n units of 2^-32 s apart, whichever is later. */
  predicate WithinUnits(a: Stamp, b: Stamp, n: nat) {
    Elapsed(a, b) <= n || Elapsed(b, a) <= n
  }

  /** The capture is served exactly when the server is locked, one is fresh, and
      it lies less than 2 ms (8589934 units) from the cross-check reading, across
      an era boundary as well; otherwise the clock is. */
  lemma ArrivalChosen(e: Env)
    ensures Arrival(e) ==
            if e.locked && e.capture.Some? && WithinUnits(e.capture.value, ReadClock(e, e.poll), 8589934)
            then e.capture.value else ReadClock(e, e.arrival)
  {
    hide ReadClock, Elapsed;
    if e.capture.Some? { NearInUnits(e.capture.value, ReadClock(e, e.poll)); }
  }

  lemma NearInUnits(a: Stamp, b: Stamp)
    ensures -0.002 < StampDiff(a, b) < 0.002 <==> WithinUnits(a, b, 8589934)
  {
    var seconds := Signed32(a.sec - b.sec);
    var units := seconds * 0x1_0000_0000 + a.frac - b.frac;
    SignedEra(a, b);
    assert StampDiff(a, b) * 4294967296.0 == units as real;
    assert -0.002 < StampDiff(a, b) < 0.002 <==> -8589935 < units < 8589935;
    hide StampDiff, Signed32;
    SmallElapsed(a, b, units);
  }

  /** The signed difference is the difference of the timestamps modulo the era. */
  lemma SignedEra(a: Stamp, b: Stamp)
    ensures exists k: int :: Signed32(a.sec - b.sec) * 0x1_0000_0000 + a.frac - b.frac
                             == Units(a) - Units(b) + k * 0x1_0000_0000_0000_0000
    ensures -0x8000_0000 <= Signed32(a.sec - b.sec) < 0x8000_0000
  {
    var d := a.sec - b.sec;
    var k := if d >= 0x8000_0000 then -1 else if d < -0x8000_0000 then 1 else 0;
    assert Signed32(d) == d + k * 0x1_0000_0000;
    assert Signed32(d) * 0x1_0000_0000 + a.frac - b.frac == Units(a) - Units(b) + k * 0x1_0000_0000_0000_0000;
  }

  lemma SmallElapsed(a: Stamp, b: Stamp, units: int)
    requires exists k: int :: units == Units(a) - Units(b) + k * 0x1_0000_0000_0000_0000
    requires -0x8000_0000_0000_0000 - 0x1_0000_0000 < units < 0x8000_0000_0000_0000
    ensures -8589935 < units < 8589935 <==> WithinUnits(a, b, 8589934)
  {
    hide Units;
    var k: int :| units == Units(a) - Units(b) + k * 0x1_0000_0000_0000_0000;
    EraShift(Units(a) - Units(b), k);
    EraShift(Units(b) - Units(a), -k);
    SmallInEra(units);
    SmallInEra(-units);
  }

  lemma EraShift(v: int, k: int)
    ensures (v + k * 0x1_0000_0000_0000_0000) % 0x1_0000_0000_0000_0000 == v % 0x1_0000_0000_0000_0000
  {
    EraDifference(v + k * 0x1_0000_0000_0000_0000, k * 0x1_0000_0000_0000_0000);
    MultipleOfEra(k);
    EraDifference(v + k * 0x1_0000_0000_0000_0000, 0);
  }

  lemma MultipleOfEra(k: int)
    ensures k * 0x1_0000_0000_0000_0000 % 0x1_0000_0000_0000_0000 == 0
  {
  }

  lemma SmallInEra(units: int)
    requires -0x8000_0001_0000_0000 <= units <= 0x8000_0001_0000_0000
    ensures units % 0x1_0000_0000_0000_0000 <= 8589934 <==> 0 <= units <= 8589934
  {
    if units < 0 {
      QuotientUnique(units, -1, units + 0x1_0000_0000_0000_0000);
    } else {
      QuotientUnique(units, 0, units);
    }
  }

  // ---- Outcomes ----

  lemma {:induction false} WarmIsAnswered(envs: seq<Env>)
    requires EnvsOk(envs)
    ensures Run(envs).0.warm == Run(envs).0.valid
    decreases |envs|
  {
    hide BucketOf, Receive, Measured, Wire, Answer, Encode;
    if envs != [] { WarmIsAnswered(envs[..|envs| - 1]); }
  }

  /** What becomes of a request in every run: it is ignored unless it is a whole
      client request (mode 3, or 0 of old hosts); past the 20th of its bucket or
      the 200th overall within the second it is dropped if its bucket was never
      answered before, else a Kiss-o'-Death; within the budget it is dropped if
      the peer is unreachable; and it fails if neither send completes. */
  lemma OutcomeExactly(envs: seq<Env>, e: Env)
    requires EnvsOk(envs) && EnvOk(e)
    ensures LogOk(Run(envs).1)
    ensures var out, b := Serve(Run(envs).0, e).1, BucketOf(e.ip);
            var over := 1 + Trailing(envs, b, SecondOf(e)) > 20 || 1 + TrailingAll(envs, SecondOf(e)) > 200;
            var dropped := if over then Latest(Run(envs).1, b).None? else !e.reachable;
            && (out.Ignored? <==> |e.req| < 48 || (e.req[0] % 8 != 3 && e.req[0] % 8 != 0))
            && (!out.Ignored? ==>
                  && (out.Dropped? <==> dropped)
                  && (out.Failed? <==> !dropped && !(e.staged && e.reaped) && !e.sent)
                  && (out.Sent? ==> (out.kod <==> over) && (out.stray.Some? <==> e.staged && !e.reaped)))
  {
    hide BucketOf, Receive, Answer, Encode, Wire, Measured, Run, Trailing, TrailingAll, Advance, Latest, Interleaves;
    RunInv(envs);
    CountsAreTrailing(envs, BucketOf(e.ip), SecondOf(e));
    WarmIsAnswered(envs);
    assert BucketInv(Run(envs).0, Run(envs).1, BucketOf(e.ip));
  }

  /** The bucket is the top six bits of the address times 2654435761. */
  lemma BucketIsTopBits(a: Byte, b: Byte, c: Byte, d: Byte)
    ensures BucketOf([a, b, c, d]) == (a * 0x100_0000 + b * 0x1_0000 + c * 0x100 + d) * 2654435761 / 0x400_0000 % 64
  {
    var n: nat := a * 0x100_0000 + b * 0x1_0000 + c * 0x100 + d;
    assert FromBE32([a, b, c, d]) == n;
    TopBits(n * 2654435761);
  }

  lemma TopBits(p: nat)
    ensures p % 0x1_0000_0000 / 0x400_0000 == p / 0x400_0000 % 64
  {
    var q, r := p / 0x1_0000_0000, p % 0x1_0000_0000;
    assert p == q * 64 * 0x400_0000 + r;
    assert p / 0x400_0000 == q * 64 + r / 0x400_0000;
  }
}
