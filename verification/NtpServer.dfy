// The NTP server's reply path: arrival stamping with the capture cross-check,
// per-client rate budget, the RFC 9769 interleaved chain, and the two transmit
// paths.  Replies are 48 bytes written in place into one buffer.
module NtpServer {
  import opened Buffers
  import opened MachineInts
  import opened NtpTimestamp

  const BUCKETS := 64
  const UNIX_EPOCH := 2_208_988_800
  const CLIENT_BUDGET := 20
  const WINDOW_BUDGET := 200

  // ---- Inputs ----

  /** One conversion of a time: the microseconds converted, gettimeofday's second
      then, and what reading the last pulse and the frequency returned then. */
  datatype Instant = Instant(us: nat, wall: nat, pps: Option<Pulse>, ppm: real)

  /** Everything one call of loop() reads from outside: the datagram and its
      source, the lock state, the reference timestamp, the captured arrival if
      one is fresh, the calibration, the conversions it makes, and how the
      transmit steps end.  The two t3 instants include the transmit correction;
      `reaped` is whether the send completion of a staged frame was seen. */
  datatype Env = Env(
    req: Bytes, ip: Bytes,
    locked: bool, reference: Option<Stamp>, rootDelay: U32, dispersion: U32,
    capture: Option<Stamp>, calibrationUs: int,
    poll: Instant, arrival: Instant, late: Instant, fallback: Instant, txEnd: Instant,
    reachable: bool, staged: bool, reaped: bool, sent: bool)

  predicate EnvOk(e: Env) {
    |e.ip| == 4 && -0x8000_0000 <= e.calibrationUs < 0x8000_0000
  }

  // ---- The reply as a record ----

  datatype Reply = Reply(head: Bytes, delay: Bytes, dispersion: Bytes, refid: Bytes,
                         reference: Bytes, origin: Bytes, receive: Bytes, transmit: Bytes)

  predicate Sized(r: Reply) {
    && |r.head| == |r.delay| == |r.dispersion| == |r.refid| == 4
    && |r.reference| == |r.origin| == |r.receive| == |r.transmit| == 8
  }

  /** The wire image, RFC 5905 section 7.3. */
  function Encode(r: Reply): Bytes {
    r.head + r.delay + r.dispersion + r.refid + r.reference + r.origin + r.receive + r.transmit
  }

  function Wire(s: Stamp): (b: Bytes)
    ensures |b| == 8
  {
    BE32(s.sec) + BE32(s.frac)
  }

  /** The eight bytes determine the timestamp. */
  lemma WireInjective(a: Stamp, b: Stamp)
    ensures Wire(a) == Wire(b) <==> a == b
  {
    if Wire(a) == Wire(b) {
      assert BE32(a.sec) == Wire(a)[..4] && BE32(b.sec) == Wire(b)[..4];
      assert BE32(a.frac) == Wire(a)[4..] && BE32(b.frac) == Wire(b)[4..];
      BE32RoundTrip(a.sec);
      BE32RoundTrip(b.sec);
      BE32RoundTrip(a.frac);
      BE32RoundTrip(b.frac);
    }
  }

  // ---- Clocks ----

  /** computeNtpTimestamp, with its gettimeofday fallback. */
  function ReadClock(e: Env, t: Instant): Stamp {
    if e.locked && t.pps.Some? then ComputeNtpTimestamp(t.us, t.pps.value, t.ppm)
    else Stamp(Wrap32(t.wall + UNIX_EPOCH), 0)
  }

  /** The signed difference in seconds the cross-check computes. */
  function StampDiff(a: Stamp, b: Stamp): real {
    Signed32(a.sec - b.sec) as real + (a.frac - b.frac) as real / 4294967296.0
  }

  predicate CaptureTrusted(e: Env) {
    && e.locked && e.capture.Some?
    && -0.002 < StampDiff(e.capture.value, ReadClock(e, e.poll)) < 0.002
  }

  /** t2 before calibration. */
  function Arrival(e: Env): Stamp {
    if CaptureTrusted(e) then e.capture.value else ReadClock(e, e.arrival)
  }

  function Receive(e: Env): Stamp {
    Calibrated(Arrival(e), e.calibrationUs)
  }

  /** The measured send time kept for the next interleaved reply. */
  function Measured(e: Env): Stamp {
    var m := Calibrated(ReadClock(e, e.txEnd), e.calibrationUs);
    if m == Receive(e) then m.(frac := FlipLowBit(m.frac)) else m
  }

  function FlipLowBit(n: U32): (r: U32)
    ensures r != n
  {
    if n % 2 == 0 then n + 1 else n - 1
  }

  // ---- The server as a value ----

  datatype Server = Server(
    sec: seq<U32>, count: seq<nat>, warm: seq<bool>,
    valid: seq<bool>, ilRx: seq<Bytes>, ilTx: seq<Bytes>, windowSec: U32, windowCount: nat)

  predicate Shape(s: Server) {
    |s.sec| == |s.count| == |s.warm| == |s.valid| == |s.ilRx| == |s.ilTx| == BUCKETS
  }

  function Fresh(): (s: Server)
    ensures Shape(s)
  {
    Server(seq(BUCKETS, _ => 0xFFFF_FFFF), seq(BUCKETS, _ => 0), seq(BUCKETS, _ => false),
      seq(BUCKETS, _ => false), seq(BUCKETS, _ => Zeros8()), seq(BUCKETS, _ => Zeros8()), 0, 0)
  }

  function Zeros8(): Bytes {
    [0, 0, 0, 0, 0, 0, 0, 0]
  }

  /** Knuth multiplicative hash of the source address, top six bits. */
  function BucketOf(ip: Bytes): (b: nat)
    requires |ip| == 4
    ensures b < BUCKETS
  {
    var h := FromBE32(ip) * 2654435761 % 0x1_0000_0000;
    h / 0x400_0000
  }

  function Tally(s: Server, b: nat, now: U32): Server
    requires Shape(s) && b < BUCKETS
  {
    var count := if s.sec[b] != now then 1 else s.count[b] + 1;
    var window := if s.windowSec != now then 1 else s.windowCount + 1;
    s.(sec := s.sec[b := now], count := s.count[b := count], windowSec := now, windowCount := window)
  }

  predicate OverBudget(s: Server, b: nat)
    requires Shape(s) && b < BUCKETS
  {
    s.count[b] > CLIENT_BUDGET || s.windowCount > WINDOW_BUDGET
  }

  predicate Interleaves(s: Server, b: nat, req: Bytes)
    requires Shape(s) && b < BUCKETS && |req| >= 48
  {
    s.valid[b] && req[32..40] != req[40..48] && req[24..32] == s.ilRx[b] && !OverBudget(s, b)
  }

  predicate Answers(req: Bytes) {
    |req| >= 48 && (req[0] % 8 == 3 || req[0] % 8 == 0)
  }

  function Version(req: Bytes): nat
    requires |req| >= 48
  {
    var v := req[0] / 8 % 8;
    if v < 3 then 3 else if v > 4 then 4 else v
  }

  /** LI, version and mode; stratum; poll 6; precision 2^-20. */
  function Head(li: nat, version: nat, stratum: Byte): Bytes
    requires li <= 3 && version <= 4
  {
    [li * 64 + version * 8 + 4, stratum, 6, 0xEC]
  }

  const PPS_ID: Bytes := [0x50, 0x50, 0x53, 0]
  const RATE_ID: Bytes := [0x52, 0x41, 0x54, 0x45]

  /** What goes on the wire: basic, interleaved or Kiss-o'-Death. */
  function Answer(e: Env, kod: bool, interleaved: bool, saved: Bytes, late: bool): Reply
    requires |e.req| >= 48
  {
    Reply(
      if kod then Head(3, Version(e.req), 0)
      else if e.locked then Head(0, Version(e.req), 1) else Head(3, Version(e.req), 16),
      BE32(if kod then 0 else e.rootDelay),
      BE32(if kod then 0 else e.dispersion),
      if kod then RATE_ID else if e.locked then PPS_ID else [0, 0, 0, 0],
      if e.locked && e.reference.Some? then Wire(e.reference.value) else Zeros8(),
      if interleaved then e.req[32..40] else e.req[40..48],
      Wire(Receive(e)),
      if interleaved then saved
      else if late then Wire(Calibrated(ReadClock(e, e.late), e.calibrationUs))
      else Wire(ReadClock(e, e.fallback)))
  }

  /** What left the server.  A staged frame whose completion was not seen in time
      may have left as well, before the blocking send of the same reply: `stray`. */
  datatype Outcome =
    | Ignored
    | Dropped
    | Failed(stray: Option<Bytes>)
    | Sent(frame: Bytes, kod: bool, interleaved: bool, stray: Option<Bytes>)

  /** From the mode decision on: drop, send, and advance the client's chain. */
  function Respond(t: Server, b: nat, e: Env, kod: bool, interleaved: bool): (r: (Server, Outcome))
    requires Shape(t) && b < BUCKETS && |e.req| >= 48
    ensures Shape(r.0)
  {
    if (if kod then !t.warm[b] else !e.reachable) then (t, Dropped)
    else
      var late := e.staged && e.reaped;
      var frame := Encode(Answer(e, kod, interleaved, t.ilTx[b], late));
      var stray := if e.staged && !e.reaped then Some(Encode(Answer(e, kod, interleaved, t.ilTx[b], true))) else None;
      if !late && !e.sent then (t, Failed(stray))
      else if kod then (t, Sent(frame, kod, interleaved, stray))
      else (Advance(t, b, Wire(Receive(e)), Wire(Measured(e))), Sent(frame, kod, interleaved, stray))
  }

  /** One call of loop(): the new state and what left the server. */
  function Serve(s: Server, e: Env): (r: (Server, Outcome))
    requires Shape(s) && EnvOk(e)
    ensures Shape(r.0)
  {
    if !Answers(e.req) then (s, Ignored)
    else
      var b := BucketOf(e.ip);
      var t := Tally(s, b, Wrap32(Receive(e).sec - UNIX_EPOCH));
      Respond(t, b, e, OverBudget(t, b), Interleaves(t, b, e.req))
  }

  function Advance(s: Server, b: nat, rx: Bytes, tx: Bytes): Server
    requires Shape(s) && b < BUCKETS
  {
    s.(warm := s.warm[b := true], valid := s.valid[b := true], ilRx := s.ilRx[b := rx], ilTx := s.ilTx[b := tx])
  }

  // ---- Writing the reply in place ----

  // Writing at a field's offset changes that field alone.

  lemma PatchHead(r: Reply, x: Bytes)
    requires Sized(r) && |x| == 4
    ensures |Encode(r)| == 48 && Patch(Encode(r), 0, x) == Encode(r.(head := x))
  {
    PatchMiddle([], r.head, Encode(r)[4..], x);
  }

  /** Rewriting the first two bytes: leap indicator and stratum. */
  lemma PatchLeapStratum(r: Reply, x: Bytes)
    requires Sized(r) && |x| == 2
    ensures |Encode(r)| == 48 && Patch(Encode(r), 0, x) == Encode(r.(head := x + r.head[2..]))
  {
    PatchMiddle([], r.head[..2], Encode(r)[2..], x);
  }

  lemma PatchDelay(r: Reply, x: Bytes)
    requires Sized(r) && |x| == 4
    ensures |Encode(r)| == 48 && Patch(Encode(r), 4, x) == Encode(r.(delay := x))
  {
    PatchMiddle(r.head, r.delay, Encode(r)[8..], x);
  }

  lemma PatchDispersion(r: Reply, x: Bytes)
    requires Sized(r) && |x| == 4
    ensures |Encode(r)| == 48 && Patch(Encode(r), 8, x) == Encode(r.(dispersion := x))
  {
    PatchMiddle(r.head + r.delay, r.dispersion, Encode(r)[12..], x);
  }

  lemma PatchRefid(r: Reply, x: Bytes)
    requires Sized(r) && |x| == 4
    ensures |Encode(r)| == 48 && Patch(Encode(r), 12, x) == Encode(r.(refid := x))
  {
    PatchMiddle(r.head + r.delay + r.dispersion, r.refid, Encode(r)[16..], x);
  }

  lemma PatchReference(r: Reply, x: Bytes)
    requires Sized(r) && |x| == 8
    ensures |Encode(r)| == 48 && Patch(Encode(r), 16, x) == Encode(r.(reference := x))
  {
    PatchMiddle(r.head + r.delay + r.dispersion + r.refid, r.reference, Encode(r)[24..], x);
  }

  lemma PatchOrigin(r: Reply, x: Bytes)
    requires Sized(r) && |x| == 8
    ensures |Encode(r)| == 48 && Patch(Encode(r), 24, x) == Encode(r.(origin := x))
  {
    PatchMiddle(r.head + r.delay + r.dispersion + r.refid + r.reference, r.origin, r.receive + r.transmit, x);
  }

  lemma PatchReceive(r: Reply, x: Bytes)
    requires Sized(r) && |x| == 8
    ensures |Encode(r)| == 48 && Patch(Encode(r), 32, x) == Encode(r.(receive := x))
  {
    PatchMiddle(r.head + r.delay + r.dispersion + r.refid + r.reference + r.origin, r.receive, r.transmit, x);
  }

  lemma PatchTransmit(r: Reply, x: Bytes)
    requires Sized(r) && |x| == 8
    ensures |Encode(r)| == 48 && Patch(Encode(r), 40, x) == Encode(r.(transmit := x))
  {
    PatchMiddle(r.head + r.delay + r.dispersion + r.refid + r.reference + r.origin + r.receive, r.transmit, [], x);
  }

  /** Where each field sits on the wire. */
  lemma FieldOffsets(r: Reply)
    requires Sized(r)
    ensures |Encode(r)| == 48
    ensures var w := Encode(r);
            && w[24..32] == r.origin && w[32..40] == r.receive && w[40..48] == r.transmit
  {
  }

  /** The reply's zeroed buffer. */
  function Blank(): (r: Reply)
    ensures Sized(r)
  {
    Reply([0, 0, 0, 0], [0, 0, 0, 0], [0, 0, 0, 0], [0, 0, 0, 0], Zeros8(), Zeros8(), Zeros8(), Zeros8())
  }

  lemma BlankEncoded()
    ensures Encode(Blank()) == seq(48, _ => 0)
  {
  }

  // ---- The server itself ----

  class NtpServer {
    const bucketSec: array<U32>
    const bucketCount: array<nat>
    const bucketWarm: array<bool>
    const bucketIlRx: array<Bytes>
    const bucketIlTx: array<Bytes>
    const bucketIlValid: array<bool>
    var windowSec: U32
    var windowCount: nat

    ghost predicate Valid()
      reads bucketIlTx
    {
      && bucketSec.Length == bucketCount.Length == bucketWarm.Length == bucketIlRx.Length
         == bucketIlTx.Length == bucketIlValid.Length == BUCKETS
      && bucketIlRx != bucketIlTx && bucketWarm != bucketIlValid
      && forall i :: 0 <= i < BUCKETS ==> |bucketIlTx[i]| == 8
    }

    ghost function Repr(): set<object> {
      {bucketSec, bucketCount, bucketWarm, bucketIlRx, bucketIlTx, bucketIlValid}
    }

    ghost function View(): (s: Server)
      requires Valid()
      reads this, bucketIlTx, Repr()
      ensures Shape(s)
    {
      Server(bucketSec[..], bucketCount[..], bucketWarm[..], bucketIlValid[..], bucketIlRx[..], bucketIlTx[..],
        windowSec, windowCount)
    }

    constructor ()
      ensures Valid() && View() == Fresh() && fresh(Repr())
    {
      bucketSec, windowSec, windowCount := new U32[BUCKETS](_ => 0xFFFF_FFFF), 0, 0;
      bucketCount := new nat[BUCKETS](_ => 0);
      bucketWarm := new bool[BUCKETS](_ => false);
      bucketIlRx := new Bytes[BUCKETS](_ => Zeros8());
      bucketIlTx := new Bytes[BUCKETS](_ => Zeros8());
      bucketIlValid := new bool[BUCKETS](_ => false);
      new;
      var f := Fresh();
      assert bucketSec[..] == f.sec && bucketCount[..] == f.count && bucketWarm[..] == f.warm;
      assert bucketIlRx[..] == f.ilRx && bucketIlTx[..] == f.ilTx && bucketIlValid[..] == f.valid;
    }

    /** t2: the captured arrival if it agrees with the clock, else the clock. */
    method StampArrival(e: Env) returns (t2: Stamp)
      requires EnvOk(e)
      ensures t2 == Receive(e)
    {
      hide ReadClock, Signed32, Calibrated, UsToUnits;
      var usedCapture := false;
      if e.locked && e.capture.Some? {
        t2 := e.capture.value;
        var poll := ReadClock(e, e.poll);
        var diff := Signed32(t2.sec - poll.sec) as real + (t2.frac - poll.frac) as real / 4294967296.0;
        usedCapture := -0.002 < diff < 0.002;
      }
      if !usedCapture { t2 := ReadClock(e, e.arrival); }
      t2 := SubUs(t2, e.calibrationUs);
    }

    method CountRequest(b: nat, now: U32)
      requires Valid() && b < BUCKETS
      modifies this, bucketSec, bucketCount
      ensures View() == Tally(old(View()), b, now)
    {
      if bucketSec[b] != now {
        bucketSec[b] := now;
        bucketCount[b] := 0;
      }
      bucketCount[b] := bucketCount[b] + 1;
      if now != windowSec {
        windowSec := now;
        windowCount := 0;
      }
      windowCount := windowCount + 1;
    }

    /** The fields that do not depend on the response mode; transmit stays zero. */
    method WriteBasic(rsp: array<Byte>, e: Env, t2: Stamp)
      requires rsp.Length == 48 && Answers(e.req) && EnvOk(e) && t2 == Receive(e)
      requires rsp[..] == Encode(Blank())
      modifies rsp
      ensures rsp[..] == Encode(Answer(e, false, false, [], false).(transmit := Zeros8()))
    {
      hide Encode, Patch, Receive, ReadClock, Calibrated;
      var head := if e.locked then Head(0, Version(e.req), 1) else Head(3, Version(e.req), 16);
      ghost var r := Blank();
      PatchHead(r, head);
      Store(rsp, 0, head);
      r := r.(head := head);
      PatchDelay(r, BE32(e.rootDelay));
      Store(rsp, 4, BE32(e.rootDelay));
      r := r.(delay := BE32(e.rootDelay));
      PatchDispersion(r, BE32(e.dispersion));
      Store(rsp, 8, BE32(e.dispersion));
      r := r.(dispersion := BE32(e.dispersion));
      if e.locked {
        PatchRefid(r, PPS_ID);
        Store(rsp, 12, PPS_ID);
        r := r.(refid := PPS_ID);
      }
      if e.locked && e.reference.Some? {
        var reference := Wire(e.reference.value);
        PatchReference(r, reference);
        Store(rsp, 16, reference);
        r := r.(reference := reference);
      }
      PatchOrigin(r, e.req[40..48]);
      Store(rsp, 24, e.req[40..48]);
      r := r.(origin := e.req[40..48]);
      PatchReceive(r, Wire(t2));
      Store(rsp, 32, Wire(t2));
    }

    /** The mode-dependent rewrites: interleaved origin, or the Kiss-o'-Death. */
    method WriteMode(rsp: array<Byte>, e: Env, kod: bool, interleaved: bool)
      requires rsp.Length == 48 && Answers(e.req) && !(kod && interleaved)
      requires rsp[..] == Encode(Answer(e, false, false, [], false).(transmit := Zeros8()))
      modifies rsp
      ensures rsp[..] == Encode(Answer(e, kod, interleaved, [], false).(transmit := Zeros8()))
    {
      hide Encode, Patch, Receive, ReadClock, Calibrated;
      ghost var r := Answer(e, false, false, [], false).(transmit := Zeros8());
      if interleaved {
        PatchOrigin(r, e.req[32..40]);
        Store(rsp, 24, e.req[32..40]);
      }
      if kod {
        var first := Head(3, Version(e.req), 0)[..2];
        PatchLeapStratum(r, first);
        Store(rsp, 0, first);
        r := r.(head := first + r.head[2..]);
        assert r.head == Head(3, Version(e.req), 0);
        PatchRefid(r, RATE_ID);
        Store(rsp, 12, RATE_ID);
        r := r.(refid := RATE_ID);
        PatchDelay(r, BE32(0));
        Store(rsp, 4, BE32(0));
        r := r.(delay := BE32(0));
        PatchDispersion(r, BE32(0));
        Store(rsp, 8, BE32(0));
      }
    }

    /** The two transmit paths: stage, stamp in place and fire; else the blocking
        send of the whole frame.  Returns the reply, whether it completed, and a
        fired frame whose completion was not seen. */
    method Transmit(rsp: array<Byte>, e: Env, kod: bool, interleaved: bool, saved: Bytes)
        returns (frame: Bytes, sent: bool, stray: Option<Bytes>)
      requires rsp.Length == 48 && Answers(e.req) && EnvOk(e) && |saved| == 8
      requires rsp[..] == Encode(Answer(e, kod, interleaved, [], false).(transmit := Zeros8()))
      modifies rsp
      ensures frame == Encode(Answer(e, kod, interleaved, saved, e.staged && e.reaped))
      ensures sent <==> (e.staged && e.reaped) || e.sent
      ensures stray == if e.staged && !e.reaped then Some(Encode(Answer(e, kod, interleaved, saved, true))) else None
    {
      hide Encode, Patch, Receive, ReadClock, Calibrated;
      ghost var r := Answer(e, kod, interleaved, [], false).(transmit := Zeros8());
      stray := None;
      if e.staged {
        var tail := saved;
        if !interleaved {
          var t3 := ReadClock(e, e.late);
          t3 := SubUs(t3, e.calibrationUs);
          tail := Wire(t3);
        }
        PatchTransmit(r, tail);
        frame := Patch(rsp[..], 40, tail);
        if e.reaped { return frame, true, None; }
        stray := Some(frame);
      }
      var tail := if interleaved then saved else Wire(ReadClock(e, e.fallback));
      PatchTransmit(r, tail);
      Store(rsp, 40, tail);
      return rsp[..], e.sent, stray;
    }

    method AdvanceChain(b: nat, e: Env, t2: Stamp)
      requires Valid() && b < BUCKETS && EnvOk(e) && t2 == Receive(e)
      modifies bucketIlTx, bucketIlRx, bucketIlValid, bucketWarm
      ensures Valid() && View() == Advance(old(View()), b, Wire(t2), Wire(Measured(e)))
    {
      hide ReadClock, Calibrated, Wire, Receive;
      bucketWarm[b] := true;
      var m := ReadClock(e, e.txEnd);
      m := SubUs(m, e.calibrationUs);
      if m == t2 { m := m.(frac := FlipLowBit(m.frac)); }
      bucketIlTx[b] := Wire(m);
      bucketIlRx[b] := Wire(t2);
      bucketIlValid[b] := true;
    }

    method SendReply(rsp: array<Byte>, b: nat, e: Env, t2: Stamp, kod: bool, interleaved: bool) returns (out: Outcome)
      requires Valid() && EnvOk(e) && b < BUCKETS && t2 == Receive(e)
      requires rsp.Length == 48 && Answers(e.req) && !(kod && interleaved)
      requires rsp[..] == Encode(Answer(e, false, false, [], false).(transmit := Zeros8()))
      modifies rsp, Repr()
      ensures Valid() && (View(), out) == Respond(old(View()), b, e, kod, interleaved)
      ensures windowSec == old(windowSec)
    {
      hide Encode, Answer, Wire, Advance, Measured;
      WriteMode(rsp, e, kod, interleaved);
      if kod {
        if !bucketWarm[b] { return Dropped; }
      } else {
        if !e.reachable { return Dropped; }
      }
      var frame, sent, stray := Transmit(rsp, e, kod, interleaved, bucketIlTx[b]);
      if !sent { return Failed(stray); }
      if !kod { AdvanceChain(b, e, t2); }
      return Sent(frame, kod, interleaved, stray);
    }

    method Loop(e: Env) returns (out: Outcome)
      requires Valid() && EnvOk(e)
      modifies this, Repr()
      ensures Valid() && (View(), out) == Serve(old(View()), e)
    {
      hide Encode, Receive, Tally, BucketOf, Answer, Respond;
      if |e.req| < 48 { return Ignored; }
      if e.req[0] % 8 != 3 && e.req[0] % 8 != 0 { return Ignored; }
      var rsp := new Byte[48](_ => 0);
      BlankEncoded();
      assert rsp[..] == seq(48, _ => 0);
      var t2 := StampArrival(e);
      WriteBasic(rsp, e, t2);
      var b := BucketOf(e.ip);
      CountRequest(b, Wrap32(t2.sec - UNIX_EPOCH));
      var interleaved := bucketIlValid[b] && e.req[32..40] != e.req[40..48] && e.req[24..32] == bucketIlRx[b];
      var kod := bucketCount[b] > CLIENT_BUDGET || windowCount > WINDOW_BUDGET;
      if kod { interleaved := false; }
      out := SendReply(rsp, b, e, t2, kod, interleaved);
    }
  }
}
