// The DHCP client in time: silent leases, retry budgets, timer order, and what
// each phase puts on the wire (RFC 2131 sections 4.3.2 and 4.4.5).
module DhcpLifecycle {
  import opened Buffers
  import opened MachineInts
  import opened DhcpCodec
  import opened DhcpClient
  import opened DhcpSafety

  /** One tick and one run with no datagram queued. */
  const QUIET := Env(true, [], false, true)

  function Silent(c: Client, mac: Mac): Client {
    Run(Tick(c), QUIET, mac).0
  }

  function SilentFor(c: Client, n: nat, mac: Mac): Client {
    if n == 0 then c else Silent(SilentFor(c, n - 1, mac), mac)
  }

  // ---- A lease nobody renews ----

  function PhaseAt(t: int, c: Client): Phase {
    if t < c.t1 then Leased else if t < c.t2 then Renewing else if t < c.leaseEnd then Rebinding else Init
  }

  /** What silence does to a held lease at time t. */
  predicate OnSchedule(d: Client, c: Client, t: nat) {
    && d.ticks == t && d.t1 == c.t1 && d.t2 == c.t2 && d.leaseEnd == c.leaseEnd
    && d.phase == PhaseAt(t, c) && d.leaseIp == c.leaseIp
  }

  lemma SilentStep(d: Client, c: Client, t: nat, mac: Mac)
    requires c.t1 < c.t2 < c.leaseEnd && t < c.leaseEnd && OnSchedule(d, c, t)
    ensures OnSchedule(Silent(d, mac), c, t + 1)
  {
    hide RequestBody;
    assert Collect(EMPTY, [], d.xid, mac) == EMPTY;
  }

  /** With one run per tick and no replies, a held lease goes through LEASED,
      RENEWING, REBINDING and INIT on exactly the tick boundaries T1, T2 and
      lease end, and the address stays programmed throughout. */
  lemma {:induction false} SilentLifecycle(c: Client, n: nat, mac: Mac)
    requires c.phase == Leased && c.ticks < c.t1 < c.t2 < c.leaseEnd && c.ticks + n <= c.leaseEnd
    ensures OnSchedule(SilentFor(c, n, mac), c, c.ticks + n)
  {
    hide Silent;
    if n > 0 {
      SilentLifecycle(c, n - 1, mac);
      SilentStep(SilentFor(c, n - 1, mac), c, c.ticks + n - 1, mac);
    }
  }

  /** One tick after the lease ran out, discovery starts, from the old address. */
  lemma ExpiredLeaseRediscovers(c: Client, mac: Mac)
    requires c.phase == Leased && c.ticks < c.t1 < c.t2 < c.leaseEnd
    ensures var d := SilentFor(c, c.leaseEnd - c.ticks + 1, mac); d.phase == Selecting && d.leaseIp == c.leaseIp
  {
    hide Silent;
    SilentLifecycle(c, c.leaseEnd - c.ticks, mac);
    DiscoveryStarts(SilentFor(c, c.leaseEnd - c.ticks, mac), mac);
  }

  lemma DiscoveryStarts(d: Client, mac: Mac)
    requires d.phase == Init
    ensures Silent(d, mac).phase == Selecting && Silent(d, mac).leaseIp == d.leaseIp
  {
    hide DiscoverBody;
  }

  // ---- Retry budgets ----

  predicate Budgeted(p: Phase) {
    p == Selecting || p == Requesting || p == Rebooting
  }

  /** Retries used, and the tick of the last frame, k ticks into an unanswered phase. */
  function RetriesAt(k: nat): nat {
    if k < 1 then 0 else if k < 3 then 1 else 2
  }

  function LastSendAt(k: nat): nat {
    if k < 1 then 0 else if k < 3 then 1 else 3
  }

  predicate Waiting(d: Client, c: Client, k: nat) {
    && d.phase == c.phase && d.xid == c.xid && d.leaseIp == c.leaseIp
    && d.ticks == Wrap32(c.ticks + k) && d.sentAt == Wrap32(c.ticks + LastSendAt(k))
    && d.retries == RetriesAt(k) && |d.sent| == |c.sent| + RetriesAt(k)
  }

  lemma WrapSuccessor(x: int)
    ensures Wrap32(Wrap32(x) + 1) == Wrap32(x + 1)
  {
    var q := x / 0x1_0000_0000;
    assert x + 1 == Wrap32(x) + 1 + q * 0x1_0000_0000;
  }

  lemma WrapDistance(x: int, a: nat, b: nat)
    requires b <= a < b + 0x1_0000_0000
    ensures Wrap32(Wrap32(x + a) - Wrap32(x + b)) == a - b
  {
    WrapDifference(x + a, x + b);
  }

  lemma WaitedFor(c: Client, k: nat)
    requires k < 8
    ensures Wrap32(Wrap32(Wrap32(c.ticks + k) + 1) - Wrap32(c.ticks + LastSendAt(k))) == k + 1 - LastSendAt(k)
    ensures Wrap32(Wrap32(c.ticks + k) + 1) == Wrap32(c.ticks + k + 1)
  {
    hide Wrap32;
    WrapSuccessor(c.ticks + k);
    WrapDistance(c.ticks, k + 1, LastSendAt(k));
  }

  lemma WaitingStep(d: Client, c: Client, k: nat, mac: Mac)
    requires Budgeted(c.phase) && k < 7 && Waiting(d, c, k)
    ensures var e := Silent(d, mac);
            if k < 6 then Waiting(e, c, k + 1)
            else e.phase == Init && e.sent == d.sent && e.leaseIp == c.leaseIp && e.xid == Wrap32(c.xid + 1)
  {
    hide RequestBody, DiscoverBody, Wrap32;
    assert Collect(EMPTY, [], d.xid, mac) == EMPTY;
    WaitedFor(c, k);
  }

  /** An unanswered SELECTING, REQUESTING or REBOOTING phase sends its frames 0,
      1 and 3 ticks after entry and is back in INIT, with a new transaction id
      and the address still programmed, after exactly 1 + 2 + 4 ticks. */
  lemma {:induction false} UnansweredPhase(c: Client, k: nat, mac: Mac)
    requires Budgeted(c.phase) && c.retries == 0 && c.sentAt == c.ticks && k <= 7
    ensures var d := SilentFor(c, k, mac);
            if k < 7 then Waiting(d, c, k)
            else d.phase == Init && |d.sent| == |c.sent| + 2 && d.leaseIp == c.leaseIp && d.xid == Wrap32(c.xid + 1)
  {
    hide Silent;
    if k > 0 {
      UnansweredPhase(c, k - 1, mac);
      WaitingStep(SilentFor(c, k - 1, mac), c, k - 1, mac);
    }
  }

  /** The client after each event, with the number of frames sent since its
      phase was entered. */
  function Counted(c: Client, frames: int, ev: Event, mac: Mac): (Client, int) {
    var d := Step(c, ev, mac);
    if ev.Started? then (d, if d.phase == Rebooting then 1 else 0)
    else if d.phase == c.phase then (d, frames + |d.sent| - |c.sent|)
    else (d, |d.sent| - |c.sent|)
  }

  function CountedAll(c: Client, random: U32, events: seq<Event>, mac: Mac): (Client, int)
    decreases |events|
  {
    if events == [] then Counted(c, 0, Started(random), mac)
    else
      var (d, frames) := CountedAll(c, random, events[..|events| - 1], mac);
      Counted(d, frames, events[|events| - 1], mac)
  }

  predicate WithinBudget(c: Client, frames: int) {
    (c.phase == Init ==> c.retries == 0) && (Budgeted(c.phase) ==> frames == c.retries + 1 <= PHASE_RETRIES)
  }

  lemma BudgetStep(c: Client, frames: int, ev: Event, mac: Mac)
    requires WithinBudget(c, frames) || ev.Started?
    ensures var (d, n) := Counted(c, frames, ev, mac); WithinBudget(d, n)
  {
    hide Collect, RequestBody, DiscoverBody, DeclineBody, BoundT1, BoundT2, BoundEnd, BoundSecs, SaveLease, LoadLease;
  }

  /** In every run from init, whatever arrives and however often the client is
      run, a stay in SELECTING, REQUESTING or REBOOTING sends at most three
      frames: one more than the retries it has used. */
  lemma {:induction false} PhaseBudget(c: Client, random: U32, events: seq<Event>, mac: Mac)
    ensures var (d, frames) := CountedAll(c, random, events, mac);
            && d == After(Start(c, random, mac), events, mac)
            && (Budgeted(d.phase) ==> frames == d.retries + 1 <= 3)
    ensures WithinBudget(CountedAll(c, random, events, mac).0, CountedAll(c, random, events, mac).1)
    decreases |events|
  {
    hide Step, Start;
    if events == [] {
      BudgetStep(c, 0, Started(random), mac);
      StartIsStep(c, random, mac);
    } else {
      PhaseBudget(c, random, events[..|events| - 1], mac);
      var (d, frames) := CountedAll(c, random, events[..|events| - 1], mac);
      BudgetStep(d, frames, events[|events| - 1], mac);
    }
  }

  lemma StartIsStep(c: Client, random: U32, mac: Mac)
    ensures Step(c, Started(random), mac) == Start(c, random, mac)
  {
  }

  // ---- Timers ----

  /** The default timers of a lease are ordered exactly for leases of at least
      eight seconds, and for the one-second and the unstated lease. */
  lemma DefaultTimersOrdered(secs: U32)
    ensures DefaultT1(secs) <= DefaultT2(secs) <= secs <==> secs >= 8 || secs <= 1
  {
    var q, r := secs / 8, secs % 8;
    assert secs == 8 * q + r;
    assert secs / 2 == 4 * q + r / 2;
  }

  /** Binding with the server's timers unset and no tick overflow: T1, T2 and the
      lease end follow in order exactly when the lease meets that condition. */
  lemma BoundTimersOrdered(c: Client, r: Reply, ok: bool)
    requires r.t1 == 0 && r.t2 == 0 && BoundSecs(r) != FOREVER && c.ticks + BoundSecs(r) < 0x1_0000_0000
    ensures var d := BindLease(c, r, ok);
            && d.phase == Leased && d.leaseEnd == c.ticks + BoundSecs(r) && c.ticks <= d.t1 <= d.leaseEnd
            && (d.t1 <= d.t2 <= d.leaseEnd <==> r.lease >= 8 || r.lease <= 1)
  {
    hide BoundT1, BoundT2, BoundEnd, SaveLease;
    DefaultTimersOrdered(BoundSecs(r));
    BoundTimerValues(c.ticks, r);
  }

  lemma BoundTimerValues(now: U32, r: Reply)
    requires r.t1 == 0 && r.t2 == 0 && BoundSecs(r) != FOREVER && now + BoundSecs(r) < 0x1_0000_0000
    ensures BoundT1(now, r) == now + DefaultT1(BoundSecs(r)) <= now + BoundSecs(r)
    ensures BoundT2(now, r) == now + DefaultT2(BoundSecs(r)) <= now + BoundSecs(r)
    ensures BoundEnd(now, r) == now + BoundSecs(r)
  {
    hide BoundSecs;
    DefaultTimersInside(BoundSecs(r));
  }

  lemma DefaultTimersInside(secs: U32)
    ensures DefaultT1(secs) <= secs && DefaultT2(secs) <= secs
  {
  }

  // ---- What is sent ----

  /** A server receiving the REQUEST of this phase finds exactly the fields and
      options RFC 2131 section 4.3.2 prescribes for it: the offered address and
      server id after an OFFER, the cached address when rebooting, and only
      ciaddr when renewing (unicast, no broadcast flag) or rebinding. */
  lemma RequestOnWire(c: Client, mac: Mac)
    ensures var d := SendRequest(c, mac);
            var f := d.sent[|c.sent|];
            && d.sent == c.sent + [f] && |f.body| == MSG_SIZE
            && f.dst == (if c.phase == Renewing then c.serverId else BCAST)
            && (f.body[10] >= 0x80 <==> c.phase != Renewing)
            && f.body[12..16] == (if c.phase == Renewing || c.phase == Rebinding then c.leaseIp else ZERO4)
            && FromBE32(f.body[4..8]) == c.xid && f.body[28..34] == mac
            && Walk(f.body[240..]) == FullRequestOpts(c, mac)
  {
    hide EncodeOpts, Walk, Message, Fixed, FromBE32, FullRequestOpts;
    OptSizes(c, mac, ZERO4);
    MessageDecodes(c.xid, c.phase != Renewing,
      if c.phase == Renewing || c.phase == Rebinding then c.leaseIp else ZERO4, mac, FullRequestOpts(c, mac));
  }

  /** Which of options 50 and 54 a REQUEST carries, by phase. */
  lemma RequestedOptions(c: Client, mac: Mac)
    ensures LastValue(FullRequestOpts(c, mac), OPT_MSG_TYPE, 1) == Some([REQUEST])
    ensures LastValue(FullRequestOpts(c, mac), OPT_REQUESTED_IP, 4) ==
            if c.phase == Requesting then Some(c.offeredIp) else if c.phase == Rebooting then Some(c.leaseIp) else None
    ensures LastValue(FullRequestOpts(c, mac), OPT_SERVER_ID, 4) ==
            if c.phase == Requesting then Some(c.serverId) else None
  {
    hide LastValue, CommonOpts;
    var common, ask := CommonOpts(REQUEST, mac), RequestOpts(c);
    CommonLast(mac);
    forall code, min | (code == OPT_MSG_TYPE && min == 1) || (code == OPT_REQUESTED_IP && min == 4) || (code == OPT_SERVER_ID && min == 4)
      ensures LastValue(common + ask + [PARAM_OPT], code, min) == LastValue(common + ask, code, min)
    {
      LastStep(common + ask, PARAM_OPT, code, min);
    }
    if c.phase == Requesting {
      var a, b := Opt(OPT_REQUESTED_IP, c.offeredIp), Opt(OPT_SERVER_ID, c.serverId);
      assert common + ask == common + [a] + [b];
      LastTwo(common, a, b, OPT_MSG_TYPE, 1);
      LastTwo(common, a, b, OPT_REQUESTED_IP, 4);
      LastTwo(common, a, b, OPT_SERVER_ID, 4);
    } else if c.phase == Rebooting {
      var a := Opt(OPT_REQUESTED_IP, c.leaseIp);
      LastStep(common, a, OPT_MSG_TYPE, 1);
      LastStep(common, a, OPT_REQUESTED_IP, 4);
      LastStep(common, a, OPT_SERVER_ID, 4);
    } else {
      assert common + ask == common;
    }
  }

  lemma LastTwo(opts: seq<Opt>, a: Opt, b: Opt, code: Byte, min: nat)
    ensures LastValue(opts + [a] + [b], code, min) ==
            if b.Opt? && b.code == code && |b.value| >= min then Some(b.value)
            else if a.Opt? && a.code == code && |a.value| >= min then Some(a.value)
            else LastValue(opts, code, min)
  {
    LastStep(opts + [a], b, code, min);
    LastStep(opts, a, code, min);
  }

  lemma CommonLast(mac: Mac)
    ensures LastValue(CommonOpts(REQUEST, mac), OPT_MSG_TYPE, 1) == Some([REQUEST])
    ensures LastValue(CommonOpts(REQUEST, mac), OPT_REQUESTED_IP, 4) == None
    ensures LastValue(CommonOpts(REQUEST, mac), OPT_SERVER_ID, 4) == None
  {
    hide LastValue;
    var t, id, host := Opt(OPT_MSG_TYPE, [REQUEST]), Opt(OPT_CLIENT_ID, [1] + mac), Opt(OPT_HOSTNAME, HOSTNAME);
    assert CommonOpts(REQUEST, mac) == [t] + [id] + [host];
    assert [] + [t] == [t];
    forall code, min | (code == OPT_MSG_TYPE && min == 1) || (code == OPT_REQUESTED_IP && min == 4) || (code == OPT_SERVER_ID && min == 4)
      ensures LastValue([t] + [id] + [host], code, min) == if code == OPT_MSG_TYPE then Some([REQUEST]) else None
    {
      LastTwo([t], id, host, code, min);
      LastStep([], t, code, min);
      NoOptions(code, min);
    }
  }

  lemma NoOptions(code: Byte, min: nat)
    ensures LastValue([], code, min) == None
  {
  }

  /** A declined address is named together with the server that offered it. */
  lemma DeclineOnWire(c: Client, mac: Mac, ip: Ip)
    ensures var d := SendDecline(c, mac, ip);
            var f := d.sent[|c.sent|];
            && d.sent == c.sent + [f] && f.dst == BCAST && |f.body| == MSG_SIZE && d.sentAt == c.sentAt
            && FromBE32(f.body[4..8]) == c.xid && Walk(f.body[240..]) == DeclineOpts(c, mac, ip)
  {
    hide EncodeOpts, Walk, Message, Fixed, FromBE32, DeclineOpts;
    OptSizes(c, mac, ip);
    MessageDecodes(c.xid, true, if c.phase == Renewing || c.phase == Rebinding then c.leaseIp else ZERO4, mac, DeclineOpts(c, mac, ip));
  }
}
