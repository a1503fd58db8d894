// The DHCP client: seven phases driven by one-second ticks and by one run() per
// tick, with retry budgets, lease timers, transaction ids and a lease cache in
// flash.  The client is a class over the module's static variables, proved
// against step functions on their values.
module DhcpClient {
  import opened Buffers
  import opened MachineInts
  import opened DhcpCodec

  const DISCOVER := 1
  const OFFER := 2
  const REQUEST := 3
  const DECLINE := 4
  const ACK := 5
  const NAK := 6
  const SERVER_PORT := 67
  const PHASE_TIMEOUT_S := 4
  const PHASE_RETRIES := 3
  const RENEW_RESEND_S := 8
  const FOREVER := 0xFFFF_FFFF

  datatype Phase = Init | Selecting | Requesting | Rebooting | Leased | Renewing | Rebinding

  datatype Lease = Lease(ip: Ip, gw: Ip, mask: Ip, sid: Ip)

  datatype Status = Running | Assigned | Changed | Holding | Failed

  /** A 548-byte message handed to the chip for the server port. */
  datatype Frame = Frame(dst: Ip, body: Bytes)

  datatype Datagram = Datagram(port: nat, bytes: Bytes)

  /** What one run sees: the socket is or could be opened, the queued datagrams,
      whether an ARP probe is answered, and whether flash writes succeed. */
  datatype Env = Env(ready: bool, queue: seq<Datagram>, inUse: bool, flashOk: bool)

  /** recvfrom delivers at most a buffer's worth. */
  predicate EnvOk(e: Env) {
    forall i :: 0 <= i < |e.queue| ==> |e.queue[i].bytes| <= MSG_SIZE
  }

  datatype Client = Client(
    phase: Phase, xid: U32, ticks: U32, sentAt: U32, retries: nat,
    offeredIp: Ip, serverId: Ip, leaseIp: Ip, gw: Ip, mask: Ip,
    leaseSecs: U32, t1: U32, t2: U32, leaseEnd: U32,
    chipIp: Ip, flash: Option<Lease>, sent: seq<Frame>)

  // ---- Flash cache ----

  function LoadLease(flash: Option<Lease>): Option<Lease> {
    if flash.Some? && flash.value.ip != ZERO4 then flash else None
  }

  function SaveLease(flash: Option<Lease>, l: Lease, ok: bool): Option<Lease> {
    if LoadLease(flash) == Some(l) || !ok then flash else Some(l)
  }

  // ---- Sending ----

  function HeaderFor(c: Client, mac: Mac, msgType: Byte): (h: Bytes)
    ensures |h| == 240
  {
    Fixed(c.xid, !(msgType == REQUEST && c.phase == Renewing),
      if c.phase == Renewing || c.phase == Rebinding then c.leaseIp else ZERO4, mac)
  }

  function RequestOpts(c: Client): (opts: seq<Opt>)
    ensures OptsOk(opts)
  {
    if c.phase == Requesting then [Opt(OPT_REQUESTED_IP, c.offeredIp), Opt(OPT_SERVER_ID, c.serverId)]
    else if c.phase == Rebooting then [Opt(OPT_REQUESTED_IP, c.leaseIp)]
    else []
  }

  const PARAM_OPT := Opt(OPT_PARAM_LIST, PARAMS)

  function DiscoverOpts(mac: Mac): (opts: seq<Opt>)
    ensures OptsOk(opts)
  {
    CommonOpts(DISCOVER, mac) + [PARAM_OPT]
  }

  function FullRequestOpts(c: Client, mac: Mac): (opts: seq<Opt>)
    ensures OptsOk(opts)
  {
    CommonOpts(REQUEST, mac) + RequestOpts(c) + [PARAM_OPT]
  }

  function DeclineOpts(c: Client, mac: Mac, ip: Ip): (opts: seq<Opt>)
    ensures OptsOk(opts)
  {
    CommonOpts(DECLINE, mac) + [Opt(OPT_REQUESTED_IP, ip), Opt(OPT_SERVER_ID, c.serverId)]
  }

  lemma OptSizes(c: Client, mac: Mac, ip: Ip)
    ensures |EncodeOpts(DiscoverOpts(mac))| == 31 && |EncodeOpts(DeclineOpts(c, mac, ip))| == 35
    ensures |EncodeOpts(FullRequestOpts(c, mac))| ==
            31 + (if c.phase == Requesting then 12 else if c.phase == Rebooting then 6 else 0)
  {
    hide EncodeOpts;
    var ask, server := Opt(OPT_REQUESTED_IP, ip), Opt(OPT_SERVER_ID, c.serverId);
    CommonSize(DISCOVER, mac);
    CommonSize(REQUEST, mac);
    CommonSize(DECLINE, mac);
    EncodeLast(CommonOpts(DISCOVER, mac), PARAM_OPT);
    EncodeOne(ask);
    EncodeLast([ask], server);
    assert [ask] + [server] == [ask, server];
    EncodeAppend(CommonOpts(DECLINE, mac), [ask, server]);
    RequestSize(c);
    EncodeAppend(CommonOpts(REQUEST, mac), RequestOpts(c));
    EncodeLast(CommonOpts(REQUEST, mac) + RequestOpts(c), PARAM_OPT);
  }

  lemma CommonSize(msgType: Byte, mac: Mac)
    ensures |EncodeOpts(CommonOpts(msgType, mac))| == 23
  {
    CommonEncoded([], msgType, mac);
    hide EncodeOpts;
  }

  lemma RequestSize(c: Client)
    ensures |EncodeOpts(RequestOpts(c))| == if c.phase == Requesting then 12 else if c.phase == Rebooting then 6 else 0
  {
    if c.phase == Requesting {
      EncodeOne(Opt(OPT_REQUESTED_IP, c.offeredIp));
      EncodeLast([Opt(OPT_REQUESTED_IP, c.offeredIp)], Opt(OPT_SERVER_ID, c.serverId));
      assert RequestOpts(c) == [Opt(OPT_REQUESTED_IP, c.offeredIp)] + [Opt(OPT_SERVER_ID, c.serverId)];
    } else if c.phase == Rebooting {
      EncodeOne(Opt(OPT_REQUESTED_IP, c.leaseIp));
    }
  }

  function DiscoverBody(c: Client, mac: Mac): (b: Bytes)
    ensures |b| == MSG_SIZE
  {
    OptSizes(c, mac, ZERO4);
    Message(HeaderFor(c, mac, DISCOVER), DiscoverOpts(mac))
  }

  function RequestBody(c: Client, mac: Mac): (b: Bytes)
    ensures |b| == MSG_SIZE
  {
    OptSizes(c, mac, ZERO4);
    Message(HeaderFor(c, mac, REQUEST), FullRequestOpts(c, mac))
  }

  function DeclineBody(c: Client, mac: Mac, ip: Ip): (b: Bytes)
    ensures |b| == MSG_SIZE
  {
    OptSizes(c, mac, ip);
    Message(HeaderFor(c, mac, DECLINE), DeclineOpts(c, mac, ip))
  }

  function SendDiscover(c: Client, mac: Mac): Client {
    c.(sent := c.sent + [Frame(BCAST, DiscoverBody(c, mac))], sentAt := c.ticks)
  }

  function SendRequest(c: Client, mac: Mac): Client {
    c.(sent := c.sent + [Frame(if c.phase == Renewing then c.serverId else BCAST, RequestBody(c, mac))], sentAt := c.ticks)
  }

  /** A decline does not restart the phase timer. */
  function SendDecline(c: Client, mac: Mac, ip: Ip): Client {
    c.(sent := c.sent + [Frame(BCAST, DeclineBody(c, mac, ip))])
  }

  // ---- Binding and giving up ----

  function BoundSecs(r: Reply): U32 {
    if r.lease != 0 then r.lease else 3600
  }

  function DefaultT1(secs: U32): U32 {
    secs / 2
  }

  function DefaultT2(secs: U32): U32 {
    secs / 8 * 7
  }

  /** The absolute timers of a lease bound at `now`; a lease of all ones never ends. */
  function BoundT1(now: U32, r: Reply): U32 {
    if BoundSecs(r) == FOREVER then FOREVER
    else Wrap32(now + if r.t1 != 0 then r.t1 else DefaultT1(BoundSecs(r)))
  }

  function BoundT2(now: U32, r: Reply): U32 {
    if BoundSecs(r) == FOREVER then FOREVER
    else Wrap32(now + if r.t2 != 0 then r.t2 else DefaultT2(BoundSecs(r)))
  }

  function BoundEnd(now: U32, r: Reply): U32 {
    if BoundSecs(r) == FOREVER then FOREVER else Wrap32(now + BoundSecs(r))
  }

  /** The client with the reply's address, server, mask and gateway. */
  function Adopted(c: Client, r: Reply): Client {
    c.(leaseIp := r.yiaddr, chipIp := r.yiaddr,
       serverId := if r.hasServer then r.serverId else c.serverId,
       mask := if r.hasMask then r.mask else [255, 255, 255, 0],
       gw := if r.hasRouter then r.router else ZERO4)
  }

  function Timed(c: Client, r: Reply): Client {
    c.(leaseSecs := BoundSecs(r), t1 := BoundT1(c.ticks, r), t2 := BoundT2(c.ticks, r), leaseEnd := BoundEnd(c.ticks, r))
  }

  function BindLease(c: Client, r: Reply, flashOk: bool): Client {
    var d := Timed(Adopted(c, r), r);
    d.(phase := Leased, retries := 0,
       flash := SaveLease(d.flash, Lease(d.leaseIp, d.gw, d.mask, d.serverId), flashOk))
  }

  function BindStatus(c: Client, r: Reply): Status {
    if c.leaseIp == ZERO4 then Assigned else if c.leaseIp != r.yiaddr then Changed else Holding
  }

  function RestartDiscovery(c: Client): Client {
    c.(xid := Wrap32(c.xid + 1), phase := Init, retries := 0)
  }

  function DropLease(c: Client): Client {
    c.(leaseIp := ZERO4, chipIp := ZERO4)
  }

  function PhaseTimeout(retries: nat): nat {
    if retries == 0 then 1 else if retries == 1 then 2 else PHASE_TIMEOUT_S
  }

  function Waited(c: Client): U32 {
    Wrap32(c.ticks - c.sentAt)
  }

  // ---- Receiving ----

  datatype Inbox = Inbox(offer: Option<Reply>, ack: Option<Reply>, nak: bool)

  function Classify(inbox: Inbox, d: Datagram, xid: U32, mac: Mac): Inbox {
    if d.port != SERVER_PORT then inbox
    else match Parse(d.bytes, xid, mac)
      case None => inbox
      case Some(r) =>
        if r.msgType == OFFER then inbox.(offer := Some(r))
        else if r.msgType == ACK then inbox.(ack := Some(r))
        else if r.msgType == NAK then inbox.(nak := true)
        else inbox
  }

  /** The receive loop: the last offer and acknowledgement win; an empty
      datagram ends it. */
  function Collect(inbox: Inbox, queue: seq<Datagram>, xid: U32, mac: Mac): Inbox
    decreases |queue|
  {
    if queue == [] || queue[0].bytes == [] then inbox
    else Collect(Classify(inbox, queue[0], xid, mac), queue[1..], xid, mac)
  }

  const EMPTY := Inbox(None, None, false)

  // ---- Events ----

  function Tick(c: Client): Client {
    c.(ticks := Wrap32(c.ticks + 1))
  }

  function Reclaimed(c: Client, l: Lease): Client {
    c.(phase := Rebooting, leaseIp := l.ip, gw := l.gw, mask := l.mask, serverId := l.sid, chipIp := l.ip)
  }

  /** w5500_dhcp_init: reclaim a cached lease, else start from 0.0.0.0. */
  function Start(c: Client, random: U32, mac: Mac): Client {
    match LoadLease(c.flash)
    case Some(l) =>
      SendRequest(Reclaimed(c.(xid := random, retries := 0), l), mac)
    case None => DropLease(c.(xid := random, retries := 0, phase := Init))
  }

  /** A timed-out phase: resend, or give up after the third frame. */
  function Expire(c: Client, mac: Mac): (r: (Client, bool))
  {
    if Waited(c) < PhaseTimeout(c.retries) then (c, false)
    else if c.retries + 1 >= PHASE_RETRIES then (RestartDiscovery(c), true)
    else
      var d := c.(retries := c.retries + 1);
      (if c.phase == Selecting then SendDiscover(d, mac) else SendRequest(d, mac), false)
  }

  function Refuse(c: Client): Client {
    RestartDiscovery(DropLease(c))
  }

  function RunSelecting(c: Client, inbox: Inbox, mac: Mac): (Client, Status) {
    match inbox.offer
    case Some(o) =>
      (SendRequest(c.(offeredIp := o.yiaddr, serverId := o.serverId, phase := Requesting, retries := 0), mac), Running)
    case None =>
      var (d, gaveUp) := Expire(c, mac);
      (d, if gaveUp then Failed else Running)
  }

  function RunRequesting(c: Client, inbox: Inbox, e: Env, mac: Mac): (Client, Status) {
    match inbox.ack
    case Some(a) =>
      if a.yiaddr != c.leaseIp && e.inUse then (RestartDiscovery(SendDecline(c, mac, a.yiaddr)), Running)
      else (BindLease(c, a, e.flashOk), BindStatus(c, a))
    case None =>
      if inbox.nak then (Refuse(c), Running)
      else
        var (d, gaveUp) := Expire(c, mac);
        (d, if gaveUp then Failed else Running)
  }

  function RunRebooting(c: Client, inbox: Inbox, e: Env, mac: Mac): (Client, Status) {
    match inbox.ack
    case Some(a) => (BindLease(c, a, e.flashOk), BindStatus(c, a))
    case None =>
      if inbox.nak then (Refuse(c.(flash := if e.flashOk then None else c.flash)), Running)
      else (Expire(c, mac).0, Running)
  }

  function RunLeased(c: Client, mac: Mac): (Client, Status) {
    if c.ticks >= c.t2 then (SendRequest(c.(xid := Wrap32(c.xid + 1), phase := Rebinding), mac), Holding)
    else if c.ticks >= c.t1 then (SendRequest(c.(xid := Wrap32(c.xid + 1), phase := Renewing), mac), Holding)
    else (c, Holding)
  }

  function RunExtending(c: Client, inbox: Inbox, e: Env, mac: Mac): (Client, Status) {
    match inbox.ack
    case Some(a) => (BindLease(c, a, e.flashOk), BindStatus(c, a))
    case None =>
      if inbox.nak then (Refuse(c), Running)
      else if c.ticks >= c.leaseEnd then (RestartDiscovery(c), Running)
      else if c.phase == Renewing && c.ticks >= c.t2 then (SendRequest(c.(phase := Rebinding), mac), Holding)
      else if Waited(c) >= RENEW_RESEND_S then (SendRequest(c, mac), Holding)
      else (c, Holding)
  }

  /** w5500_dhcp_run. */
  function Run(c: Client, e: Env, mac: Mac): (Client, Status) {
    if !e.ready then (c, Running)
    else
      var inbox := Collect(EMPTY, e.queue, c.xid, mac);
      match c.phase
      case Init => (SendDiscover(c, mac).(phase := Selecting), Running)
      case Selecting => RunSelecting(c, inbox, mac)
      case Requesting => RunRequesting(c, inbox, e, mac)
      case Rebooting => RunRebooting(c, inbox, e, mac)
      case Leased => RunLeased(c, mac)
      case _ => RunExtending(c, inbox, e, mac)
  }

  // ---- The client itself ----

  class DhcpClient {
    const mac: Mac
    var phase: Phase
    var xid: U32
    var ticks: U32
    var phaseSentAt: U32
    var retries: nat
    var offeredIp: Ip
    var serverId: Ip
    var leaseIp: Ip
    var gw: Ip
    var mask: Ip
    var leaseSecs: U32
    var t1: U32
    var t2: U32
    var leaseEnd: U32
    const msg: array<Byte>
    // The chip's address register, the flash blob, and the frames handed to the chip.
    var sipr: Ip
    var flash: Option<Lease>
    var sent: seq<Frame>

    ghost predicate Valid() {
      msg.Length == MSG_SIZE
    }

    ghost function View(): Client
      reads this
    {
      Client(phase, xid, ticks, phaseSentAt, retries, offeredIp, serverId, leaseIp, gw, mask,
        leaseSecs, t1, t2, leaseEnd, sipr, flash, sent)
    }

    /** The statics before the first init, with whatever flash holds. */
    constructor (mac: Mac, flash: Option<Lease>, sipr: Ip)
      ensures Valid() && this.mac == mac && fresh(msg)
      ensures View() == Client(Init, 0, 0, 0, 0, ZERO4, ZERO4, ZERO4, ZERO4, ZERO4, 0, 0, 0, 0, sipr, flash, [])
    {
      this.mac, this.flash, this.sipr := mac, flash, sipr;
      phase, xid, ticks, phaseSentAt, retries := Init, 0, 0, 0, 0;
      offeredIp, serverId, leaseIp, gw, mask := ZERO4, ZERO4, ZERO4, ZERO4, ZERO4;
      leaseSecs, t1, t2, leaseEnd := 0, 0, 0, 0;
      msg, sent := new Byte[MSG_SIZE](_ => 0), [];
    }

    method Tick1s()
      modifies this
      ensures View() == Tick(old(View()))
    {
      ticks := Wrap32(ticks + 1);
    }

    /** build_header into the message buffer. */
    method BuildMessage(msgType: Byte) returns (k: nat)
      requires Valid()
      modifies msg
      ensures k == 263 && Started(msg, k, HeaderFor(View(), mac, msgType) + EncodeOpts(CommonOpts(msgType, mac)))
    {
      var renewing := msgType == REQUEST && phase == Renewing;
      var haveIp := phase == Renewing || phase == Rebinding;
      k := BuildHeader(msg, xid, msgType, renewing, haveIp, leaseIp, mac);
    }

    /** Append one more option to a message in progress. */
    method Append(k: nat, o: Opt, ghost fixed: Bytes, ghost opts: seq<Opt>) returns (next: nat)
      requires Valid() && o.Opt? && OptOk(o) && OptsOk(opts) && k + 2 + |o.value| <= MSG_SIZE
      requires Started(msg, k, fixed + EncodeOpts(opts))
      modifies msg
      ensures next == k + 2 + |o.value| && OptsOk(opts + [o]) && Started(msg, next, fixed + EncodeOpts(opts + [o]))
    {
      EncodeLast(opts, o);
      Regroup(fixed, EncodeOpts(opts), EncodeOpt(o));
      next := PutOption(msg, k, o.code, o.value, fixed + EncodeOpts(opts));
    }

    method SendDiscoverFrame()
      requires Valid()
      modifies this, msg
      ensures View() == SendDiscover(old(View()), mac)
    {
      hide EncodeOpts, CommonOpts, Message, HeaderFor;
      OptSizes(View(), mac, ZERO4);
      ghost var fixed := HeaderFor(View(), mac, DISCOVER);
      var k := BuildMessage(DISCOVER);
      k := Append(k, PARAM_OPT, fixed, CommonOpts(DISCOVER, mac));
      Close(msg, k, fixed, DiscoverOpts(mac));
      sent := sent + [Frame(BCAST, msg[..])];
      phaseSentAt := ticks;
    }

    method SendRequestFrame()
      requires Valid()
      modifies this, msg
      ensures View() == SendRequest(old(View()), mac)
    {
      hide EncodeOpts, CommonOpts, Message, HeaderFor;
      OptSizes(View(), mac, ZERO4);
      ghost var fixed, opts := HeaderFor(View(), mac, REQUEST), CommonOpts(REQUEST, mac);
      var k := BuildMessage(REQUEST);
      if phase == Requesting {
        k := Append(k, Opt(OPT_REQUESTED_IP, offeredIp), fixed, opts);
        opts := opts + [Opt(OPT_REQUESTED_IP, offeredIp)];
        k := Append(k, Opt(OPT_SERVER_ID, serverId), fixed, opts);
        opts := opts + [Opt(OPT_SERVER_ID, serverId)];
      } else if phase == Rebooting {
        k := Append(k, Opt(OPT_REQUESTED_IP, leaseIp), fixed, opts);
        opts := opts + [Opt(OPT_REQUESTED_IP, leaseIp)];
      }
      assert opts == CommonOpts(REQUEST, mac) + RequestOpts(View());
      k := Append(k, PARAM_OPT, fixed, opts);
      Close(msg, k, fixed, FullRequestOpts(View(), mac));
      sent := sent + [Frame(if phase == Renewing then serverId else BCAST, msg[..])];
      phaseSentAt := ticks;
    }

    method SendDeclineFrame(ip: Ip)
      requires Valid()
      modifies this, msg
      ensures View() == SendDecline(old(View()), mac, ip)
    {
      hide EncodeOpts, CommonOpts, Message, HeaderFor;
      OptSizes(View(), mac, ip);
      ghost var fixed, opts := HeaderFor(View(), mac, DECLINE), CommonOpts(DECLINE, mac);
      var k := BuildMessage(DECLINE);
      k := Append(k, Opt(OPT_REQUESTED_IP, ip), fixed, opts);
      opts := opts + [Opt(OPT_REQUESTED_IP, ip)];
      k := Append(k, Opt(OPT_SERVER_ID, serverId), fixed, opts);
      assert opts + [Opt(OPT_SERVER_ID, serverId)] == DeclineOpts(View(), mac, ip);
      Close(msg, k, fixed, DeclineOpts(View(), mac, ip));
      sent := sent + [Frame(BCAST, msg[..])];
    }

    method Restart()
      modifies this
      ensures View() == RestartDiscovery(old(View()))
    {
      xid := Wrap32(xid + 1);
      phase := Init;
      retries := 0;
    }

    method Drop()
      modifies this
      ensures View() == DropLease(old(View()))
    {
      sipr := ZERO4;
      leaseIp := ZERO4;
    }

    method Bind(r: Reply, flashOk: bool) returns (status: Status)
      modifies this
      ensures View() == BindLease(old(View()), r, flashOk) && status == BindStatus(old(View()), r)
    {
      hide SaveLease, Adopted, Timed;
      var changed := leaseIp != r.yiaddr && leaseIp != ZERO4;
      var first := leaseIp == ZERO4;
      Adopt(r);
      SetTimers(r);
      phase, retries := Leased, 0;
      Save(Lease(leaseIp, gw, mask, serverId), flashOk);
      status := if changed then Changed else if first then Assigned else Holding;
    }

    /** Take the offered address and program the chip with it. */
    method Adopt(r: Reply)
      modifies this
      ensures View() == Adopted(old(View()), r)
    {
      leaseIp := r.yiaddr;
      if r.hasServer { serverId := r.serverId; }
      mask, gw := [255, 255, 255, 0], ZERO4;
      if r.hasMask { mask := r.mask; }
      if r.hasRouter { gw := r.router; }
      sipr := leaseIp;
    }

    method SetTimers(r: Reply)
      modifies this
      ensures View() == Timed(old(View()), r)
    {
      leaseSecs := if r.lease != 0 then r.lease else 3600;
      if leaseSecs == FOREVER {
        t1, t2, leaseEnd := FOREVER, FOREVER, FOREVER;
      } else {
        t1 := Wrap32(ticks + if r.t1 != 0 then r.t1 else leaseSecs / 2);
        t2 := Wrap32(ticks + if r.t2 != 0 then r.t2 else leaseSecs / 8 * 7);
        leaseEnd := Wrap32(ticks + leaseSecs);
      }
    }

    method Save(l: Lease, flashOk: bool)
      modifies this`flash
      ensures View() == old(View()).(flash := SaveLease(old(flash), l, flashOk))
    {
      if LoadLease(flash) == Some(l) { return; }
      if flashOk { flash := Some(l); }
    }

    /** w5500_dhcp_init. */
    method Begin(random: U32)
      requires Valid()
      modifies this, msg
      ensures View() == Start(old(View()), random, mac)
    {
      hide SendRequest, DropLease, Reclaimed;
      xid := random;
      retries := 0;
      var cached := LoadLease(flash);
      if cached.Some? {
        Reclaim(cached.value);
        SendRequestFrame();
      } else {
        phase := Init;
        Drop();
      }
    }

    method Reclaim(l: Lease)
      modifies this
      ensures View() == Reclaimed(old(View()), l)
    {
      leaseIp, gw, mask, serverId := l.ip, l.gw, l.mask, l.sid;
      sipr := leaseIp;
      phase := Rebooting;
    }

    /** The receive loop of run, over the message buffer. */
    method Receive(queue: seq<Datagram>) returns (inbox: Inbox)
      requires Valid() && forall i :: 0 <= i < |queue| ==> |queue[i].bytes| <= MSG_SIZE
      modifies msg
      ensures inbox == Collect(EMPTY, queue, xid, mac)
    {
      inbox := EMPTY;
      var i := 0;
      while i < |queue|
        invariant 0 <= i <= |queue|
        invariant Collect(inbox, queue[i..], xid, mac) == Collect(EMPTY, queue, xid, mac)
      {
        var d := queue[i];
        assert queue[i..][0] == d && queue[i..][1..] == queue[i + 1..];
        if |d.bytes| == 0 { break; }
        i := i + 1;
        if d.port != SERVER_PORT { continue; }
        var n := Put(msg, 0, d.bytes);
        assert msg[..n] == d.bytes;
        var r := ParseReply(msg, n, xid, mac);
        if r.None? { continue; }
        if r.value.msgType == OFFER { inbox := inbox.(offer := r); }
        else if r.value.msgType == ACK { inbox := inbox.(ack := r); }
        else if r.value.msgType == NAK { inbox := inbox.(nak := true); }
      }
    }

    method OnTimeout() returns (gaveUp: bool)
      requires Valid()
      modifies this, msg
      ensures (View(), gaveUp) == Expire(old(View()), mac)
    {
      hide SendRequest, SendDiscover;
      if Wrap32(ticks - phaseSentAt) < PhaseTimeout(retries) { return false; }
      if retries + 1 >= PHASE_RETRIES {
        Restart();
        return true;
      }
      retries := retries + 1;
      if phase == Selecting { SendDiscoverFrame(); } else { SendRequestFrame(); }
      return false;
    }

    method HandleSelecting(inbox: Inbox) returns (status: Status)
      requires Valid()
      modifies this, msg
      ensures (View(), status) == RunSelecting(old(View()), inbox, mac)
    {
      hide SendRequest, Expire;
      if inbox.offer.Some? {
        offeredIp, serverId := inbox.offer.value.yiaddr, inbox.offer.value.serverId;
        phase, retries := Requesting, 0;
        SendRequestFrame();
        return Running;
      }
      var gaveUp := OnTimeout();
      return if gaveUp then Failed else Running;
    }

    method HandleRequesting(inbox: Inbox, e: Env) returns (status: Status)
      requires Valid()
      modifies this, msg
      ensures (View(), status) == RunRequesting(old(View()), inbox, e, mac)
    {
      hide SendDecline, Expire, BindLease, BindStatus, RestartDiscovery, DropLease;
      if inbox.ack.Some? {
        var a := inbox.ack.value;
        if a.yiaddr != leaseIp && e.inUse {
          SendDeclineFrame(a.yiaddr);
          Restart();
          return Running;
        }
        status := Bind(a, e.flashOk);
        return;
      }
      if inbox.nak { Drop(); Restart(); return Running; }
      var gaveUp := OnTimeout();
      return if gaveUp then Failed else Running;
    }

    method HandleRebooting(inbox: Inbox, e: Env) returns (status: Status)
      requires Valid()
      modifies this, msg
      ensures (View(), status) == RunRebooting(old(View()), inbox, e, mac)
    {
      hide Expire, BindLease, BindStatus, RestartDiscovery, DropLease;
      if inbox.ack.Some? {
        status := Bind(inbox.ack.value, e.flashOk);
        return;
      }
      if inbox.nak {
        if e.flashOk { flash := None; }
        Drop();
        Restart();
        return Running;
      }
      var _ := OnTimeout();
      return Running;
    }

    method HandleLeased() returns (status: Status)
      requires Valid()
      modifies this, msg
      ensures (View(), status) == RunLeased(old(View()), mac)
    {
      hide SendRequest;
      if ticks >= t2 {
        xid, phase := Wrap32(xid + 1), Rebinding;
        SendRequestFrame();
      } else if ticks >= t1 {
        xid, phase := Wrap32(xid + 1), Renewing;
        SendRequestFrame();
      }
      return Holding;
    }

    method HandleExtending(inbox: Inbox, e: Env) returns (status: Status)
      requires Valid()
      modifies this, msg
      ensures (View(), status) == RunExtending(old(View()), inbox, e, mac)
    {
      hide SendRequest, BindLease, BindStatus, RestartDiscovery, DropLease;
      if inbox.ack.Some? {
        status := Bind(inbox.ack.value, e.flashOk);
        return;
      }
      if inbox.nak { Drop(); Restart(); return Running; }
      if ticks >= leaseEnd { Restart(); return Running; }
      if phase == Renewing && ticks >= t2 {
        phase := Rebinding;
        SendRequestFrame();
      } else if Wrap32(ticks - phaseSentAt) >= RENEW_RESEND_S {
        SendRequestFrame();
      }
      return Holding;
    }

    method RunOnce(e: Env) returns (status: Status)
      requires Valid() && EnvOk(e)
      modifies this, msg
      ensures (View(), status) == Run(old(View()), e, mac)
    {
      hide Collect, SendDiscover, RunSelecting, RunRequesting, RunRebooting, RunLeased, RunExtending;
      if !e.ready { return Running; }
      var inbox := Receive(e.queue);
      match phase
      case Init =>
        SendDiscoverFrame();
        phase := Selecting;
        return Running;
      case Selecting => status := HandleSelecting(inbox);
      case Requesting => status := HandleRequesting(inbox, e);
      case Rebooting => status := HandleRebooting(inbox, e);
      case Leased => status := HandleLeased();
      case _ => status := HandleExtending(inbox, e);
    }
  }
}
