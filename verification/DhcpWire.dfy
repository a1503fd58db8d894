// The DHCP client between datagrams and frames: what it takes from the bytes of
// an offer or an acknowledgement, and what the bytes it sends say, with the
// codes and numbers of RFC 2131 and RFC 2132 written out.
module DhcpWire {
  import opened Buffers
  import opened MachineInts
  import opened DhcpCodec
  import opened DhcpClient
  import opened DhcpSafety
  import opened DhcpLifecycle

  // ---- Reading a datagram ----

  /** The options behind the fixed part and the cookie. */
  function OptionsOf(p: Bytes): seq<Opt>
    requires |p| >= 240
  {
    Walk(p[240..])
  }

  /** The first four bytes of the last option of this code that has four. */
  function Four(opts: seq<Opt>, code: Byte, otherwise: Ip): Ip {
    match LastValue(opts, code, 4)
    case None => otherwise
    case Some(v) => if |v| >= 4 then v[..4] else otherwise
  }

  /** The number in the last option of this code that has four bytes. */
  function Number(opts: seq<Opt>, code: Byte): U32 {
    FromBE32(Four(opts, code, [0, 0, 0, 0]))
  }

  /** A datagram from port 67 that replies (op 2) to this transaction and hardware
      address, with the magic cookie and this message type. */
  predicate Answers(d: Datagram, msgType: Byte, xid: U32, mac: Mac) {
    var p := d.bytes;
    && d.port == 67 && |p| >= 244 && p[0] == 2
    && FromBE32(p[4..8]) == xid && p[28..34] == mac && p[236..240] == [99, 130, 83, 99]
    && var t := LastValue(OptionsOf(p), 53, 1);
       t.Some? && |t.value| >= 1 && t.value[0] == msgType
  }

  lemma MatchesIsAnswers(d: Datagram, msgType: Byte, xid: U32, mac: Mac)
    requires msgType != 0
    ensures Matches(d, msgType, xid, mac) <==> Answers(d, msgType, xid, mac)
  {
    hide Walk, LastValue, FromBE32;
    if |d.bytes| >= 240 { LastValueLong(Walk(d.bytes[240..]), 53, 1); }
  }

  /** What the reply means, in its own bytes. */
  predicate Says(r: Reply, p: Bytes)
    requires |p| >= 244
  {
    var o := OptionsOf(p);
    && r.yiaddr == p[16..20]
    && r.serverId == Four(o, 54, [0, 0, 0, 0]) && (r.hasServer <==> LastValue(o, 54, 4).Some?)
    && r.mask == Four(o, 1, [0, 0, 0, 0]) && (r.hasMask <==> LastValue(o, 1, 4).Some?)
    && r.router == Four(o, 3, [0, 0, 0, 0]) && (r.hasRouter <==> LastValue(o, 3, 4).Some?)
    && r.lease == Number(o, 51) && r.t1 == Number(o, 58) && r.t2 == Number(o, 59)
  }

  lemma ParseSays(p: Bytes, xid: U32, mac: Mac)
    ensures Parse(p, xid, mac).Some? ==> |p| >= 244 && Says(Parse(p, xid, mac).value, p)
  {
    hide Walk, LastValue;
    if |p| >= 244 {
      var o := OptionsOf(p);
      SecondsAreNumber(o, 51);
      SecondsAreNumber(o, 58);
      SecondsAreNumber(o, 59);
      LastValueLong(o, 54, 4);
      LastValueLong(o, 1, 4);
      LastValueLong(o, 3, 4);
      hide FromBE32;
    }
  }

  lemma SecondsAreNumber(opts: seq<Opt>, code: Byte)
    ensures Seconds(LastValue(opts, code, 4)) == Number(opts, code)
  {
    hide LastValue;
    LastValueLong(opts, code, 4);
  }

  /** The last of the datagrams taken that answers with this type. */
  ghost predicate LastAnswer(seen: seq<Datagram>, i: nat, msgType: Byte, xid: U32, mac: Mac) {
    i < |seen| && Answers(seen[i], msgType, xid, mac) && forall j :: i < j < |seen| ==> !Answers(seen[j], msgType, xid, mac)
  }

  /** What the receive loop keeps of this type is the last answer, as its bytes say. */
  lemma KeptSays(kept: Option<Reply>, msgType: Byte, seen: seq<Datagram>, xid: U32, mac: Mac, i: nat)
    requires msgType != 0 && LastKept(kept, msgType, seen, xid, mac) && LastAnswer(seen, i, msgType, xid, mac)
    ensures kept.Some? && |seen[i].bytes| >= 244 && Says(kept.value, seen[i].bytes)
  {
    hide Answers, Parse, Says, Matches;
    forall j | 0 <= j < |seen| ensures Matches(seen[j], msgType, xid, mac) <==> Answers(seen[j], msgType, xid, mac) {
      MatchesIsAnswers(seen[j], msgType, xid, mac);
    }
    assert Matches(seen[i], msgType, xid, mac);
    var k :| 0 <= k < |seen| && Matches(seen[k], msgType, xid, mac) && Parse(seen[k].bytes, xid, mac) == kept
             && forall j :: k < j < |seen| ==> !Matches(seen[j], msgType, xid, mac);
    assert k == i;
    ParseSays(seen[i].bytes, xid, mac);
  }

  /** The datagrams of a run, up to the first empty one. */
  function TakenOf(e: Env): seq<Datagram> {
    e.queue[..Taken(e.queue)]
  }

  // ---- What a sent frame says ----

  /** The fixed part of every message: a request (op 1) from an Ethernet address
      of six bytes, zeros where nothing is stated, and the cookie. */
  predicate Preamble(m: Bytes, xid: U32, bcast: bool, ciaddr: Ip, mac: Mac) {
    && |m| == 548 && m[..4] == [1, 1, 6, 0] && FromBE32(m[4..8]) == xid && m[8..12] == [0, 0, if bcast then 128 else 0, 0]
    && m[12..16] == ciaddr && m[16..28] == Zeros(12) && m[28..34] == mac && m[34..236] == Zeros(202)
    && m[236..240] == [99, 130, 83, 99]
  }

  lemma FixedPreamble(xid: U32, bcast: bool, ciaddr: Ip, mac: Mac)
    ensures var h := Fixed(xid, bcast, ciaddr, mac);
            && h[..4] == [1, 1, 6, 0] && FromBE32(h[4..8]) == xid && h[8..12] == [0, 0, if bcast then 128 else 0, 0]
            && h[12..16] == ciaddr && h[16..28] == Zeros(12) && h[28..34] == mac && h[34..236] == Zeros(202)
            && h[236..240] == [99, 130, 83, 99]
  {
    hide BE32, FromBE32, Zeros;
    var h := Fixed(xid, bcast, ciaddr, mac);
    assert h[4..8] == BE32(xid);
    assert h[236..240] == COOKIE;
    BE32RoundTrip(xid);
  }

  lemma MessageSays(xid: U32, bcast: bool, ciaddr: Ip, mac: Mac, opts: seq<Opt>)
    requires OptsOk(opts) && 240 + |EncodeOpts(opts)| < MSG_SIZE
    ensures var m := Message(Fixed(xid, bcast, ciaddr, mac), opts);
            && Preamble(m, xid, bcast, ciaddr, mac) && OptionsOf(m) == opts
            && m[240..] == EncodeOpts(opts) + [255] + Zeros(307 - |EncodeOpts(opts)|)
  {
    hide EncodeOpts, Walk, Fixed, Zeros, Message, FromBE32;
    var h, m := Fixed(xid, bcast, ciaddr, mac), Message(Fixed(xid, bcast, ciaddr, mac), opts);
    MessageDecodes(xid, bcast, ciaddr, mac, opts);
    MessageParts(h, opts);
    FixedPreamble(xid, bcast, ciaddr, mac);
    assert m[..4] == h[..4];
    Subslice(m, 4, 8);
    Subslice(m, 8, 12);
    Subslice(m, 12, 16);
    Subslice(m, 16, 28);
    Subslice(m, 28, 34);
    Subslice(m, 34, 236);
    Subslice(m, 236, 240);
  }

  /** Options every message starts with: its type, the client id (hardware type 1
      and address) and the host name "esp32-ntp". */
  function Leading(msgType: Byte, mac: Mac): seq<Opt> {
    [Opt(53, [msgType]), Opt(61, [1] + mac), Opt(12, [0x65, 0x73, 0x70, 0x33, 0x32, 0x2D, 0x6E, 0x74, 0x70])]
  }

  /** The parameters asked for: mask, router, lease time, server id, T1 and T2. */
  const WANTED := Opt(55, [1, 3, 51, 54, 58, 59])

  function RequestSays(c: Client, mac: Mac): seq<Opt> {
    Leading(3, mac)
    + (if c.phase == Requesting then [Opt(50, c.offeredIp), Opt(54, c.serverId)]
       else if c.phase == Rebooting then [Opt(50, c.leaseIp)] else [])
    + [WANTED]
  }

  /** The frame is the DISCOVER of this client. */
  predicate IsDiscover(f: Frame, c: Client, mac: Mac) {
    f.dst == [255, 255, 255, 255] && Preamble(f.body, c.xid, true, [0, 0, 0, 0], mac)
    && OptionsOf(f.body) == Leading(1, mac) + [WANTED]
  }

  /** The frame is the REQUEST of this client in its phase, RFC 2131 section 4.3.2. */
  predicate IsRequest(f: Frame, c: Client, mac: Mac) {
    && f.dst == (if c.phase == Renewing then c.serverId else [255, 255, 255, 255])
    && Preamble(f.body, c.xid, c.phase != Renewing,
         if c.phase == Renewing || c.phase == Rebinding then c.leaseIp else [0, 0, 0, 0], mac)
    && OptionsOf(f.body) == RequestSays(c, mac)
  }

  predicate IsDecline(f: Frame, c: Client, ip: Ip, mac: Mac) {
    f.dst == [255, 255, 255, 255] && Preamble(f.body, c.xid, true, [0, 0, 0, 0], mac)
    && OptionsOf(f.body) == Leading(4, mac) + [Opt(50, ip), Opt(54, c.serverId)]
  }

  lemma DiscoverSays(c: Client, mac: Mac)
    requires c.phase == Init || c.phase == Selecting
    ensures var d := SendDiscover(c, mac);
            |d.sent| == |c.sent| + 1 && d.sent[..|c.sent|] == c.sent && IsDiscover(d.sent[|c.sent|], c, mac)
            && d == c.(sent := d.sent, sentAt := c.ticks)
  {
    hide EncodeOpts, Walk, Message, Fixed, Preamble, OptionsOf;
    OptSizes(c, mac, ZERO4);
    MessageSays(c.xid, true, ZERO4, mac, DiscoverOpts(mac));
  }

  lemma RequestFrame(c: Client, mac: Mac)
    ensures var d := SendRequest(c, mac);
            |d.sent| == |c.sent| + 1 && d.sent[..|c.sent|] == c.sent && IsRequest(d.sent[|c.sent|], c, mac)
            && d == c.(sent := d.sent, sentAt := c.ticks)
  {
    hide EncodeOpts, Walk, Message, Fixed, Preamble, OptionsOf;
    OptSizes(c, mac, ZERO4);
    MessageSays(c.xid, c.phase != Renewing,
      if c.phase == Renewing || c.phase == Rebinding then c.leaseIp else ZERO4, mac, FullRequestOpts(c, mac));
    assert FullRequestOpts(c, mac) == RequestSays(c, mac);
  }

  lemma DeclineSays(c: Client, mac: Mac, ip: Ip)
    requires c.phase == Requesting
    ensures var d := SendDecline(c, mac, ip);
            |d.sent| == |c.sent| + 1 && d.sent[..|c.sent|] == c.sent && IsDecline(d.sent[|c.sent|], c, ip, mac)
            && d == c.(sent := d.sent)
  {
    hide EncodeOpts, Walk, Message, Fixed, Preamble, OptionsOf;
    OptSizes(c, mac, ip);
    MessageSays(c.xid, true, ZERO4, mac, DeclineOpts(c, mac, ip));
    assert DeclineOpts(c, mac, ip) == Leading(4, mac) + [Opt(50, ip), Opt(54, c.serverId)];
  }

  // ---- From an offer to the request ----

  /** In SELECTING, the last OFFER among the datagrams taken is answered in the
      same run by one REQUEST that asks for the address at bytes 16 to 20 of that
      very datagram and names the server of that datagram's own option 54. */
  lemma OfferIsRequested(c: Client, e: Env, mac: Mac, i: nat)
    requires e.ready && c.phase == Selecting && LastAnswer(TakenOf(e), i, 2, c.xid, mac)
    ensures |TakenOf(e)[i].bytes| >= 244
    ensures var p, (d, status) := TakenOf(e)[i].bytes, Run(c, e, mac);
            var server := Four(OptionsOf(p), 54, [0, 0, 0, 0]);
            && status == Running && d.phase == Requesting && d.xid == c.xid && d.retries == 0
            && d.offeredIp == p[16..20] && d.serverId == server
            && |d.sent| == |c.sent| + 1 && d.sent[..|c.sent|] == c.sent
            && var f := d.sent[|c.sent|];
               && f.dst == [255, 255, 255, 255] && Preamble(f.body, c.xid, true, [0, 0, 0, 0], mac)
               && OptionsOf(f.body) == Leading(3, mac) + [Opt(50, p[16..20]), Opt(54, server), WANTED]
  {
    hide Collect, Answers, OptionsOf, Preamble, Four, RequestBody, LastAnswer, InboxExplained, LastKept;
    InboxOfRun(e, c.xid, mac);
    var inbox := Collect(EMPTY, e.queue, c.xid, mac);
    OfferKept(inbox, TakenOf(e), c.xid, mac);
    KeptSays(inbox.offer, 2, TakenOf(e), c.xid, mac, i);
    var asked := c.(offeredIp := inbox.offer.value.yiaddr, serverId := inbox.offer.value.serverId, phase := Requesting, retries := 0);
    RequestFrame(asked, mac);
    assert Leading(3, mac) + [Opt(50, asked.offeredIp), Opt(54, asked.serverId)] + [WANTED]
        == Leading(3, mac) + [Opt(50, asked.offeredIp), Opt(54, asked.serverId), WANTED];
  }

  lemma OfferKept(inbox: Inbox, seen: seq<Datagram>, xid: U32, mac: Mac)
    requires InboxExplained(inbox, seen, xid, mac)
    ensures LastKept(inbox.offer, 2, seen, xid, mac) && LastKept(inbox.ack, 5, seen, xid, mac)
    ensures inbox.nak <==> exists i :: 0 <= i < |seen| && Answers(seen[i], 6, xid, mac)
  {
    hide Answers, Matches, LastKept;
    forall j | 0 <= j < |seen| ensures Matches(seen[j], 6, xid, mac) <==> Answers(seen[j], 6, xid, mac) {
      MatchesIsAnswers(seen[j], 6, xid, mac);
    }
  }

  // ---- From an acknowledgement to the lease ----

  /** The lease time an acknowledgement states: an hour if none. */
  function LeaseSeconds(opts: seq<Opt>): U32 {
    if Number(opts, 51) != 0 then Number(opts, 51) else 3600
  }

  /** Holding the lease that these options of an acknowledgement state, bound now:
      the server's timers, or half and seven eighths of the lease; a lease of all
      ones never ends. */
  predicate HoldsLease(d: Client, c: Client, p: Bytes)
    requires |p| >= 244
  {
    var o := OptionsOf(p);
    var secs := LeaseSeconds(o);
    var t1 := if Number(o, 58) != 0 then Number(o, 58) else secs / 2;
    var t2 := if Number(o, 59) != 0 then Number(o, 59) else secs / 8 * 7;
    && d.phase == Leased && d.retries == 0 && d.leaseIp == d.chipIp == p[16..20]
    && d.mask == Four(o, 1, [255, 255, 255, 0]) && d.gw == Four(o, 3, [0, 0, 0, 0]) && d.serverId == Four(o, 54, c.serverId)
    && d.leaseSecs == secs
    && (secs == 0xFFFF_FFFF ==> d.t1 == d.t2 == d.leaseEnd == 0xFFFF_FFFF)
    && (secs != 0xFFFF_FFFF ==>
          d.t1 == (c.ticks + t1) % 0x1_0000_0000 && d.t2 == (c.ticks + t2) % 0x1_0000_0000
          && d.leaseEnd == (c.ticks + secs) % 0x1_0000_0000)
  }

  lemma BoundSays(c: Client, r: Reply, p: Bytes, flashOk: bool)
    requires |p| >= 244 && Says(r, p)
    ensures var d := BindLease(c, r, flashOk);
            HoldsLease(d, c, p) && d.xid == c.xid && d.sent == c.sent
            && (flashOk ==> d.flash == Some(Lease(d.leaseIp, d.gw, d.mask, d.serverId)))
  {
    hide OptionsOf, LastValue, FromBE32;
    LastValueLong(OptionsOf(p), 54, 4);
    LastValueLong(OptionsOf(p), 1, 4);
    LastValueLong(OptionsOf(p), 3, 4);
  }

  /** A run in an asking phase that takes an ACK, and does not find a fresh address
      in use while REQUESTING, ends holding exactly the lease of the last ACK taken,
      cached in flash if the write succeeds, and reports whether the address is
      the first, another one or the same. */
  lemma AckIsBound(c: Client, e: Env, mac: Mac, i: nat)
    requires e.ready && Asking(c.phase) && LastAnswer(TakenOf(e), i, 5, c.xid, mac)
    ensures |TakenOf(e)[i].bytes| >= 244
    ensures var p, (d, status) := TakenOf(e)[i].bytes, Run(c, e, mac);
            !(c.phase == Requesting && p[16..20] != c.leaseIp && e.inUse) ==>
              && HoldsLease(d, c, p) && d.xid == c.xid && d.sent == c.sent
              && (e.flashOk ==> d.flash == Some(Lease(d.leaseIp, d.gw, d.mask, d.serverId)))
              && status == (if c.leaseIp == [0, 0, 0, 0] then Assigned else if c.leaseIp != p[16..20] then Changed else Holding)
  {
    hide Collect, Answers, OptionsOf, HoldsLease, InboxExplained, LastKept, BindLease;
    InboxOfRun(e, c.xid, mac);
    var inbox := Collect(EMPTY, e.queue, c.xid, mac);
    OfferKept(inbox, TakenOf(e), c.xid, mac);
    KeptSays(inbox.ack, 5, TakenOf(e), c.xid, mac, i);
    BoundSays(c, inbox.ack.value, TakenOf(e)[i].bytes, e.flashOk);
  }

  /** A fresh address found in use while REQUESTING is declined by name to the
      server that offered it, and discovery restarts under a new transaction. */
  lemma UsedAddressIsDeclined(c: Client, e: Env, mac: Mac, i: nat)
    requires e.ready && c.phase == Requesting && LastAnswer(TakenOf(e), i, 5, c.xid, mac)
    requires |TakenOf(e)[i].bytes| >= 244 && TakenOf(e)[i].bytes[16..20] != c.leaseIp && e.inUse
    ensures var p, (d, status) := TakenOf(e)[i].bytes, Run(c, e, mac);
            && status == Running && d.phase == Init && d.xid == (c.xid + 1) % 0x1_0000_0000 && d.retries == 0
            && d.leaseIp == c.leaseIp && d.chipIp == c.chipIp && d.flash == c.flash
            && |d.sent| == |c.sent| + 1 && d.sent[..|c.sent|] == c.sent && IsDecline(d.sent[|c.sent|], c, p[16..20], mac)
  {
    hide Collect, Answers, OptionsOf, LastAnswer, InboxExplained, LastKept, BindLease, DeclineBody, IsDecline;
    InboxOfRun(e, c.xid, mac);
    var inbox := Collect(EMPTY, e.queue, c.xid, mac);
    OfferKept(inbox, TakenOf(e), c.xid, mac);
    KeptSays(inbox.ack, 5, TakenOf(e), c.xid, mac, i);
    DeclineSays(c, mac, inbox.ack.value.yiaddr);
  }

  // ---- Starting, resending, giving up ----

  /** Init reclaims a cached address with one REQUEST for it, or else starts from
      0.0.0.0 with nothing sent; either way with the random transaction id. */
  lemma StartReclaims(c: Client, random: U32, mac: Mac)
    ensures var d := Start(c, random, mac);
            && d.xid == random && d.retries == 0 && d.leaseIp == d.chipIp && d.flash == c.flash
            && if c.flash.Some? && c.flash.value.ip != [0, 0, 0, 0] then
                 && d.phase == Rebooting && Held(d) == c.flash.value && d.sentAt == c.ticks
                 && |d.sent| == |c.sent| + 1 && d.sent[..|c.sent|] == c.sent && IsRequest(d.sent[|c.sent|], d, mac)
               else d.phase == Init && d.leaseIp == [0, 0, 0, 0] && d.sent == c.sent
  {
    hide IsRequest, RequestBody;
    if LoadLease(c.flash).Some? {
      var asked := Reclaimed(c.(xid := random, retries := 0), LoadLease(c.flash).value);
      RequestFrame(asked, mac);
      SameRequest(asked, SendRequest(asked, mac), mac);
    }
  }

  lemma SameRequest(c: Client, d: Client, mac: Mac)
    requires d == c.(sent := d.sent, sentAt := d.sentAt)
    ensures forall f: Frame :: IsRequest(f, c, mac) <==> IsRequest(f, d, mac)
  {
    hide Preamble, OptionsOf;
  }

  /** Nothing that matters to the phase was taken. */
  predicate Unanswered(c: Client, e: Env, mac: Mac) {
    var inbox := Collect(EMPTY, e.queue, c.xid, mac);
    if c.phase == Selecting then inbox.offer.None? else inbox.ack.None? && !inbox.nak
  }

  /** An unanswered SELECTING, REQUESTING or REBOOTING phase repeats its own frame,
      DISCOVER or REQUEST, 1 s after the first, 2 s after the second, and 4 s after
      the third it gives up into INIT under a new transaction, keeping the address. */
  lemma ResendsOwnFrame(c: Client, e: Env, mac: Mac)
    requires e.ready && Budgeted(c.phase) && Unanswered(c, e, mac)
    ensures var (d, status), waited := Run(c, e, mac), (c.ticks - c.sentAt) % 0x1_0000_0000;
            var due := waited >= if c.retries == 0 then 1 else if c.retries == 1 then 2 else 4;
            && d.leaseIp == c.leaseIp && d.chipIp == c.chipIp && d.flash == c.flash
            && (!due ==> d == c)
            && (due && c.retries < 2 ==>
                  && d.phase == c.phase && d.xid == c.xid && d.retries == c.retries + 1 && d.sentAt == c.ticks
                  && |d.sent| == |c.sent| + 1 && d.sent[..|c.sent|] == c.sent
                  && if c.phase == Selecting then IsDiscover(d.sent[|c.sent|], c, mac) else IsRequest(d.sent[|c.sent|], c, mac))
            && (due && c.retries >= 2 ==>
                  d.phase == Init && d.xid == (c.xid + 1) % 0x1_0000_0000 && d.retries == 0 && d.sent == c.sent)
            && status == (if due && c.retries >= 2 && c.phase != Rebooting then Failed else Running)
  {
    hide Collect, IsDiscover, IsRequest, SendDiscover, SendRequest;
    var tried := c.(retries := c.retries + 1);
    if c.phase == Selecting {
      DiscoverSays(tried, mac);
      SameDiscover(c, tried, mac);
    } else {
      RequestFrame(tried, mac);
      SameRetry(c, tried, mac);
    }
  }

  lemma SameDiscover(c: Client, d: Client, mac: Mac)
    requires d == c.(retries := d.retries)
    ensures forall f: Frame :: IsDiscover(f, c, mac) <==> IsDiscover(f, d, mac)
  {
    hide Preamble, OptionsOf;
  }

  lemma SameRetry(c: Client, d: Client, mac: Mac)
    requires d == c.(retries := d.retries)
    ensures forall f: Frame :: IsRequest(f, c, mac) <==> IsRequest(f, d, mac)
  {
    hide Preamble, OptionsOf;
  }

  /** With the socket closed and not to be reopened, a run does nothing. */
  lemma NotReadyWaits(c: Client, e: Env, mac: Mac)
    requires !e.ready
    ensures Run(c, e, mac) == (c, Running)
  {
    hide Collect;
  }

  /** INIT sends one DISCOVER and waits for offers, whatever was queued. */
  lemma InitDiscovers(c: Client, e: Env, mac: Mac)
    requires e.ready && c.phase == Init
    ensures var (d, status) := Run(c, e, mac);
            && d == c.(phase := Selecting, sentAt := c.ticks, sent := d.sent) && status == Running
            && |d.sent| == |c.sent| + 1 && d.sent[..|c.sent|] == c.sent && IsDiscover(d.sent[|c.sent|], c, mac)
  {
    hide Collect, IsDiscover, DiscoverBody;
    DiscoverSays(c, mac);
  }

  /** A lease that reached T1 or T2 opens a new transaction and asks once: the
      server alone before T2, everyone from T2 on.  Before T1 nothing happens. */
  lemma LeaseIsExtended(c: Client, e: Env, mac: Mac)
    requires e.ready && c.phase == Leased
    ensures var (d, status) := Run(c, e, mac);
            && status == Holding && d.leaseIp == c.leaseIp && d.chipIp == c.chipIp
            && (c.ticks < c.t1 && c.ticks < c.t2 ==> d == c)
            && (c.ticks >= c.t1 || c.ticks >= c.t2 ==>
                  && d.phase == (if c.ticks >= c.t2 then Rebinding else Renewing) && d.xid == (c.xid + 1) % 0x1_0000_0000
                  && |d.sent| == |c.sent| + 1 && d.sent[..|c.sent|] == c.sent && IsRequest(d.sent[|c.sent|], d, mac))
  {
    hide Collect, IsRequest, RequestBody;
    var renewing, rebinding := c.(xid := Wrap32(c.xid + 1), phase := Renewing), c.(xid := Wrap32(c.xid + 1), phase := Rebinding);
    RequestFrame(renewing, mac);
    RequestFrame(rebinding, mac);
    SameRequest(renewing, SendRequest(renewing, mac), mac);
    SameRequest(rebinding, SendRequest(rebinding, mac), mac);
  }

  /** While extending and unanswered: discovery at the end of the lease with the
      address kept, everyone is asked from T2 on, and otherwise the REQUEST is
      repeated every 8 s, all in the same transaction. */
  lemma ExtensionRepeats(c: Client, e: Env, mac: Mac)
    requires e.ready && (c.phase == Renewing || c.phase == Rebinding) && Unanswered(c, e, mac)
    ensures var (d, status), waited := Run(c, e, mac), (c.ticks - c.sentAt) % 0x1_0000_0000;
            var over, onward := c.ticks >= c.leaseEnd, c.phase == Renewing && c.ticks >= c.t2;
            && d.leaseIp == c.leaseIp && d.chipIp == c.chipIp
            && (over ==> d == c.(phase := Init, xid := (c.xid + 1) % 0x1_0000_0000, retries := 0) && status == Running)
            && (!over ==> status == Holding && d.xid == c.xid)
            && (!over && (onward || waited >= 8) ==>
                  && d.phase == (if onward then Rebinding else c.phase) && d.sentAt == c.ticks
                  && |d.sent| == |c.sent| + 1 && d.sent[..|c.sent|] == c.sent && IsRequest(d.sent[|c.sent|], d, mac))
            && (!over && !onward && waited < 8 ==> d == c)
  {
    hide Collect, IsRequest, RequestBody;
    var rebinding := c.(phase := Rebinding);
    RequestFrame(rebinding, mac);
    RequestFrame(c, mac);
    SameRequest(rebinding, SendRequest(rebinding, mac), mac);
    SameRequest(c, SendRequest(c, mac), mac);
  }
}
