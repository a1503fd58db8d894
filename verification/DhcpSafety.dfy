// What the DHCP client guarantees over every sequence of inits, ticks and runs:
// which replies can bind an address, what is programmed and cached, when a lease
// is renewed or given up, and what each phase sends.
module DhcpSafety {
  import opened Buffers
  import opened MachineInts
  import opened DhcpCodec
  import opened DhcpClient

  datatype Event = Started(random: U32) | Ticked | Ran(env: Env)

  function Step(c: Client, ev: Event, mac: Mac): Client {
    match ev
    case Started(random) => Start(c, random, mac)
    case Ticked => Tick(c)
    case Ran(e) => Run(c, e, mac).0
  }

  function After(c: Client, events: seq<Event>, mac: Mac): Client
    decreases |events|
  {
    if events == [] then c else Step(After(c, events[..|events| - 1], mac), events[|events| - 1], mac)
  }

  // ---- Which replies count ----

  /** A datagram from the server port that parses as a reply of this type to
      transaction xid of this client. */
  predicate Matches(d: Datagram, msgType: Byte, xid: U32, mac: Mac) {
    d.port == SERVER_PORT && Parse(d.bytes, xid, mac).Some? && Parse(d.bytes, xid, mac).value.msgType == msgType
  }

  lemma ParseIsForUs(p: Bytes, xid: U32, mac: Mac)
    ensures Parse(p, xid, mac).Some? ==> ForUs(p, xid, mac) && Parse(p, xid, mac).value.yiaddr == p[16..20]
  {
    hide Walk, LastValue;
  }

  /** What is kept is the last matching datagram of this type, parsed. */
  predicate LastKept(kept: Option<Reply>, msgType: Byte, seen: seq<Datagram>, xid: U32, mac: Mac) {
    && (kept.Some? ==> exists i :: 0 <= i < |seen| && Matches(seen[i], msgType, xid, mac)
                                   && Parse(seen[i].bytes, xid, mac) == kept
                                   && forall j :: i < j < |seen| ==> !Matches(seen[j], msgType, xid, mac))
    && (kept.None? ==> forall j :: 0 <= j < |seen| ==> !Matches(seen[j], msgType, xid, mac))
  }

  /** The inbox holds the last matching offer and acknowledgement, and whether a
      refusal matched. */
  predicate InboxExplained(inbox: Inbox, seen: seq<Datagram>, xid: U32, mac: Mac) {
    && LastKept(inbox.offer, OFFER, seen, xid, mac)
    && LastKept(inbox.ack, ACK, seen, xid, mac)
    && (inbox.nak <==> exists i :: 0 <= i < |seen| && Matches(seen[i], NAK, xid, mac))
  }

  /** How many datagrams the receive loop takes before an empty one ends it. */
  function Taken(queue: seq<Datagram>): (n: nat)
    ensures n <= |queue|
    decreases |queue|
  {
    if queue == [] || queue[0].bytes == [] then 0 else 1 + Taken(queue[1..])
  }

  lemma ClassifyExplained(inbox: Inbox, seen: seq<Datagram>, d: Datagram, xid: U32, mac: Mac)
    requires InboxExplained(inbox, seen, xid, mac)
    ensures InboxExplained(Classify(inbox, d, xid, mac), seen + [d], xid, mac)
  {
    hide Parse, LastKept;
    var more, next := seen + [d], Classify(inbox, d, xid, mac);
    KeptNext(inbox.offer, OFFER, seen, d, xid, mac);
    KeptNext(inbox.ack, ACK, seen, d, xid, mac);
    assert more[|seen|] == d && forall i :: 0 <= i < |seen| ==> more[i] == seen[i];
    if inbox.nak {
      var i :| 0 <= i < |seen| && Matches(seen[i], NAK, xid, mac);
      assert Matches(more[i], NAK, xid, mac);
    }
    if Matches(d, NAK, xid, mac) {
      assert Matches(more[|seen|], NAK, xid, mac);
    }
  }

  lemma KeptNext(kept: Option<Reply>, msgType: Byte, seen: seq<Datagram>, d: Datagram, xid: U32, mac: Mac)
    requires LastKept(kept, msgType, seen, xid, mac)
    ensures LastKept(if Matches(d, msgType, xid, mac) then Parse(d.bytes, xid, mac) else kept, msgType, seen + [d], xid, mac)
  {
    hide Parse;
    var more := seen + [d];
    assert more[|seen|] == d && forall i :: 0 <= i < |seen| ==> more[i] == seen[i];
    if Matches(d, msgType, xid, mac) {
      assert Matches(more[|seen|], msgType, xid, mac);
    } else if kept.Some? {
      var i :| 0 <= i < |seen| && Matches(seen[i], msgType, xid, mac) && Parse(seen[i].bytes, xid, mac) == kept
               && forall j :: i < j < |seen| ==> !Matches(seen[j], msgType, xid, mac);
      assert Matches(more[i], msgType, xid, mac);
    }
  }

  lemma {:induction false} CollectExplained(inbox: Inbox, seen: seq<Datagram>, queue: seq<Datagram>, xid: U32, mac: Mac)
    requires InboxExplained(inbox, seen, xid, mac)
    ensures InboxExplained(Collect(inbox, queue, xid, mac), seen + queue[..Taken(queue)], xid, mac)
    decreases |queue|
  {
    hide InboxExplained, Classify;
    if queue == [] || queue[0].bytes == [] {
      assert seen + queue[..0] == seen;
    } else {
      ClassifyExplained(inbox, seen, queue[0], xid, mac);
      CollectExplained(Classify(inbox, queue[0], xid, mac), seen + [queue[0]], queue[1..], xid, mac);
      assert seen + [queue[0]] + queue[1..][..Taken(queue[1..])] == seen + queue[..Taken(queue)];
    }
  }

  lemma InboxOfRun(e: Env, xid: U32, mac: Mac)
    ensures InboxExplained(Collect(EMPTY, e.queue, xid, mac), e.queue[..Taken(e.queue)], xid, mac)
  {
    CollectExplained(EMPTY, [], e.queue, xid, mac);
    assert [] + e.queue[..Taken(e.queue)] == e.queue[..Taken(e.queue)];
  }

  // ---- Binding safety ----

  predicate Asking(p: Phase) {
    p == Requesting || p == Rebooting || p == Renewing || p == Rebinding
  }

  /** A run binds exactly when it holds a matching acknowledgement in one of the
      four asking phases, and in REQUESTING a fresh address passed the probe. */
  predicate Binds(c: Client, e: Env, mac: Mac) {
    var ack := Collect(EMPTY, e.queue, c.xid, mac).ack;
    && e.ready && Asking(c.phase) && ack.Some?
    && !(c.phase == Requesting && ack.value.yiaddr != c.leaseIp && e.inUse)
  }

  lemma RunBinds(c: Client, e: Env, mac: Mac)
    ensures var d := Run(c, e, mac).0;
            if Binds(c, e, mac) then d == BindLease(c, Collect(EMPTY, e.queue, c.xid, mac).ack.value, e.flashOk)
            else
              && (d.phase == Leased ==> c.phase == Leased)
              && ((d.leaseIp == c.leaseIp && d.chipIp == c.chipIp)
                  || (d.leaseIp == d.chipIp == ZERO4 && Collect(EMPTY, e.queue, c.xid, mac).nak && Asking(c.phase)))
  {
    hide Collect, BindLease, DiscoverBody, RequestBody, DeclineBody;
  }

  /** An address the server gave becomes the programmed one only through an
      acknowledgement from the server port that carries the current transaction
      id and this client's hardware address, in an asking phase, and in
      REQUESTING a fresh one only if the ARP probe was not answered.  The only
      other change is to 0.0.0.0, on a matching refusal. */
  lemma OnlyMatchingAckBinds(c: Client, e: Env, mac: Mac)
    requires Run(c, e, mac).0.leaseIp != c.leaseIp
    ensures var d := Run(c, e, mac).0;
            && Asking(c.phase) && d.chipIp == d.leaseIp
            && ((exists i :: 0 <= i < |e.queue| && Matches(e.queue[i], ACK, c.xid, mac)
                             && ForUs(e.queue[i].bytes, c.xid, mac) && e.queue[i].bytes[16..20] == d.leaseIp
                             && (c.phase == Requesting ==> !e.inUse))
                || (d.leaseIp == ZERO4 && exists i :: 0 <= i < |e.queue| && Matches(e.queue[i], NAK, c.xid, mac)))
  {
    hide Collect, Run, Parse, ForUs, Taken, BoundT1, BoundT2, BoundEnd, BoundSecs, SaveLease;
    RunBinds(c, e, mac);
    InboxOfRun(e, c.xid, mac);
    var inbox, seen := Collect(EMPTY, e.queue, c.xid, mac), e.queue[..Taken(e.queue)];
    if Binds(c, e, mac) {
      var i :| 0 <= i < |seen| && Matches(seen[i], ACK, c.xid, mac) && Parse(seen[i].bytes, c.xid, mac) == inbox.ack;
      assert e.queue[i] == seen[i];
      ParseIsForUs(seen[i].bytes, c.xid, mac);
    } else {
      var i :| 0 <= i < |seen| && Matches(seen[i], NAK, c.xid, mac);
      assert e.queue[i] == seen[i];
    }
  }

  /** In every reachable state the chip is programmed with the lease address. */
  lemma {:induction false} AddressProgrammed(c: Client, random: U32, events: seq<Event>, mac: Mac)
    ensures var d := After(Start(c, random, mac), events, mac); d.chipIp == d.leaseIp
    decreases |events|
  {
    hide Run, RequestBody;
    if events != [] {
      var d, ev := After(Start(c, random, mac), events[..|events| - 1], mac), events[|events| - 1];
      AddressProgrammed(c, random, events[..|events| - 1], mac);
      if ev.Ran? {
        RunBinds(d, ev.env, mac);
      }
    }
  }

  // ---- Transaction ids ----

  /** Datagrams that do not answer the current transaction change nothing. */
  lemma {:induction false} StaleCollect(inbox: Inbox, queue: seq<Datagram>, xid: U32, mac: Mac)
    requires forall i :: 0 <= i < |queue| ==> !ForUs(queue[i].bytes, xid, mac)
    ensures Collect(inbox, queue, xid, mac) == inbox
    decreases |queue|
  {
    hide Walk, LastValue, ForUs;
    if queue != [] && queue[0].bytes != [] {
      StaleCollect(inbox, queue[1..], xid, mac);
    }
  }

  lemma StaleRepliesIgnored(c: Client, e: Env, mac: Mac)
    requires forall i :: 0 <= i < |e.queue| ==> !ForUs(e.queue[i].bytes, c.xid, mac)
    ensures Run(c, e, mac) == Run(c, e.(queue := []), mac)
  {
    hide ForUs, Parse, BindLease, SendRequest, SendDiscover, SendDecline;
    StaleCollect(EMPTY, e.queue, c.xid, mac);
  }

  /** How many transactions a run of events opened after the first. */
  function Transactions(c: Client, events: seq<Event>, mac: Mac): nat
    decreases |events|
  {
    if events == [] then 0
    else
      var before := events[..|events| - 1];
      Transactions(c, before, mac) +
        (if Step(After(c, before, mac), events[|events| - 1], mac).xid != After(c, before, mac).xid then 1 else 0)
  }

  predicate NoRestart(events: seq<Event>) {
    forall i :: 0 <= i < |events| ==> !events[i].Started?
  }

  lemma XidSteps(c: Client, e: Env, mac: Mac)
    ensures var x := Run(c, e, mac).0.xid; x == c.xid || x == Wrap32(c.xid + 1)
  {
    hide Collect, DiscoverBody, RequestBody, DeclineBody, SaveLease, BoundT1, BoundT2, BoundEnd, BoundSecs;
  }

  lemma {:induction false} XidCounts(c: Client, events: seq<Event>, mac: Mac)
    requires NoRestart(events)
    ensures After(c, events, mac).xid == Wrap32(c.xid + Transactions(c, events, mac))
    decreases |events|
  {
    hide Run;
    if events != [] {
      var before := events[..|events| - 1];
      XidCounts(c, before, mac);
      if events[|events| - 1].Ran? {
        XidSteps(After(c, before, mac), events[|events| - 1].env, mac);
      }
    }
  }

  /** The datagram carries the id of transaction number k since id x. */
  predicate CarriesId(p: Bytes, x: U32, k: nat) {
    |p| >= 244 && FromBE32(p[4..8]) == Wrap32(x + k)
  }

  ghost predicate AnswersEarlier(p: Bytes, x: U32, n: nat) {
    |p| < 244 || exists k: nat | k < n && n - k < 0x1_0000_0000 :: CarriesId(p, x, k)
  }

  /** A reply to any earlier transaction since init never binds, nor has any
      other effect, for as long as the 32-bit id has not come round. */
  lemma EarlierTransactionIgnored(c: Client, events: seq<Event>, e: Env, mac: Mac)
    requires NoRestart(events)
    requires forall i :: 0 <= i < |e.queue| ==> AnswersEarlier(e.queue[i].bytes, c.xid, Transactions(c, events, mac))
    ensures var d := After(c, events, mac); Run(d, e, mac) == Run(d, e.(queue := []), mac)
  {
    hide Run, After, Transactions;
    XidCounts(c, events, mac);
    var d, n := After(c, events, mac), Transactions(c, events, mac);
    forall i | 0 <= i < |e.queue| ensures !ForUs(e.queue[i].bytes, d.xid, mac) {
      assert AnswersEarlier(e.queue[i].bytes, c.xid, n);
      if |e.queue[i].bytes| >= 244 {
        var k: nat :| k < n && n - k < 0x1_0000_0000 && CarriesId(e.queue[i].bytes, c.xid, k);
        DistinctIds(c.xid, k, n);
      }
    }
    StaleRepliesIgnored(d, e, mac);
  }

  lemma DistinctIds(x: int, k: int, n: int)
    requires 0 < n - k < 0x1_0000_0000
    ensures Wrap32(x + k) != Wrap32(x + n)
  {
    WrapDifference(x + n, x + k);
  }

  // ---- The flash cache ----

  predicate HasLease(p: Phase) {
    p == Leased || p == Renewing || p == Rebinding
  }

  function Held(c: Client): Lease {
    Lease(c.leaseIp, c.gw, c.mask, c.serverId)
  }

  /** While flash writes succeed, a client that holds a lease has exactly that
      lease cached: binding stores it, and nothing else changes either. */
  lemma {:induction false} BoundLeaseCached(c: Client, events: seq<Event>, mac: Mac)
    requires !HasLease(c.phase) && forall i :: 0 <= i < |events| ==> events[i].Ran? ==> events[i].env.flashOk
    ensures var d := After(c, events, mac); HasLease(d.phase) ==> d.flash == Some(Held(d))
    decreases |events|
  {
    hide Run;
    if events != [] {
      var d, ev := After(c, events[..|events| - 1], mac), events[|events| - 1];
      BoundLeaseCached(c, events[..|events| - 1], mac);
      match ev
      case Started(random) =>
      case Ticked =>
      case Ran(e) => RunCaches(d, e, mac);
    }
  }

  lemma RunCaches(c: Client, e: Env, mac: Mac)
    requires e.flashOk && (HasLease(c.phase) ==> c.flash == Some(Held(c)))
    ensures var d := Run(c, e, mac).0; HasLease(d.phase) ==> d.flash == Some(Held(d))
  {
    hide Collect, DiscoverBody, RequestBody, DeclineBody, BoundT1, BoundT2, BoundEnd, BoundSecs;
  }

  /** A refusal erases the cache only in REBOOTING: refused while renewing or
      requesting, the address is dropped but the cached lease survives. */
  lemma RefusalAndCache(c: Client, e: Env, mac: Mac)
    requires e.ready && e.flashOk && c.flash.Some? && Asking(c.phase)
    requires Collect(EMPTY, e.queue, c.xid, mac).nak && Collect(EMPTY, e.queue, c.xid, mac).ack.None?
    ensures var d := Run(c, e, mac).0;
            d.leaseIp == ZERO4 && d.phase == Init && (d.flash == None <==> c.phase == Rebooting)
  {
    hide Collect;
  }
}
