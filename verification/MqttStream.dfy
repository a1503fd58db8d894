// What the broker sees: every run of the publisher, against every schedule of
// accepted, busy and failing sends and of fragmented reads.
module MqttStream {
  import opened Buffers
  import MachineInts
  import opened MqttWire
  import opened MqttPublisher

  // ---- The byte stream as packets ----

  /** The largest remaining length the format can carry. */
  const BROKER_SIZE := 0x1000_0000

  function Concat(packets: seq<Bytes>): Bytes {
    if packets == [] then [] else packets[0] + Concat(packets[1..])
  }

  /** Exactly one whole packet. */
  predicate IsFrame(x: Bytes) {
    var p := ParsePacket(x, BROKER_SIZE);
    p.Packet? && p.consumed == |x|
  }

  /** The whole packets at the front of s, in order: what a broker parses. */
  function Split(s: Bytes): seq<Bytes>
    decreases |s|
  {
    var p := ParsePacket(s, BROKER_SIZE);
    if p.Packet? && 0 < p.consumed <= |s| then [s[..p.consumed]] + Split(s[p.consumed..]) else []
  }

  /** A broker that has received any prefix of a concatenation of packets parses
      whole packets of it, in order, and all of them once everything arrived. */
  lemma {:induction false} SplitOfPrefix(packets: seq<Bytes>, s: Bytes)
    requires (forall i :: 0 <= i < |packets| ==> IsFrame(packets[i])) && s <= Concat(packets)
    ensures Split(s) <= packets
    ensures s == Concat(packets) ==> Split(s) == packets
    ensures Split(s) != packets ==> |s| < |Concat(packets[..|Split(s)| + 1])|
    decreases |packets|
  {
    hide Split, IsFrame;
    if packets == [] {
      SplitNothing();
    } else {
      var first, rest := packets[0], packets[1..];
      if |first| <= |s| {
        var tail := s[|first|..];
        assert s == first + tail && tail <= Concat(rest);
        SplitFirst(first, tail);
        SplitOfPrefix(rest, tail);
        if Split(s) != packets {
          ConcatTake(packets, |Split(tail)| + 1);
        }
      } else {
        assert s == first[..|s|];
        SplitPartial(first, |s|);
        ConcatTake(packets, 0);
      }
    }
  }

  lemma SplitNothing()
    ensures Split([]) == []
  {
  }

  lemma SplitPartial(frame: Bytes, k: nat)
    requires IsFrame(frame) && k < |frame|
    ensures Split(frame[..k]) == []
  {
    ProperPrefixIncomplete(frame, k);
  }

  lemma SplitFirst(first: Bytes, tail: Bytes)
    requires IsFrame(first)
    ensures Split(first + tail) == [first] + Split(tail)
  {
    ParsePrefix(first, tail, BROKER_SIZE);
    ConsumedFits(first, BROKER_SIZE);
    assert (first + tail)[..|first|] == first && (first + tail)[|first|..] == tail;
    FramesAreNonempty(first);
  }

  lemma FramesAreNonempty(first: Bytes)
    requires IsFrame(first)
    ensures first != []
  {
  }

  lemma ConcatTake(packets: seq<Bytes>, k: nat)
    requires k < |packets|
    ensures Concat(packets[..k + 1]) == packets[0] + Concat(packets[1..][..k])
  {
    assert packets[..k + 1][1..] == packets[1..][..k];
  }

  lemma ProperPrefixIncomplete(frame: Bytes, k: nat)
    requires IsFrame(frame) && k < |frame|
    ensures ParsePacket(frame[..k], BROKER_SIZE) == NeedMore
  {
    var s := frame[..k];
    if ParsePacket(s, BROKER_SIZE) != NeedMore {
      ParsePrefix(s, frame[k..], BROKER_SIZE);
      assert s + frame[k..] == frame;
      ConsumedFits(s, BROKER_SIZE);
    }
  }

  lemma {:induction false} ConcatAppend(packets: seq<Bytes>, last: Bytes)
    ensures Concat(packets + [last]) == Concat(packets) + last
  {
    if packets == [] {
      assert packets + [last] == [last];
    } else {
      assert (packets + [last])[1..] == packets[1..] + [last];
      ConcatAppend(packets[1..], last);
      Regroup(packets[0], Concat(packets[1..]), last);
    }
  }

  lemma FramesOf(header: MachineInts.Byte, body: Bytes)
    requires |body| < BROKER_SIZE
    ensures IsFrame([header] + VarInt(|body|) + body)
  {
    var packet := [header] + VarInt(|body|) + body;
    FrameRoundTrip(header, body, [], BROKER_SIZE);
    assert packet + [] == packet;
  }

  lemma RetainedIsFrame(topic: Bytes, payload: Bytes)
    requires |topic| < 96 && |payload| < 600
    ensures IsFrame(Retained(topic, payload))
  {
    FramesOf(PublishHeader(false, 0, true), PublishBody(0, 0, topic, payload));
  }

  lemma PingreqIsFrame()
    ensures IsFrame(PINGREQ)
  {
    FramesOf(0xC0, []);
    assert [0xC0] + VarInt(0) + [] == PINGREQ;
  }

  lemma HelloIsFrame(cfg: Config)
    requires ConfigOk(cfg)
    ensures IsFrame(Hello(cfg))
  {
    FramesOf(0x10, ConnectBody(ConnectOptions(cfg)));
  }

  // ---- The broker's reply ----

  /** The first packet of the stream whose type is not zero: the reader cannot
      tell a completed type-0 packet from an unfinished one and skips it. */
  function FirstReply(s: Bytes): Parse
    decreases |s|
  {
    var p := ParsePacket(s, RX_SIZE);
    if p.Packet? && p.header < 16 && 0 < p.consumed <= |s| then FirstReply(s[p.consumed..]) else p
  }

  /** The broker answered with a CONNACK; if it carries the two bytes the format
      asks for, its return code is zero. */
  predicate Acknowledged(stream: Bytes) {
    var p := FirstReply(stream);
    p.Packet? && p.header / 16 == 2 && (|p.body| >= 2 ==> p.body[1] == 0)
  }

  /** Bytes that arrive later do not take an acknowledgement back. */
  lemma {:induction false} ReplyStands(s: Bytes, t: Bytes)
    requires FirstReply(s).Packet?
    ensures FirstReply(s + t) == FirstReply(s)
    decreases |s|
  {
    hide ParsePacket;
    var p := ParsePacket(s, RX_SIZE);
    ParsePrefix(s, t, RX_SIZE);
    ConsumedFits(s, RX_SIZE);
    if p.Packet? && p.header < 16 && 0 < p.consumed <= |s| {
      assert (s + t)[p.consumed..] == s[p.consumed..] + t;
      ReplyStands(s[p.consumed..], t);
    }
  }

  lemma AcknowledgedStands(stream: Bytes, pos: nat, later: nat)
    requires pos <= later <= |stream| && Acknowledged(stream[..pos])
    ensures Acknowledged(stream[..later])
  {
    hide FirstReply;
    ReplyStands(stream[..pos], stream[pos..later]);
    assert stream[..pos] + stream[pos..later] == stream[..later];
  }

  /** Which CONNACK bodies are taken for success: a body too short to hold a
      return code leaves the byte that was in the buffer before. */
  lemma ConnackVerdict(body: Bytes, before: Bytes, header: MachineInts.Byte)
    requires |body| <= |before| && |before| >= 2
    ensures DeserializeConnack(Overlay(before, Done(header, body))) == Some(0) <==>
            (if |body| >= 2 then body[1] == 0 else before[1] == 0)
  {
  }

  // ---- Invariant ----

  function Unsent(p: Publisher): Bytes {
    if p.txOff < p.txLen <= |p.tx| then p.tx[p.txOff..p.txLen] else []
  }

  predicate Fits(cfg: Config) {
    |Hello(cfg)| <= TX_SIZE
  }

  predicate Shape(p: Publisher) {
    |p.tx| == TX_SIZE && |p.rx| == RX_SIZE && p.txLen <= TX_SIZE && p.pos <= |p.stream| && WellFormed(p.decoder)
  }

  /** Bytes accepted so far, then the unsent rest of the staged packet, are the
      packets staged on this connection. */
  predicate Sound(p: Publisher) {
    && (p.isOpen ==> p.accepted + Unsent(p) == Concat(p.packets))
    && (!p.isOpen ==> !Pending(p) && p.accepted <= Concat(p.packets))
  }

  predicate Frames(packets: seq<Bytes>) {
    forall i :: 0 <= i < |packets| ==> IsFrame(packets[i]) && |packets[i]| <= TX_SIZE
  }

  /** CONNECT first if it fits, and more only after a reply among the bytes read. */
  predicate Polite(p: Publisher, cfg: Config)
    requires p.pos <= |p.stream|
  {
    && (p.packets != [] && Fits(cfg) ==> p.packets[0] == Hello(cfg))
    && (|p.packets| > (if Fits(cfg) then 1 else 0) ==> p.acked)
    && (p.acked ==> Acknowledged(p.stream[..p.pos]))
  }

  predicate Core(p: Publisher, cfg: Config) {
    Shape(p) && Sound(p) && Frames(p.packets) && Polite(p, cfg)
  }

  /** The reader is inside the packet that starts at `start`, behind type-0 packets only. */
  predicate ReadingFrom(p: Publisher, start: nat) {
    && start <= p.pos <= |p.stream|
    && (forall end :: start <= end <= |p.stream| ==> FirstReply(p.stream[..end]) == FirstReply(p.stream[start..end]))
    && p.decoder == FeedAll(Header, p.stream[start..p.pos], RX_SIZE)
  }

  predicate HelloStaged(p: Publisher, cfg: Config) {
    !p.acked && p.packets == if Fits(cfg) then [Hello(cfg)] else []
  }

  ghost predicate PhaseInv(p: Publisher, cfg: Config) {
    match p.phase
    case Disconnected => !p.isOpen && p.decoder == Header
    case TcpConnecting =>
      p.isOpen && p.packets == [] && p.accepted == [] && !p.acked && !Pending(p) && p.pos == 0 && p.decoder == Header
    case SendingConnect => p.isOpen ==> p.pos == 0 && HelloStaged(p, cfg)
    case AwaitingConnack => p.isOpen ==> !Pending(p) && HelloStaged(p, cfg) && exists start :: ReadingFrom(p, start)
    case _ => p.isOpen && p.acked && (Fits(cfg) ==> p.packets != [])
  }

  ghost predicate Inv(p: Publisher, cfg: Config) {
    Core(p, cfg) && PhaseInv(p, cfg)
  }

  lemma StartInv(clock: int, rx: Bytes, cfg: Config)
    requires |rx| == RX_SIZE
    ensures Inv(Start(clock, rx), cfg)
  {
  }

  // ---- What the pieces keep ----

  lemma PumpKeeps(p: Publisher, e: Env, cfg: Config)
    requires Core(p, cfg)
    ensures var q := Pump(p, e).0;
            Core(q, cfg) && (q.isOpen ==> p.isOpen && (Pump(p, e).1 <==> !Pending(q)))
            && (q == Reset(p, e.clock) || q == p.(txOff := q.txOff, accepted := q.accepted))
  {
    hide Concat, Frames, IsFrame, Fits, Hello, Acknowledged;
    var q := Pump(p, e).0;
    ResetKeeps(p, e.clock, cfg);
    if Pending(p) && p.isOpen && e.send >= 0 {
      SendKeepsSum(p, q.txOff);
    }
  }

  lemma SendKeepsSum(p: Publisher, off: nat)
    requires Shape(p) && p.txOff <= off <= p.txLen && p.txOff < p.txLen
    ensures p.accepted + p.tx[p.txOff..off] + Unsent(p.(txOff := off)) == p.accepted + Unsent(p)
  {
    assert p.tx[p.txOff..p.txLen] == p.tx[p.txOff..off] + p.tx[off..p.txLen];
    Regroup(p.accepted, p.tx[p.txOff..off], p.tx[off..p.txLen]);
  }

  lemma ResetKeeps(p: Publisher, clock: int, cfg: Config)
    requires Core(p, cfg)
    ensures Inv(Reset(p, clock), cfg)
  {
    hide Concat, Frames, IsFrame, Polite;
    if p.isOpen {
      assert p.accepted <= p.accepted + Unsent(p);
    }
    assert Polite(Reset(p, clock), cfg) by { PoliteSame(p, Reset(p, clock), cfg); }
  }

  lemma PoliteSame(p: Publisher, q: Publisher, cfg: Config)
    requires p.pos <= |p.stream| && Polite(p, cfg)
    requires q.packets == p.packets && q.acked == p.acked && q.stream == p.stream && q.pos == p.pos
    ensures Polite(q, cfg)
  {
    hide Acknowledged, Fits;
  }

  lemma StageKeeps(p: Publisher, packet: Bytes, cfg: Config)
    requires Core(p, cfg) && p.isOpen && !Pending(p) && IsFrame(packet)
    requires p.acked && (Fits(cfg) ==> p.packets != [])
    ensures Core(Stage(p, packet), cfg)
  {
    var q := Stage(p, packet);
    hide Concat, IsFrame, Acknowledged, Fits;
    assert p.accepted + [] == p.accepted;
    if |packet| <= TX_SIZE {
      ConcatAppend(p.packets, packet);
      assert Unsent(q) == packet;
    }
  }

  lemma StageAndPumpKeeps(p: Publisher, packet: Bytes, e: Env, cfg: Config)
    requires Core(p, cfg) && p.isOpen && !Pending(p) && IsFrame(packet)
    requires p.acked && (Fits(cfg) ==> p.packets != [])
    ensures var q := StageAndPump(p, packet, e);
            Core(q, cfg) && (q.isOpen ==> q.phase == p.phase && q.acked && (Fits(cfg) ==> q.packets != []))
            && (!q.isOpen ==> q.phase == Disconnected && q.decoder == Header)
  {
    StageKeeps(p, packet, cfg);
    hide Core, IsFrame, Fits;
    if |packet| <= |p.tx| {
      PumpKeeps(Stage(p, packet), e, cfg);
    }
  }

  lemma ReadKeeps(p: Publisher, cfg: Config)
    requires Core(p, cfg)
    ensures var q := AfterRead(p);
            Core(q, cfg) && (Reads(p).rc != 0 ==> q.decoder == Header)
  {
    hide ReadCall, FeedAll, Concat, Frames, Polite, Fits, Overlay;
    var q := AfterRead(p);
    var schedule := if p.isOpen then p.schedule else [-1];
    ReadCallFeeds(p.decoder, p.stream, p.pos, schedule, RX_SIZE);
    ReadCallReturns(p.decoder, p.stream, p.pos, schedule, RX_SIZE);
    OverlayLength(p.rx, Reads(p).stop);
    PoliteReads(p, q, cfg);
    assert Unsent(q) == Unsent(p);
  }

  lemma PoliteReads(p: Publisher, q: Publisher, cfg: Config)
    requires p.pos <= q.pos <= |p.stream| && Polite(p, cfg)
    requires q.packets == p.packets && q.acked == p.acked && q.stream == p.stream
    ensures Polite(q, cfg)
  {
    hide Acknowledged, Fits;
    if p.acked { AcknowledgedStands(p.stream, p.pos, q.pos); }
  }

  lemma OverlayLength(before: Bytes, d: Decoder)
    ensures |Overlay(before, d)| == |before|
  {
  }

  lemma ClosedReadFails(p: Publisher)
    requires p.pos <= |p.stream| && !p.isOpen
    ensures Reads(p).rc == -1
  {
  }

  /** While the reply is awaited the reader stays inside the first packet that
      is not of type zero, and when it reports that packet, it is that packet. */
  lemma AwaitRead(p: Publisher, start: nat, cfg: Config)
    requires Core(p, cfg) && p.isOpen && ReadingFrom(p, start)
    ensures Reads(p).rc == 0 ==> exists from :: ReadingFrom(AfterRead(p), from)
    ensures Reads(p).rc == CONNACK && DeserializeConnack(AfterRead(p).rx) == Some(0) ==>
              var q := AfterRead(p); q.pos <= |p.stream| && Acknowledged(p.stream[..q.pos])
  {
    var c, q := Reads(p), AfterRead(p);
    ReadCallFeeds(p.decoder, p.stream, p.pos, p.schedule, RX_SIZE);
    ReadCallReturns(p.decoder, p.stream, p.pos, p.schedule, RX_SIZE);
    FeedSlices(Header, p.stream, start, p.pos, c.pos, RX_SIZE);
    hide ReadCall, FeedAll, ParsePacket, Core, FirstReply, Overlay, Overwrite;
    if c.stop.Done? {
      WholePacket(p.stream, start, c.pos, c.stop);
      if c.rc == 0 {
        SkippedType0(p.stream, start, c.pos);
        FeedSlices(Header, p.stream, c.pos, c.pos, c.pos, RX_SIZE);
        assert ReadingFrom(q, c.pos);
      } else {
        NotSkipped(p.stream[start..c.pos]);
        OverlayDone(p.rx, c.stop);
      }
    } else if c.rc == 0 {
      assert InProgress(c.stop) && ReadingFrom(q, start);
    }
  }

  lemma WholePacket(stream: Bytes, start: nat, end: nat, d: Decoder)
    requires start <= end <= |stream| && d.Done? && d == FeedAll(Header, stream[start..end], RX_SIZE)
    ensures ParsePacket(stream[start..end], RX_SIZE) == Packet(d.header, d.body, end - start)
    ensures start < end && |d.body| <= RX_SIZE
  {
    AutomatonIsOneShot(stream[start..end], RX_SIZE);
    BodyFits(stream[start..end]);
    hide FeedAll;
  }

  lemma BodyFits(s: Bytes)
    ensures var p := ParsePacket(s, RX_SIZE); p.Packet? ==> |p.body| <= RX_SIZE && p.consumed > 0
  {
  }

  lemma SkippedType0(stream: Bytes, start: nat, end: nat)
    requires start < end <= |stream|
    requires var p := ParsePacket(stream[start..end], RX_SIZE);
             p.Packet? && p.header < 16 && p.consumed == end - start
    ensures forall to :: end <= to <= |stream| ==> FirstReply(stream[start..to]) == FirstReply(stream[end..to])
  {
    hide ParsePacket;
    forall to | end <= to <= |stream| ensures FirstReply(stream[start..to]) == FirstReply(stream[end..to]) {
      ParsePrefix(stream[start..end], stream[end..to], RX_SIZE);
      assert stream[start..end] + stream[end..to] == stream[start..to];
      assert stream[start..to][end - start..] == stream[end..to];
    }
  }

  lemma NotSkipped(s: Bytes)
    requires ParsePacket(s, RX_SIZE).Packet? && ParsePacket(s, RX_SIZE).header >= 16
    ensures FirstReply(s) == ParsePacket(s, RX_SIZE)
  {
  }

  lemma OverlayDone(before: Bytes, d: Decoder)
    requires d.Done? && |d.body| <= |before| == RX_SIZE
    ensures |d.body| >= 2 && DeserializeConnack(Overlay(before, d)) == Some(0) ==> d.body[1] == 0
  {
    ConnackVerdict(d.body, before, d.header);
  }

  // ---- Every step, every run ----

  lemma InvCore(p: Publisher, cfg: Config)
    requires Inv(p, cfg)
    ensures Core(p, cfg) && Shape(p)
  {
    hide Sound, Frames, Polite, PhaseInv;
  }

  lemma DisconnectedKeeps(p: Publisher, e: Env, cfg: Config)
    requires Inv(p, cfg) && p.phase.Disconnected?
    ensures Inv(TickDisconnected(p, e), cfg)
  {
    hide IsFrame, Acknowledged;
  }

  lemma TcpConnectingKeeps(p: Publisher, e: Env, cfg: Config)
    requires Inv(p, cfg) && p.phase.TcpConnecting? && ConfigOk(cfg)
    ensures Inv(TickTcpConnecting(p, e, cfg), cfg)
  {
    if e.status == Established {
      var q := Stage(p, Hello(cfg)).(txOff := 0);
      HelloStagedSound(p, cfg);
      PumpKeeps(q, e, cfg);
      hide Core, Hello;
      CoreIgnoresPhase(Pump(q, e).0, SendingConnect, e.now, cfg);
    } else {
      ResetKeeps(p, e.clock, cfg);
    }
  }

  lemma HelloStagedSound(p: Publisher, cfg: Config)
    requires Inv(p, cfg) && p.phase.TcpConnecting? && ConfigOk(cfg)
    ensures var q := Stage(p, Hello(cfg)).(txOff := 0); Core(q, cfg) && HelloStaged(q, cfg)
  {
    var q := Stage(p, Hello(cfg)).(txOff := 0);
    HelloIsFrame(cfg);
    hide IsFrame, Hello, Acknowledged;
    if Fits(cfg) {
      assert q.packets == [Hello(cfg)];
      assert Concat(q.packets) == Hello(cfg) + Concat([]);
      assert Unsent(q) == Hello(cfg);
    }
  }

  lemma CoreIgnoresPhase(p: Publisher, phase: Phase, at: int, cfg: Config)
    requires Core(p, cfg)
    ensures Core(p.(phase := phase, stateEnter := at), cfg)
    ensures Core(p.(decoder := Header, phase := phase, stateEnter := at), cfg)
    ensures forall i: nat :: Core(p.(discoveryIndex := i), cfg)
    ensures Core(p.(phase := phase, lastPublish := at, lastPing := at), cfg)
    ensures Core(p.(lastPublish := at), cfg) && Core(p.(lastPing := at), cfg)
  {
    hide Concat, IsFrame, Acknowledged, Fits, Hello;
  }

  lemma SendingConnectKeeps(p: Publisher, e: Env, cfg: Config)
    requires Inv(p, cfg) && p.phase.SendingConnect?
    ensures Inv(TickSendingConnect(p, e), cfg)
  {
    hide Core, Pump, Reset, ReadingFrom, Fits, Hello;
    InvCore(p, cfg);
    var (q, sent) := Pump(p, e);
    PumpKeeps(p, e, cfg);
    PumpKeepsPhase(p, e);
    if sent {
      if q.isOpen { ReadsFromStart(q.(decoder := Header, phase := AwaitingConnack, stateEnter := e.now)); }
      CoreIgnoresPhase(q, AwaitingConnack, e.now, cfg);
    } else {
      ResetKeeps(q, e.clock, cfg);
    }
  }

  lemma PumpKeepsPhase(p: Publisher, e: Env)
    requires p.txLen <= |p.tx|
    ensures var q := Pump(p, e).0;
            q == Reset(p, e.clock) || (q.phase == p.phase && q.pos == p.pos && q.stream == p.stream
                                       && q.packets == p.packets && q.acked == p.acked && q.isOpen == p.isOpen)
    ensures !Reset(p, e.clock).isOpen && !Pending(Reset(p, e.clock))
    ensures Reset(p, e.clock).phase == Disconnected && Reset(p, e.clock).decoder == Header
  {
  }

  /** Nothing read yet: the reader stands at the start of the first packet. */
  lemma ReadsFromStart(p: Publisher)
    requires p.pos == 0 && p.decoder == Header
    ensures ReadingFrom(p, 0)
  {
    hide FirstReply;
    assert forall end :: 0 <= end <= |p.stream| ==> p.stream[..end] == p.stream[0..end];
  }

  lemma AwaitingReadKeeps(p: Publisher, at: int, cfg: Config)
    requires Shape(p)
    requires Inv(p, cfg) && p.phase.AwaitingConnack?
    ensures var rc, q := Reads(p).rc, AfterRead(p);
            && (rc == 0 ==> Inv(q, cfg))
            && (rc == CONNACK && DeserializeConnack(q.rx) == Some(0) ==>
                  Inv(q.(discoveryIndex := 0, phase := PublishingDiscovery, stateEnter := at, acked := true), cfg))
  {
    hide Core, AfterRead, Reads, DeserializeConnack, ReadingFrom, Acknowledged, Fits, Hello;
    var q := AfterRead(p);
    ReadKeeps(p, cfg);
    SameConnection(p);
    if !p.isOpen {
      ClosedReadFails(p);
    } else {
      var start :| ReadingFrom(p, start);
      AwaitRead(p, start, cfg);
      if Reads(p).rc == CONNACK && DeserializeConnack(q.rx) == Some(0) {
        AcknowledgedCore(q, at, cfg);
      }
    }
  }

  lemma AcknowledgedCore(p: Publisher, at: int, cfg: Config)
    requires Core(p, cfg) && Acknowledged(p.stream[..p.pos])
    ensures Core(p.(discoveryIndex := 0, phase := PublishingDiscovery, stateEnter := at, acked := true), cfg)
  {
    hide Concat, IsFrame, Acknowledged, Fits, Hello;
  }

  lemma AwaitingConnackKeeps(p: Publisher, e: Env, cfg: Config)
    requires Shape(p)
    requires Inv(p, cfg) && p.phase.AwaitingConnack?
    ensures Inv(TickAwaitingConnack(p, e), cfg)
  {
    hide Inv, Core, AfterRead, Reads, DeserializeConnack, Reset;
    InvCore(p, cfg);
    AwaitingReadKeeps(p, e.now, cfg);
    ReadKeeps(p, cfg);
    ResetKeeps(p, e.clock, cfg);
    ResetKeeps(AfterRead(p), e.clock, cfg);
  }

  lemma SameConnection(p: Publisher)
    requires p.pos <= |p.stream|
    ensures var q := AfterRead(p);
            && q.isOpen == p.isOpen && q.stream == p.stream && q.packets == p.packets && q.acked == p.acked
            && Pending(q) == Pending(p) && q.phase == p.phase
  {
  }

  lemma DiscoveryStages(p: Publisher, packet: Bytes, e: Env, cfg: Config)
    requires Shape(p)
    requires Inv(p, cfg) && p.phase.PublishingDiscovery? && !Pending(p) && IsFrame(packet)
    ensures var q := StageAndPump(p, packet, e); Inv(q.(discoveryIndex := q.discoveryIndex + 1), cfg)
  {
    hide Core, IsFrame, Fits, StageAndPump;
    StageAndPumpKeeps(p, packet, e, cfg);
    CoreIgnoresPhase(StageAndPump(p, packet, e), Connected, 0, cfg);
  }

  lemma EmptiedCore(p: Publisher, cfg: Config)
    requires Core(p, cfg) && !Pending(p)
    ensures Core(p.(txLen := 0), cfg)
  {
    hide Concat, IsFrame, Acknowledged, Fits, Hello;
  }

  /** A skipped entry, the end of discovery, and the rest of a pending packet. */
  lemma DiscoveryMovesOn(p: Publisher, e: Env, cfg: Config)
    requires Shape(p)
    requires Inv(p, cfg) && p.phase.PublishingDiscovery?
    ensures Inv(Pump(p, e).0, cfg)
    ensures Inv(p.(phase := Connected, lastPublish := e.now, lastPing := e.now), cfg)
    ensures !Pending(p) ==> Inv(p.(txLen := 0, discoveryIndex := p.discoveryIndex + 1), cfg)
  {
    hide Core, Fits;
    PumpKeeps(p, e, cfg);
    CoreIgnoresPhase(p, Connected, e.now, cfg);
    if !Pending(p) {
      EmptiedCore(p, cfg);
      CoreIgnoresPhase(p.(txLen := 0), Connected, e.now, cfg);
    }
  }

  lemma PublishingDiscoveryKeeps(p: Publisher, e: Env, cfg: Config)
    requires Shape(p)
    requires Inv(p, cfg) && p.phase.PublishingDiscovery? && ConfigOk(cfg) && EnvOk(e)
    ensures Inv(TickPublishingDiscovery(p, e, cfg), cfg)
  {
    hide ConfigOk, Inv, Core, IsFrame, Retained, StageAndPump, Pump;
    InvCore(p, cfg);
    TopicsFit(cfg);
    DiscoveryMovesOn(p, e, cfg);
    if !Pending(p) {
      RetainedIsFrame(cfg.availabilityTopic, ONLINE);
      DiscoveryStages(p, Retained(cfg.availabilityTopic, ONLINE), e, cfg);
      if e.discovery.Some? {
        RetainedIsFrame(e.discovery.value.0, e.discovery.value.1);
        DiscoveryStages(p, Retained(e.discovery.value.0, e.discovery.value.1), e, cfg);
      }
    }
  }

  /** Staging something while connected. */
  lemma ConnectedStages(p: Publisher, packet: Bytes, e: Env, cfg: Config)
    requires Shape(p)
    requires Inv(p, cfg) && p.phase.Connected? && !Pending(p) && IsFrame(packet)
    ensures Inv(StageAndPump(p, packet, e).(lastPublish := e.now), cfg)
    ensures Inv(StageAndPump(p, packet, e).(lastPing := e.now), cfg)
  {
    hide Core, IsFrame, Fits, StageAndPump;
    var q := StageAndPump(p, packet, e);
    StageAndPumpKeeps(p, packet, e, cfg);
    CoreIgnoresPhase(q, Connected, e.now, cfg);
  }

  lemma ConnectedDrains(p: Publisher, e: Env, cfg: Config)
    requires Shape(p)
    requires Inv(p, cfg) && p.phase.Connected?
    ensures Inv(AfterRead(p), cfg) && Inv(Reset(AfterRead(p), e.clock), cfg)
  {
    hide Core, Fits, AfterRead, Reads;
    InvCore(p, cfg);
    ReadKeeps(p, cfg);
    SameConnection(p);
    ResetKeeps(AfterRead(p), e.clock, cfg);
  }

  lemma ConnectedPumps(p: Publisher, e: Env, cfg: Config)
    requires Shape(p)
    requires Inv(p, cfg) && p.phase.Connected?
    ensures Inv(Pump(p, e).0, cfg) && Inv(p.(lastPublish := e.now), cfg)
  {
    hide Core, Fits;
    InvCore(p, cfg);
    PumpKeeps(p, e, cfg);
    CoreIgnoresPhase(p, Connected, e.now, cfg);
  }

  lemma ConnectedKeeps(p: Publisher, e: Env, cfg: Config)
    requires Shape(p)
    requires Inv(p, cfg) && p.phase.Connected? && ConfigOk(cfg) && EnvOk(e)
    ensures Inv(TickConnected(p, e, cfg), cfg)
  {
    hide ConfigOk, Inv, Core, IsFrame, Retained, StageAndPump, Pump, AfterRead, Reads, Reset;
    InvCore(p, cfg);
    TopicsFit(cfg);
    ResetKeeps(p, e.clock, cfg);
    ConnectedPumps(p, e, cfg);
    ConnectedDrains(p, e, cfg);
    if !Pending(p) {
      PingreqIsFrame();
      ConnectedStages(p, PINGREQ, e, cfg);
      if e.report.Some? {
        RetainedIsFrame(cfg.stateTopic, e.report.value);
        ConnectedStages(p, Retained(cfg.stateTopic, e.report.value), e, cfg);
      }
    }
  }

  predicate EventOk(ev: Event) {
    ev.Poll? ==> EnvOk(ev.env)
  }

  /** Every poll and every chip reset keeps the invariant. */
  lemma StepKeepsInv(p: Publisher, ev: Event, cfg: Config)
    requires Inv(p, cfg) && ConfigOk(cfg) && EventOk(ev)
    ensures Inv(Step(p, ev, cfg), cfg)
  {
    match ev
    case ChipReset(clock) => ResetKeeps(p, clock, cfg);
    case Poll(e) =>
      match p.phase
      case Disconnected => DisconnectedKeeps(p, e, cfg);
      case TcpConnecting => TcpConnectingKeeps(p, e, cfg);
      case SendingConnect => SendingConnectKeeps(p, e, cfg);
      case AwaitingConnack => AwaitingConnackKeeps(p, e, cfg);
      case PublishingDiscovery => PublishingDiscoveryKeeps(p, e, cfg);
      case Connected => ConnectedKeeps(p, e, cfg);
  }

  /** The state after a sequence of events. */
  ghost function Run(p: Publisher, events: seq<Event>, cfg: Config): (q: Publisher)
    requires Inv(p, cfg) && ConfigOk(cfg) && forall i :: 0 <= i < |events| ==> EventOk(events[i])
    ensures Inv(q, cfg)
    decreases |events|
  {
    if events == [] then p
    else
      StepKeepsInv(p, events[0], cfg);
      Run(Step(p, events[0], cfg), events[1..], cfg)
  }

  predicate EventsOk(events: seq<Event>) {
    forall i :: 0 <= i < |events| ==> EventOk(events[i])
  }

  /** The state after a boot with a zeroed receive buffer and these events. */
  ghost function FromBoot(clock: int, events: seq<Event>, cfg: Config): (q: Publisher)
    requires ConfigOk(cfg) && EventsOk(events)
    ensures Inv(q, cfg)
  {
    var p := Start(clock, seq(RX_SIZE, _ => 0));
    StartInv(clock, p.rx, cfg);
    Run(p, events, cfg)
  }

  /** For every schedule of accepted, busy and failing sends, of reads and of
      resets, a broker parsing the bytes accepted on the current connection sees
      whole packets, in the order they were staged, none torn or interleaved;
      CONNECT comes first exactly when it fits the staging buffer, and nothing
      follows it before an acknowledgement was among the bytes read. */
  lemma StreamIntegrity(clock: int, events: seq<Event>, cfg: Config)
    requires ConfigOk(cfg) && EventsOk(events)
    ensures var p := FromBoot(clock, events, cfg);
            var seen := Split(p.accepted);
            && seen <= p.packets && p.accepted <= Concat(p.packets)
            && (seen != p.packets ==> |p.accepted| < |Concat(p.packets[..|seen| + 1])|)
            && (p.packets != [] ==> (p.packets[0] == Hello(cfg) <==> Fits(cfg)))
            && p.pos <= |p.stream| && (|p.packets| > 1 || (p.packets != [] && !Fits(cfg)) ==> Acknowledged(p.stream[..p.pos]))
  {
    var p := FromBoot(clock, events, cfg);
    assert p.accepted <= p.accepted + Unsent(p);
    SplitOfPrefix(p.packets, p.accepted);
    hide IsFrame, Hello, Acknowledged, Concat, Split;
  }

  /** Reading a whole CONNACK delivered as header, length and body. */
  lemma ConnackCall(stream: Bytes, capacity: nat)
    requires stream == [0x20, 2, 0, 0] && capacity >= 2
    ensures ReadCall(Header, stream, 0, [1, 1, 2], capacity) == Call(2, Done(0x20, [0, 0]), Header, 4, [])
  {
    hide ReadCall, FeedAll;
    ReadCallOneByte(Header, stream, 0, [1, 1, 2], capacity);
    ReadCallOneByte(Varint(0x20, 1, 0), stream, 1, [1, 2], capacity);
    ReadCallInBody(0x20, 2, [], stream, 2, [2], capacity);
    assert [1, 1, 2][1..] == [1, 2] && [1, 2][1..] == [2] && [2][1..] == [];
    assert [] + stream[2..4] == [0, 0];
  }

  lemma ConnackRead(p: Publisher)
    requires p.isOpen && p.decoder == Header && p.stream == [0x20, 2, 0, 0] && p.pos == 0
    requires p.schedule == [1, 1, 2] && |p.rx| == RX_SIZE
    ensures Reads(p).rc == CONNACK && DeserializeConnack(AfterRead(p).rx) == Some(0)
  {
    hide ReadCall, Overlay;
    ConnackCall(p.stream, |p.rx|);
    ConnackVerdict([0, 0], p.rx, 0x20);
  }

  lemma RunStep(p: Publisher, ev: Event, rest: seq<Event>, cfg: Config)
    requires Inv(p, cfg) && ConfigOk(cfg) && EventOk(ev) && forall i :: 0 <= i < |rest| ==> EventOk(rest[i])
    ensures Inv(Step(p, ev, cfg), cfg) && Run(p, [ev] + rest, cfg) == Run(Step(p, ev, cfg), rest, cfg)
  {
    StepKeepsInv(p, ev, cfg);
    assert ([ev] + rest)[1..] == rest;
    hide Inv, Step;
  }

  /** The ticks that lead from a fresh start past an acknowledgement. */
  lemma OversizedTicks(cfg: Config, e: Env)
    requires ConfigOk(cfg) && !Fits(cfg)
    requires e == Env(0, 0, true, true, [0x20, 2, 0, 0], [1, 1, 2], Established, 1, Some(([], [])), None)
    ensures var p3 := Tick(Tick(Tick(Start(0, seq(RX_SIZE, _ => 0)), e, cfg), e, cfg), e, cfg);
            && p3.phase == AwaitingConnack && p3.isOpen && p3.stateEnter == 0 && p3.decoder == Header
            && p3.stream == e.stream && p3.pos == 0 && p3.schedule == e.schedule && |p3.rx| == RX_SIZE
            && p3.packets == [] && !Pending(p3) && |p3.tx| == TX_SIZE && p3.txLen == 0
  {
    hide Hello;
  }

  lemma RetainedFits()
    ensures 0 < |Retained([], [])| <= TX_SIZE
  {
    assert |PublishBody(0, 0, [], [])| == 2;
    VarIntLength(2);
  }

  /** The other direction of the size condition: when CONNECT does not fit, a
      broker that acknowledges unasked receives a PUBLISH as its first packet. */
  lemma OversizedConnectIsSkipped(cfg: Config, e: Env)
    requires ConfigOk(cfg) && !Fits(cfg)
    requires e == Env(0, 0, true, true, [0x20, 2, 0, 0], [1, 1, 2], Established, 1, Some(([], [])), None)
    ensures EnvOk(e)
    ensures var five := [Poll(e)] + ([Poll(e)] + ([Poll(e)] + ([Poll(e)] + [Poll(e)])));
            FromBoot(0, five, cfg).packets == [Retained([], [])]
  {
    var ev, p0 := Poll(e), Start(0, seq(RX_SIZE, _ => 0));
    StartInv(0, p0.rx, cfg);
    RunStep(p0, ev, [ev] + ([ev] + ([ev] + [ev])), cfg);
    var p1 := Tick(p0, e, cfg);
    RunStep(p1, ev, [ev] + ([ev] + [ev]), cfg);
    var p2 := Tick(p1, e, cfg);
    RunStep(p2, ev, [ev] + [ev], cfg);
    var p3 := Tick(p2, e, cfg);
    RunStep(p3, ev, [ev], cfg);
    var p4 := Tick(p3, e, cfg);
    RunStep(p4, ev, [], cfg);
    assert [ev] + [] == [ev];
    OversizedTicks(cfg, e);
    AcknowledgedPublishes(p3, e, cfg);
    hide Inv, Tick;
  }

  lemma AcknowledgedPublishes(p: Publisher, e: Env, cfg: Config)
    requires p.phase == AwaitingConnack && p.isOpen && p.decoder == Header && p.stream == [0x20, 2, 0, 0] && p.pos == 0
    requires p.schedule == [1, 1, 2] && |p.rx| == RX_SIZE && |p.tx| == TX_SIZE
    requires p.packets == [] && !Pending(p) && p.txLen <= TX_SIZE
    requires e.now == p.stateEnter && e.discovery == Some(([], [])) && e.send > 0
    ensures Tick(Tick(p, e, cfg), e, cfg).packets == [Retained([], [])]
  {
    ConnackRead(p);
    SameConnection(p);
    RetainedFits();
    hide Retained, AfterRead, Reads, Overwrite;
    assert AfterRead(p).tx == p.tx && AfterRead(p).txLen == p.txLen by { SameBuffer(p); }
  }

  lemma SameBuffer(p: Publisher)
    requires p.pos <= |p.stream|
    ensures AfterRead(p).tx == p.tx && AfterRead(p).txLen == p.txLen
  {
  }

  lemma CodelessCall(stream: Bytes, capacity: nat)
    requires stream == [0x20, 0x00]
    ensures ReadCall(Header, stream, 0, [1, 1], capacity) == Call(2, Done(0x20, []), Header, 2, [])
  {
    hide ReadCall, FeedAll;
    ReadCallOneByte(Header, stream, 0, [1, 1], capacity);
    ReadCallOneByte(Varint(0x20, 1, 0), stream, 1, [1], capacity);
    assert [1, 1][1..] == [1] && [1][1..] == [];
  }

  lemma CodelessTick(p: Publisher, e: Env)
    requires p.phase.AwaitingConnack? && p.isOpen && p.decoder == Header && e.now == p.stateEnter
    requires p.stream == [0x20, 0x00] && p.pos == 0 && p.schedule == [1, 1] && p.rx == seq(RX_SIZE, _ => 0)
    ensures var q := TickAwaitingConnack(p, e); q.acked && q.phase == PublishingDiscovery && q.packets == p.packets
  {
    CodelessCall(p.stream, |p.rx|);
    ConnackVerdict([], p.rx, 0x20);
    hide ReadCall, Overlay;
  }

  /** The ticks from a fresh start to the wait for the reply, with CONNECT sent whole. */
  lemma CodelessTicks(cfg: Config, e: Env)
    requires ConfigOk(cfg) && Fits(cfg)
    requires e == Env(0, 0, true, true, [0x20, 0x00], [1, 1], Established, TX_SIZE, None, None)
    ensures var p3 := Tick(Tick(Tick(Start(0, seq(RX_SIZE, _ => 0)), e, cfg), e, cfg), e, cfg);
            && p3.phase == AwaitingConnack && p3.isOpen && p3.stateEnter == 0 && p3.decoder == Header
            && p3.stream == e.stream && p3.pos == 0 && p3.schedule == e.schedule && p3.rx == seq(RX_SIZE, _ => 0)
            && p3.packets == [Hello(cfg)] && p3.txLen <= |p3.tx|
  {
    hide Hello;
  }

  /** A run from boot in which the broker answers CONNECT with the two bytes 20 00:
      the reader hands out type 2, the fresh receive buffer reads as return code
      zero, and the publisher goes on as if the connection had been accepted. */
  lemma CodelessConnackAccepted(cfg: Config, e: Env)
    requires ConfigOk(cfg) && Fits(cfg)
    requires e == Env(0, 0, true, true, [0x20, 0x00], [1, 1], Established, TX_SIZE, None, None)
    ensures EnvOk(e) && FirstReply(e.stream) == Packet(0x20, [], 2)
    ensures var p := FromBoot(0, [Poll(e)] + ([Poll(e)] + ([Poll(e)] + [Poll(e)])), cfg);
            p.acked && p.phase == PublishingDiscovery && p.packets == [Hello(cfg)]
  {
    assert FirstReply(e.stream) == Packet(0x20, [], 2);
    var ev, p0 := Poll(e), Start(0, seq(RX_SIZE, _ => 0));
    StartInv(0, p0.rx, cfg);
    RunStep(p0, ev, [ev] + ([ev] + [ev]), cfg);
    var p1 := Tick(p0, e, cfg);
    RunStep(p1, ev, [ev] + [ev], cfg);
    var p2 := Tick(p1, e, cfg);
    RunStep(p2, ev, [ev], cfg);
    var p3 := Tick(p2, e, cfg);
    RunStep(p3, ev, [], cfg);
    assert [ev] + [] == [ev];
    CodelessTicks(cfg, e);
    CodelessTick(p3, e);
    hide Inv, TickAwaitingConnack, FirstReply, Hello;
  }
}
