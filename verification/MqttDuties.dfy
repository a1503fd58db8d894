// Which packet the publisher stages, and when: every staged packet read back as
// a broker reads it, the order of the announcements over whole runs, the
// keep-alive, and the time limits of each state.
module MqttDuties {
  import opened Buffers
  import opened MqttWire
  import opened MqttPublisher
  import opened MqttStream

  // ---- Packets as a broker reads them ----

  /** Exactly one PUBLISH of this payload under this topic, retained, QoS 0. */
  predicate Publishes(packet: Bytes, topic: Bytes, payload: Bytes) {
    var read := ParsePacket(packet, 0xFFF_FFFF);
    read.Packet? && read.consumed == |packet|
    && DecodePublish(read.header, read.body) == Some(Publication(false, 0, true, 0, topic, payload))
  }

  lemma RetainedPublishes(topic: Bytes, payload: Bytes)
    requires |topic| < 96 && |payload| < 600
    ensures Publishes(Retained(topic, payload), topic, payload)
    ensures |Retained(topic, payload)| <= 768 && IsFrame(Retained(topic, payload)) && Retained(topic, payload)[0] == 0x31
  {
    hide ParsePacket, DecodePublish, IsFrame;
    RetainedIsFrame(topic, payload);
    assert |PublishBody(0, 0, topic, payload)| == 2 + |topic| + |payload|;
    VarIntLength(|PublishBody(0, 0, topic, payload)|);
    PublishRoundTrip(Publication(false, 0, true, 0, topic, payload), [], 0xFFF_FFFF);
    assert Retained(topic, payload) + [] == Retained(topic, payload);
  }

  /** The CONNECT a server reads: the configured client id and credentials, an
      empty one being left out, 60 s keep-alive, a clean session, and "offline"
      under the availability topic as retained will. */
  lemma HelloDecodes(cfg: Config)
    requires ConfigOk(cfg) && |cfg.clientId| < 0x1_0000 && |cfg.username| < 0x1_0000 && |cfg.password| < 0x1_0000
    ensures var read := ParsePacket(Hello(cfg), 0xFFF_FFFF);
            && read.Packet? && read.consumed == |Hello(cfg)|
            && DecodeConnect(read.header, read.body) == Some(ConnectData(
                 cfg.clientId, 60, true,
                 Some(Will(cfg.availabilityTopic, [0x6F, 0x66, 0x66, 0x6C, 0x69, 0x6E, 0x65], 0, true)),
                 if cfg.username == [] then None else Some(cfg.username),
                 if cfg.password == [] then None else Some(cfg.password)))
  {
    hide ParsePacket, DecodeConnect, ConnectBody, ConnectPacket;
    ConnectRoundTrip(ConnectOptions(cfg), [], 0xFFF_FFFF);
    assert Hello(cfg) + [] == Hello(cfg);
  }

  /** Its first bytes, MQTT 3.1.1 section 3.1: type 1; protocol name "MQTT" and
      level 4; flags for a clean session, the retained will at QoS 0 and each
      credential present; and the keep-alive of 60 s. */
  lemma HelloBytes(cfg: Config)
    requires ConfigOk(cfg)
    ensures var read := ParsePacket(Hello(cfg), 0xFFF_FFFF);
            && read.Packet? && read.header == 0x10 && |read.body| >= 10
            && read.body[..10] == [0, 4, 0x4D, 0x51, 0x54, 0x54, 4,
                 0x26 + (if cfg.username != [] then 0x80 else 0) + (if cfg.password != [] then 0x40 else 0), 0, 60]
  {
    hide ParsePacket, VarInt, ConnectPayload;
    var body := ConnectBody(ConnectOptions(cfg));
    FrameRoundTrip(0x10, body, [], 0xFFF_FFFF);
    assert Hello(cfg) + [] == Hello(cfg);
    assert body[..10] == ConnectHeader(ConnectOptions(cfg));
  }

  // ---- What one poll stages ----

  lemma StagedOnPump(p: Publisher, packet: Bytes, e: Env)
    requires Shape(p) && |packet| <= 768
    ensures StageAndPump(p, packet, e).packets == p.packets + [packet]
    ensures var q := StageAndPump(p, packet, e); q.phase == p.phase || q.phase == Disconnected
    ensures var q := StageAndPump(p, packet, e); q.phase != Disconnected ==> q.discoveryIndex == p.discoveryIndex
  {
  }

  lemma ReadStages(p: Publisher)
    requires p.pos <= |p.stream|
    ensures AfterRead(p).packets == p.packets
  {
  }

  /** A poll while connected with nothing pending: the due report goes out under
      the state topic, a text that did not fit is skipped until the next
      interval; otherwise PINGREQ once 45 s have passed since the last; otherwise
      nothing is staged. */
  lemma ConnectedDuties(p: Publisher, e: Env, cfg: Config)
    requires Shape(p) && p.phase.Connected? && !Pending(p) && ConfigOk(cfg) && EnvOk(e)
    requires e.status != Closed && e.status != CloseWait
    ensures var q := Tick(p, e, cfg);
            var due, idle := e.now - p.lastPublish >= cfg.publishIntervalS * 1_000_000, e.now - p.lastPing >= 45_000_000;
            && (due ==> q.lastPublish == e.now && q.lastPing == p.lastPing)
            && (due && e.report.None? ==> q.packets == p.packets)
            && (due && e.report.Some? ==>
                  |q.packets| == |p.packets| + 1 && q.packets[..|p.packets|] == p.packets
                  && Publishes(q.packets[|p.packets|], cfg.stateTopic, e.report.value))
            && (!due && idle ==>
                  |q.packets| == |p.packets| + 1 && q.packets[..|p.packets|] == p.packets && q.lastPing == e.now
                  && ParsePacket(q.packets[|p.packets|], 0xFFF_FFFF) == Packet(0xC0, [], 2))
            && (!due && !idle ==> q.packets == p.packets && q.lastPublish == p.lastPublish && q.lastPing == p.lastPing)
  {
    hide Publishes, StageAndPump, AfterRead, Reads, ParsePacket, Retained, Reset;
    if e.report.Some? {
      RetainedPublishes(cfg.stateTopic, e.report.value);
      StagedOnPump(p, Retained(cfg.stateTopic, e.report.value), e);
      TimersOnPump(p, Retained(cfg.stateTopic, e.report.value), e);
    }
    StagedOnPump(p, PINGREQ, e);
    TimersOnPump(p, PINGREQ, e);
    ReadStages(p);
    TimersOnRead(p, e);
    PingParses();
  }

  /** A poll while connected otherwise: a socket closed by either side drops the
      connection; bytes still pending are pumped before anything else is done; and
      with nothing due an error of the reader drops the connection, while whatever
      else it read is thrown away. */
  lemma ConnectedOtherwise(p: Publisher, e: Env, cfg: Config)
    requires Shape(p) && p.phase.Connected?
    ensures var q, gone := Tick(p, e, cfg), e.status == Closed || e.status == CloseWait;
            var busy := e.now - p.lastPublish >= cfg.publishIntervalS * 1_000_000 || e.now - p.lastPing >= 45_000_000;
            && (gone ==> q.phase == Disconnected && q.packets == p.packets)
            && (!gone && Pending(p) ==>
                  && q.packets == p.packets && q.lastPublish == p.lastPublish && q.lastPing == p.lastPing
                  && (q.phase.Disconnected? <==> !p.isOpen || e.send < 0)
                  && (p.isOpen && e.send >= 0 ==>
                        q.phase == p.phase && q.txOff == if e.send < p.txLen - p.txOff then p.txOff + e.send else p.txLen))
            && (!gone && !Pending(p) && !busy ==>
                  (q.phase.Disconnected? <==> Reads(p).rc < 0) && (q.phase.Disconnected? || q.phase == p.phase))
  {
    hide Reads;
  }

  /** Past the 14 entries and "online", once those bytes are out, the publisher is
      connected and both its timers start. */
  lemma DiscoveryEnds(p: Publisher, e: Env, cfg: Config)
    requires Shape(p) && p.phase.PublishingDiscovery? && !Pending(p) && ConfigOk(cfg) && EnvOk(e)
    ensures var q := Tick(p, e, cfg);
            && (q.phase.Connected? <==> p.discoveryIndex > 14)
            && (q.phase.Connected? ==> q == p.(phase := Connected, lastPublish := e.now, lastPing := e.now))
  {
    hide Pump, Retained;
    if p.discoveryIndex < 14 {
      EntryStaged(p, e);
    } else {
      RetainedPublishes(cfg.availabilityTopic, ONLINE);
      StagedOnPump(p, Retained(cfg.availabilityTopic, ONLINE), e);
    }
  }

  /** The awaited reply: discovery starts from its first entry exactly when the
      packet read is of type 2 with return code zero; any other packet, and any
      error of the reader, drops the connection. */
  lemma ReplyDecides(p: Publisher, e: Env, cfg: Config)
    requires Shape(p) && p.phase.AwaitingConnack? && e.now - p.stateEnter <= 3_000_000
    ensures var q, rc, rx := Tick(p, e, cfg), Reads(p).rc, AfterRead(p).rx;
            && (q.phase.AwaitingConnack? <==> rc == 0)
            && (q.phase.PublishingDiscovery? <==> rc == 2 && |rx| >= 2 && rx[1] == 0)
            && (q.phase.PublishingDiscovery? ==> q.discoveryIndex == 0 && q.stateEnter == e.now)
            && (rc != 0 && !q.phase.PublishingDiscovery? ==> q.phase == Disconnected)
            && q.packets == p.packets
  {
    hide Reads;
  }

  /** What a reader call leaves in the receive buffer: the body read so far at its
      front, whole or not, and behind it what was there before. */
  lemma BufferAfterRead(p: Publisher)
    requires Shape(p)
    ensures var q, stop := AfterRead(p), Reads(p).stop;
            var front := match stop case Body(_, _, got) => got case Done(_, body) => body case _ => [];
            |front| <= 64 ==> |q.rx| == 64 && q.rx[..|front|] == front && q.rx[|front|..] == p.rx[|front|..]
  {
    hide Reads;
  }

  lemma PingParses()
    ensures ParsePacket(PINGREQ, 0xFFF_FFFF) == Packet(0xC0, [], 2) && |PINGREQ| == 2
  {
  }

  lemma TimersOnPump(p: Publisher, packet: Bytes, e: Env)
    requires Shape(p)
    ensures var q := StageAndPump(p, packet, e); q.lastPublish == p.lastPublish && q.lastPing == p.lastPing
  {
  }

  lemma TimersOnRead(p: Publisher, e: Env)
    requires p.pos <= |p.stream|
    ensures AfterRead(p).lastPublish == p.lastPublish && AfterRead(p).lastPing == p.lastPing
    ensures var q := Reset(AfterRead(p), e.clock);
            q.lastPublish == p.lastPublish && q.lastPing == p.lastPing && q.packets == p.packets
  {
  }

  // ---- The announcements, in order ----

  /** The texts of the discovery entries, by index; None for one that does not
      fit its buffer. */
  type Table = nat -> Option<(Bytes, Bytes)>

  function EntryPackets(entries: Table, k: nat): seq<Bytes> {
    if k == 0 then []
    else EntryPackets(entries, k - 1)
         + match entries(k - 1) case None => [] case Some((topic, payload)) => [Retained(topic, payload)]
  }

  function Opening(cfg: Config): seq<Bytes> {
    if |Hello(cfg)| <= 768 then [Hello(cfg)] else []
  }

  /** CONNECT if it fits, the first k of the 14 entries, then "online". */
  function Announcements(cfg: Config, entries: Table, k: nat): seq<Bytes> {
    Opening(cfg) + EntryPackets(entries, if k < 14 then k else 14)
    + if k > 14 then [Retained(cfg.availabilityTopic, [0x6F, 0x6E, 0x6C, 0x69, 0x6E, 0x65])] else []
  }

  /** Polls in discovery are given the text of the entry they have reached. */
  predicate FromTable(p: Publisher, ev: Event, entries: Table) {
    ev.Poll? && p.phase.PublishingDiscovery? ==> ev.env.discovery == entries(p.discoveryIndex)
  }

  predicate Announced(p: Publisher, cfg: Config, entries: Table) {
    match p.phase
    case PublishingDiscovery => p.discoveryIndex <= 15 && p.packets == Announcements(cfg, entries, p.discoveryIndex)
    case Connected => Announcements(cfg, entries, 15) <= p.packets
    case _ => true
  }

  lemma NextEntry(cfg: Config, entries: Table, k: nat)
    requires k < 14
    ensures Announcements(cfg, entries, k + 1) ==
            Announcements(cfg, entries, k)
            + match entries(k) case None => [] case Some((topic, payload)) => [Retained(topic, payload)]
  {
    hide Retained, Opening;
  }

  lemma LastAnnouncement(cfg: Config, entries: Table)
    ensures Announcements(cfg, entries, 15) == Announcements(cfg, entries, 14) + [Retained(cfg.availabilityTopic, ONLINE)]
  {
    hide Retained, Opening, EntryPackets;
  }

  lemma FirstAnnouncement(cfg: Config, entries: Table)
    ensures Announcements(cfg, entries, 0) == Opening(cfg) == if Fits(cfg) then [Hello(cfg)] else []
  {
    hide Retained, Hello;
  }

  lemma DiscoveryAnnounces(p: Publisher, e: Env, cfg: Config, entries: Table)
    requires Shape(p) && p.phase.PublishingDiscovery? && ConfigOk(cfg) && EnvOk(e)
    requires Announced(p, cfg, entries) && e.discovery == entries(p.discoveryIndex)
    ensures Announced(TickPublishingDiscovery(p, e, cfg), cfg, entries)
  {
    hide ConfigOk, EnvOk, Retained, StageAndPump, Pump, Announcements, AfterEntry, Shape;
    ShapeFits(p);
    if Pending(p) {
      PumpStages(p, e);
    } else if p.discoveryIndex < 14 {
      EntryStaged(p, e);
      NextEntry(cfg, entries, p.discoveryIndex);
    } else {
      TopicsFit(cfg);
      LastAnnouncement(cfg, entries);
      RetainedPublishes(cfg.availabilityTopic, ONLINE);
      StagedOnPump(p, Retained(cfg.availabilityTopic, ONLINE), e);
    }
  }

  lemma ShapeFits(p: Publisher)
    requires Shape(p)
    ensures p.txLen <= |p.tx|
  {
  }

  lemma EntryStaged(p: Publisher, e: Env)
    requires Shape(p) && EnvOk(e)
    ensures p.txLen <= |p.tx|
    ensures var q := AfterEntry(p, e);
            && q.packets == p.packets + (match e.discovery
                                         case None => []
                                         case Some((topic, payload)) => [Retained(topic, payload)])
            && (q.phase == Disconnected || (q.phase == p.phase && q.discoveryIndex == p.discoveryIndex))
  {
    hide Retained, StageAndPump;
    match e.discovery
    case None =>
    case Some((topic, payload)) =>
      RetainedPublishes(topic, payload);
      StagedOnPump(p, Retained(topic, payload), e);
  }

  lemma PumpStages(p: Publisher, e: Env)
    requires Shape(p)
    ensures var q := Pump(p, e).0;
            q.packets == p.packets && (q.phase == Disconnected || (q.phase == p.phase && q.discoveryIndex == p.discoveryIndex))
  {
  }

  lemma ConnectedAnnounces(p: Publisher, e: Env, cfg: Config, entries: Table)
    requires Shape(p) && p.phase.Connected? && ConfigOk(cfg) && EnvOk(e) && Announced(p, cfg, entries)
    ensures Announced(TickConnected(p, e, cfg), cfg, entries)
  {
    hide ConfigOk, Retained, StageAndPump, Pump, Announcements, AfterRead, Reads;
    TopicsFit(cfg);
    PumpStages(p, e);
    ReadStages(p);
    SameConnection(p);
    PingParses();
    StagedOnPump(p, PINGREQ, e);
    if e.report.Some? {
      RetainedPublishes(cfg.stateTopic, e.report.value);
      StagedOnPump(p, Retained(cfg.stateTopic, e.report.value), e);
    }
  }

  lemma AwaitingAnnounces(p: Publisher, e: Env, cfg: Config, entries: Table)
    requires Inv(p, cfg) && p.phase.AwaitingConnack? && Shape(p)
    ensures Announced(TickAwaitingConnack(p, e), cfg, entries)
  {
    hide Core, AfterRead, Reads, DeserializeConnack, ReadingFrom, Announcements, Fits, Hello;
    FirstAnnouncement(cfg, entries);
    ReadStages(p);
    SameConnection(p);
    if !p.isOpen { ClosedReadFails(p); }
  }

  lemma StepAnnounces(p: Publisher, ev: Event, cfg: Config, entries: Table)
    requires Inv(p, cfg) && Shape(p) && ConfigOk(cfg) && EventOk(ev) && FromTable(p, ev, entries)
    requires Announced(p, cfg, entries)
    ensures Announced(Step(p, ev, cfg), cfg, entries)
  {
    hide Inv, Announcements, TickPublishingDiscovery, TickConnected, TickAwaitingConnack, Stage, Hello;
    if ev.Poll? {
      PumpStages(p, ev.env);
      match p.phase
      case PublishingDiscovery => DiscoveryAnnounces(p, ev.env, cfg, entries);
      case Connected => ConnectedAnnounces(p, ev.env, cfg, entries);
      case AwaitingConnack => AwaitingAnnounces(p, ev.env, cfg, entries);
      case TcpConnecting => ConnectingAnnounces(p, ev.env, cfg, entries);
      case _ =>
    }
  }

  lemma ConnectingAnnounces(p: Publisher, e: Env, cfg: Config, entries: Table)
    requires Shape(p) && p.phase.TcpConnecting?
    ensures Announced(TickTcpConnecting(p, e, cfg), cfg, entries)
  {
    hide Hello, Announcements, Pump;
  }

  /** Every poll of the run gets the text of the entry it has reached. */
  ghost predicate TableRun(p: Publisher, events: seq<Event>, cfg: Config, entries: Table)
    requires Inv(p, cfg) && ConfigOk(cfg) && EventsOk(events)
    decreases |events|
  {
    events == [] ||
    (StepKeepsInv(p, events[0], cfg);
     FromTable(p, events[0], entries) && TableRun(Step(p, events[0], cfg), events[1..], cfg, entries))
  }

  lemma {:induction false} RunAnnounces(p: Publisher, events: seq<Event>, cfg: Config, entries: Table)
    requires Inv(p, cfg) && ConfigOk(cfg) && EventsOk(events)
    requires TableRun(p, events, cfg, entries) && Announced(p, cfg, entries)
    ensures Announced(Run(p, events, cfg), cfg, entries)
    decreases |events|
  {
    hide Inv, Step, Announced, FromTable, EventOk;
    if events != [] {
      InvCore(p, cfg);
      StepKeepsInv(p, events[0], cfg);
      StepAnnounces(p, events[0], cfg, entries);
      RunAnnounces(Step(p, events[0], cfg), events[1..], cfg, entries);
    }
  }

  /** In every run from boot: while discovery lasts the packets staged on the
      connection are CONNECT, if it fits, and the entries before the one reached,
      in order, with "online" under the availability topic behind the 14th; and a
      publisher that is connected has staged exactly these first. */
  lemma AnnouncementsInOrder(clock: int, events: seq<Event>, cfg: Config, entries: Table)
    requires ConfigOk(cfg) && EventsOk(events)
    requires (StartInv(clock, seq(64, _ => 0), cfg); TableRun(Start(clock, seq(64, _ => 0)), events, cfg, entries))
    ensures var p := FromBoot(clock, events, cfg);
            && (p.phase.PublishingDiscovery? ==> p.discoveryIndex <= 15 && p.packets == Announcements(cfg, entries, p.discoveryIndex))
            && (p.phase.Connected? ==> Announcements(cfg, entries, 15) <= p.packets)
  {
    hide Inv, Announcements, EventsOk, TableRun;
    StartInv(clock, seq(64, _ => 0), cfg);
    RunAnnounces(Start(clock, seq(64, _ => 0)), events, cfg, entries);
  }

  // ---- Time limits ----

  /** A connection attempt starts exactly when the retry time is reached and an
      address is there; a refused one is tried again 5 s later. */
  lemma ConnectsWhenDue(p: Publisher, e: Env, cfg: Config)
    requires Shape(p) && p.phase.Disconnected?
    ensures var q, due := Tick(p, e, cfg), e.now >= p.nextReconnect && e.hasIp;
            && (q.phase.TcpConnecting? <==> due && e.connectOk)
            && (q.phase.TcpConnecting? ==> q.stateEnter == e.now && q.isOpen && q.packets == [])
            && (!due ==> q == p) && (due && !e.connectOk ==> q == p.(nextReconnect := e.now + 5_000_000))
  {
  }

  /** Each of the three opening states is given up once it lasted more than 3 s,
      unless it just moved on, and the first also when the socket is closed. */
  lemma OpeningGivesUp(p: Publisher, e: Env, cfg: Config)
    requires Shape(p)
    ensures p.phase.TcpConnecting? ==>
              var q := Tick(p, e, cfg);
              && (q.phase.SendingConnect? <==> e.status == Established)
              && (q.phase.Disconnected? <==> e.status == Closed || (e.status != Established && e.now - p.stateEnter > 3_000_000))
              && (q.phase.SendingConnect? ==> q.stateEnter == e.now)
    ensures p.phase.SendingConnect? && p.isOpen && Pending(p) && 0 <= e.send < p.txLen - p.txOff ==>
              (Tick(p, e, cfg).phase.Disconnected? <==> e.now - p.stateEnter > 3_000_000)
    ensures p.phase.SendingConnect? && (!Pending(p) || (p.isOpen && e.send >= p.txLen - p.txOff)) ==>
              Tick(p, e, cfg).phase.AwaitingConnack? && Tick(p, e, cfg).stateEnter == e.now
    ensures p.phase.AwaitingConnack? && e.now - p.stateEnter > 3_000_000 ==> Tick(p, e, cfg).phase.Disconnected?
    ensures p.phase.AwaitingConnack? && e.now - p.stateEnter <= 3_000_000 && Reads(p).rc == 0 ==>
              Tick(p, e, cfg).phase.AwaitingConnack?
  {
    hide Hello, ReadCall, Overlay, Retained;
    match p.phase
    case TcpConnecting =>
    case SendingConnect =>
    case AwaitingConnack =>
    case _ =>
  }

  /** Whenever a poll or a chip reset drops the connection, the socket is closed,
      nothing stays pending and the next attempt waits 5 s. */
  lemma DropWaits(p: Publisher, clock: int)
    ensures var q := Reset(p, clock);
            q.phase == Disconnected && !q.isOpen && !Pending(q) && q.decoder == Header && q.nextReconnect == clock + 5_000_000
  {
  }

  /** The staging buffer holds 768 bytes and the receive buffer 64, in every run;
      CONNECT is the first packet exactly when it fits the former. */
  lemma BufferSizes(clock: int, events: seq<Event>, cfg: Config)
    requires ConfigOk(cfg) && EventsOk(events)
    ensures var p := FromBoot(clock, events, cfg);
            && |p.tx| == 768 && |p.rx| == 64 && p.txLen <= 768
            && (p.packets != [] ==> (p.packets[0] == Hello(cfg) <==> |Hello(cfg)| <= 768))
  {
    hide Hello, Split, Concat, Acknowledged;
    StreamIntegrity(clock, events, cfg);
    InvCore(FromBoot(clock, events, cfg), cfg);
  }
}
