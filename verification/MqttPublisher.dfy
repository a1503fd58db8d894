// The non-blocking MQTT publisher: one hardware socket, one staging buffer that
// holds a single serialized packet, and six state handlers polled in turn.
// Main result: whatever the socket accepts, refuses or loses, the bytes accepted
// on one connection split into whole packets, CONNECT first, and nothing after
// CONNECT precedes a CONNACK with return code zero.
module MqttPublisher {
  import opened Buffers
  import opened MachineInts
  import opened MqttWire

  const STAGE_TIMEOUT_US := 3_000_000
  const RECONNECT_BACK_US := 5_000_000
  const KEEPALIVE_US := 45_000_000
  const ENTITY_COUNT := 14
  const TX_SIZE := 768
  const RX_SIZE := 64
  const CONNACK := 2

  const ONLINE: Bytes := [0x6F, 0x6E, 0x6C, 0x69, 0x6E, 0x65]
  const OFFLINE: Bytes := [0x6F, 0x66, 0x66, 0x6C, 0x69, 0x6E, 0x65]

  datatype Phase =
    Disconnected | TcpConnecting | SendingConnect | AwaitingConnack | PublishingDiscovery | Connected

  datatype Status = Closed | CloseWait | Established | OtherStatus

  datatype Config = Config(
    clientId: Bytes, username: Bytes, password: Bytes,
    stateTopic: Bytes, availabilityTopic: Bytes, publishIntervalS: int)

  /** What the environment does during one tick: the time on entry and the timer
      when a reset reads it, the interface and connect outcome, the receive
      stream and read schedule of a new connection, the socket status, how many
      bytes a send takes (negative: error), and the payload texts. */
  datatype Env = Env(
    now: int, clock: int, hasIp: bool, connectOk: bool, stream: Bytes, schedule: seq<int>,
    status: Status, send: int, discovery: Option<(Bytes, Bytes)>, report: Option<Bytes>)

  /** The publisher's fields, the socket, and what was accepted on the current
      connection: the bytes, the packets staged, and whether it was acknowledged. */
  datatype Publisher = Publisher(
    phase: Phase, stateEnter: int, nextReconnect: int, lastPublish: int, lastPing: int, discoveryIndex: nat,
    tx: Bytes, txLen: nat, txOff: nat, rx: Bytes, decoder: Decoder,
    isOpen: bool, stream: Bytes, pos: nat, schedule: seq<int>,
    accepted: Bytes, packets: seq<Bytes>, acked: bool)

  function ConnectOptions(cfg: Config): ConnectData {
    ConnectData(cfg.clientId, 60, true, Some(Will(cfg.availabilityTopic, OFFLINE, 0, true)),
      if cfg.username == [] then None else Some(cfg.username),
      if cfg.password == [] then None else Some(cfg.password))
  }

  function Hello(cfg: Config): Bytes {
    ConnectPacket(ConnectOptions(cfg))
  }

  /** The topic buffers hold fewer than 48 and 56 characters; credentials are
      heap-allocated and bounded by the format alone. */
  predicate ConfigOk(cfg: Config) {
    |cfg.stateTopic| < 48 && |cfg.availabilityTopic| < 56 && |ConnectBody(ConnectOptions(cfg))| < 0x1000_0000
  }

  lemma TopicsFit(cfg: Config)
    requires ConfigOk(cfg)
    ensures |cfg.stateTopic| < 96 && |cfg.availabilityTopic| < 96
  {
    hide ConnectBody;
  }

  predicate EnvOk(e: Env) {
    && (e.discovery.Some? ==> |e.discovery.value.0| < 96 && |e.discovery.value.1| < 600)
    && (e.report.Some? ==> |e.report.value| < 600)
  }

  function Retained(topic: Bytes, payload: Bytes): Bytes {
    PublishPacket(false, 0, true, 0, topic, payload)
  }

  // ---- The handlers as functions of the state ----

  function Start(clock: int, rx: Bytes): Publisher {
    Publisher(Disconnected, 0, clock, 0, 0, 0, seq(TX_SIZE, _ => 0), 0, 0, rx, Header,
      false, [], 0, [], [], [], false)
  }

  predicate Pending(p: Publisher) {
    p.txOff < p.txLen
  }

  function Reset(p: Publisher, clock: int): Publisher {
    p.(phase := Disconnected, txLen := 0, txOff := 0, decoder := Header, discoveryIndex := 0,
       nextReconnect := clock + RECONNECT_BACK_US, isOpen := false)
  }

  /** What a send of `len` bytes returns: a closed socket refuses. */
  function SendResult(isOpen: bool, offer: int, len: nat): (r: int)
    ensures r <= len
  {
    if !isOpen then -1 else if offer > len then len else offer
  }

  /** pumpSend: the state after it, and what it returns. */
  function Pump(p: Publisher, e: Env): (Publisher, bool)
    requires p.txLen <= |p.tx|
  {
    if !Pending(p) then (p, true)
    else
      var r := SendResult(p.isOpen, e.send, p.txLen - p.txOff);
      if r < 0 then (Reset(p, e.clock), false)
      else (p.(txOff := p.txOff + r, accepted := p.accepted + p.tx[p.txOff..p.txOff + r]), p.txOff + r >= p.txLen)
  }

  /** Serializing into txBuf: refused packets leave txOff where it was. */
  function Stage(p: Publisher, packet: Bytes): Publisher {
    if |packet| > |p.tx| then p.(txLen := 0)
    else p.(tx := Overwrite(packet, p.tx), txLen := |packet|, txOff := 0, packets := p.packets + [packet])
  }

  function StageAndPump(p: Publisher, packet: Bytes, e: Env): Publisher
    requires p.txLen <= |p.tx|
  {
    if |packet| > |p.tx| then Stage(p, packet) else Pump(Stage(p, packet), e).0
  }

  function Reads(p: Publisher): Call
    requires p.pos <= |p.stream|
  {
    ReadCall(p.decoder, p.stream, p.pos, if p.isOpen then p.schedule else [-1], |p.rx|)
  }

  /** One MQTTPacket_readnb; a closed socket reads as an error. */
  function AfterRead(p: Publisher): Publisher
    requires p.pos <= |p.stream|
  {
    var c := Reads(p);
    p.(decoder := c.next, pos := c.pos, schedule := c.schedule, rx := Overlay(p.rx, c.stop))
  }

  function TickDisconnected(p: Publisher, e: Env): Publisher {
    if e.now < p.nextReconnect || !e.hasIp then p
    else if !e.connectOk then p.(nextReconnect := e.now + RECONNECT_BACK_US)
    else p.(phase := TcpConnecting, stateEnter := e.now, isOpen := true, stream := e.stream, pos := 0,
            schedule := e.schedule, accepted := [], packets := [], acked := false)
  }

  /** The new phase is entered even when the send failed and reset everything. */
  function TickTcpConnecting(p: Publisher, e: Env, cfg: Config): Publisher
    requires p.txLen <= |p.tx|
  {
    if e.status == Established then
      Pump(Stage(p, Hello(cfg)).(txOff := 0), e).0.(phase := SendingConnect, stateEnter := e.now)
    else if e.status == Closed || e.now - p.stateEnter > STAGE_TIMEOUT_US then Reset(p, e.clock)
    else p
  }

  function TickSendingConnect(p: Publisher, e: Env): Publisher
    requires p.txLen <= |p.tx|
  {
    var (q, sent) := Pump(p, e);
    if sent then q.(decoder := Header, phase := AwaitingConnack, stateEnter := e.now)
    else if e.now - q.stateEnter > STAGE_TIMEOUT_US then Reset(q, e.clock)
    else q
  }

  function TickAwaitingConnack(p: Publisher, e: Env): Publisher
    requires p.pos <= |p.stream|
  {
    if e.now - p.stateEnter > STAGE_TIMEOUT_US then Reset(p, e.clock)
    else
      var rc, q := Reads(p).rc, AfterRead(p);
      if rc == 0 then q
      else if rc != CONNACK || DeserializeConnack(q.rx) != Some(0) then Reset(q, e.clock)
      else q.(discoveryIndex := 0, phase := PublishingDiscovery, stateEnter := e.now, acked := true)
  }

  /** A discovery entry whose text did not fit its buffer is skipped. */
  function AfterEntry(p: Publisher, e: Env): Publisher
    requires p.txLen <= |p.tx|
  {
    match e.discovery
    case None => p.(txLen := 0)
    case Some((topic, payload)) => StageAndPump(p, Retained(topic, payload), e)
  }

  function TickPublishingDiscovery(p: Publisher, e: Env, cfg: Config): Publisher
    requires p.txLen <= |p.tx|
  {
    if Pending(p) then Pump(p, e).0
    else if p.discoveryIndex < ENTITY_COUNT then
      var q := AfterEntry(p, e);
      q.(discoveryIndex := q.discoveryIndex + 1)
    else if p.discoveryIndex == ENTITY_COUNT then
      var q := StageAndPump(p, Retained(cfg.availabilityTopic, ONLINE), e);
      q.(discoveryIndex := q.discoveryIndex + 1)
    else p.(phase := Connected, lastPublish := e.now, lastPing := e.now)
  }

  function TickConnected(p: Publisher, e: Env, cfg: Config): Publisher
    requires p.txLen <= |p.tx| && p.pos <= |p.stream|
  {
    if e.status == Closed || e.status == CloseWait then Reset(p, e.clock)
    else if Pending(p) then Pump(p, e).0
    else if e.now - p.lastPublish >= cfg.publishIntervalS * 1_000_000 then
      var q := match e.report
               case None => p
               case Some(payload) => StageAndPump(p, Retained(cfg.stateTopic, payload), e);
      q.(lastPublish := e.now)
    else if e.now - p.lastPing >= KEEPALIVE_US then StageAndPump(p, PINGREQ, e).(lastPing := e.now)
    else
      var q := AfterRead(p);
      if Reads(p).rc < 0 then Reset(q, e.clock) else q
  }

  function Tick(p: Publisher, e: Env, cfg: Config): Publisher
    requires p.txLen <= |p.tx| && p.pos <= |p.stream|
  {
    match p.phase
    case Disconnected => TickDisconnected(p, e)
    case TcpConnecting => TickTcpConnecting(p, e, cfg)
    case SendingConnect => TickSendingConnect(p, e)
    case AwaitingConnack => TickAwaitingConnack(p, e)
    case PublishingDiscovery => TickPublishingDiscovery(p, e, cfg)
    case Connected => TickConnected(p, e, cfg)
  }

  /** A poll of loop(), or the chip-reset callback. */
  datatype Event = Poll(env: Env) | ChipReset(clock: int)

  function Step(p: Publisher, ev: Event, cfg: Config): Publisher
    requires p.txLen <= |p.tx| && p.pos <= |p.stream|
  {
    match ev
    case Poll(e) => Tick(p, e, cfg)
    case ChipReset(clock) => Reset(p, clock)
  }

  // ---- The publisher itself ----

  class MqttPublisher {
    const cfg: Config
    var phase: Phase
    var stateEnterUs: int
    var nextReconnectUs: int
    var lastPublishUs: int
    var lastPingUs: int
    var discoveryIndex: nat
    const txBuf: array<Byte>
    var txLen: nat
    var txOff: nat
    const rxBuf: array<Byte>
    const transport: Transport
    // The socket: whether this side has it open, and its receive side.
    var isOpen: bool
    var sock: Socket
    // What the current connection has seen.
    ghost var accepted: Bytes
    ghost var packets: seq<Bytes>
    ghost var acked: bool

    ghost predicate Valid()
      reads this, transport, sock
    {
      && ConfigOk(cfg) && txBuf != rxBuf
      && txBuf.Length == TX_SIZE && rxBuf.Length == RX_SIZE && txLen <= TX_SIZE
      && sock.Valid() && transport.Valid(rxBuf)
    }

    /** The whole state as a value. */
    ghost function View(): (p: Publisher)
      requires Valid()
      reads this, transport, sock, txBuf, rxBuf
    {
      Publisher(phase, stateEnterUs, nextReconnectUs, lastPublishUs, lastPingUs, discoveryIndex,
        txBuf[..], txLen, txOff, rxBuf[..], transport.Decoded(rxBuf),
        isOpen, sock.stream, sock.pos, sock.schedule, accepted, packets, acked)
    }

    constructor (cfg: Config, clock: int)
      requires ConfigOk(cfg)
      ensures Valid() && this.cfg == cfg && View() == Start(clock, seq(RX_SIZE, _ => 0))
      ensures fresh(txBuf) && fresh(rxBuf) && fresh(transport) && fresh(sock)
    {
      this.cfg := cfg;
      phase, stateEnterUs, nextReconnectUs := Disconnected, 0, clock;
      lastPublishUs, lastPingUs, discoveryIndex := 0, 0, 0;
      txBuf, txLen, txOff := new Byte[TX_SIZE](_ => 0), 0, 0;
      rxBuf := new Byte[RX_SIZE](_ => 0);
      transport := new Transport();
      isOpen := false;
      sock := new Socket([], []);
      accepted, packets, acked := [], [], false;
      new;
      assert txBuf[..] == seq(TX_SIZE, _ => 0) && rxBuf[..] == seq(RX_SIZE, _ => 0);
    }

    /** Also what a chip reset calls. */
    method ResetToDisconnected(clock: int)
      requires Valid()
      modifies this, transport
      ensures Valid() && sock == old(sock) && View() == Reset(old(View()), clock)
    {
      hide ConfigOk;
      isOpen := false;
      phase := Disconnected;
      txLen, txOff := 0, 0;
      transport.state := 0;
      discoveryIndex := 0;
      nextReconnectUs := clock + RECONNECT_BACK_US;
    }

    method PumpSend(e: Env) returns (done: bool)
      requires Valid()
      modifies this, transport
      ensures Valid() && sock == old(sock) && (View(), done) == Pump(old(View()), e)
    {
      if txOff >= txLen { return true; }
      assert accepted + txBuf[txOff..txOff] == accepted;
      var r := SendResult(isOpen, e.send, txLen - txOff);
      if r > 0 {
        accepted := accepted + txBuf[txOff..txOff + r];
        txOff := txOff + r;
      } else if r < 0 {
        ResetToDisconnected(e.clock);
        return false;
      }
      return txOff >= txLen;
    }

    method StageConnectPacket()
      requires Valid()
      modifies this, txBuf
      ensures Valid() && sock == old(sock)
      ensures View() == Stage(old(View()), Hello(cfg)).(txOff := 0)
    {
      ghost var before := txBuf[..];
      var n := SerializeConnect(txBuf, ConnectOptions(cfg));
      txLen := if n <= 0 then 0 else n;
      txOff := 0;
      if n > 0 {
        Overwritten(before, txBuf[..], n);
        packets := packets + [Hello(cfg)];
      }
    }

    method StagePublish(topic: Bytes, payload: Bytes) returns (ok: bool)
      requires Valid() && |topic| < 96 && |payload| < 600
      modifies this, txBuf
      ensures Valid() && sock == old(sock) && View() == Stage(old(View()), Retained(topic, payload))
      ensures ok <==> |Retained(topic, payload)| <= TX_SIZE
    {
      ghost var before := txBuf[..];
      var n := SerializePublish(txBuf, false, 0, true, 0, topic, payload);
      if n <= 0 { txLen := 0; return false; }
      Overwritten(before, txBuf[..], n);
      packets := packets + [Retained(topic, payload)];
      txLen, txOff := n, 0;
      return true;
    }

    /** Stage a publication and, if it fits, start sending it. */
    method Publish(topic: Bytes, payload: Bytes, e: Env)
      requires Valid() && |topic| < 96 && |payload| < 600
      modifies this, transport, txBuf
      ensures Valid() && sock == old(sock) && View() == StageAndPump(old(View()), Retained(topic, payload), e)
    {
      hide ConfigOk, Pump, Retained;
      var ok := StagePublish(topic, payload);
      if ok { var _ := PumpSend(e); }
    }

    method PublishEntry(e: Env)
      requires Valid() && EnvOk(e)
      modifies this, transport, txBuf
      ensures Valid() && sock == old(sock) && View() == AfterEntry(old(View()), e)
    {
      hide ConfigOk, StageAndPump, Retained;
      match e.discovery
      case None => txLen := 0;
      case Some((topic, payload)) => Publish(topic, payload, e);
    }

    method StagePingReq() returns (ok: bool)
      requires Valid()
      modifies this, txBuf
      ensures Valid() && sock == old(sock) && ok && View() == Stage(old(View()), PINGREQ)
    {
      ghost var before := txBuf[..];
      var n := SerializePingreq(txBuf);
      Overwritten(before, txBuf[..], n);
      packets := packets + [PINGREQ];
      txLen, txOff := n, 0;
      return true;
    }

    method Ping(e: Env)
      requires Valid()
      modifies this, transport, txBuf
      ensures Valid() && sock == old(sock) && View() == StageAndPump(old(View()), PINGREQ, e)
    {
      hide ConfigOk, Pump;
      var ok := StagePingReq();
      if ok { var _ := PumpSend(e); }
    }

    /** MQTTPacket_readnb over the socket; a closed socket reports an error. */
    method Receive() returns (rc: int)
      requires Valid()
      modifies this, transport, sock, rxBuf
      ensures Valid() && sock == old(sock)
      ensures rc == Reads(old(View())).rc && View() == AfterRead(old(View()))
    {
      if !isOpen { sock.schedule := [-1]; }
      rc := transport.ReadNb(rxBuf, sock);
    }

    method HandleDisconnected(e: Env)
      requires Valid()
      modifies this
      ensures Valid() && (sock == old(sock) || fresh(sock)) && View() == TickDisconnected(old(View()), e)
    {
      hide ConfigOk, Pump, Stage, StageAndPump, AfterEntry, Reset, Retained, Hello, Reads, AfterRead;
      if e.now < nextReconnectUs { return; }
      if !e.hasIp { return; }
      if !e.connectOk {
        nextReconnectUs := e.now + RECONNECT_BACK_US;
        return;
      }
      Connect(e);
      phase, stateEnterUs := TcpConnecting, e.now;
    }

    /** w5k_tcp_connect succeeded: a new connection with its own streams. */
    method Connect(e: Env)
      requires Valid()
      modifies this
      ensures Valid() && fresh(sock)
      ensures View() == old(View()).(isOpen := true, stream := e.stream, pos := 0, schedule := e.schedule,
                                     accepted := [], packets := [], acked := false)
    {
      hide ConfigOk;
      isOpen := true;
      sock := new Socket(e.stream, e.schedule);
      accepted, packets, acked := [], [], false;
    }

    method HandleTcpConnecting(e: Env)
      requires Valid()
      modifies this, transport, txBuf
      ensures Valid() && sock == old(sock) && View() == TickTcpConnecting(old(View()), e, cfg)
    {
      hide ConfigOk, Pump, Stage, StageAndPump, AfterEntry, Reset, Retained, Hello, Reads, AfterRead;
      if e.status == Established {
        StageConnectPacket();
        var _ := PumpSend(e);
        phase, stateEnterUs := SendingConnect, e.now;
        return;
      }
      if e.status == Closed || e.now - stateEnterUs > STAGE_TIMEOUT_US {
        ResetToDisconnected(e.clock);
      }
    }

    method HandleSendingConnect(e: Env)
      requires Valid()
      modifies this, transport
      ensures Valid() && sock == old(sock) && View() == TickSendingConnect(old(View()), e)
    {
      hide ConfigOk, Pump, Stage, StageAndPump, AfterEntry, Reset, Retained, Hello, Reads, AfterRead;
      var sent := PumpSend(e);
      if sent {
        transport.state := 0;
        phase, stateEnterUs := AwaitingConnack, e.now;
        return;
      }
      if e.now - stateEnterUs > STAGE_TIMEOUT_US {
        ResetToDisconnected(e.clock);
      }
    }

    method HandleAwaitingConnack(e: Env)
      requires Valid()
      modifies this, transport, sock, rxBuf
      ensures Valid() && sock == old(sock) && View() == TickAwaitingConnack(old(View()), e)
    {
      hide ConfigOk, Pump, Stage, StageAndPump, AfterEntry, Reset, Retained, Hello, Reads, AfterRead;
      if e.now - stateEnterUs > STAGE_TIMEOUT_US {
        ResetToDisconnected(e.clock);
        return;
      }
      var rc := Receive();
      if rc == 0 { return; }
      if rc != CONNACK {
        ResetToDisconnected(e.clock);
        return;
      }
      var code := DeserializeConnack(rxBuf[..]);
      if code != Some(0) {
        ResetToDisconnected(e.clock);
        return;
      }
      acked := true;
      discoveryIndex := 0;
      phase, stateEnterUs := PublishingDiscovery, e.now;
    }

    method HandlePublishingDiscovery(e: Env)
      requires Valid() && EnvOk(e)
      modifies this, transport, txBuf
      ensures Valid() && sock == old(sock) && View() == TickPublishingDiscovery(old(View()), e, cfg)
    {
      hide ConfigOk, Pump, Stage, StageAndPump, AfterEntry, Reset, Retained, Hello, Reads, AfterRead;
      TopicsFit(cfg);
      if txOff < txLen { var _ := PumpSend(e); return; }
      if discoveryIndex < ENTITY_COUNT {
        PublishEntry(e);
        discoveryIndex := discoveryIndex + 1;
        return;
      }
      if discoveryIndex == ENTITY_COUNT {
        Publish(cfg.availabilityTopic, ONLINE, e);
        discoveryIndex := discoveryIndex + 1;
        return;
      }
      phase := Connected;
      lastPublishUs, lastPingUs := e.now, e.now;
    }

    method HandleConnected(e: Env)
      requires Valid() && EnvOk(e)
      modifies this, transport, sock, txBuf, rxBuf
      ensures Valid() && sock == old(sock) && View() == TickConnected(old(View()), e, cfg)
    {
      hide ConfigOk, Pump, Stage, StageAndPump, AfterEntry, Reset, Retained, Hello, Reads, AfterRead;
      TopicsFit(cfg);
      if e.status == Closed || e.status == CloseWait {
        ResetToDisconnected(e.clock);
        return;
      }
      if txOff < txLen { var _ := PumpSend(e); return; }
      if e.now - lastPublishUs >= cfg.publishIntervalS * 1_000_000 {
        if e.report.Some? {
          Publish(cfg.stateTopic, e.report.value, e);
        }
        lastPublishUs := e.now;
        return;
      }
      if e.now - lastPingUs >= KEEPALIVE_US {
        Ping(e);
        lastPingUs := e.now;
        return;
      }
      var rc := Receive();
      if rc < 0 { ResetToDisconnected(e.clock); }
    }

    method Loop(e: Env)
      requires Valid() && EnvOk(e)
      modifies this, transport, sock, txBuf, rxBuf
      ensures Valid() && (sock == old(sock) || fresh(sock)) && View() == Tick(old(View()), e, cfg)
    {
      match phase
      case Disconnected => HandleDisconnected(e);
      case TcpConnecting => HandleTcpConnecting(e);
      case SendingConnect => HandleSendingConnect(e);
      case AwaitingConnack => HandleAwaitingConnack(e);
      case PublishingDiscovery => HandlePublishingDiscovery(e);
      case Connected => HandleConnected(e);
    }
  }
}
