// The MQTT 3.1.1 wire codec: the serializers, which write through an advancing
// position into a caller's buffer, and the resumable non-blocking packet reader.
module MqttWire {
  import opened Buffers
  import opened MachineInts

  // ---- Wire format (reference) ----

  /** Remaining length, MQTT 3.1.1 section 2.2.3: 7 bits per byte, least
      significant first, top bit set on all but the last. */
  function VarInt(n: nat): (b: Bytes)
    ensures |b| > 0
  {
    if n < 128 then [n] else [n % 128 + 128] + VarInt(n / 128)
  }

  function CString(s: Bytes): Bytes {
    [|s| / 0x100 % 0x100, |s| % 0x100] + s
  }

  function PublishHeader(dup: bool, qos: nat, retained: bool): Byte {
    0x30 + (if dup then 8 else 0) + qos % 4 * 2 + (if retained then 1 else 0)
  }

  function PublishBody(qos: nat, packetId: U16, topic: Bytes, payload: Bytes): Bytes {
    CString(topic) + (if qos > 0 then BE16(packetId) else []) + payload
  }

  function PublishPacket(dup: bool, qos: nat, retained: bool, packetId: U16, topic: Bytes, payload: Bytes): Bytes {
    var body := PublishBody(qos, packetId, topic, payload);
    [PublishHeader(dup, qos, retained)] + VarInt(|body|) + body
  }

  datatype Will = Will(topic: Bytes, message: Bytes, qos: nat, retained: bool)

  datatype ConnectData = ConnectData(
    clientId: Bytes, keepAlive: U16, cleanSession: bool,
    will: Option<Will>, username: Option<Bytes>, password: Option<Bytes>)

  function ConnectFlags(c: ConnectData): Byte {
    (if c.cleanSession then 0x02 else 0)
    + (match c.will
       case None => 0
       case Some(w) => 0x04 + w.qos % 4 * 8 + (if w.retained then 0x20 else 0))
    + (if c.username.Some? then 0x80 else 0)
    + (if c.password.Some? then 0x40 else 0)
  }

  function WillFields(will: Option<Will>): Bytes {
    match will
    case None => []
    case Some(w) => CString(w.topic) + CString(w.message)
  }

  function OptionalString(s: Option<Bytes>): Bytes {
    match s
    case None => []
    case Some(b) => CString(b)
  }

  function ConnectPayload(c: ConnectData): Bytes {
    CString(c.clientId) + WillFields(c.will) + OptionalString(c.username) + OptionalString(c.password)
  }

  function ConnectBody(c: ConnectData): Bytes {
    CString([0x4D, 0x51, 0x54, 0x54]) + [4, ConnectFlags(c)] + BE16(c.keepAlive) + ConnectPayload(c)
  }

  function ConnectPacket(c: ConnectData): Bytes {
    [0x10] + VarInt(|ConnectBody(c)|) + ConnectBody(c)
  }

  const PINGREQ: Bytes := [0xC0, 0x00]

  // ---- Serializers ----

  function RemainingLengthBytes(length: int): (n: int) {
    if length < 128 then 1
    else if length < 16384 then 2
    else if length < 2097152 then 3
    else 4
  }

  lemma VarIntLength(n: nat)
    requires n < 0x1000_0000
    ensures |VarInt(n)| == RemainingLengthBytes(n)
  {
    if n >= 128 {
      assert |VarInt(n)| == 1 + |VarInt(n / 128)|;
      if n >= 16384 {
        assert |VarInt(n / 128)| == 1 + |VarInt(n / 128 / 128)|;
        if n >= 2097152 {
          assert |VarInt(n / 128 / 128)| == 1 + |VarInt(n / 128 / 128 / 128)|;
        }
      }
    }
  }

  method EncodeRemainingLength(buf: array<Byte>, at: nat, length: nat) returns (next: nat)
    requires at + |VarInt(length)| <= buf.Length
    modifies buf
    ensures next == at + |VarInt(length)|
    ensures buf[..next] == old(buf[..at]) + VarInt(length)
    ensures forall j :: next <= j < buf.Length ==> buf[j] == old(buf[j])
  {
    next := at;
    var rest, more := length, true;
    ghost var head, todo := buf[..at], VarInt(length);
    while more
      invariant todo == if more then VarInt(rest) else []
      invariant at <= next && next + |todo| == at + |VarInt(length)|
      invariant buf[..next] + todo == head + VarInt(length)
      invariant forall j :: next <= j < buf.Length ==> buf[j] == old(buf[j])
      decreases more, rest
    {
      var d := rest % 128;
      rest := rest / 128;
      more := rest > 0;
      if more { d := d + 0x80; }
      EncodeStep(buf[..next], d, todo);
      ghost var before := buf[..next];
      buf[next] := d;
      assert buf[..next + 1] == before + [d];
      todo := todo[1..];
      next := next + 1;
    }
    assert buf[..next] + todo == buf[..next];
  }

  lemma EncodeStep(before: Bytes, d: Byte, todo: Bytes)
    requires todo != [] && todo[0] == d
    ensures before + [d] + todo[1..] == before + todo
  {
  }

  method WriteCString(buf: array<Byte>, at: nat, s: Bytes) returns (next: nat)
    requires at + 2 + |s| <= buf.Length
    modifies buf
    ensures next == at + 2 + |s|
    ensures buf[..next] == old(buf[..at]) + CString(s)
    ensures forall j :: next <= j < buf.Length ==> buf[j] == old(buf[j])
  {
    next := Put(buf, at, [|s| / 0x100 % 0x100, |s| % 0x100]);
    next := Put(buf, next, s);
    assert old(buf[..at]) + [|s| / 0x100 % 0x100, |s| % 0x100] + s == old(buf[..at]) + CString(s);
  }

  /** Returns the length written, or -1, buffer untouched, if it would not fit.
      The source rules out bodies of 2^28 bytes and more. */
  method SerializePublish(buf: array<Byte>, dup: bool, qos: nat, retained: bool, packetId: U16,
                          topic: Bytes, payload: Bytes) returns (rc: int)
    requires |PublishBody(qos, packetId, topic, payload)| < 0x1000_0000
    modifies buf
    ensures var packet := PublishPacket(dup, qos, retained, packetId, topic, payload);
            if |packet| > buf.Length then rc == -1 && buf[..] == old(buf[..])
            else rc == |packet| && buf[..rc] == packet && forall j :: rc <= j < buf.Length ==> buf[j] == old(buf[j])
  {
    var varHeaderLen := 2 + |topic| + if qos > 0 then 2 else 0;
    var remLen := varHeaderLen + |payload|;
    ghost var body := PublishBody(qos, packetId, topic, payload);
    assert remLen == |body|;
    VarIntLength(remLen);
    var total := 1 + RemainingLengthBytes(remLen) + remLen;
    if total > buf.Length { return -1; }
    rc := WritePublish(buf, dup, qos, retained, packetId, topic, payload, remLen);
  }

  method WritePublish(buf: array<Byte>, dup: bool, qos: nat, retained: bool, packetId: U16,
                      topic: Bytes, payload: Bytes, remLen: nat) returns (rc: nat)
    requires remLen == |PublishBody(qos, packetId, topic, payload)|
    requires |PublishPacket(dup, qos, retained, packetId, topic, payload)| <= buf.Length
    modifies buf
    ensures var packet := PublishPacket(dup, qos, retained, packetId, topic, payload);
            rc == |packet| && buf[..rc] == packet
    ensures forall j :: rc <= j < buf.Length ==> buf[j] == old(buf[j])
  {
    rc := Put(buf, 0, [PublishHeader(dup, qos, retained)]);
    rc := EncodeRemainingLength(buf, rc, remLen);
    ghost var front, id := buf[..rc], if qos > 0 then BE16(packetId) else [];
    assert front == [PublishHeader(dup, qos, retained)] + VarInt(remLen);
    Regroup(front, CString(topic), id);
    Regroup(front, CString(topic) + id, payload);
    hide CString, BE16, PublishHeader, VarInt;
    rc := WriteCString(buf, rc, topic);
    if qos > 0 {
      rc := Put(buf, rc, BE16(packetId));
    }
    rc := Put(buf, rc, payload);
  }

  function OptionalLength(s: Option<Bytes>): nat {
    match s
    case None => 0
    case Some(b) => 2 + |b|
  }

  method PutOptional(buf: array<Byte>, at: nat, s: Option<Bytes>) returns (next: nat)
    requires at + OptionalLength(s) <= buf.Length
    modifies buf
    ensures next == at + OptionalLength(s)
    ensures buf[..next] == old(buf[..at]) + OptionalString(s)
    ensures forall j :: next <= j < buf.Length ==> buf[j] == old(buf[j])
  {
    next := at;
    if s.Some? {
      next := WriteCString(buf, at, s.value);
    }
  }

  method PutWill(buf: array<Byte>, at: nat, will: Option<Will>) returns (next: nat)
    requires at + |WillFields(will)| <= buf.Length
    modifies buf
    ensures next == at + |WillFields(will)|
    ensures buf[..next] == old(buf[..at]) + WillFields(will)
    ensures forall j :: next <= j < buf.Length ==> buf[j] == old(buf[j])
  {
    next := at;
    if will.Some? {
      Regroup(buf[..at], CString(will.value.topic), CString(will.value.message));
      hide CString;
      next := WriteCString(buf, at, will.value.topic);
      next := WriteCString(buf, next, will.value.message);
    }
  }

  method SerializeConnect(buf: array<Byte>, c: ConnectData) returns (rc: int)
    requires |ConnectBody(c)| < 0x1000_0000
    modifies buf
    ensures var packet := ConnectPacket(c);
            if |packet| > buf.Length then rc == -1 && buf[..] == old(buf[..])
            else rc == |packet| && buf[..rc] == packet && forall j :: rc <= j < buf.Length ==> buf[j] == old(buf[j])
  {
    var payloadLen := 2 + |c.clientId|;
    var connectFlags := if c.cleanSession then 0x02 else 0;
    if c.will.Some? {
      var w := c.will.value;
      connectFlags := connectFlags + 0x04 + w.qos % 4 * 8 + if w.retained then 0x20 else 0;
      payloadLen := payloadLen + 2 + |w.topic| + 2 + |w.message|;
    }
    if c.username.Some? { connectFlags := connectFlags + 0x80; payloadLen := payloadLen + OptionalLength(c.username); }
    if c.password.Some? { connectFlags := connectFlags + 0x40; payloadLen := payloadLen + OptionalLength(c.password); }
    var remLen := 10 + payloadLen;
    PayloadLength(c);
    assert remLen == |ConnectBody(c)| && connectFlags == ConnectFlags(c);
    VarIntLength(remLen);
    var total := 1 + RemainingLengthBytes(remLen) + remLen;
    if total > buf.Length { return -1; }
    rc := WriteConnect(buf, c, remLen, connectFlags);
  }

  lemma PayloadLength(c: ConnectData)
    ensures |ConnectPayload(c)| == 2 + |c.clientId| + |WillFields(c.will)|
                                   + OptionalLength(c.username) + OptionalLength(c.password)
    ensures |OptionalString(c.username)| == OptionalLength(c.username)
    ensures |OptionalString(c.password)| == OptionalLength(c.password)
    ensures c.will.Some? ==> |WillFields(c.will)| == 4 + |c.will.value.topic| + |c.will.value.message|
    ensures |ConnectBody(c)| == 10 + |ConnectPayload(c)|
  {
  }

  function ConnectHeader(c: ConnectData): Bytes {
    CString([0x4D, 0x51, 0x54, 0x54]) + [4, ConnectFlags(c)] + BE16(c.keepAlive)
  }

  method WriteConnectHeader(buf: array<Byte>, at: nat, c: ConnectData, connectFlags: Byte) returns (next: nat)
    requires connectFlags == ConnectFlags(c) && at + |ConnectHeader(c)| <= buf.Length
    modifies buf
    ensures next == at + |ConnectHeader(c)|
    ensures buf[..next] == old(buf[..at]) + ConnectHeader(c)
    ensures forall j :: next <= j < buf.Length ==> buf[j] == old(buf[j])
  {
    next := WriteCString(buf, at, [0x4D, 0x51, 0x54, 0x54]);
    next := Put(buf, next, [4, connectFlags]);
    next := Put(buf, next, BE16(c.keepAlive));
  }

  method WriteConnect(buf: array<Byte>, c: ConnectData, remLen: nat, connectFlags: Byte) returns (rc: nat)
    requires remLen == |ConnectBody(c)| && connectFlags == ConnectFlags(c)
    requires |ConnectPacket(c)| <= buf.Length
    modifies buf
    ensures rc == |ConnectPacket(c)| && buf[..rc] == ConnectPacket(c)
    ensures forall j :: rc <= j < buf.Length ==> buf[j] == old(buf[j])
  {
    assert ConnectBody(c) == ConnectHeader(c) + ConnectPayload(c);
    hide ConnectFlags, CString, BE16, ConnectBody, ConnectPayload, ConnectHeader;
    rc := Put(buf, 0, [0x10]);
    rc := EncodeRemainingLength(buf, rc, remLen);
    ghost var front := buf[..rc];
    assert front == [0x10] + VarInt(remLen);
    Regroup(front, ConnectHeader(c), ConnectPayload(c));
    rc := WriteConnectHeader(buf, rc, c, connectFlags);
    rc := WriteConnectPayload(buf, rc, c);
  }

  lemma PayloadAfter(front: Bytes, c: ConnectData)
    ensures front + CString(c.clientId) + WillFields(c.will) + OptionalString(c.username) + OptionalString(c.password)
         == front + ConnectPayload(c)
  {
    hide CString, WillFields, OptionalString;
  }

  method WriteConnectPayload(buf: array<Byte>, at: nat, c: ConnectData) returns (next: nat)
    requires at + |ConnectPayload(c)| <= buf.Length
    modifies buf
    ensures next == at + |ConnectPayload(c)|
    ensures buf[..next] == old(buf[..at]) + ConnectPayload(c)
    ensures forall j :: next <= j < buf.Length ==> buf[j] == old(buf[j])
  {
    ghost var front := buf[..at];
    PayloadLength(c);
    PayloadAfter(front, c);
    hide CString, WillFields, OptionalString, ConnectPayload, OptionalLength;
    next := WriteCString(buf, at, c.clientId);
    next := PutWill(buf, next, c.will);
    next := PutOptional(buf, next, c.username);
    next := PutOptional(buf, next, c.password);
  }

  method SerializePingreq(buf: array<Byte>) returns (rc: int)
    modifies buf
    ensures if buf.Length < 2 then rc == -1 && buf[..] == old(buf[..])
            else rc == 2 && buf[..2] == PINGREQ && forall j :: 2 <= j < buf.Length ==> buf[j] == old(buf[j])
  {
    if buf.Length < 2 { return -1; }
    buf[0], buf[1] := 0xC0, 0x00;
    return 2;
  }

  /** Return code of a CONNACK body; None when fewer than two bytes are offered. */
  function DeserializeConnack(buf: Bytes): Option<Byte> {
    if |buf| < 2 then None else Some(buf[1])
  }

  // ---- One-shot parser (reference) ----

  datatype Length = Short | TooLong | Value(value: nat, bytes: nat)

  /** The remaining length at the front of s, of whose bytes `place` were taken. */
  function DecodeVarInt(s: Bytes, place: nat): Length
    decreases |s|
  {
    if s == [] then Short
    else if s[0] < 128 then Value(s[0], 1)
    else if place >= 3 then TooLong
    else match DecodeVarInt(s[1..], place + 1)
      case Value(v, n) => Value(s[0] - 128 + 128 * v, n + 1)
      case other => other
  }

  datatype Parse = NeedMore | Bad | Packet(header: Byte, body: Bytes, consumed: nat)

  /** What the packet at the front of s is, for a receive buffer of `capacity` bytes. */
  function ParsePacket(s: Bytes, capacity: nat): Parse {
    if s == [] then NeedMore
    else match DecodeVarInt(s[1..], 0)
      case Short => NeedMore
      case TooLong => Bad
      case Value(v, n) =>
        if v > capacity then Bad
        else if |s| < 1 + n + v then NeedMore
        else Packet(s[0], s[1 + n..1 + n + v], 1 + n + v)
  }

  // ---- The reader as a byte automaton ----

  datatype Decoder =
    | Header
    | Varint(header: Byte, multiplier: nat, remLen: nat)
    | Body(header: Byte, remLen: nat, got: Bytes)
    | Done(header: Byte, body: Bytes)
    | Malformed
    | Overrun

  predicate InProgress(d: Decoder) {
    d.Header? || d.Varint? || d.Body?
  }

  function Feed(d: Decoder, b: Byte, capacity: nat): Decoder {
    match d
    case Header => Varint(b, 1, 0)
    case Varint(h, m, r) =>
      var total := r + b % 128 * m;
      if b < 128 then
        if total > capacity then Malformed
        else if total == 0 then Done(h, [])
        else Body(h, total, [])
      else if m * 128 > 128 * 128 * 128 then Malformed
      else Varint(h, m * 128, total)
    case Body(h, r, got) =>
      if |got| + 1 == r then Done(h, got + [b]) else Body(h, r, got + [b])
    case Done(_, _) => Overrun
    case Malformed => Malformed
    case Overrun => Overrun
  }

  function FeedAll(d: Decoder, s: Bytes, capacity: nat): Decoder
    decreases |s|
  {
    if s == [] then d else FeedAll(Feed(d, s[0], capacity), s[1..], capacity)
  }

  /** Feeding chunk by chunk is feeding the concatenation. */
  lemma {:induction false} FeedConcat(d: Decoder, a: Bytes, b: Bytes, capacity: nat)
    ensures FeedAll(d, a + b, capacity) == FeedAll(FeedAll(d, a, capacity), b, capacity)
    decreases |a|
  {
    if a == [] {
      assert a + b == b;
    } else {
      assert (a + b)[1..] == a[1..] + b;
      FeedConcat(Feed(d, a[0], capacity), a[1..], b, capacity);
    }
  }

  lemma {:induction false} FeedBody(h: Byte, r: nat, got: Bytes, s: Bytes, capacity: nat)
    requires |got| < r
    ensures FeedAll(Body(h, r, got), s, capacity)
         == if |got| + |s| < r then Body(h, r, got + s)
            else if |got| + |s| == r then Done(h, got + s)
            else Overrun
    decreases |s|
  {
    if s == [] {
      assert got + s == got;
    } else {
      var next := got + [s[0]];
      assert next + s[1..] == got + s;
      if |next| < r {
        FeedBody(h, r, next, s[1..], capacity);
      } else {
        FeedPastEnd(h, next, s[1..], capacity);
      }
    }
  }

  lemma {:induction false} FeedPastEnd(h: Byte, body: Bytes, s: Bytes, capacity: nat)
    ensures FeedAll(Done(h, body), s, capacity) == if s == [] then Done(h, body) else Overrun
    ensures FeedAll(Overrun, s, capacity) == Overrun
    ensures FeedAll(Malformed, s, capacity) == Malformed
    decreases |s|
  {
    if s != [] {
      FeedPastEnd(h, body, s[1..], capacity);
    }
  }

  function Place(k: nat): nat {
    if k == 0 then 1 else if k == 1 then 128 else if k == 2 then 16384 else 2097152
  }

  lemma PlaceStep(k: nat, b: Byte, v: nat)
    requires k <= 3 && b >= 128
    ensures k < 3 ==> Place(k) * 128 == Place(k + 1) <= 128 * 128 * 128
    ensures k == 3 ==> Place(k) * 128 > 128 * 128 * 128
    ensures k < 3 ==> b % 128 * Place(k) + v * Place(k + 1) == (b - 128 + 128 * v) * Place(k)
  {
  }

  lemma FeedContinued(h: Byte, k: nat, r: nat, b: Byte, capacity: nat)
    requires k <= 3 && b >= 128
    ensures Feed(Varint(h, Place(k), r), b, capacity) ==
            if k == 3 then Malformed else Varint(h, Place(k + 1), r + b % 128 * Place(k))
  {
    PlaceStep(k, b, 0);
  }

  lemma {:induction false} FeedVarint(h: Byte, k: nat, r: nat, s: Bytes, capacity: nat)
    requires k <= 3
    ensures var d := FeedAll(Varint(h, Place(k), r), s, capacity);
            match DecodeVarInt(s, k)
            case Short => InProgress(d)
            case TooLong => d == Malformed
            case Value(v, n) =>
              n <= |s| && d == FeedAll(AfterLength(h, r + v * Place(k), capacity), s[n..], capacity)
    decreases |s|
  {
    hide Place, Feed, AfterLength;
    if s != [] && s[0] < 128 {
      FeedLast(h, k, r, s[0], capacity);
    } else if s != [] {
      FeedContinued(h, k, r, s[0], capacity);
      if k == 3 {
        FeedPastEnd(h, [], s[1..], capacity);
      } else {
        FeedVarint(h, k + 1, r + s[0] % 128 * Place(k), s[1..], capacity);
        var rest := DecodeVarInt(s[1..], k + 1);
        if rest.Value? {
          PlaceStep(k, s[0], rest.value);
          assert s[1..][rest.bytes..] == s[rest.bytes + 1..];
        }
      }
    }
  }

  lemma FeedLast(h: Byte, k: nat, r: nat, b: Byte, capacity: nat)
    requires b < 128
    ensures Feed(Varint(h, Place(k), r), b, capacity) == AfterLength(h, r + b * Place(k), capacity)
  {
    hide Place;
  }

  /** Where the automaton stands once the remaining length is known. */
  function AfterLength(h: Byte, total: nat, capacity: nat): Decoder {
    if total > capacity then Malformed else if total == 0 then Done(h, []) else Body(h, total, [])
  }

  /** The automaton agrees with the one-shot parser on every stream: it is done
      exactly when the stream is one whole packet, and rejects exactly what the
      parser rejects. */
  lemma AutomatonIsOneShot(s: Bytes, capacity: nat)
    ensures var d, p := FeedAll(Header, s, capacity), ParsePacket(s, capacity);
            && (p.NeedMore? <==> InProgress(d))
            && (p.Bad? <==> d == Malformed)
            && (p.Packet? && p.consumed == |s| <==> d.Done?)
            && (d.Done? ==> d.header == p.header && d.body == p.body)
  {
    if s != [] {
      FeedVarint(s[0], 0, 0, s[1..], capacity);
      assert FeedAll(Header, s, capacity) == FeedAll(Varint(s[0], 1, 0), s[1..], capacity);
      hide FeedAll, DecodeVarInt;
      match DecodeVarInt(s[1..], 0)
      case Short =>
      case TooLong =>
      case Value(v, n) =>
        assert s[1..][n..] == s[1 + n..];
        FeedAfterLength(s[0], v, s[1 + n..], capacity);
    }
  }

  lemma FeedAfterLength(h: Byte, total: nat, rest: Bytes, capacity: nat)
    ensures FeedAll(AfterLength(h, total, capacity), rest, capacity) ==
            if total > capacity then Malformed
            else if |rest| < total then Body(h, total, rest)
            else if |rest| == total then Done(h, rest)
            else Overrun
  {
    FeedPastEnd(h, [], rest, capacity);
    if 0 < total <= capacity {
      FeedBody(h, total, [], rest, capacity);
      assert [] + rest == rest;
    }
  }

  /** Bytes after a packet, or after a rejected prefix, do not change the verdict. */
  lemma ParsePrefix(s: Bytes, more: Bytes, capacity: nat)
    requires ParsePacket(s, capacity) != NeedMore
    ensures ParsePacket(s + more, capacity) == ParsePacket(s, capacity)
  {
    assert (s + more)[1..] == s[1..] + more;
    DecodePrefix(s[1..], more, 0);
  }

  lemma {:induction false} DecodePrefix(s: Bytes, more: Bytes, place: nat)
    requires DecodeVarInt(s, place) != Short
    ensures DecodeVarInt(s + more, place) == DecodeVarInt(s, place)
    ensures DecodeVarInt(s, place).Value? ==> DecodeVarInt(s, place).bytes <= |s|
    decreases |s|
  {
    if s[0] >= 128 && place < 3 {
      assert (s + more)[1..] == s[1..] + more;
      DecodePrefix(s[1..], more, place + 1);
    }
  }

  // ---- One call of the reader (reference) ----

  /** Outcome of one call: its return value, what it stopped at, the decoder
      left for the next call, and the stream and schedule still unread. */
  datatype Call = Call(rc: int, stop: Decoder, next: Decoder, pos: nat, schedule: seq<int>)

  /** How many bytes the reader asks its transport for. */
  function Want(d: Decoder): nat {
    if d.Body? && |d.got| <= d.remLen then d.remLen - |d.got| else 1
  }

  /** What a transport offering schedule[0] bytes delivers: -1 error, 0 nothing yet. */
  function Delivered(left: nat, schedule: seq<int>, want: nat): (n: int)
    ensures -1 <= n <= left && n <= want
    ensures n > 0 ==> schedule != []
  {
    if schedule == [] then 0
    else if schedule[0] < 0 then -1
    else if schedule[0] <= want && schedule[0] <= left then schedule[0]
    else if want <= left then want
    else left
  }

  function ReadCall(d: Decoder, stream: Bytes, pos: nat, schedule: seq<int>, capacity: nat): (c: Call)
    requires pos <= |stream|
    ensures pos <= c.pos <= |stream|
    ensures |c.schedule| <= |schedule| && (schedule != [] ==> |c.schedule| < |schedule|)
    decreases |schedule|
  {
    var n := Delivered(|stream| - pos, schedule, Want(d));
    var rest := if schedule == [] then [] else schedule[1..];
    if n < 0 then Call(-1, d, Header, pos, rest)
    else if n == 0 then Call(0, d, d, pos, rest)
    else
      var fed := FeedAll(d, stream[pos..pos + n], capacity);
      if fed.Done? then Call(fed.header / 16, fed, Header, pos + n, rest)
      else if !InProgress(fed) then Call(-1, fed, Header, pos + n, rest)
      else ReadCall(fed, stream, pos + n, rest, capacity)
  }

  /** A buffer whose front was overwritten. */
  function Overwrite(front: Bytes, before: Bytes): Bytes {
    if |front| <= |before| then front + before[|front|..] else before
  }

  /** The receive buffer once the reader stopped at d: the body bytes taken so
      far, and whatever was there before behind them. */
  function Overlay(before: Bytes, d: Decoder): Bytes {
    match d
    case Body(_, _, got) => Overwrite(got, before)
    case Done(_, body) => Overwrite(body, before)
    case _ => before
  }

  // ---- The resumable reader ----

  /** A receive stream delivered by an arbitrary schedule: per read, a transport
      error (negative), nothing (zero), or up to that many bytes. */
  class Socket {
    const stream: Bytes
    var pos: nat
    var schedule: seq<int>

    ghost predicate Valid()
      reads this
    {
      pos <= |stream|
    }

    constructor (stream: Bytes, schedule: seq<int>)
      ensures Valid() && this.stream == stream && pos == 0 && this.schedule == schedule
    {
      this.stream, this.pos, this.schedule := stream, 0, schedule;
    }

    /** getfn: -1 on error, 0 for "call again", else the bytes stored at buf[at..]. */
    method Read(buf: array<Byte>, at: nat, want: nat) returns (n: int)
      requires Valid() && at + want <= buf.Length
      modifies this, buf
      ensures Valid() && n == Delivered(|stream| - old(pos), old(schedule), want)
      ensures schedule == if old(schedule) == [] then [] else old(schedule)[1..]
      ensures n >= 0 ==> pos == old(pos) + n && buf[at..at + n] == stream[old(pos)..pos]
      ensures n < 0 ==> pos == old(pos)
      ensures n <= 0 ==> buf[..] == old(buf[..])
      ensures forall j :: 0 <= j < buf.Length && !(at <= j < at + n) ==> buf[j] == old(buf[j])
    {
      n := Delivered(|stream| - pos, schedule, want);
      schedule := if schedule == [] then [] else schedule[1..];
      if n > 0 {
        forall i | 0 <= i < n {
          buf[at + i] := stream[pos + i];
        }
        pos := pos + n;
      }
    }

    /** A one-byte read into a local. */
    method ReadByte() returns (n: int, b: Byte)
      requires Valid()
      modifies this
      ensures Valid() && n == Delivered(|stream| - old(pos), old(schedule), 1)
      ensures schedule == if old(schedule) == [] then [] else old(schedule)[1..]
      ensures n > 0 ==> pos == old(pos) + 1 && stream[old(pos)..pos] == [b]
      ensures n <= 0 ==> pos == old(pos)
    {
      var one := new Byte[1];
      n := Read(one, 0, 1);
      b := one[0];
      assert one[0..1] == [b];
    }
  }

  class Transport {
    var state: nat
    var header: Byte
    var multiplier: nat
    var remLen: nat
    var have: nat

    ghost predicate Valid(buf: array<Byte>)
      reads this
    {
      && state <= 2
      && (state == 1 ==> have == 0)
      && (state == 2 ==> have < remLen <= buf.Length)
    }

    /** What has been decoded so far. */
    ghost function Decoded(buf: array<Byte>): Decoder
      requires Valid(buf)
      reads this, buf
    {
      if state == 0 then Header
      else if state == 1 then Varint(header, multiplier, remLen)
      else Body(header, remLen, buf[..have])
    }

    constructor ()
      ensures state == 0
    {
      state, header, multiplier, remLen, have := 0, 0, 1, 0, 0;
    }

    /** The rest of the current call, from here, is `call`. */
    ghost predicate Remaining(buf: array<Byte>, sock: Socket, call: Call)
      requires Valid(buf) && sock.Valid()
      reads this, buf, sock
    {
      ReadCall(Decoded(buf), sock.stream, sock.pos, sock.schedule, buf.Length) == call
    }

    /** The call is over and did what `call` says. */
    ghost predicate Finished(buf: array<Byte>, sock: Socket, call: Call, rc: int, before: Bytes)
      reads this, buf, sock
    {
      && Valid(buf) && sock.Valid()
      && rc == call.rc && Decoded(buf) == call.next
      && sock.pos == call.pos && sock.schedule == call.schedule
      && buf[..] == Overlay(before, call.stop)
    }

    /** One non-blocking call, resuming where the previous one stopped. */
    method ReadNb(buf: array<Byte>, sock: Socket) returns (rc: int)
      requires Valid(buf) && sock.Valid()
      modifies this, buf, sock
      ensures Finished(buf, sock,
                old(ReadCall(Decoded(buf), sock.stream, sock.pos, sock.schedule, buf.Length)), rc, old(buf[..]))
    {
      ghost var call := ReadCall(Decoded(buf), sock.stream, sock.pos, sock.schedule, buf.Length);
      hide ReadCall, Delivered, FeedAll;
      if state == 0 {
        multiplier, remLen, have := 1, 0, 0;
        ReadCallOneByte(Header, sock.stream, sock.pos, sock.schedule, buf.Length);
        var n, b := sock.ReadByte();
        if n < 0 { return -1; }
        if n == 0 { return 0; }
        header := b;
        state := 1;
      }
      if state == 1 {
        var stopped;
        rc, stopped := ReadLength(buf, sock, call);
        if stopped { return; }
      }
      rc := ReadBody(buf, sock, call);
    }

    method ReadLength(buf: array<Byte>, sock: Socket, ghost call: Call) returns (rc: int, stopped: bool)
      requires Valid(buf) && sock.Valid() && state == 1 && have == 0 && Remaining(buf, sock, call)
      modifies this, sock
      ensures stopped ==> Finished(buf, sock, call, rc, buf[..])
      ensures !stopped ==>
        && sock.Valid() && state == 2 && have == 0 && remLen <= buf.Length
        && (remLen > 0 ==> Remaining(buf, sock, call))
        && (remLen == 0 ==> call == Call(header / 16, Done(header, []), Header, sock.pos, sock.schedule))
    {
      hide ReadCall, Delivered, FeedAll, Feed, Overwrite;
      stopped := true;
      while true
        invariant Valid(buf) && sock.Valid() && state == 1 && have == 0 && Remaining(buf, sock, call)
        decreases |sock.schedule|
      {
        ReadCallOneByte(Decoded(buf), sock.stream, sock.pos, sock.schedule, buf.Length);
        var n, b := sock.ReadByte();
        if n < 0 { state := 0; return -1, true; }
        if n == 0 { return 0, true; }
        assert sock.stream[sock.pos - 1..sock.pos][0] == b;
        FeedLengthByte(header, multiplier, remLen, b, buf.Length);
        remLen := remLen + b % 128 * multiplier;
        if b < 128 { break; }
        multiplier := multiplier * 128;
        if multiplier > 128 * 128 * 128 { state := 0; return -1, true; }
      }
      if remLen > buf.Length { state := 0; return -1, true; }
      state := 2;
      stopped := false;
      rc := 0;
      assert remLen > 0 ==> buf[..have] == [];
    }

    method ReadBody(buf: array<Byte>, sock: Socket, ghost call: Call) returns (rc: int)
      requires sock.Valid() && state == 2 && have <= remLen <= buf.Length
      requires have < remLen ==> Remaining(buf, sock, call)
      requires have == remLen ==> have == 0 && call == Call(header / 16, Done(header, []), Header, sock.pos, sock.schedule)
      modifies this, buf, sock
      ensures Finished(buf, sock, call, rc, old(buf[..]))
    {
      hide ReadCall, Delivered, FeedAll, Feed, Overwrite;
      while have < remLen
        invariant sock.Valid() && state == 2 && have <= remLen == old(remLen) <= buf.Length
        invariant have < remLen ==> Remaining(buf, sock, call)
        invariant have == remLen ==>
          call == Call(header / 16, Done(header, buf[..have]), Header, sock.pos, sock.schedule)
        invariant forall j :: have <= j < buf.Length ==> buf[j] == old(buf[j])
        decreases remLen - have
      {
        Overwritten(old(buf[..]), buf[..], have);
        var n := ReadSome(buf, sock, call);
        if n <= 0 { return n; }
      }
      Overwritten(old(buf[..]), buf[..], have);
      rc := header / 16;
      state := 0;
    }

    /** One read of the payload phase. */
    method ReadSome(buf: array<Byte>, sock: Socket, ghost call: Call) returns (n: int)
      requires sock.Valid() && state == 2 && have < remLen <= buf.Length && Remaining(buf, sock, call)
      modifies this`have, this`state, buf, sock
      ensures n > 0 ==>
        && sock.Valid() && state == 2 && have == old(have) + n <= remLen
        && (have < remLen ==> Remaining(buf, sock, call))
        && (have == remLen ==> call == Call(header / 16, Done(header, buf[..have]), Header, sock.pos, sock.schedule))
        && forall j :: have <= j < buf.Length ==> buf[j] == old(buf[j])
      ensures n <= 0 ==>
        && buf[..] == old(buf[..]) && have == old(have)
        && call.stop == Body(header, remLen, buf[..have])
        && Valid(buf) && sock.Valid() && n == call.rc && Decoded(buf) == call.next
        && sock.pos == call.pos && sock.schedule == call.schedule
    {
      hide ReadCall, Delivered, FeedAll, Feed, Overwrite;
      ghost var got, start := buf[..have], sock.pos;
      ReadCallInBody(header, remLen, got, sock.stream, sock.pos, sock.schedule, buf.Length);
      n := sock.Read(buf, have, remLen - have);
      if n <= 0 {
        assert buf[..have] == got;
        if n < 0 { state := 0; }
        return n;
      }
      assert buf[..have + n] == got + sock.stream[start..sock.pos];
      have := have + n;
    }
  }

  lemma FeedLengthByte(h: Byte, multiplier: nat, r: nat, b: Byte, capacity: nat)
    ensures Feed(Varint(h, multiplier, r), b, capacity) ==
            if b < 128 then AfterLength(h, r + b % 128 * multiplier, capacity)
            else if multiplier * 128 > 128 * 128 * 128 then Malformed
            else Varint(h, multiplier * 128, r + b % 128 * multiplier)
  {
  }

  lemma Overwritten(before: Bytes, after: Bytes, n: nat)
    requires n <= |before| == |after| && forall j :: n <= j < |after| ==> after[j] == before[j]
    ensures after == Overwrite(after[..n], before)
  {
  }

  /** One read of the payload phase, for whatever amount is delivered. */
  lemma ReadCallInBody(h: Byte, r: nat, got: Bytes, stream: Bytes, pos: nat, schedule: seq<int>, capacity: nat)
    requires |got| < r && pos <= |stream|
    ensures var n, rest := Delivered(|stream| - pos, schedule, r - |got|), if schedule == [] then [] else schedule[1..];
            ReadCall(Body(h, r, got), stream, pos, schedule, capacity) ==
            if n < 0 then Call(-1, Body(h, r, got), Header, pos, rest)
            else if n == 0 then Call(0, Body(h, r, got), Body(h, r, got), pos, rest)
            else if |got| + n < r then ReadCall(Body(h, r, got + stream[pos..pos + n]), stream, pos + n, rest, capacity)
            else Call(h / 16, Done(h, got + stream[pos..pos + n]), Header, pos + n, rest)
  {
    var n := Delivered(|stream| - pos, schedule, r - |got|);
    if n > 0 {
      FeedBody(h, r, got, stream[pos..pos + n], capacity);
    }
  }

  /** One read of the header or length phase, a byte at a time. */
  lemma ReadCallOneByte(d: Decoder, stream: Bytes, pos: nat, schedule: seq<int>, capacity: nat)
    requires (d.Header? || d.Varint?) && pos <= |stream|
    ensures var n, rest := Delivered(|stream| - pos, schedule, 1), if schedule == [] then [] else schedule[1..];
            ReadCall(d, stream, pos, schedule, capacity) ==
            if n < 0 then Call(-1, d, Header, pos, rest)
            else if n == 0 then Call(0, d, d, pos, rest)
            else
              var fed := Feed(d, stream[pos..pos + 1][0], capacity);
              if fed.Done? then Call(fed.header / 16, fed, Header, pos + 1, rest)
              else if !InProgress(fed) then Call(-1, fed, Header, pos + 1, rest)
              else ReadCall(fed, stream, pos + 1, rest, capacity)
  {
    if Delivered(|stream| - pos, schedule, 1) > 0 {
      assert stream[pos..pos + 1] == [stream[pos]];
      FeedOne(d, stream[pos], capacity);
    }
  }

  lemma FeedOne(d: Decoder, b: Byte, capacity: nat)
    ensures FeedAll(d, [b], capacity) == Feed(d, b, capacity)
  {
    assert [b][1..] == [];
  }

  // ---- Fragmentation independence ----

  /** Calling the reader again for as long as it returns 0 and reads remain. */
  function ReadPacket(d: Decoder, stream: Bytes, pos: nat, schedule: seq<int>, capacity: nat): (c: Call)
    requires pos <= |stream|
    ensures pos <= c.pos <= |stream|
    decreases |schedule|
  {
    var call := ReadCall(d, stream, pos, schedule, capacity);
    if call.rc == 0 && call.schedule != [] then ReadPacket(call.next, stream, call.pos, call.schedule, capacity)
    else call
  }

  predicate NoErrors(schedule: seq<int>) {
    forall i :: 0 <= i < |schedule| ==> schedule[i] >= 0
  }

  predicate WellFormed(d: Decoder) {
    InProgress(d) && (d.Body? ==> |d.got| < d.remLen)
  }

  /** How many reads of the schedule offer data. */
  function Offers(schedule: seq<int>): nat {
    if schedule == [] then 0 else (if schedule[0] > 0 then 1 else 0) + Offers(schedule[1..])
  }

  lemma ChunkFed(d: Decoder, chunk: Bytes, capacity: nat)
    requires WellFormed(d) && |chunk| <= Want(d)
    ensures var fed := FeedAll(d, chunk, capacity);
            fed != Overrun && (InProgress(fed) ==> WellFormed(fed))
  {
    if d.Body? {
      FeedBody(d.header, d.remLen, d.got, chunk, capacity);
    } else if chunk != [] {
      assert chunk == [chunk[0]];
      FeedOne(d, chunk[0], capacity);
    }
  }

  lemma {:induction false} ReadCallReturns(d: Decoder, stream: Bytes, pos: nat, schedule: seq<int>, capacity: nat)
    requires pos <= |stream| && InProgress(d)
    ensures var c := ReadCall(d, stream, pos, schedule, capacity);
            && (c.stop.Done? ==> c.rc == c.stop.header / 16 && c.next == Header)
            && (c.stop == Malformed ==> c.rc == -1)
            && (InProgress(c.stop) && c.rc == 0 ==> c.next == c.stop)
            && (c.rc != 0 ==> c.next == Header)
            && (InProgress(c.stop) && c.rc != 0 ==> c.rc == -1 && !NoErrors(schedule))
    decreases |schedule|
  {
    var n := Delivered(|stream| - pos, schedule, Want(d));
    if n > 0 {
      var fed := FeedAll(d, stream[pos..pos + n], capacity);
      hide FeedAll;
      assert NoErrors(schedule) ==> NoErrors(schedule[1..]);
      if InProgress(fed) {
        ReadCallReturns(fed, stream, pos + n, schedule[1..], capacity);
      }
    }
  }

  /** One read of a call. */
  lemma UnfoldCall(d: Decoder, stream: Bytes, pos: nat, schedule: seq<int>, capacity: nat)
    requires pos <= |stream|
    ensures var n := Delivered(|stream| - pos, schedule, Want(d));
            var rest := if schedule == [] then [] else schedule[1..];
            ReadCall(d, stream, pos, schedule, capacity) ==
            if n < 0 then Call(-1, d, Header, pos, rest)
            else if n == 0 then Call(0, d, d, pos, rest)
            else
              var fed := FeedAll(d, stream[pos..pos + n], capacity);
              if fed.Done? then Call(fed.header / 16, fed, Header, pos + n, rest)
              else if !InProgress(fed) then Call(-1, fed, Header, pos + n, rest)
              else ReadCall(fed, stream, pos + n, rest, capacity)
  {
    hide FeedAll, Delivered, Want;
  }

  lemma FeedSlices(d: Decoder, s: Bytes, a: nat, b: nat, c: nat, capacity: nat)
    requires a <= b <= c <= |s|
    ensures FeedAll(FeedAll(d, s[a..b], capacity), s[b..c], capacity) == FeedAll(d, s[a..c], capacity)
    ensures FeedAll(d, s[a..a], capacity) == d
  {
    FeedConcat(d, s[a..b], s[b..c], capacity);
    assert s[a..b] + s[b..c] == s[a..c];
  }

  lemma {:induction false} ReadCallFeeds(d: Decoder, stream: Bytes, pos: nat, schedule: seq<int>, capacity: nat)
    requires pos <= |stream| && WellFormed(d)
    ensures var c := ReadCall(d, stream, pos, schedule, capacity);
            && c.stop == FeedAll(d, stream[pos..c.pos], capacity)
            && c.stop != Overrun
            && (InProgress(c.stop) ==> WellFormed(c.stop))
    decreases |schedule|
  {
    hide *;
    UnfoldCall(d, stream, pos, schedule, capacity);
    FeedSlices(d, stream, pos, pos, pos, capacity);
    StillOpen(d);
    var n := Delivered(|stream| - pos, schedule, Want(d));
    if n > 0 {
      ChunkFed(d, stream[pos..pos + n], capacity);
      var fed := FeedAll(d, stream[pos..pos + n], capacity);
      if InProgress(fed) {
        var rest := if schedule == [] then [] else schedule[1..];
        ReadCallFeeds(fed, stream, pos + n, rest, capacity);
        FeedSlices(d, stream, pos, pos + n, ReadCall(fed, stream, pos + n, rest, capacity).pos, capacity);
      }
    }
  }

  lemma StillOpen(d: Decoder)
    requires WellFormed(d)
    ensures InProgress(d) && d != Overrun
  {
  }

  lemma OfferStep(d: Decoder, left: nat, schedule: seq<int>)
    requires WellFormed(d) && NoErrors(schedule)
    ensures var n, rest := Delivered(left, schedule, Want(d)), if schedule == [] then [] else schedule[1..];
            && NoErrors(rest) && n >= 0
            && Offers(schedule) <= Offers(rest) + 1
            && (n == 0 ==> left == 0 || Offers(schedule) == Offers(rest))
  {
  }

  lemma {:induction false} ReadCallUsesOffers(d: Decoder, stream: Bytes, pos: nat, schedule: seq<int>, capacity: nat)
    requires pos <= |stream| && WellFormed(d) && NoErrors(schedule)
    ensures var c := ReadCall(d, stream, pos, schedule, capacity);
            && NoErrors(c.schedule)
            && (c.pos == |stream| || c.pos - pos >= Offers(schedule) - Offers(c.schedule))
    decreases |schedule|
  {
    hide *;
    UnfoldCall(d, stream, pos, schedule, capacity);
    OfferStep(d, |stream| - pos, schedule);
    var n := Delivered(|stream| - pos, schedule, Want(d));
    if n > 0 {
      ChunkFed(d, stream[pos..pos + n], capacity);
      var fed := FeedAll(d, stream[pos..pos + n], capacity);
      if InProgress(fed) {
        ReadCallUsesOffers(fed, stream, pos + n, schedule[1..], capacity);
      }
    }
  }

  /** The exact bytes of a packet, and any longer prefix, parse alike. */
  lemma ParseExact(s: Bytes, k: nat, capacity: nat)
    requires ParsePacket(s, capacity).Packet? && ParsePacket(s, capacity).consumed <= k <= |s|
    ensures ParsePacket(s[..k], capacity) == ParsePacket(s, capacity)
  {
    var length := DecodeVarInt(s[1..], 0);
    DecodeCut(s[1..], k - 1, 0);
    assert s[..k][1..] == s[1..k] == s[1..][..k - 1];
    TakeSlice(s, 1 + length.bytes, 1 + length.bytes + length.value, k);
  }

  lemma TakeSlice(s: Bytes, a: nat, b: nat, k: nat)
    requires a <= b <= k <= |s|
    ensures s[..k][a..b] == s[a..b]
  {
  }

  lemma {:induction false} DecodeCut(s: Bytes, k: nat, place: nat)
    requires DecodeVarInt(s, place).Value? && DecodeVarInt(s, place).bytes <= k <= |s|
    ensures DecodeVarInt(s[..k], place) == DecodeVarInt(s, place)
    decreases |s|
  {
    if s[0] >= 128 {
      DecodeCut(s[1..], k - 1, place + 1);
      assert s[..k][1..] == s[1..][..k - 1];
    }
  }

  /** Every call continues one automaton run over the bytes consumed since `start`. */
  lemma {:induction false} ReadPacketFrom(stream: Bytes, start: nat, pos: nat, schedule: seq<int>, capacity: nat)
    requires start <= pos <= |stream| && (start < |stream| ==> stream[start] >= 16)
    requires WellFormed(FeedAll(Header, stream[start..pos], capacity))
    ensures var d := FeedAll(Header, stream[start..pos], capacity);
            var c := ReadPacket(d, stream, pos, schedule, capacity);
            && c.stop == FeedAll(Header, stream[start..c.pos], capacity)
            && c.stop != Overrun
            && (c.stop.Done? ==> c.rc == c.stop.header / 16)
            && (c.stop == Malformed ==> c.rc == -1)
            && (InProgress(c.stop) && c.rc != 0 ==> c.rc == -1 && !NoErrors(schedule))
            && (NoErrors(schedule) && InProgress(c.stop) ==> c.pos == |stream| || c.pos - pos >= Offers(schedule))
    decreases |schedule|
  {
    var d := FeedAll(Header, stream[start..pos], capacity);
    var call := ReadCall(d, stream, pos, schedule, capacity);
    ReadCallFeeds(d, stream, pos, schedule, capacity);
    ReadCallReturns(d, stream, pos, schedule, capacity);
    hide FeedAll, ReadCall, ParsePacket;
    FeedSlices(Header, stream, start, pos, call.pos, capacity);
    if NoErrors(schedule) {
      ReadCallUsesOffers(d, stream, pos, schedule, capacity);
    }
    if call.rc == 0 && call.schedule != [] {
      assert InProgress(call.stop) by {
        if call.stop.Done? { DoneHeader(stream[start..call.pos], capacity); }
      }
      ReadPacketFrom(stream, start, call.pos, call.schedule, capacity);
    }
  }

  lemma DoneHeader(s: Bytes, capacity: nat)
    requires FeedAll(Header, s, capacity).Done?
    ensures s != [] && FeedAll(Header, s, capacity).header == s[0]
  {
    AutomatonIsOneShot(s, capacity);
  }

  /** Whatever the schedule of short, empty and failing reads, a reader polled
      until it returns nonzero reports the type and body a one-shot parse of the
      stream reports, having consumed exactly that packet's bytes; it rejects
      only what the one-shot parser rejects.  The type nibble must be nonzero. */
  lemma FragmentationIndependent(stream: Bytes, start: nat, schedule: seq<int>, capacity: nat)
    requires start < |stream| && stream[start] >= 16
    ensures var c, whole := ReadPacket(Header, stream, start, schedule, capacity), ParsePacket(stream[start..], capacity);
            && (c.rc > 0 ==> c.stop.Done? && whole == Packet(c.stop.header, c.stop.body, c.pos - start) && c.rc == whole.header / 16)
            && (c.rc < 0 && NoErrors(schedule) ==> whole == Bad)
            && (c.rc == 0 ==> ParsePacket(stream[start..c.pos], capacity) == NeedMore)
  {
    var c := ReadPacket(Header, stream, start, schedule, capacity);
    assert stream[start..start] == [];
    ReadPacketFrom(stream, start, start, schedule, capacity);
    AutomatonIsOneShot(stream[start..c.pos], capacity);
    if !InProgress(c.stop) {
      if c.stop.Done? { DoneHeader(stream[start..c.pos], capacity); }
      ParsePrefix(stream[start..c.pos], stream[c.pos..], capacity);
      assert stream[start..c.pos] + stream[c.pos..] == stream[start..];
    }
  }

  /** And it does finish: one data-bearing read per byte of the packet suffices. */
  lemma EnoughReadsFinish(stream: Bytes, start: nat, schedule: seq<int>, capacity: nat)
    requires start < |stream| && stream[start] >= 16 && NoErrors(schedule)
    requires ParsePacket(stream[start..], capacity).Packet?
    requires Offers(schedule) >= ParsePacket(stream[start..], capacity).consumed
    ensures ReadPacket(Header, stream, start, schedule, capacity).rc == stream[start] / 16
  {
    var c := ReadPacket(Header, stream, start, schedule, capacity);
    var whole := ParsePacket(stream[start..], capacity);
    assert stream[start..start] == [];
    ReadPacketFrom(stream, start, start, schedule, capacity);
    AutomatonIsOneShot(stream[start..c.pos], capacity);
    ConsumedFits(stream[start..], capacity);
    var seen := stream[start..c.pos];
    assert stream[start..][..|seen|] == seen;
    hide FeedAll, ReadPacket, ParsePacket;
    if InProgress(c.stop) {
      ParseExact(stream[start..], |seen|, capacity);
      assert false;
    } else {
      ParsePrefix(seen, stream[c.pos..], capacity);
      assert seen + stream[c.pos..] == stream[start..];
      DoneHeader(seen, capacity);
    }
  }

  lemma ConsumedFits(s: Bytes, capacity: nat)
    requires ParsePacket(s, capacity).Packet?
    ensures ParsePacket(s, capacity).consumed <= |s| && ParsePacket(s, capacity).header == s[0]
  {
  }

  /** The return value alone cannot tell a completed packet from an unfinished
      one exactly when the type nibble is zero. */
  lemma ZeroTypeLooksUnfinished(stream: Bytes, pos: nat, schedule: seq<int>, capacity: nat)
    requires pos < |stream|
    requires ReadCall(Header, stream, pos, schedule, capacity).stop.Done?
    ensures ReadCall(Header, stream, pos, schedule, capacity).rc == 0 <==> stream[pos] < 16
  {
    var c := ReadCall(Header, stream, pos, schedule, capacity);
    ReadCallFeeds(Header, stream, pos, schedule, capacity);
    ReadCallReturns(Header, stream, pos, schedule, capacity);
    DoneHeader(stream[pos..c.pos], capacity);
  }

  // ---- What the bytes say, MQTT 3.1.1 section 2.2.3 ----

  /** The remaining length ends with its n-th byte. */
  predicate LengthEnds(s: Bytes, n: nat) {
    1 <= n <= 4 && n < |s| && s[n] < 128 && forall k :: 1 <= k < n ==> s[k] >= 128
  }

  /** Seven bits a byte, the least significant first. */
  function StatedLength(s: Bytes, n: nat): nat
    requires 1 <= n <= 4 && n < |s|
  {
    Bits(s[1]) + (if n >= 2 then 128 * Bits(s[2]) else 0)
    + (if n >= 3 then 16384 * Bits(s[3]) else 0) + if n >= 4 then 2097152 * Bits(s[4]) else 0
  }

  /** The seven bits of a length byte. */
  function Bits(b: Byte): nat {
    b % 128
  }

  /** Every input of the reader: four length bytes that all continue are malformed,
      a length beyond the buffer is refused, and otherwise the packet is the fixed
      header and exactly the bytes stated, as soon as they are there. */
  lemma ParsesExactly(s: Bytes, n: nat, capacity: nat)
    ensures |s| >= 5 && (forall k :: 1 <= k <= 4 ==> s[k] >= 128) ==> ParsePacket(s, capacity) == Bad
    ensures |s| <= 4 && (forall k :: 1 <= k < |s| ==> s[k] >= 128) ==> ParsePacket(s, capacity) == NeedMore
    ensures LengthEnds(s, n) ==>
            var v := StatedLength(s, n);
            ParsePacket(s, capacity) ==
            if v > capacity then Bad else if |s| < 1 + n + v then NeedMore
            else Packet(s[0], s[1 + n..1 + n + v], 1 + n + v)
  {
    hide DecodeVarInt, StatedLength;
    if s != [] { LengthDecodes(s, n); }
  }

  lemma LengthDecodes(s: Bytes, n: nat)
    requires s != []
    ensures |s| >= 5 && (forall k :: 1 <= k <= 4 ==> s[k] >= 128) ==> DecodeVarInt(s[1..], 0) == TooLong
    ensures |s| <= 4 && (forall k :: 1 <= k < |s| ==> s[k] >= 128) ==> DecodeVarInt(s[1..], 0) == Short
    ensures LengthEnds(s, n) ==> DecodeVarInt(s[1..], 0) == Value(StatedLength(s, n), n)
  {
    hide DecodeVarInt, Bits;
    LengthStep(s, 1);
    LengthStep(s, 2);
    LengthStep(s, 3);
    LengthStep(s, 4);
    if LengthEnds(s, n) {
      forall k | 1 <= k <= n ensures Bits(s[k]) == if k < n then s[k] - 128 else s[k] {
        BitsOf(s[k]);
      }
    }
  }

  lemma BitsOf(b: Byte)
    ensures Bits(b) == if b >= 128 then b - 128 else b
  {
  }

  lemma LengthStep(s: Bytes, k: nat)
    requires 1 <= k <= 4
    ensures k == |s| ==> DecodeVarInt(s[k..], k - 1) == Short
    ensures k < |s| && s[k] < 128 ==> DecodeVarInt(s[k..], k - 1) == Value(s[k], 1)
    ensures k < |s| && s[k] >= 128 ==>
            DecodeVarInt(s[k..], k - 1) ==
            if k == 4 then TooLong else
              match DecodeVarInt(s[k + 1..], k) case Value(v, m) => Value(s[k] - 128 + 128 * v, m + 1) case other => other
  {
    if k < |s| { assert s[k..][1..] == s[k + 1..]; }
  }

  /** The encoder's examples in that section. */
  lemma LengthExamples()
    ensures VarInt(64) == [0x40] && VarInt(321) == [0xC1, 0x02] && VarInt(16_383) == [0xFF, 0x7F]
    ensures VarInt(16_384) == [0x80, 0x80, 0x01] && VarInt(2_097_152) == [0x80, 0x80, 0x80, 0x01]
  {
    assert VarInt(128) == [0x80, 0x01] && VarInt(16_384) == [0x80] + VarInt(128);
    assert VarInt(2_097_152) == [0x80] + VarInt(16_384);
  }

  // ---- The reader inverts the serializers ----

  lemma {:induction false} VarIntRoundTrip(n: nat, place: nat, rest: Bytes)
    requires place <= 3 && n * Place(place) < 0x1000_0000
    ensures DecodeVarInt(VarInt(n) + rest, place) == Value(n, |VarInt(n)|)
    decreases n
  {
    if n >= 128 {
      assert (VarInt(n) + rest)[1..] == VarInt(n / 128) + rest;
      VarIntRoundTrip(n / 128, place + 1, rest);
    }
  }

  /** A framed body parses back, whatever follows it. */
  lemma FrameRoundTrip(header: Byte, body: Bytes, rest: Bytes, capacity: nat)
    requires |body| < 0x1000_0000
    ensures var packet := [header] + VarInt(|body|) + body;
            ParsePacket(packet + rest, capacity) ==
            if |body| > capacity then Bad else Packet(header, body, |packet|)
  {
    var packet := [header] + VarInt(|body|) + body;
    var s, n := packet + rest, |VarInt(|body|)|;
    assert s[1..] == VarInt(|body|) + (body + rest);
    VarIntRoundTrip(|body|, 0, body + rest);
    assert s[1 + n..1 + n + |body|] == body;
  }

  function TakeString(s: Bytes): Option<(Bytes, Bytes)> {
    if |s| < 2 then None
    else
      var n := FromBE16(s[..2]);
      if |s| < 2 + n then None else Some((s[2..2 + n], s[2 + n..]))
  }

  lemma StringRoundTrip(s: Bytes, rest: Bytes)
    requires |s| < 0x1_0000
    ensures TakeString(CString(s) + rest) == Some((s, rest))
  {
    var t := CString(s) + rest;
    assert t[..2] == [|s| / 0x100 % 0x100, |s| % 0x100];
    assert t[2..2 + |s|] == s && t[2 + |s|..] == rest;
  }

  datatype Publication = Publication(dup: bool, qos: nat, retained: bool, packetId: U16, topic: Bytes, payload: Bytes)

  /** A PUBLISH as a receiver reads it, MQTT 3.1.1 section 3.3. */
  function DecodePublish(header: Byte, body: Bytes): Option<Publication> {
    if header / 16 != 3 then None
    else match TakeString(body)
      case None => None
      case Some((topic, rest)) =>
        var dup, qos, retained := header / 8 % 2 == 1, header / 2 % 4, header % 2 == 1;
        if qos == 0 then Some(Publication(dup, qos, retained, 0, topic, rest))
        else if |rest| < 2 then None
        else Some(Publication(dup, qos, retained, FromBE16(rest[..2]), topic, rest[2..]))
  }

  lemma HeaderBits(dup: bool, qos: nat, retained: bool)
    requires qos <= 3
    ensures var h := PublishHeader(dup, qos, retained);
            h / 16 == 3 && (h / 8 % 2 == 1 <==> dup) && h / 2 % 4 == qos && (h % 2 == 1 <==> retained)
  {
  }

  function PublishTail(p: Publication): Bytes {
    (if p.qos > 0 then BE16(p.packetId) else []) + p.payload
  }

  lemma PublishBodyParts(p: Publication)
    ensures PublishBody(p.qos, p.packetId, p.topic, p.payload) == CString(p.topic) + PublishTail(p)
    ensures p.qos > 0 ==> var t := PublishTail(p);
                          |t| >= 2 && FromBE16(t[..2]) == p.packetId && t[2..] == p.payload
    ensures p.qos == 0 ==> PublishTail(p) == p.payload
  {
    hide CString;
    if p.qos > 0 {
      assert PublishTail(p)[..2] == BE16(p.packetId);
    }
  }

  lemma PublishBodyDecodes(p: Publication)
    requires |p.topic| < 0x1_0000 && p.qos <= 3 && (p.qos == 0 ==> p.packetId == 0)
    ensures DecodePublish(PublishHeader(p.dup, p.qos, p.retained), PublishBody(p.qos, p.packetId, p.topic, p.payload)) == Some(p)
  {
    HeaderBits(p.dup, p.qos, p.retained);
    PublishBodyParts(p);
    StringRoundTrip(p.topic, PublishTail(p));
    hide CString, TakeString, PublishHeader, PublishBody, PublishTail, FromBE16;
  }

  /** Publishing and reading back is the identity for every topic and payload
      that fits, whatever follows in the stream. */
  lemma PublishRoundTrip(p: Publication, rest: Bytes, capacity: nat)
    requires |p.topic| < 0x1_0000 && p.qos <= 3 && (p.qos == 0 ==> p.packetId == 0)
    requires |PublishBody(p.qos, p.packetId, p.topic, p.payload)| <= capacity < 0x1000_0000
    ensures var packet := PublishPacket(p.dup, p.qos, p.retained, p.packetId, p.topic, p.payload);
            var read := ParsePacket(packet + rest, capacity);
            && read.Packet? && read.consumed == |packet|
            && DecodePublish(read.header, read.body) == Some(p)
  {
    hide PublishBody, PublishHeader, DecodePublish, ParsePacket;
    FrameRoundTrip(PublishHeader(p.dup, p.qos, p.retained),
      PublishBody(p.qos, p.packetId, p.topic, p.payload), rest, capacity);
    PublishBodyDecodes(p);
  }

  /** A CONNECT as a server reads it, MQTT 3.1.1 section 3.1. */
  function DecodeConnect(header: Byte, body: Bytes): Option<ConnectData> {
    if header != 0x10 || |body| < 10 || body[..7] != CString([0x4D, 0x51, 0x54, 0x54]) + [4] then None
    else DecodePayload(body[7], FromBE16(body[8..10]), body[10..])
  }

  function DecodePayload(flags: Byte, keepAlive: U16, payload: Bytes): Option<ConnectData> {
    match TakeString(payload)
    case None => None
    case Some((clientId, r0)) =>
      match TakeWill(flags, r0)
      case None => None
      case Some((will, r1)) =>
        match TakeOptional(flags / 0x80 % 2 == 1, r1)
        case None => None
        case Some((username, r2)) =>
          match TakeOptional(flags / 0x40 % 2 == 1, r2)
          case None => None
          case Some((password, r3)) =>
            if r3 != [] then None
            else Some(ConnectData(clientId, keepAlive, flags / 2 % 2 == 1, will, username, password))
  }

  function TakeOptional(present: bool, s: Bytes): Option<(Option<Bytes>, Bytes)> {
    if !present then Some((None, s))
    else match TakeString(s)
      case None => None
      case Some((v, rest)) => Some((Some(v), rest))
  }

  function TakeWill(flags: Byte, s: Bytes): Option<(Option<Will>, Bytes)> {
    if flags / 4 % 2 == 0 then Some((None, s))
    else match TakeString(s)
      case None => None
      case Some((topic, rest)) =>
        match TakeString(rest)
        case None => None
        case Some((message, rest2)) => Some((Some(Will(topic, message, flags / 8 % 4, flags / 0x20 % 2 == 1)), rest2))
  }

  predicate Encodable(c: ConnectData) {
    && |c.clientId| < 0x1_0000
    && (c.username.Some? ==> |c.username.value| < 0x1_0000)
    && (c.password.Some? ==> |c.password.value| < 0x1_0000)
    && (c.will.Some? ==> |c.will.value.topic| < 0x1_0000 && |c.will.value.message| < 0x1_0000 && c.will.value.qos <= 3)
  }

  function Bit(b: bool): (n: nat)
    ensures n <= 1
  {
    if b then 1 else 0
  }

  lemma PackedBits(s: nat, w: nat, q: nat, r: nat, p: nat, u: nat)
    requires s <= 1 && w <= 1 && q <= 3 && r <= 1 && p <= 1 && u <= 1
    ensures var f := 2 * s + 4 * w + 8 * q + 32 * r + 64 * p + 128 * u;
            && f / 2 % 2 == s && f / 4 % 2 == w && f / 8 % 4 == q
            && f / 0x20 % 2 == r && f / 0x40 % 2 == p && f / 0x80 % 2 == u
  {
    var f := 2 * s + 4 * w + 8 * q + 32 * r + 64 * p + 128 * u;
    assert f / 2 == s + 2 * (w + 2 * q + 8 * r + 16 * p + 32 * u);
    assert f / 4 == w + 2 * (q + 4 * r + 8 * p + 16 * u);
    assert f / 8 == q + 4 * (r + 2 * p + 4 * u);
    assert f / 0x20 == r + 2 * (p + 2 * u);
    assert f / 0x40 == p + 2 * u;
    assert f / 0x80 == u;
  }

  lemma FlagBits(c: ConnectData)
    requires Encodable(c)
    ensures var f := ConnectFlags(c);
            && (f / 0x80 % 2 == 1 <==> c.username.Some?) && (f / 0x40 % 2 == 1 <==> c.password.Some?)
            && (f / 2 % 2 == 1 <==> c.cleanSession) && (f / 4 % 2 == 0 <==> c.will.None?)
            && (c.will.Some? ==> f / 8 % 4 == c.will.value.qos && (f / 0x20 % 2 == 1 <==> c.will.value.retained))
  {
    var (qos, retained) := match c.will case None => (0, false) case Some(w) => (w.qos % 4, w.retained);
    FlagSum(c);
    PackedBits(Bit(c.cleanSession), Bit(c.will.Some?), qos, Bit(retained), Bit(c.password.Some?), Bit(c.username.Some?));
    hide ConnectFlags;
  }

  lemma FlagSum(c: ConnectData)
    ensures var (qos, retained) := match c.will case None => (0, false) case Some(w) => (w.qos % 4, w.retained);
            ConnectFlags(c) == 2 * Bit(c.cleanSession) + 4 * Bit(c.will.Some?) + 8 * qos + 32 * Bit(retained)
            + 64 * Bit(c.password.Some?) + 128 * Bit(c.username.Some?)
  {
  }

  lemma OptionalRoundTrip(s: Option<Bytes>, rest: Bytes)
    requires s.Some? ==> |s.value| < 0x1_0000
    ensures TakeOptional(s.Some?, OptionalString(s) + rest) == Some((s, rest))
  {
    if s.Some? {
      StringRoundTrip(s.value, rest);
    } else {
      assert OptionalString(s) + rest == rest;
    }
  }

  lemma WillRoundTrip(c: ConnectData, rest: Bytes)
    requires Encodable(c)
    ensures TakeWill(ConnectFlags(c), WillFields(c.will) + rest) == Some((c.will, rest))
  {
    FlagBits(c);
    match c.will
    case None => assert WillFields(c.will) + rest == rest;
    case Some(w) =>
      assert WillFields(c.will) + rest == CString(w.topic) + (CString(w.message) + rest);
      StringRoundTrip(w.topic, CString(w.message) + rest);
      StringRoundTrip(w.message, rest);
  }

  /** CONNECT and reading back is the identity, whatever follows in the stream. */
  lemma ConnectRoundTrip(c: ConnectData, rest: Bytes, capacity: nat)
    requires Encodable(c) && |ConnectBody(c)| <= capacity < 0x1000_0000
    ensures var read := ParsePacket(ConnectPacket(c) + rest, capacity);
            && read.Packet? && read.consumed == |ConnectPacket(c)|
            && DecodeConnect(read.header, read.body) == Some(c)
  {
    FrameRoundTrip(0x10, ConnectBody(c), rest, capacity);
    ConnectBodyDecodes(c);
  }

  lemma ConnectBodyParts(c: ConnectData)
    ensures var body := ConnectBody(c);
            && |body| >= 12 && body[..7] == CString([0x4D, 0x51, 0x54, 0x54]) + [4]
            && body[7] == ConnectFlags(c) && FromBE16(body[8..10]) == c.keepAlive
            && body[10..] == CString(c.clientId)
                             + (WillFields(c.will) + (OptionalString(c.username) + (OptionalString(c.password) + [])))
  {
    hide ConnectFlags, CString, WillFields, OptionalString, BE16, FromBE16;
    StringSize([0x4D, 0x51, 0x54, 0x54]);
    StringSize(c.clientId);
    BE16RoundTrip(c.keepAlive);
    HeaderCut(CString([0x4D, 0x51, 0x54, 0x54]), ConnectFlags(c), BE16(c.keepAlive), ConnectPayload(c));
    PayloadRegrouped(CString(c.clientId), WillFields(c.will), OptionalString(c.username), OptionalString(c.password));
  }

  lemma StringSize(s: Bytes)
    ensures |CString(s)| == 2 + |s|
  {
  }

  lemma HeaderCut(name: Bytes, flags: Byte, keepAlive: Bytes, payload: Bytes)
    requires |name| == 6 && |keepAlive| == 2
    ensures var body := name + [4, flags] + keepAlive + payload;
            body[..7] == name + [4] && body[7] == flags && body[8..10] == keepAlive && body[10..] == payload
  {
  }

  lemma PayloadRegrouped(a: Bytes, b: Bytes, c: Bytes, d: Bytes)
    ensures a + b + c + d == a + (b + (c + (d + [])))
  {
  }

  lemma PayloadDecodes(c: ConnectData)
    requires Encodable(c)
    ensures var t2 := OptionalString(c.password) + [];
            var t1 := OptionalString(c.username) + t2;
            DecodePayload(ConnectFlags(c), c.keepAlive, CString(c.clientId) + (WillFields(c.will) + t1)) == Some(c)
  {
    var t2 := OptionalString(c.password) + [];
    var t1 := OptionalString(c.username) + t2;
    FlagBits(c);
    StringRoundTrip(c.clientId, WillFields(c.will) + t1);
    WillRoundTrip(c, t1);
    OptionalRoundTrip(c.username, t2);
    OptionalRoundTrip(c.password, []);
    hide ConnectFlags, CString, TakeWill, TakeString, TakeOptional, WillFields, OptionalString;
  }

  lemma ConnectBodyDecodes(c: ConnectData)
    requires Encodable(c)
    ensures DecodeConnect(0x10, ConnectBody(c)) == Some(c)
  {
    ConnectBodyParts(c);
    PayloadDecodes(c);
    hide ConnectBody, ConnectFlags, CString, DecodePayload, WillFields, OptionalString, FromBE16;
  }
}
