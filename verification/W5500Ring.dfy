// The W5500 socket rings: free-running 16-bit pointers over 2048-byte buffers,
// the fast "stage, patch in place, fire" send and one-burst receive, and the
// plain driver send and receive they must agree with.
module W5500Ring {
  import opened Buffers
  import opened MachineInts
  import opened W5500Spi

  const RING := 2048
  const FAST_PAYLOAD := 50

  // ---- Ring arithmetic ----

  /** The ring slot of the i-th byte from a free-running pointer: the chip masks
      the pointer to the ring. */
  function Slot(ptr: int, i: int): (k: nat)
    ensures k < 2048
  {
    (ptr + i) % 2048
  }

  /** n bytes read from a free-running pointer. */
  function RingRead(ring: Bytes, ptr: int, n: nat): (b: Bytes)
    requires |ring| == 2048
    ensures |b| == n && forall i :: 0 <= i < n ==> b[i] == ring[Slot(ptr, i)]
  {
    seq(n, i requires 0 <= i < n => ring[Slot(ptr, i)])
  }

  /** The ring after a burst of at most one ring's worth at a free-running pointer. */
  function RingWrite(ring: Bytes, ptr: int, bytes: Bytes): (r: Bytes)
    requires |ring| == 2048 && |bytes| <= 2048
    ensures |r| == 2048
    ensures forall k :: 0 <= k < 2048 ==> r[k] == if Slot(k, -ptr) < |bytes| then bytes[Slot(k, -ptr)] else ring[k]
  {
    seq(2048, k requires 0 <= k < 2048 => if Slot(k, -ptr) < |bytes| then bytes[Slot(k, -ptr)] else ring[k])
  }

  /** Which byte of a burst at ptr + d lands where the i-th byte from ptr is. */
  lemma SlotOffset(ptr: int, i: int, d: int)
    ensures Slot(Slot(ptr, i), -(ptr + d)) == (i - d) % 2048
  {
    var q := (ptr + i) / 2048;
    assert Slot(ptr, i) - (ptr + d) == (i - d) + 2048 * (-q);
    SameSlot(i - d, -q);
  }

  lemma SameSlot(x: int, k: int)
    ensures (x + 2048 * k) % 2048 == x % 2048
  {
    assert x + 2048 * k == 2048 * (x / 2048 + k) + x % 2048;
  }

  /** Pointers that differ by whole 16-bit turns address the same slots. */
  lemma TurnsAgree(ring: Bytes, p: int, turns: int, bytes: Bytes, n: nat)
    requires |ring| == 2048 && |bytes| <= 2048
    ensures RingWrite(ring, p + 0x1_0000 * turns, bytes) == RingWrite(ring, p, bytes)
    ensures RingRead(ring, p + 0x1_0000 * turns, n) == RingRead(ring, p, n)
  {
    hide Slot;
    var q := p + 0x1_0000 * turns;
    var backP, backQ := -p, -q;
    forall k: int ensures Slot(k, backQ) == Slot(k, backP) { SlotTurn(k, backP, -32 * turns); }
    forall i: int ensures Slot(q, i) == Slot(p, i) { SlotTurn(p, i, 32 * turns); }
  }

  lemma SlotTurn(p: int, i: int, k: int)
    ensures Slot(p, i + 2048 * k) == Slot(p, i) == Slot(p + 2048 * k, i)
  {
    SameSlot(p + i, k);
  }

  /** What was written is read back, after the bytes already pending before it. */
  lemma ReadAcross(ring: Bytes, ptr: int, pending: nat, bytes: Bytes)
    requires |ring| == 2048 && pending + |bytes| <= 2048
    ensures RingRead(RingWrite(ring, ptr + pending, bytes), ptr, pending + |bytes|) == RingRead(ring, ptr, pending) + bytes
  {
    hide Slot;
    var a := RingRead(RingWrite(ring, ptr + pending, bytes), ptr, pending + |bytes|);
    var b := RingRead(ring, ptr, pending) + bytes;
    forall i | 0 <= i < pending + |bytes| ensures a[i] == b[i] {
      SlotOffset(ptr, i, pending);
      Residue(i - pending);
    }
  }

  lemma Residue(x: int)
    requires -2048 <= x < 2048
    ensures x % 2048 == if x < 0 then x + 2048 else x
  {
  }

  /** Patching inside a stretch of the ring patches what is read from it. */
  lemma ReadPatched(ring: Bytes, ptr: int, n: nat, off: nat, x: Bytes)
    requires |ring| == 2048 && off + |x| <= n <= 2048
    ensures RingRead(RingWrite(ring, ptr + off, x), ptr, n) == Patch(RingRead(ring, ptr, n), off, x)
  {
    hide Slot;
    var a, b := RingRead(RingWrite(ring, ptr + off, x), ptr, n), Patch(RingRead(ring, ptr, n), off, x);
    forall i | 0 <= i < n ensures a[i] == b[i] {
      SlotOffset(ptr, i, off);
      Residue(i - off);
    }
  }

  // ---- Datagrams in the receive ring ----

  datatype Datagram = Datagram(ip: Bytes, port: U16, payload: Bytes)

  predicate DatagramOk(d: Datagram) {
    |d.ip| == 4 && 8 + |d.payload| <= RING
  }

  /** PACKET-INFO header, then the payload. */
  function Packed(d: Datagram): Bytes
    requires DatagramOk(d)
  {
    d.ip + BE16(d.port) + BE16(|d.payload|) + d.payload
  }

  function PackedAll(q: seq<Datagram>): Bytes
    requires forall i :: 0 <= i < |q| ==> DatagramOk(q[i])
  {
    if q == [] then [] else Packed(q[0]) + PackedAll(q[1..])
  }

  lemma PackedHeader(d: Datagram, rest: Bytes)
    requires DatagramOk(d)
    ensures var s := Packed(d) + rest;
            && |Packed(d)| == 8 + |d.payload|
            && s[..4] == d.ip && FromBE16(s[4..6]) == d.port && FromBE16(s[6..8]) == |d.payload|
            && s[8..8 + |d.payload|] == d.payload && s[8 + |d.payload|..] == rest
  {
    hide BE16;
    var s, a, b := Packed(d) + rest, BE16(d.port), BE16(|d.payload|);
    assert s[4..6] == a && s[6..8] == b;
    BE16RoundTrip(d.port);
    BE16RoundTrip(|d.payload|);
  }

  /** How far both receive functions advance: 8 + plen in 16 bits, capped at what
      the socket holds. */
  function Consumed(plen: U16, rsr: U16): (n: U16) {
    var c := Wrap16(8 + plen);
    if c > rsr then rsr else c
  }

  /** That is the intended min(8 + plen, rsr) exactly for plen up to 65527; a
      header claiming more desynchronises the ring. */
  lemma ConsumedExact(plen: U16, rsr: U16)
    requires rsr >= 8
    ensures Consumed(plen, rsr) == (if 8 + plen < rsr then 8 + plen else rsr) <==> plen <= 65527
  {
    if plen > 65527 {
      assert Wrap16(8 + plen) == 8 + plen - 0x1_0000;
    }
  }

  /** What one receive call hands out, and where it leaves the read pointer. */
  datatype Recv = Recv(ip: Bytes, port: U16, data: Bytes, next: U16)

  function Min(a: nat, b: nat): nat {
    if a < b then a else b
  }

  /** w5k_recvfrom with rsr bytes waiting: header and payload in one burst of at
      most 58 bytes. */
  function FastRecv(ring: Bytes, rd: U16, rsr: U16, len: nat): Recv
    requires |ring| == 2048 && rsr >= 8
  {
    var want := Min(rsr, 8 + Min(len, FAST_PAYLOAD));
    var frame := RingRead(ring, rd, want);
    var plen := FromBE16(frame[6..8]);
    Recv(frame[..4], FromBE16(frame[4..6]), frame[8..8 + Min(plen, want - 8)], Wrap16(rd + Consumed(plen, rsr)))
  }

  /** w5500_udp_recvfrom: the header, then the payload, as two bursts. */
  function PlainRecv(ring: Bytes, rd: U16, rsr: U16, len: nat): Recv
    requires |ring| == 2048 && rsr >= 8
  {
    var header := RingRead(ring, rd, 8);
    var plen := FromBE16(header[6..8]);
    Recv(header[..4], FromBE16(header[4..6]), RingRead(ring, Wrap16(rd + 8), Min(plen, len)), Wrap16(rd + Consumed(plen, rsr)))
  }

  /** The waiting bytes are exactly these datagrams. */
  predicate Holds(ring: Bytes, rd: U16, rsr: U16, q: seq<Datagram>) {
    && |ring| == 2048 && (forall i :: 0 <= i < |q| ==> DatagramOk(q[i]))
    && |PackedAll(q)| == rsr <= 2048 && RingRead(ring, rd, rsr) == PackedAll(q)
  }

  /** The head of the queue as a receiver with room for `len` bytes sees it. */
  function Head(d: Datagram, rd: U16, len: nat): Recv
    requires DatagramOk(d)
  {
    Recv(d.ip, d.port, d.payload[..Min(|d.payload|, len)], Wrap16(rd + 8 + |d.payload|))
  }

  lemma ReadPrefix(ring: Bytes, ptr: int, n: nat, k: nat)
    requires |ring| == 2048 && k <= n
    ensures RingRead(ring, ptr, n)[..k] == RingRead(ring, ptr, k)
    ensures RingRead(ring, ptr, n)[k..] == RingRead(ring, ptr + k, n - k)
  {
  }

  lemma WrappedRead(ring: Bytes, ptr: nat, n: nat)
    requires |ring| == 2048
    ensures RingRead(ring, Wrap16(ptr), n) == RingRead(ring, ptr, n)
  {
    hide RingRead, RingWrite;
    TurnsAgree(ring, Wrap16(ptr), ptr / 0x1_0000, [], n);
    assert Wrap16(ptr) + 0x1_0000 * (ptr / 0x1_0000) == ptr;
  }

  lemma HeadFast(ring: Bytes, rd: U16, rsr: U16, q: seq<Datagram>, len: nat)
    requires Holds(ring, rd, rsr, q) && q != [] && rsr >= 8
    ensures FastRecv(ring, rd, rsr, len) == Head(q[0], rd, Min(len, FAST_PAYLOAD))
  {
    hide RingRead, Packed, FromBE16, Slot;
    var d, s := q[0], PackedAll(q);
    PackedHeader(d, PackedAll(q[1..]));
    var want := Min(rsr, 8 + Min(len, FAST_PAYLOAD));
    ReadPrefix(ring, rd, rsr, want);
    Slices(s, want);
    var n := Min(|d.payload|, want - 8);
    assert s[8..8 + |d.payload|][..n] == s[8..8 + n];
  }

  lemma HeadPlain(ring: Bytes, rd: U16, rsr: U16, q: seq<Datagram>, len: nat)
    requires Holds(ring, rd, rsr, q) && q != [] && rsr >= 8
    ensures PlainRecv(ring, rd, rsr, len) == Head(q[0], rd, len)
  {
    hide RingRead, Packed, FromBE16;
    var s := PackedAll(q);
    PackedHeader(q[0], PackedAll(q[1..]));
    ReadPrefix(ring, rd, rsr, 8);
    Slices(s, 8);
    PayloadRead(ring, rd, rsr, s, |q[0].payload|, Min(|q[0].payload|, len));
  }

  lemma PayloadRead(ring: Bytes, rd: U16, rsr: U16, s: Bytes, plen: nat, n: nat)
    requires |ring| == 2048 && n <= plen && 8 + plen <= rsr == |s| && RingRead(ring, rd, rsr) == s
    ensures RingRead(ring, Wrap16(rd + 8), n) == s[8..8 + plen][..n]
  {
    hide RingRead;
    ReadPrefix(ring, rd, rsr, 8);
    ReadPrefix(ring, rd + 8, rsr - 8, n);
    WrappedRead(ring, rd + 8, n);
    assert s[8..8 + plen][..n] == s[8..][..n];
  }

  lemma TailRemains(ring: Bytes, rd: U16, rsr: U16, q: seq<Datagram>)
    requires Holds(ring, rd, rsr, q) && q != []
    ensures rsr >= 8 + |q[0].payload|
    ensures Holds(ring, Wrap16(rd + 8 + |q[0].payload|), rsr - 8 - |q[0].payload|, q[1..])
  {
    hide RingRead, Packed, FromBE16;
    var n := 8 + |q[0].payload|;
    PackedHeader(q[0], PackedAll(q[1..]));
    ReadPrefix(ring, rd, rsr, n);
    WrappedRead(ring, rd + n, rsr - n);
  }

  /** For every queue of datagrams and every pointer, the fast receive returns the
      head of the queue, at most 50 bytes of it, and the plain receive the head at
      the caller's length; both leave the pointer at the next PACKET-INFO header.
      With room for at most 50 bytes they agree. */
  lemma HeadReceived(ring: Bytes, rd: U16, rsr: U16, q: seq<Datagram>, len: nat)
    requires Holds(ring, rd, rsr, q) && q != []
    ensures rsr >= 8
    ensures FastRecv(ring, rd, rsr, len) == Head(q[0], rd, Min(len, 50))
    ensures PlainRecv(ring, rd, rsr, len) == Head(q[0], rd, len)
    ensures len <= 50 ==> FastRecv(ring, rd, rsr, len) == PlainRecv(ring, rd, rsr, len)
    ensures var next := Head(q[0], rd, len).next; Holds(ring, next, rsr - 8 - |q[0].payload|, q[1..])
  {
    hide FastRecv, PlainRecv, Holds;
    TailRemains(ring, rd, rsr, q);
    HeadFast(ring, rd, rsr, q, len);
    HeadPlain(ring, rd, rsr, q, len);
    AllOk(ring, rd, rsr, q);
  }

  lemma AllOk(ring: Bytes, rd: U16, rsr: U16, q: seq<Datagram>)
    requires Holds(ring, rd, rsr, q)
    ensures |ring| == 2048 && forall i :: 0 <= i < |q| ==> DatagramOk(q[i])
  {
  }

  lemma Slices(s: Bytes, n: nat)
    requires 8 <= n <= |s|
    ensures s[..n][..4] == s[..4] && s[..n][4..6] == s[4..6] && s[..n][6..8] == s[6..8]
    ensures forall k :: 8 <= k <= n ==> s[..n][8..k] == s[8..k]
  {
  }

  /** Receiving until the ring is empty. */
  function Drain(ring: Bytes, rd: U16, rsr: U16, len: nat): seq<Recv>
    requires |ring| == 2048
    decreases rsr
  {
    if rsr < 8 then []
    else
      var r := FastRecv(ring, rd, rsr, len);
      var taken := Wrap16(r.next - rd);
      if taken == 0 || taken > rsr then [r] else [r] + Drain(ring, r.next, rsr - taken, len)
  }

  function Heads(q: seq<Datagram>, rd: U16, len: nat): (rs: seq<Recv>)
    requires forall i :: 0 <= i < |q| ==> DatagramOk(q[i])
    ensures |rs| == |q|
  {
    if q == [] then [] else [Head(q[0], rd, len)] + Heads(q[1..], Wrap16(rd + 8 + |q[0].payload|), len)
  }

  /** Draining hands out every datagram once, in order, and nothing else. */
  lemma {:induction false} DrainsInOrder(ring: Bytes, rd: U16, rsr: U16, q: seq<Datagram>, len: nat)
    requires |ring| == 2048 && (forall i :: 0 <= i < |q| ==> DatagramOk(q[i])) && Holds(ring, rd, rsr, q)
    ensures Drain(ring, rd, rsr, len) == Heads(q, rd, Min(len, 50))
    decreases |q|
  {
    hide Holds, FastRecv, PlainRecv;
    if q == [] {
      NothingHeld(ring, rd, rsr);
    } else {
      HeadReceived(ring, rd, rsr, q, len);
      TailRemains(ring, rd, rsr, q);
      var n := 8 + |q[0].payload|;
      DrainsInOrder(ring, Wrap16(rd + n), rsr - n, q[1..], len);
      StepDistance(rd, n);
    }
  }

  lemma NothingHeld(ring: Bytes, rd: U16, rsr: U16)
    requires Holds(ring, rd, rsr, [])
    ensures rsr == 0
  {
  }

  lemma StepDistance(rd: U16, n: nat)
    requires n < 0x1_0000
    ensures Wrap16(Wrap16(rd + n) - rd) == n
  {
  }

  // ---- The chip's socket ----

  datatype Sent = Sent(dst: Bytes, bytes: Bytes)

  /** How the plain send's wait for space ends: with space, without it on a
      non-blocking socket, or because the socket is not in UDP state. */
  datatype Wait = Room | Full | NotUdp

  /** How its wait for completion ends: SENDOK, the chip's timeout, or given up. */
  datatype Completion = SendOk | ArpTimeout | GivenUp

  class Chip {
    const tx: array<Byte>
    const rx: array<Byte>
    var txRd: U16
    var txWr: U16
    var rxRd: U16
    var rxWr: U16
    var dst: Bytes
    var wire: seq<Sent>

    ghost predicate Valid() {
      tx.Length == 2048 && rx.Length == 2048 && tx != rx
    }

    constructor (txPtr: U16, rxPtr: U16)
      ensures Valid() && txRd == txWr == txPtr && rxRd == rxWr == rxPtr && wire == [] && fresh(tx) && fresh(rx)
    {
      tx, rx := new Byte[2048](_ => 0), new Byte[2048](_ => 0);
      txRd, txWr, rxRd, rxWr := txPtr, txPtr, rxPtr, rxPtr;
      dst, wire := [], [];
    }

    function Pending(): (n: U16)
      reads this`txRd, this`txWr
    {
      Wrap16(txWr - txRd)
    }

    function Free(): int
      reads this`txRd, this`txWr
    {
      2048 - Pending()
    }

    function Received(): (n: U16)
      reads this`rxRd, this`rxWr
    {
      Wrap16(rxWr - rxRd)
    }

    /** The bytes staged and not yet sent. */
    ghost function Leftover(): Bytes
      requires Valid()
      reads this`txRd, this`txWr, tx
    {
      RingRead(tx[..], txRd, Pending())
    }

    /** A burst into the transmit ring at a 16-bit pointer. */
    method Burst(ptr: U16, bytes: Bytes)
      requires Valid() && |bytes| <= 2048
      modifies tx
      ensures tx[..] == RingWrite(old(tx[..]), ptr, bytes)
    {
      hide Slot;
      for i := 0 to |bytes|
        invariant tx[..] == RingWrite(old(tx[..]), ptr, bytes[..i])
      {
        NextByte(old(tx[..]), ptr, bytes, i);
        tx[Slot(ptr, i)] := bytes[i];
      }
      assert bytes[..|bytes|] == bytes;
    }

    /** One FIFO transaction: silently nothing for bursts over 61 bytes. */
    method FastBurst(ptr: U16, bytes: Bytes)
      requires Valid()
      modifies tx
      ensures tx[..] == if |bytes| > 61 then old(tx[..]) else RingWrite(old(tx[..]), ptr, bytes)
    {
      if |bytes| == 0 || |bytes| > FAST_MAX {
        assert |bytes| == 0 ==> tx[..] == RingWrite(tx[..], ptr, bytes);
        return;
      }
      Burst(ptr, bytes);
    }

    /** The SEND command: everything from the read to the write pointer goes out. */
    method Send()
      requires Valid()
      modifies this`wire, this`txRd
      ensures wire == old(wire) + [Sent(dst, old(Leftover()))] && txRd == txWr
    {
      var ring, n := tx[..], Pending();
      wire := wire + [Sent(dst, RingRead(ring, txRd, n))];
      txRd := txWr;
    }

    // ---- Fast send ----

    /** w5k_send_stage: destination, ring write, pointer advance; no SEND. */
    method Stage(buf: Bytes, to: Bytes) returns (rc: int, stampOff: U16)
      requires Valid() && |to| == 6
      modifies this`dst, this`txWr, tx
      ensures dst == to && stampOff == old(txWr) && (rc == 0 <==> old(Free()) >= |Capped(buf)|)
      ensures rc != 0 ==> rc == -1 && txWr == old(txWr) && tx[..] == old(tx[..])
      ensures rc == 0 ==>
        && txWr == Wrap16(old(txWr) + |Capped(buf)|)
        && tx[..] == if |buf| > 61 then old(tx[..]) else RingWrite(old(tx[..]), old(txWr), buf)
    {
      var len := if |buf| > 2048 then 2048 else |buf|;
      dst := to;
      stampOff := txWr;
      if Free() < len { return -1, stampOff; }
      FastBurst(txWr, buf[..len]);
      assert len == |buf| ==> buf[..len] == buf;
      txWr := Wrap16(txWr + len);
      rc := 0;
    }

    /** w5k_send_stamp_and_fire. */
    method StampAndFire(off: U16, stamp: Bytes)
      requires Valid() && 0 < |stamp| <= FAST_MAX
      modifies this`wire, this`txRd, tx
      ensures tx[..] == RingWrite(old(tx[..]), off, stamp) && txRd == txWr
      ensures wire == old(wire) + [Sent(dst, RingRead(tx[..], old(txRd), old(Pending())))]
    {
      FastBurst(off, stamp);
      Send();
    }

    /** Stage, stamp in place and fire, as the reply path does. */
    method FastSend(buf: Bytes, to: Bytes, at: nat, stamp: Bytes) returns (rc: int)
      requires Valid() && |to| == 6 && at + |stamp| <= |buf| <= 2048 && 0 < |stamp| <= 61
      modifies this`dst, this`txWr, this`wire, this`txRd, tx
      ensures rc == 0 <==> old(Free()) >= |buf|
      ensures rc != 0 ==> wire == old(wire) && txWr == old(txWr) && txRd == old(txRd)
      ensures rc == 0 ==>
        && txRd == txWr == Wrap16(old(txWr) + |buf|)
        && wire == old(wire) + [Sent(to, FastWire(old(tx[..]), old(txRd), old(txWr), buf, at, stamp))]
      ensures rc == 0 && |buf| <= 61 ==> wire[|old(wire)|].bytes == old(Leftover()) + Patch(buf, at, stamp)
    {
      hide RingRead, RingWrite, Patch, Slot;
      ghost var rd, wr, pending, before := txRd, txWr, Pending(), tx[..];
      var off;
      rc, off := Stage(buf, to);
      if rc != 0 { return; }
      if |buf| <= FAST_MAX { FastSendBytes(before, rd, wr, pending, buf, at, stamp); }
      ghost var staged, ahead := tx[..], Pending();
      assert staged == FastStaged(before, wr, buf) && off == wr && ahead == Wrap16(Wrap16(wr + |buf|) - rd);
      StampAndFire(Wrap16(off + at), stamp);
      assert tx[..] == FastStaged(staged, Wrap16(wr + at), stamp);
      assert RingRead(tx[..], rd, ahead) == FastWire(before, rd, wr, buf, at, stamp);
    }

    // ---- Receive ----

    static method CopyOut(buf: array<Byte>, data: Bytes)
      requires |data| <= buf.Length
      modifies buf
      ensures buf[..|data|] == data && forall j :: |data| <= j < buf.Length ==> buf[j] == old(buf[j])
    {
      forall i | 0 <= i < |data| { buf[i] := data[i]; }
    }

    /** w5k_recvfrom into the caller's buffer, `rsr` read by the caller before. */
    method RecvFast(buf: array<Byte>, len: nat, rsr: U16) returns (n: nat, ip: Bytes, port: U16)
      requires Valid() && len <= buf.Length && buf != rx
      modifies this`rxRd, buf
      ensures rsr < 8 ==> n == 0 && rxRd == old(rxRd) && buf[..] == old(buf[..])
      ensures rsr >= 8 ==>
        && n <= len && Recv(ip, port, buf[..n], rxRd) == FastRecv(rx[..], old(rxRd), rsr, len)
        && forall j :: n <= j < buf.Length ==> buf[j] == old(buf[j])
    {
      hide RingRead, FromBE16, RingWrite;
      ghost var ring := rx[..];
      if rsr < 8 { return 0, [], 0; }
      var room := if len > FAST_PAYLOAD then FAST_PAYLOAD else len;
      var want := if rsr > 8 + room then 8 + room else rsr;
      var frame := RingRead(rx[..], rxRd, want);
      var plen := FromBE16(frame[6..8]);
      n := if plen < want - 8 then plen else want - 8;
      assert want == Min(rsr, 8 + Min(len, FAST_PAYLOAD)) && n == Min(plen, want - 8);
      ip, port := frame[..4], FromBE16(frame[4..6]);
      ghost var r := FastRecv(ring, rxRd, rsr, len);
      assert r == Recv(ip, port, frame[8..8 + n], Wrap16(rxRd + Consumed(plen, rsr)));
      hide FastRecv;
      CopyOut(buf, frame[8..8 + n]);
      assert rx[..] == ring;
      var consumed := Wrap16(8 + plen);
      if consumed > rsr { consumed := rsr; }
      assert consumed == Consumed(plen, rsr);
      rxRd := Wrap16(rxRd + consumed);
    }

    /** w5500_udp_recvfrom. */
    method RecvPlain(buf: array<Byte>, len: nat) returns (n: nat, ip: Bytes, port: U16)
      requires Valid() && len <= buf.Length && buf != rx
      modifies this`rxRd, buf
      ensures old(Received()) < 8 ==> n == 0 && rxRd == old(rxRd) && buf[..] == old(buf[..])
      ensures old(Received()) >= 8 ==>
        && n <= len && Recv(ip, port, buf[..n], rxRd) == PlainRecv(rx[..], old(rxRd), old(Received()), len)
        && forall j :: n <= j < buf.Length ==> buf[j] == old(buf[j])
    {
      hide RingRead, FromBE16, RingWrite;
      ghost var ring := rx[..];
      var rsr := Received();
      if rsr < 8 { return 0, [], 0; }
      var header := RingRead(rx[..], rxRd, 8);
      var plen := FromBE16(header[6..8]);
      ip, port := header[..4], FromBE16(header[4..6]);
      n := if plen < len then plen else len;
      var data := RingRead(rx[..], Wrap16(rxRd + 8), n);
      CopyOut(buf, data);
      assert rx[..] == ring;
      var consumed := Wrap16(8 + plen);
      if consumed > rsr { consumed := rsr; }
      rxRd := Wrap16(rxRd + consumed);
    }

    // ---- Plain send ----

    /** w5500_udp_sendto: `wait` is how the wait for space ends, `done` how the one
        for completion after SEND does. */
    method SendTo(buf: Bytes, to: Bytes, wait: Wait, done: Completion) returns (rc: int)
      requires Valid() && |to| == 6 && (wait == Room ==> Free() >= |Capped(buf)|)
      modifies this`dst, this`txWr, this`wire, this`txRd, tx
      ensures |buf| == 0 ==> rc == 0 && dst == old(dst)
      ensures |buf| > 0 ==> dst == to && (wait == NotUdp ==> rc == -1) && (wait == Full ==> rc == 0)
      ensures |buf| > 0 && wait == Room ==>
        rc == match done case SendOk => Min(|buf|, 2048) case ArpTimeout => -2 case GivenUp => -1
      ensures |buf| == 0 || wait != Room ==> wire == old(wire) && txWr == old(txWr) && txRd == old(txRd) && tx[..] == old(tx[..])
      ensures |buf| > 0 && wait == Room ==>
        && txRd == txWr == Wrap16(old(txWr) + |Capped(buf)|)
        && wire == old(wire) + [Sent(to, old(Leftover()) + if |buf| > 2048 then buf[..2048] else buf)]
    {
      if |buf| == 0 { return 0; }
      var len := if |buf| > 2048 then 2048 else |buf|;
      dst := to;
      if wait == NotUdp { return -1; }
      if wait == Full { return 0; }
      Staged(tx[..], txRd, txWr, Pending(), Capped(buf));
      Burst(txWr, buf[..len]);
      txWr := Wrap16(txWr + len);
      assert len == |buf| ==> buf[..len] == buf;
      Send();
      rc := if done == SendOk then len else if done == ArpTimeout then -2 else -1;
    }
  }

  /** At most one ring's worth of a frame is ever staged. */
  function Capped(buf: Bytes): Bytes {
    if |buf| > 2048 then buf[..2048] else buf
  }

  lemma NextByte(ring: Bytes, ptr: int, bytes: Bytes, i: nat)
    requires |ring| == 2048 && i < |bytes| <= 2048
    ensures RingWrite(ring, ptr, bytes[..i])[Slot(ptr, i) := bytes[i]] == RingWrite(ring, ptr, bytes[..i + 1])
  {
    hide Slot;
    var a, b := RingWrite(ring, ptr, bytes[..i])[Slot(ptr, i) := bytes[i]], RingWrite(ring, ptr, bytes[..i + 1]);
    forall k | 0 <= k < 2048 ensures a[k] == b[k] {
      SlotOffset(ptr, i, 0);
      Residue(i);
      SlotBack(ptr, k);
    }
  }

  /** Slot and offset are inverse. */
  lemma SlotBack(ptr: int, k: nat)
    requires k < 2048
    ensures Slot(ptr, Slot(k, -ptr)) == k
  {
    var q := (k - ptr) / 2048;
    assert ptr + Slot(k, -ptr) == k + 2048 * (-q);
    SameSlot(k, -q);
    Residue(k);
  }

  /** Pending bytes after a staged write: the old ones, then the new. */
  lemma Staged(ring: Bytes, rd: U16, wr: U16, pending: nat, bytes: Bytes)
    requires |ring| == 2048 && pending == Wrap16(wr - rd) && pending + |bytes| <= 2048
    ensures Wrap16(Wrap16(wr + |bytes|) - rd) == pending + |bytes|
    ensures RingRead(RingWrite(ring, wr, bytes), rd, pending + |bytes|) == RingRead(ring, rd, pending) + bytes
  {
    hide RingRead, RingWrite;
    PendingDistance(rd, wr, pending, |bytes|);
    ReadAcross(ring, rd, pending, bytes);
    TurnsAgree(ring, wr, 1, bytes, 0);
  }

  lemma PendingDistance(rd: U16, wr: U16, pending: nat, n: nat)
    requires pending == Wrap16(wr - rd) && pending + n <= 2048
    ensures Wrap16(Wrap16(wr + n) - rd) == pending + n
    ensures rd + pending == wr || rd + pending == wr + 0x1_0000
  {
  }

  /** The bytes that leave after staging and stamping at a wrapped offset. */
  lemma FastSendBytes(ring: Bytes, rd: U16, wr: U16, pending: nat, buf: Bytes, at: nat, stamp: Bytes)
    requires |ring| == 2048 && pending == Wrap16(wr - rd) && pending + |buf| <= 2048 && at + |stamp| <= |buf|
    ensures Wrap16(Wrap16(wr + |buf|) - rd) == pending + |buf|
    ensures RingRead(RingWrite(RingWrite(ring, wr, buf), Wrap16(wr + at), stamp), rd, pending + |buf|)
         == RingRead(ring, rd, pending) + Patch(buf, at, stamp)
  {
    hide RingRead, RingWrite, Patch;
    Staged(ring, rd, wr, pending, buf);
    PendingDistance(rd, wr, pending, |buf|);
    var staged := RingWrite(ring, wr, buf);
    ReadPatched(staged, rd, pending + |buf|, pending + at, stamp);
    SameBurst(staged, rd + pending + at, wr + at, stamp);
    PatchTail(RingRead(ring, rd, pending), buf, at, stamp);
  }

  /** The ring after a staged frame: one FIFO transaction, nothing over 61 bytes. */
  function FastStaged(ring: Bytes, wr: U16, buf: Bytes): (r: Bytes)
    requires |ring| == 2048 && |buf| <= 2048
    ensures |r| == 2048
  {
    if |buf| > FAST_MAX then ring else RingWrite(ring, wr, buf)
  }

  /** The fast stage carries a frame into every ring exactly when it fits one FIFO
      transaction; a longer one is dropped while the write pointer still moves. */
  lemma FastStageLimit(wr: U16, buf: Bytes)
    requires |buf| <= 2048
    ensures (forall ring: Bytes :: |ring| == 2048 ==> RingRead(FastStaged(ring, wr, buf), wr, |buf|) == buf) <==> |buf| <= 61
  {
    if |buf| <= FAST_MAX {
      forall ring: Bytes | |ring| == 2048 ensures RingRead(FastStaged(ring, wr, buf), wr, |buf|) == buf {
        ReadAcross(ring, wr, 0, buf);
      }
    } else {
      var ring: Bytes := seq(2048, _ => if buf[0] == 0 then 1 else 0);
      assert RingRead(FastStaged(ring, wr, buf), wr, |buf|)[0] != buf[0];
    }
  }

  /** What stage, stamp in place and fire put on the wire. */
  function FastWire(ring: Bytes, rd: U16, wr: U16, buf: Bytes, at: nat, stamp: Bytes): Bytes
    requires |ring| == 2048 && at + |stamp| <= |buf| <= 2048
  {
    RingRead(FastStaged(FastStaged(ring, wr, buf), Wrap16(wr + at), stamp), rd, Wrap16(Wrap16(wr + |buf|) - rd))
  }

  /** What the plain send of the patched frame puts on the wire. */
  function PlainWire(ring: Bytes, rd: U16, wr: U16, buf: Bytes, at: nat, stamp: Bytes): Bytes
    requires |ring| == 2048 && at + |stamp| <= |buf| <= 2048
  {
    RingRead(RingWrite(ring, wr, Patch(buf, at, stamp)), rd, Wrap16(Wrap16(wr + |buf|) - rd))
  }

  /** For every pair of pointers, with room for the frame, whatever was pending
      and whatever the ring holds: the fast send of a frame with a stamp of one
      FIFO transaction puts the same bytes on the wire as the plain send of the
      patched frame, if and only if the frame fits one FIFO transaction.  From an
      empty ring those bytes are exactly the patched frame. */
  lemma FastSendRefinesPlain(rd: U16, wr: U16, buf: Bytes, at: nat, stamp: Bytes)
    requires |buf| <= 2048 && Wrap16(wr - rd) + |buf| <= 2048 && at + |stamp| <= |buf| && |stamp| <= 61
    ensures (forall ring: Bytes :: |ring| == 2048 ==> FastWire(ring, rd, wr, buf, at, stamp) == PlainWire(ring, rd, wr, buf, at, stamp))
       <==> |buf| <= 61
    ensures rd == wr && |buf| <= 61 ==>
            forall ring: Bytes :: |ring| == 2048 ==> FastWire(ring, rd, wr, buf, at, stamp) == Patch(buf, at, stamp)
  {
    hide *;
    if |buf| <= 61 {
      forall ring: Bytes | |ring| == 2048
        ensures FastWire(ring, rd, wr, buf, at, stamp) == PlainWire(ring, rd, wr, buf, at, stamp)
        ensures rd == wr ==> FastWire(ring, rd, wr, buf, at, stamp) == Patch(buf, at, stamp)
      {
        ShortFrame(ring, rd, wr, buf, at, stamp);
      }
    } else {
      var ring := LongFrame(rd, wr, buf, at, stamp);
      assert FastWire(ring, rd, wr, buf, at, stamp) != PlainWire(ring, rd, wr, buf, at, stamp);
    }
  }

  lemma ShortFrame(ring: Bytes, rd: U16, wr: U16, buf: Bytes, at: nat, stamp: Bytes)
    requires |ring| == 2048 && Wrap16(wr - rd) + |buf| <= 2048 && at + |stamp| <= |buf| <= 61
    ensures FastWire(ring, rd, wr, buf, at, stamp) == PlainWire(ring, rd, wr, buf, at, stamp)
    ensures rd == wr ==> FastWire(ring, rd, wr, buf, at, stamp) == Patch(buf, at, stamp)
  {
    hide RingRead, RingWrite, Patch, Slot;
    var pending := Wrap16(wr - rd);
    FastSendBytes(ring, rd, wr, pending, buf, at, stamp);
    Staged(ring, rd, wr, pending, Patch(buf, at, stamp));
    if rd == wr {
      assert RingRead(ring, rd, 0) + Patch(buf, at, stamp) == Patch(buf, at, stamp);
    }
  }

  /** A longer frame never reaches the ring: some ring content differs from it at
      a byte the stamp does not cover. */
  lemma LongFrame(rd: U16, wr: U16, buf: Bytes, at: nat, stamp: Bytes) returns (ring: Bytes)
    requires Wrap16(wr - rd) + |buf| <= 2048 && at + |stamp| <= |buf| && |stamp| <= 61 < |buf|
    ensures |ring| == 2048 && FastWire(ring, rd, wr, buf, at, stamp) != PlainWire(ring, rd, wr, buf, at, stamp)
  {
    hide *;
    var i := if at > 0 then 0 else |stamp|;
    ring := Other(buf, i);
    LongFrameBytes(ring, rd, wr, buf, at, stamp);
    PatchKeeps(buf, at, stamp, i);
    var n, pending := Wrap16(wr - rd) + |buf|, Wrap16(wr - rd);
    PatchKeeps(RingRead(ring, rd, n), pending + at, stamp, pending + i);
    assert FastWire(ring, rd, wr, buf, at, stamp)[pending + i] != PlainWire(ring, rd, wr, buf, at, stamp)[pending + i];
  }

  /** A ring that holds nothing of byte i. */
  function Other(buf: Bytes, i: nat): (ring: Bytes)
    requires i < |buf|
    ensures |ring| == 2048 && forall k :: 0 <= k < 2048 ==> ring[k] != buf[i]
  {
    seq(2048, _ => if buf[i] == 0 then 1 else 0)
  }

  lemma LongFrameBytes(ring: Bytes, rd: U16, wr: U16, buf: Bytes, at: nat, stamp: Bytes)
    requires |ring| == 2048 && Wrap16(wr - rd) + |buf| <= 2048
    requires at + |stamp| <= |buf| && |stamp| <= 61 < |buf|
    ensures var pending := Wrap16(wr - rd);
            && FastWire(ring, rd, wr, buf, at, stamp) == Patch(RingRead(ring, rd, pending + |buf|), pending + at, stamp)
            && PlainWire(ring, rd, wr, buf, at, stamp) == RingRead(ring, rd, pending) + Patch(buf, at, stamp)
  {
    hide RingRead, RingWrite, Patch, Slot;
    var pending := Wrap16(wr - rd);
    assert FastStaged(ring, wr, buf) == ring;
    PendingDistance(rd, wr, pending, |buf|);
    Staged(ring, rd, wr, pending, Patch(buf, at, stamp));
    SameBurst(ring, rd + pending + at, wr + at, stamp);
    ReadPatched(ring, rd, pending + |buf|, pending + at, stamp);
  }

  lemma PatchKeeps(buf: Bytes, at: nat, x: Bytes, i: nat)
    requires at + |x| <= |buf| && i < |buf| && !(at <= i < at + |x|)
    ensures Patch(buf, at, x)[i] == buf[i]
  {
  }

  lemma SameBurst(ring: Bytes, p: nat, w: nat, x: Bytes)
    requires |ring| == 2048 && |x| <= 2048 && (p == w || p == w + 0x1_0000) && w < 0x2_0000
    ensures RingWrite(ring, Wrap16(w), x) == RingWrite(ring, p, x)
  {
    hide RingRead, RingWrite;
    TurnsAgree(ring, w, 1, x, 0);
    TurnsAgree(ring, Wrap16(w), w / 0x1_0000, x, 0);
    assert Wrap16(w) + 0x1_0000 * (w / 0x1_0000) == w;
  }

  lemma PatchTail(a: Bytes, b: Bytes, at: nat, x: Bytes)
    requires at + |x| <= |b|
    ensures Patch(a + b, |a| + at, x) == a + Patch(b, at, x)
  {
  }
}
