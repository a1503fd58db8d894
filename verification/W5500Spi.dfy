// One chip access over the SPI FIFO: any frame clocked as bursts of at most 64
// bytes under a single chip select.
module W5500Spi {
  import opened Buffers
  import opened MachineInts

  const FAST_MAX := 61
  const FIFO_MAX := 64

  /** The three-byte W5500 header: 16-bit offset, block select, direction. */
  function Control(addrsel: U32, write: bool): (c: Bytes)
    ensures |c| == 3
  {
    [addrsel / 0x1_0000 % 0x100, addrsel / 0x100 % 0x100, addrsel / 8 % 0x20 * 8 + if write then 4 else 0]
  }

  /** The header carries offset, block and direction apart. */
  lemma ControlFields(offset: U16, block: nat, write: bool)
    requires block < 32
    ensures var c := Control(offset * 0x100 + block * 8, write);
            FromBE16(c[..2]) == offset && c[2] / 8 == block && (c[2] % 8 == 4 <==> write) && c[2] % 4 == 0
  {
    var a := offset * 0x100 + block * 8;
    assert a / 0x100 == offset && a / 8 == offset * 32 + block;
    assert a / 0x1_0000 == offset / 0x100;
    assert (offset * 32 + block) % 0x20 == block;
  }

  function Filler(n: nat): (b: Bytes)
    ensures |b| == n && forall i :: 0 <= i < n ==> b[i] == 0xFF
  {
    seq(n, _ => 0xFF)
  }

  /** The peripheral's buffers, and the current chip select: what was clocked out
      under it, and what the chip answers byte by byte. */
  class Bus {
    const fastTx: array<Byte>
    const fastRx: array<Byte>
    var selected: bool
    var out: Bytes
    const answer: nat -> Byte

    ghost predicate Valid() {
      fastTx.Length == 71 && fastRx.Length == 71 && fastTx != fastRx
    }

    constructor (answer: nat -> Byte)
      ensures Valid() && fresh(fastTx) && fresh(fastRx) && !selected && this.answer == answer && out == []
    {
      fastTx, fastRx := new Byte[71](_ => 0), new Byte[71](_ => 0);
      selected, out := false, [];
      this.answer := answer;
    }

    /** What the chip has answered to bytes a..b of the frame. */
    function Answered(a: nat, b: nat): (r: Bytes)
      requires a <= b
      ensures |r| == b - a && forall i :: 0 <= i < b - a ==> r[i] == answer(a + i)
    {
      seq(b - a, i requires 0 <= i < b - a => answer(a + i))
    }

    /** w5k_fifo_xfer: one burst. */
    method Xfer(total: nat, wantRx: bool)
      requires Valid() && selected && total <= FIFO_MAX
      modifies this`out, fastRx
      ensures out == old(out) + fastTx[..total]
      ensures wantRx ==> fastRx[..total] == Answered(|old(out)|, |out|)
    {
      if wantRx {
        var start := |out|;
        forall i | 0 <= i < total { fastRx[i] := answer(start + i); }
      }
      out := out + fastTx[..total];
    }

    method Load(at: nat, bytes: Bytes)
      requires Valid() && at + |bytes| <= 71
      modifies fastTx
      ensures fastTx[at..at + |bytes|] == bytes && fastTx[..at] == old(fastTx[..at])
    {
      forall i | 0 <= i < |bytes| { fastTx[at + i] := bytes[i]; }
    }

    method Unload(rbuf: array<Byte>, off: nat, skip: nat, n: nat)
      requires Valid() && off + n <= rbuf.Length && skip + n <= 71 && rbuf != fastRx
      modifies rbuf
      ensures rbuf[off..off + n] == fastRx[skip..skip + n] && rbuf[..off] == old(rbuf[..off])
      ensures forall j :: off + n <= j < rbuf.Length ==> rbuf[j] == old(rbuf[j])
    {
      forall i | 0 <= i < n { rbuf[off + i] := fastRx[skip + i]; }
    }

    /** Clock n staged bytes and, on a read, deliver those after the first `skip`. */
    method Burst(n: nat, skip: nat, write: bool, rbuf: array<Byte>, off: nat)
      requires Valid() && selected && skip + n <= FIFO_MAX && rbuf != fastTx && rbuf != fastRx
      requires !write ==> off + n <= rbuf.Length
      modifies this`out, fastRx, rbuf
      ensures out == old(out) + fastTx[..skip + n]
      ensures write ==> rbuf[..] == old(rbuf[..])
      ensures !write ==> rbuf[..off + n] == old(rbuf[..off]) + Answered(|old(out)| + skip, |out|)
      ensures !write ==> forall j :: off + n <= j < rbuf.Length ==> rbuf[j] == old(rbuf[j])
    {
      ghost var start := |out|;
      Xfer(skip + n, !write);
      if !write {
        assert fastRx[skip..skip + n] == Answered(start + skip, start + skip + n) by {
          assert fastRx[..skip + n][skip..] == Answered(start, start + skip + n)[skip..];
        }
        Unload(rbuf, off, skip, n);
        assert rbuf[..off + n] == rbuf[..off] + rbuf[off..off + n];
      }
    }

    lemma AnsweredJoins(a: nat, b: nat, c: nat)
      requires a <= b <= c
      ensures Answered(a, b) + Answered(b, c) == Answered(a, c)
    {
    }

    /** What the frame has done once `off` payload bytes are through. */
    ghost predicate Through(head: Bytes, payload: Bytes, write: bool, rbuf: array<Byte>, before: Bytes, off: nat)
      requires off <= |payload|
      reads this`out, rbuf
    {
      && out == head + payload[..off] && |head| == 3 && rbuf.Length == |before|
      && (if write then rbuf[..] == before
          else off <= |before| && rbuf[..off] == Answered(3, 3 + off) && rbuf[off..] == before[off..])
    }

    /** The first burst: the header and the first payload bytes. */
    method FirstBurst(head: Bytes, payload: Bytes, write: bool, rbuf: array<Byte>, n: nat)
      requires Valid() && selected && out == [] && |head| == 3 && n <= FAST_MAX && n <= |payload|
      requires rbuf != fastTx && rbuf != fastRx && (!write ==> n <= rbuf.Length)
      modifies this`out, fastTx, fastRx, rbuf
      ensures Through(head, payload, write, rbuf, old(rbuf[..]), n)
    {
      hide Answered;
      Load(0, head);
      Load(3, payload[..n]);
      assert fastTx[..3 + n] == fastTx[..3] + fastTx[3..3 + n];
      Burst(n, 3, write, rbuf, 0);
    }

    method NextBurst(head: Bytes, payload: Bytes, write: bool, rbuf: array<Byte>, off: nat, take: nat, ghost before: Bytes)
      requires Valid() && selected && take <= FIFO_MAX && off + take <= |payload|
      requires rbuf != fastTx && rbuf != fastRx && (!write ==> off + take <= rbuf.Length)
      requires Through(head, payload, write, rbuf, before, off)
      modifies this`out, fastTx, fastRx, rbuf
      ensures Through(head, payload, write, rbuf, before, off + take)
    {
      hide Answered;
      Load(0, payload[off..off + take]);
      Extend(head, payload, off, take);
      AnsweredJoins(3, 3 + off, 3 + off + take);
      ghost var rest := if write then [] else rbuf[off..];
      Burst(take, 0, write, rbuf, off);
      assert !write ==> rbuf[off + take..] == rest[take..];
    }

    /** w5500_fifo_frame: the chip sees the header and then exactly the payload,
        and a read delivers exactly the bytes answered behind the header, for
        every length, in bursts the FIFO can hold. */
    method FifoFrame(addrsel: U32, write: bool, wbuf: Bytes, rbuf: array<Byte>, len: U16)
      requires Valid() && !selected && rbuf != fastTx && rbuf != fastRx
      requires if write then |wbuf| == len else len <= rbuf.Length
      modifies this`selected, this`out, fastTx, fastRx, rbuf
      ensures !selected && out == Control(addrsel, write) + (if write then wbuf else Filler(len))
      ensures write ==> rbuf[..] == old(rbuf[..])
      ensures !write ==> rbuf[..] == Answered(3, 3 + len) + old(rbuf[len..])
    {
      hide Control, Filler, Answered;
      var first := if len > FAST_MAX then FAST_MAX else len;
      var payload := if write then wbuf else Filler(len);
      var head := Control(addrsel, write);
      selected, out := true, [];
      FirstBurst(head, payload, write, rbuf, first);
      var off := first;
      while off < len
        invariant first <= off <= len && selected
        invariant Through(head, payload, write, rbuf, old(rbuf[..]), off)
      {
        var take := if len - off > FIFO_MAX then FIFO_MAX else len - off;
        NextBurst(head, payload, write, rbuf, off, take, old(rbuf[..]));
        off := off + take;
      }
      selected := false;
      assert payload[..len] == payload;
      assert !write ==> rbuf[..] == rbuf[..len] + rbuf[len..];
    }
  }

  lemma Extend(head: Bytes, payload: Bytes, off: nat, take: nat)
    requires off + take <= |payload|
    ensures head + payload[..off] + payload[off..off + take] == head + payload[..off + take]
  {
    assert payload[..off] + payload[off..off + take] == payload[..off + take];
  }
}
