// Byte buffers: what a write at a position leaves behind.
module Buffers {
  import opened MachineInts

  type Bytes = seq<Byte>

  datatype Option<+T> = None | Some(value: T)

  /** Appending at a position: everything before it, then the bytes. */
  method Put(buf: array<Byte>, at: nat, bytes: Bytes) returns (next: nat)
    requires at + |bytes| <= buf.Length
    modifies buf
    ensures next == at + |bytes|
    ensures buf[..next] == old(buf[..at]) + bytes
    ensures forall j :: next <= j < buf.Length ==> buf[j] == old(buf[j])
  {
    forall i | 0 <= i < |bytes| {
      buf[at + i] := bytes[i];
    }
    next := at + |bytes|;
  }

  /** A buffer with some bytes replaced. */
  function Patch(buf: Bytes, at: nat, bytes: Bytes): (r: Bytes)
    requires at + |bytes| <= |buf|
    ensures |r| == |buf|
  {
    buf[..at] + bytes + buf[at + |bytes|..]
  }

  lemma PatchMiddle(a: Bytes, b: Bytes, c: Bytes, x: Bytes)
    requires |x| == |b|
    ensures Patch(a + b + c, |a|, x) == a + x + c
  {
    assert (a + b + c)[..|a|] == a && (a + b + c)[|a| + |x|..] == c;
  }

  method Store(p: array<Byte>, at: nat, bytes: Bytes)
    requires at + |bytes| <= p.Length
    modifies p
    ensures p[..] == Patch(old(p[..]), at, bytes)
  {
    forall i | 0 <= i < |bytes| {
      p[at + i] := bytes[i];
    }
  }

  lemma Regroup(a: Bytes, b: Bytes, c: Bytes)
    ensures a + b + c == a + (b + c)
  {
  }
}
