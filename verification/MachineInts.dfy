// Fixed-width integer arithmetic of the firmware, written out over the
// unbounded integers: wrap-around, sign reinterpretation and the C division
// that truncates toward zero.
module MachineInts {
  type Byte = b: int | 0 <= b < 0x100
  type U16 = n: int | 0 <= n < 0x1_0000
  type U32 = n: int | 0 <= n < 0x1_0000_0000

  function Wrap16(n: int): (r: U16) {
    n % 0x1_0000
  }

  function Wrap32(n: int): (r: U32) {
    n % 0x1_0000_0000
  }

  /** The C cast (int32_t)(uint32_t)n. */
  function Signed32(n: int): (r: int) {
    var w := n % 0x1_0000_0000;
    if w < 0x8000_0000 then w else w - 0x1_0000_0000
  }

  /** The signed 32-bit difference of two wrapped counters is their true
      difference exactly when that difference is representable. */
  lemma SignedDifference(a: int, b: int)
    ensures Signed32(Wrap32(a) - Wrap32(b)) == a - b <==> -0x8000_0000 <= a - b < 0x8000_0000
  {
    WrapDifference(a, b);
  }

  lemma WrapDifference(a: int, b: int)
    ensures (Wrap32(a) - Wrap32(b)) % 0x1_0000_0000 == (a - b) % 0x1_0000_0000
  {
    var qa, qb := a / 0x1_0000_0000, b / 0x1_0000_0000;
    assert a - b == (Wrap32(a) - Wrap32(b)) + (qa - qb) * 0x1_0000_0000;
  }

  /** C integer division by a positive divisor: rounds toward zero. */
  function TruncDiv(a: int, b: int): (q: int)
    requires b > 0
  {
    if a >= 0 then a / b else -((-a) / b)
  }

  /** The quotient never lies further from zero than the true one. */
  lemma TruncatesTowardZero(a: int, b: int)
    requires b > 0
    ensures a >= 0 ==> 0 <= TruncDiv(a, b) && TruncDiv(a, b) * b <= a < TruncDiv(a, b) * b + b
    ensures a <= 0 ==> TruncDiv(a, b) <= 0 && TruncDiv(a, b) * b - b < a <= TruncDiv(a, b) * b
  {
    var n := if a >= 0 then a else -a;
    var q := n / b;
    assert n == b * q + n % b;
    hide TruncDiv;
    QuotientSign(a, b, q);
  }

  lemma QuotientSign(a: int, b: int, q: int)
    requires b > 0 && q == (if a >= 0 then a else -a) / b
    ensures q >= 0 && TruncDiv(a, b) == if a >= 0 then q else -q
  {
  }

  /** C conversion of a double to an integer type: rounds toward zero. */
  function Trunc(x: real): (n: int) {
    if x >= 0.0 then x.Floor else -((-x).Floor)
  }

  /** fabs. */
  function Abs(x: real): (r: real)
    ensures r >= 0.0 && (r == x || r == -x)
  {
    if x < 0.0 then -x else x
  }

  // ---- Big-endian encoding ----

  function BE16(n: U16): (b: seq<Byte>)
    ensures |b| == 2
  {
    [n / 0x100, n % 0x100]
  }

  function FromBE16(b: seq<Byte>): (n: U16)
    requires |b| >= 2
  {
    0x100 * (b[0] as int) + b[1] as int
  }

  function BE32(n: U32): (b: seq<Byte>)
    ensures |b| == 4
  {
    [n / 0x100_0000, n / 0x1_0000 % 0x100, n / 0x100 % 0x100, n % 0x100]
  }

  function FromBE32(b: seq<Byte>): (n: U32)
    requires |b| >= 4
  {
    0x100_0000 * (b[0] as int) + 0x1_0000 * (b[1] as int) + 0x100 * (b[2] as int) + b[3] as int
  }

  lemma BE16RoundTrip(n: U16)
    ensures FromBE16(BE16(n)) == n
  {
  }

  lemma BE32RoundTrip(n: U32)
    ensures FromBE32(BE32(n)) == n
  {
    var a, b := n / 0x100, n / 0x1_0000;
    assert a / 0x100 == b && b / 0x100 == n / 0x100_0000;
  }

  /** Network byte order: the most significant byte comes first. */
  lemma NetworkOrder(a: Byte, b: Byte, c: Byte, d: Byte)
    ensures FromBE16([a, b]) == a * 0x100 + b && BE16(a * 0x100 + b) == [a, b]
    ensures FromBE32([a, b, c, d]) == a * 0x100_0000 + b * 0x1_0000 + c * 0x100 + d
    ensures BE32(a * 0x100_0000 + b * 0x1_0000 + c * 0x100 + d) == [a, b, c, d]
  {
    var n := a * 0x100_0000 + b * 0x1_0000 + c * 0x100 + d;
    assert n / 0x1_0000 == a * 0x100 + b && n / 0x100 == a * 0x1_0000 + b * 0x100 + c;
  }
}
