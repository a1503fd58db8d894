// The NMEA path: checksum verification and RMC parsing of a sentence, and the
// formatter they invert.
module Nmea {
  import opened Buffers
  import opened Calendar

  /** A sentence as the receiver's bytes; reading at its end finds the terminator. */
  type Line = seq<bv8>

  const STAR: bv8 := 0x2A
  const COMMA: bv8 := 0x2C
  const DOLLAR: bv8 := 0x24
  const MAX_FIELDS := 20

  function At(line: Line, i: nat): bv8 {
    if i < |line| then line[i] else 0
  }

  // ---- Checksum ----

  function Xor(s: Line): bv8 {
    if s == [] then 0 else Xor(s[..|s| - 1]) ^ s[|s| - 1]
  }

  function FromHex(c: bv8): Option<bv8> {
    if 0x30 <= c <= 0x39 then Some(c - 0x30)
    else if 0x41 <= c <= 0x46 then Some(c - 0x37)
    else if 0x61 <= c <= 0x66 then Some(c - 0x57)
    else None
  }

  /** The first '*' before any terminator. */
  function StarFrom(line: Line, i: nat): (r: Option<nat>)
    ensures r.Some? ==> i <= r.value < |line| && line[r.value] == STAR
    decreases |line| - i
  {
    if i >= |line| || line[i] == 0 then None
    else if line[i] == STAR then Some(i)
    else StarFrom(line, i + 1)
  }

  /** What the two digits after the star must say. */
  predicate ChecksumOk(line: Line) {
    var star := StarFrom(line, 0);
    && |line| >= 4 && star.Some? && star.value >= 1 && line[0] == DOLLAR && star.value + 2 < |line|
    && DigitsSay(line[star.value + 1], line[star.value + 2], Xor(line[1..star.value]))
  }

  predicate DigitsSay(c1: bv8, c2: bv8, chk: bv8) {
    var h1, h2 := FromHex(c1), FromHex(c2);
    h1.Some? && h2.Some? && chk == (h1.value << 4) | h2.value
  }

  /** Two digits say one checksum only. */
  lemma DigitsSayOne(c1: bv8, c2: bv8, a: bv8, b: bv8)
    requires DigitsSay(c1, c2, a) && DigitsSay(c1, c2, b)
    ensures a == b
  {
  }

  /** verify_nmea_checksum. */
  method VerifyChecksum(line: Line) returns (ok: bool)
    ensures ok <==> ChecksumOk(line)
  {
    if |line| < 4 { return false; }
    var i, found := 0, false;
    while i < |line| && !found && line[i] != 0
      invariant 0 <= i <= |line|
      invariant found ==> StarFrom(line, 0) == Some(i)
      invariant !found ==> StarFrom(line, 0) == StarFrom(line, i)
      decreases |line| - i, !found
    {
      if line[i] == STAR { found := true; } else { i := i + 1; }
    }
    if !found || i < 1 || line[0] != DOLLAR { return false; }
    var chk := 0 as bv8;
    for k := 1 to i
      invariant chk == Xor(line[1..k])
    {
      assert line[1..k + 1][..k - 1] == line[1..k];
      chk := chk ^ line[k];
    }
    if i + 2 >= |line| { return false; }
    var h1, h2 := FromHex(line[i + 1]), FromHex(line[i + 2]);
    if h1.None? || h2.None? { return false; }
    ok := chk == (h1.value << 4) | h2.value;
  }

  lemma XorCommutes(a: bv8, x: bv8, y: bv8, z: bv8)
    ensures (a ^ x ^ y) ^ z == (a ^ z) ^ x ^ y
  {
  }

  lemma XorSwap(a: bv8, x: bv8, y: bv8)
    ensures a ^ y == (a ^ x) ^ x ^ y
  {
  }

  /** Replacing one byte changes the checksum by exactly the two bytes. */
  lemma {:induction false} XorReplace(s: Line, i: nat, x: bv8)
    requires i < |s|
    ensures Xor(s[i := x]) == Xor(s) ^ s[i] ^ x
    decreases |s|
  {
    var t, n := s[i := x], |s| - 1;
    if i == n {
      assert t[..n] == s[..n];
      XorSwap(Xor(s[..n]), s[n], x);
    } else {
      assert t[..n] == s[..n][i := x];
      XorReplace(s[..n], i, x);
      XorCommutes(Xor(s[..n]), s[i], x, s[n]);
    }
  }

  lemma XorNonzero(a: bv8, x: bv8, y: bv8)
    requires x != y
    ensures a ^ x ^ y != a
  {
  }

  lemma {:induction false} StarStays(line: Line, from: nat, i: nat, x: bv8)
    requires i < |line| && x != STAR && x != 0
    requires StarFrom(line, from).Some? && i < StarFrom(line, from).value
    ensures StarFrom(line[i := x], from) == StarFrom(line, from)
    decreases |line| - from
  {
    if line[from] != STAR {
      StarStays(line, from + 1, i, x);
    } else if i >= from {
      assert false;
    }
  }

  lemma {:induction false} StarCut(line: Line, from: nat, i: nat)
    requires from <= i && StarFrom(line, from).Some? && i < StarFrom(line, from).value
    ensures StarFrom(line[i := 0], from) == None
    decreases i - from
  {
    if from < i {
      StarCut(line, from + 1, i);
    }
  }

  /** Changing any one body byte of a sentence that verifies, to any other byte
      but '*', makes the checksum fail. */
  lemma OneByteChangeDetected(line: Line, i: nat, x: bv8)
    requires ChecksumOk(line) && 1 <= i < StarFrom(line, 0).value
    requires x != line[i] && x != STAR
    ensures !ChecksumOk(line[i := x])
  {
    hide StarFrom, Xor, DigitsSay;
    var star := StarFrom(line, 0).value;
    if x == 0 {
      StarCut(line, 0, i);
    } else {
      StarStays(line, 0, i, x);
      var body := line[1..star];
      assert line[i := x][1..star] == body[i - 1 := x];
      XorReplace(body, i - 1, x);
      XorNonzero(Xor(body), line[i], x);
      if ChecksumOk(line[i := x]) {
        DigitsSayOne(line[star + 1], line[star + 2], Xor(body), Xor(body[i - 1 := x]));
      }
    }
  }

  // ---- RMC ----

  /** The position after the k-th comma at or after i, commas behind '*' not counted. */
  function NthField(line: Line, i: nat, k: nat): (r: Option<nat>)
    requires k >= 1
    ensures r.Some? ==> i < r.value <= |line|
    decreases |line| - i
  {
    if i >= |line| then None
    else if line[i] == COMMA then (if k == 1 then Some(i + 1) else NthField(line, i + 1, k - 1))
    else if line[i] == STAR then None
    else NthField(line, i + 1, k)
  }

  function DigitValue(c: bv8): Option<int> {
    if 0x30 <= c <= 0x39 then Some((c - 0x30) as int) else None
  }

  /** parse_two at position i. */
  function TwoDigits(line: Line, i: nat): Option<int> {
    var a, b := DigitValue(At(line, i)), DigitValue(At(line, i + 1));
    if a.Some? && b.Some? then Some(a.value * 10 + b.value) else None
  }

  const RMC: Line := [0x52, 0x4D, 0x43]

  /** "GPRMC" or "GNRMC" behind the '$'. */
  predicate IsRmc(line: Line) {
    && |line| >= 6 && line[0] == DOLLAR && line[1] == 0x47 && (line[2] == 0x50 || line[2] == 0x4E)
    && line[3..6] == RMC
  }

  function FullYear(yy: int): int {
    if yy >= 70 then 1900 + yy else 2000 + yy
  }

  /** The time the fields at these positions state. */
  function FieldsTime(line: Line, time: nat, status: nat, date: nat): Option<int> {
    if At(line, status) != 0x41 then None
    else
      var hh, mm, ss := TwoDigits(line, time), TwoDigits(line, time + 2), TwoDigits(line, time + 4);
      var dd, mo, yy := TwoDigits(line, date), TwoDigits(line, date + 2), TwoDigits(line, date + 4);
      if hh.None? || mm.None? || ss.None? || dd.None? || mo.None? || yy.None? then None
      else Some(MakeUnixTimeUtc(FullYear(yy.value), mo.value, dd.value, hh.value, mm.value, ss.value))
  }

  function RmcTime(line: Line): Option<int> {
    if !IsRmc(line) || !ChecksumOk(line) then None
    else match NthField(line, 0, 9)
      case None => None
      case Some(date) =>
        var time, status := NthField(line, 0, 1), NthField(line, 0, 2);
        if time.None? || status.None? then None else FieldsTime(line, time.value, status.value, date)
  }

  /** The field starts after the commas from i on, at most `room`, none behind '*'. */
  function Starts(line: Line, i: nat, room: nat): (f: seq<nat>)
    ensures |f| <= room
    decreases |line| - i
  {
    if i >= |line| || room == 0 then []
    else if line[i] == COMMA then [i + 1] + Starts(line, i + 1, room - 1)
    else if line[i] == STAR then []
    else Starts(line, i + 1, room)
  }

  lemma {:induction false} StartIsField(line: Line, i: nat, room: nat, k: nat)
    requires 1 <= k <= room
    ensures var f := Starts(line, i, room); NthField(line, i, k) == if k <= |f| then Some(f[k - 1]) else None
    decreases |line| - i
  {
    if i < |line| && line[i] == COMMA {
      if k > 1 { StartIsField(line, i + 1, room - 1, k - 1); }
    } else if i < |line| && line[i] != STAR {
      StartIsField(line, i + 1, room, k);
    }
  }

  /** The tokenizer: the sentence itself is field 0. */
  method Tokenize(line: Line) returns (f: seq<nat>)
    ensures f == [0] + Starts(line, 0, MAX_FIELDS - 1)
  {
    f := [0];
    var i := 0;
    while i < |line| && |f| < MAX_FIELDS
      invariant 0 <= i <= |line| && 1 <= |f| <= MAX_FIELDS
      invariant f + Starts(line, i, MAX_FIELDS - |f|) == [0] + Starts(line, 0, MAX_FIELDS - 1)
    {
      ghost var rest := Starts(line, i, MAX_FIELDS - |f|);
      if line[i] == COMMA {
        assert f + rest == f + [i + 1] + rest[1..];
        f := f + [i + 1];
      }
      if line[i] == STAR { break; }
      i := i + 1;
    }
  }

  method ParseTwo(line: Line, i: nat) returns (ok: bool, v: int)
    ensures if ok then TwoDigits(line, i) == Some(v) else TwoDigits(line, i) == None
  {
    var a, b := At(line, i), At(line, i + 1);
    if !(0x30 <= a <= 0x39) || !(0x30 <= b <= 0x39) { return false, 0; }
    return true, (a - 0x30) as int * 10 + (b - 0x30) as int;
  }

  /** parse_rmc_line. */
  method ParseRmcLine(line: Line) returns (unixSec: Option<int>)
    ensures unixSec == RmcTime(line)
  {
    hide ChecksumOk, NthField, TwoDigits, MakeUnixTimeUtc, Starts;
    if |line| < 6 || line[0] != DOLLAR { return None; }
    if line[1] != 0x47 || (line[2] != 0x50 && line[2] != 0x4E) || line[3..6] != RMC { return None; }
    var ok := VerifyChecksum(line);
    if !ok { return None; }
    var f := Tokenize(line);
    StartIsField(line, 0, MAX_FIELDS - 1, 1);
    StartIsField(line, 0, MAX_FIELDS - 1, 2);
    StartIsField(line, 0, MAX_FIELDS - 1, 9);
    if |f| < 10 { return None; }
    var time, status, date := f[1], f[2], f[9];
    if At(line, status) != 0x41 { return None; }
    var okH, hh := ParseTwo(line, time);
    var okM, mm := ParseTwo(line, time + 2);
    var okS, ss := ParseTwo(line, time + 4);
    if !okH || !okM || !okS { return None; }
    var okD, dd := ParseTwo(line, date);
    var okMo, mo := ParseTwo(line, date + 2);
    var okY, yy := ParseTwo(line, date + 4);
    if !okD || !okMo || !okY { return None; }
    unixSec := Some(MakeUnixTimeUtc(if yy >= 70 then 1900 + yy else 2000 + yy, mo, dd, hh, mm, ss));
  }

  // ---- Formatting (reference) ----

  function Digit(n: int): bv8
    requires 0 <= n < 10
  {
    0x30 + n as bv8
  }

  function Two(n: int): (s: Line)
    requires 0 <= n < 100
    ensures |s| == 2
  {
    [Digit(n / 10), Digit(n % 10)]
  }

  lemma DigitReads(n: int)
    requires 0 <= n < 10
    ensures DigitValue(Digit(n)) == Some(n) && Plain(Digit(n))
  {
    if n == 0 {} else if n == 1 {} else if n == 2 {} else if n == 3 {} else if n == 4 {}
    else if n == 5 {} else if n == 6 {} else if n == 7 {} else if n == 8 {} else {}
  }

  function Hex(v: bv8): bv8
    requires v < 16
  {
    if v < 10 then 0x30 + v else 0x37 + v
  }

  lemma HexReads(v: bv8)
    requires v < 16
    ensures FromHex(Hex(v)) == Some(v)
  {
  }

  lemma NibblesJoin(v: bv8)
    ensures v >> 4 < 16 && v & 15 < 16 && ((v >> 4) << 4) | (v & 15) == v
  {
  }

  /** A byte that is neither a separator nor a terminator. */
  predicate Plain(c: bv8) {
    c != 0 && c != 0x2A && c != 0x2C
  }

  predicate PlainField(s: Line) {
    forall i :: 0 <= i < |s| ==> Plain(s[i])
  }

  function Join(fields: seq<Line>): Line
    requires fields != []
  {
    if |fields| == 1 then fields[0] else fields[0] + [0x2C] + Join(fields[1..])
  }

  /** The body with its star and two checksum digits. */
  function Sentence(body: Line): Line
    requires |body| >= 1
  {
    var chk := Xor(body[1..]);
    NibblesJoin(chk);
    body + [0x2A, Hex(chk >> 4), Hex(chk & 15)]
  }

  lemma {:induction false} StarFound(body: Line, rest: Line, i: nat)
    requires i <= |body| && forall k :: 0 <= k < |body| ==> body[k] != 0 && body[k] != STAR
    ensures StarFrom(body + [STAR] + rest, i) == Some(|body|)
    decreases |body| - i
  {
    if i < |body| {
      StarFound(body, rest, i + 1);
    }
  }

  /** Every well-formed body gets a checksum that verifies, whatever follows. */
  lemma SentenceVerifies(body: Line, rest: Line)
    requires |body| >= 1 && body[0] == DOLLAR && forall k :: 0 <= k < |body| ==> body[k] != 0 && body[k] != STAR
    ensures ChecksumOk(Sentence(body) + rest) && StarFrom(Sentence(body) + rest, 0) == Some(|body|)
  {
    hide Xor, StarFrom, DigitsSay, Hex;
    var chk, line := Xor(body[1..]), Sentence(body) + rest;
    DigitsOf(chk);
    NibblesJoin(chk);
    var tail := [Hex(chk >> 4), Hex(chk & 15)] + rest;
    assert line == body + [STAR] + tail;
    StarFound(body, tail, 0);
    assert line[1..|body|] == body[1..];
    assert line[|body| + 1] == Hex(chk >> 4) && line[|body| + 2] == Hex(chk & 15);
  }

  lemma DigitsOf(chk: bv8)
    ensures chk >> 4 < 16 && chk & 15 < 16 && DigitsSay(Hex(chk >> 4), Hex(chk & 15), chk)
  {
    NibblesJoin(chk);
    HexReads(chk >> 4);
    HexReads(chk & 15);
  }

  lemma {:induction false} SkipField(line: Line, i: nat, end: nat, k: nat)
    requires i <= end < |line| && line[end] == COMMA && k >= 1
    requires forall j :: i <= j < end ==> Plain(line[j])
    ensures NthField(line, i, k) == if k == 1 then Some(end + 1) else NthField(line, end + 1, k - 1)
    decreases end - i
  {
    if i < end {
      SkipField(line, i + 1, end, k);
    }
  }

  /** The field starts here, and a separator follows it. */
  predicate Holds(line: Line, i: nat, f: Line) {
    i + |f| < |line| && line[i..i + |f|] == f && (line[i + |f|] == 0x2C || line[i + |f|] == 0x2A)
  }

  /** The tokenizer finds field k of a joined list, wherever the list starts. */
  lemma {:induction false} FieldFound(before: Line, fields: seq<Line>, after: Line, k: nat)
    requires 1 <= k < |fields| && forall j :: 0 <= j < |fields| ==> PlainField(fields[j])
    requires after != [] && after[0] == STAR
    ensures var line := before + Join(fields) + after;
            var p := NthField(line, |before|, k);
            p.Some? && Holds(line, p.value, fields[k])
    decreases k
  {
    var line, next := before + Join(fields) + after, before + fields[0] + [COMMA];
    assert line == next + Join(fields[1..]) + after;
    var end := |before| + |fields[0]|;
    forall j | |before| <= j < end ensures Plain(line[j]) {
      assert line[j] == fields[0][j - |before|];
    }
    SkipField(line, |before|, end, k);
    if k == 1 {
      FirstField(next, fields[1..], after);
    } else {
      FieldFound(next, fields[1..], after, k - 1);
    }
  }

  lemma FirstField(before: Line, fields: seq<Line>, after: Line)
    requires fields != [] && after != [] && after[0] == STAR
    ensures Holds(before + Join(fields) + after, |before|, fields[0])
  {
    JoinStarts(fields);
  }

  lemma JoinStarts(fields: seq<Line>)
    requires fields != []
    ensures |Join(fields)| >= |fields[0]| && Join(fields)[..|fields[0]|] == fields[0]
    ensures |fields| > 1 ==> |Join(fields)| > |fields[0]| && Join(fields)[|fields[0]|] == COMMA
    ensures |fields| == 1 ==> Join(fields) == fields[0]
  {
  }

  /** Beyond the last field the star ends the search. */
  lemma {:induction false} FieldMissing(before: Line, fields: seq<Line>, after: Line, k: nat)
    requires fields != [] && k >= |fields| && forall j :: 0 <= j < |fields| ==> PlainField(fields[j])
    requires after != [] && after[0] == STAR
    ensures NthField(before + Join(fields) + after, |before|, k) == None
    decreases |fields|
  {
    var line, next := before + Join(fields) + after, before + fields[0] + [COMMA];
    var end := |before| + |fields[0]|;
    FirstField(before, fields, after);
    JoinStarts(fields);
    forall j | |before| <= j < end ensures Plain(line[j]) {
      assert line[j] == line[|before|..end][j - |before|];
    }
    if |fields| == 1 {
      StarEnds(line, |before|, end, k);
    } else {
      assert line == next + Join(fields[1..]) + after;
      SkipField(line, |before|, end, k);
      FieldMissing(next, fields[1..], after, k - 1);
    }
  }

  lemma {:induction false} StarEnds(line: Line, i: nat, end: nat, k: nat)
    requires i <= end < |line| && line[end] == STAR && k >= 1
    requires forall j :: i <= j < end ==> Plain(line[j])
    ensures NthField(line, i, k) == None
    decreases end - i
  {
    if i < end { StarEnds(line, i + 1, end, k); }
  }

  /** An RMC sentence: talker, a time with any fraction, status A, six other
      fields, the date, and any further fields. */
  datatype Rmc = Rmc(talker: bv8, date: Date, hour: int, min: int, sec: int, fraction: Line, middle: seq<Line>, more: seq<Line>)

  predicate RmcOk(r: Rmc) {
    && (r.talker == 0x50 || r.talker == 0x4E)
    && Valid(r.date) && 1970 <= r.date.year < 2070
    && 0 <= r.hour < 24 && 0 <= r.min < 60 && 0 <= r.sec < 60
    && PlainField(r.fraction) && |r.middle| == 6
    && (forall j :: 0 <= j < |r.middle| ==> PlainField(r.middle[j]))
    && (forall j :: 0 <= j < |r.more| ==> PlainField(r.more[j]))
  }

  function TimeField(r: Rmc): Line
    requires RmcOk(r)
  {
    Two(r.hour) + Two(r.min) + Two(r.sec) + r.fraction
  }

  function DateField(r: Rmc): Line
    requires RmcOk(r)
  {
    Two(r.date.day) + Two(r.date.month) + Two(r.date.year % 100)
  }

  function RmcFields(r: Rmc): (fields: seq<Line>)
    requires RmcOk(r)
    ensures |fields| >= 10
  {
    [[DOLLAR, 0x47, r.talker] + RMC, TimeField(r), [0x41]] + r.middle + [DateField(r)] + r.more
  }

  function FormatRmc(r: Rmc): Line
    requires RmcOk(r)
  {
    JoinStarts(RmcFields(r));
    assert |Join(RmcFields(r))| >= 1;
    Sentence(Join(RmcFields(r)))
  }

  lemma TwoReads(line: Line, i: nat, n: int)
    requires 0 <= n < 100 && i + 2 <= |line| && line[i..i + 2] == Two(n)
    ensures TwoDigits(line, i) == Some(n)
  {
    DigitReads(n / 10);
    DigitReads(n % 10);
    assert line[i] == line[i..i + 2][0] && line[i + 1] == line[i..i + 2][1];
    hide Digit, DigitValue;
  }

  lemma TwoPlain(n: int)
    requires 0 <= n < 100
    ensures PlainField(Two(n))
  {
    hide Digit, Plain;
    DigitReads(n / 10);
    DigitReads(n % 10);
  }

  lemma Inside(line: Line, i: nat, f: Line, j: nat)
    requires i + |f| <= |line| && line[i..i + |f|] == f && j + 2 <= |f|
    ensures line[i + j..i + j + 2] == f[j..j + 2]
  {
    assert line[i + j] == f[j] && line[i + j + 1] == f[j + 1];
  }

  lemma ThreeRead(line: Line, i: nat, a: int, b: int, c: int, rest: Line)
    requires 0 <= a < 100 && 0 <= b < 100 && 0 <= c < 100
    requires var f := Two(a) + Two(b) + Two(c) + rest; i + |f| <= |line| && line[i..i + |f|] == f
    ensures TwoDigits(line, i) == Some(a) && TwoDigits(line, i + 2) == Some(b) && TwoDigits(line, i + 4) == Some(c)
  {
    hide Two, TwoDigits;
    var f := Two(a) + Two(b) + Two(c) + rest;
    assert f[0..2] == Two(a) && f[2..4] == Two(b) && f[4..6] == Two(c);
    Inside(line, i, f, 0);
    Inside(line, i, f, 2);
    Inside(line, i, f, 4);
    TwoReads(line, i, a);
    TwoReads(line, i + 2, b);
    TwoReads(line, i + 4, c);
  }

  lemma PlainJoined(a: Line, b: Line)
    requires PlainField(a) && PlainField(b)
    ensures PlainField(a + b)
  {
  }

  lemma FieldsPlain(r: Rmc)
    requires RmcOk(r)
    ensures forall j :: 0 <= j < |RmcFields(r)| ==> PlainField(RmcFields(r)[j])
  {
    hide Two, Plain;
    TwoPlain(r.hour);
    TwoPlain(r.min);
    TwoPlain(r.sec);
    TwoPlain(r.date.day);
    TwoPlain(r.date.month);
    TwoPlain(r.date.year % 100);
    PlainJoined(Two(r.hour), Two(r.min));
    PlainJoined(Two(r.hour) + Two(r.min), Two(r.sec));
    PlainJoined(Two(r.hour) + Two(r.min) + Two(r.sec), r.fraction);
    PlainJoined(Two(r.date.day), Two(r.date.month));
    PlainJoined(Two(r.date.day) + Two(r.date.month), Two(r.date.year % 100));
    HeaderPlain(r.talker);
  }

  lemma HeaderPlain(talker: bv8)
    requires talker == 0x50 || talker == 0x4E
    ensures PlainField([DOLLAR, 0x47, talker] + RMC) && PlainField([0x41])
  {
  }

  lemma {:induction false} JoinClean(fields: seq<Line>)
    requires fields != [] && forall j :: 0 <= j < |fields| ==> PlainField(fields[j])
    ensures forall i :: 0 <= i < |Join(fields)| ==> Join(fields)[i] != 0 && Join(fields)[i] != STAR
    decreases |fields|
  {
    if |fields| > 1 {
      JoinClean(fields[1..]);
    }
  }

  lemma CenturyReads(year: int)
    requires 1970 <= year < 2070
    ensures FullYear(year % 100) == year
  {
  }

  /** Any formatted, checksummed RMC sentence of 1970 to 2069 parses back to the
      second it states, whatever follows it in the buffer; with CalendarCorrect
      that second is the day-by-day count. */
  lemma RmcRoundTrip(r: Rmc, rest: Line)
    requires RmcOk(r)
    ensures RmcTime(FormatRmc(r) + rest)
         == Some(MakeUnixTimeUtc(r.date.year, r.date.month, r.date.day, r.hour, r.min, r.sec))
  {
    hide ChecksumOk, NthField, TwoDigits, MakeUnixTimeUtc, Join, TimeField, DateField, PlainField, Valid, FullYear;
    var fields, line := RmcFields(r), FormatRmc(r) + rest;
    var body := Join(fields);
    FieldsPlain(r);
    JoinClean(fields);
    RmcHeader(r, rest);
    SentenceVerifies(body, rest);
    var after := line[|body|..];
    assert line == [] + body + after;
    FieldFound([], fields, after, 1);
    FieldFound([], fields, after, 2);
    FieldFound([], fields, after, 9);
    RmcFieldsRead(r, line, NthField(line, 0, 1).value, NthField(line, 0, 2).value, NthField(line, 0, 9).value);
  }

  lemma RmcHeader(r: Rmc, rest: Line)
    requires RmcOk(r)
    ensures IsRmc(FormatRmc(r) + rest) && |Join(RmcFields(r))| >= 1 && Join(RmcFields(r))[0] == DOLLAR
  {
    hide Valid, TimeField, DateField, Join;
    var head := [DOLLAR, 0x47, r.talker] + RMC;
    JoinStarts(RmcFields(r));
    var line := FormatRmc(r) + rest;
    assert line[..6] == head;
    assert line[3..6] == line[..6][3..6] == RMC;
    assert line[0] == head[0] && line[1] == head[1] && line[2] == head[2];
  }

  lemma RmcFieldsRead(r: Rmc, line: Line, time: nat, status: nat, date: nat)
    requires RmcOk(r)
    requires time + |TimeField(r)| <= |line| && line[time..time + |TimeField(r)|] == TimeField(r)
    requires status + 1 <= |line| && line[status..status + 1] == [0x41]
    requires date + |DateField(r)| <= |line| && line[date..date + |DateField(r)|] == DateField(r)
    ensures FieldsTime(line, time, status, date)
         == Some(MakeUnixTimeUtc(r.date.year, r.date.month, r.date.day, r.hour, r.min, r.sec))
  {
    hide Two, TwoDigits, MakeUnixTimeUtc;
    CenturyReads(r.date.year);
    assert line[status] == line[status..status + 1][0];
    ThreeRead(line, time, r.hour, r.min, r.sec, r.fraction);
    assert DateField(r) + [] == DateField(r);
    ThreeRead(line, date, r.date.day, r.date.month, r.date.year % 100, []);
  }

  // ---- Which sentences are refused ----

  /** The hexadecimal digits, in either case, and no other bytes. */
  lemma FromHexExact(c: bv8, v: bv8)
    ensures FromHex(c) == Some(v) <==> v < 16 && (c == Hex(v) || (v >= 10 && c == Hex(v) + 0x20))
  {
  }

  /** A body verifies with exactly the digits of its own checksum, and only
      behind a dollar sign. */
  lemma ChecksumExactly(body: Line, c1: bv8, c2: bv8, rest: Line)
    requires body != [] && forall k :: 0 <= k < |body| ==> body[k] != 0 && body[k] != STAR
    ensures ChecksumOk(body + [STAR, c1, c2] + rest) <==> body[0] == DOLLAR && DigitsSay(c1, c2, Xor(body[1..]))
  {
    hide Xor, StarFrom, DigitsSay;
    var line, tail := body + [STAR, c1, c2] + rest, [c1, c2] + rest;
    assert line == body + [STAR] + tail;
    StarFound(body, tail, 0);
    assert line[1..|body|] == body[1..];
  }

  /** "$GPRMC" or "$GNRMC", with anything behind it. */
  predicate Talks(f: Line) {
    |f| >= 6 && (f[..6] == [0x24, 0x47, 0x50, 0x52, 0x4D, 0x43] || f[..6] == [0x24, 0x47, 0x4E, 0x52, 0x4D, 0x43])
  }

  predicate SixDigits(f: Line) {
    |f| >= 6 && forall k :: 0 <= k < 6 ==> 0x30 <= f[k] <= 0x39
  }

  /** The two-digit number at position k of the field. */
  function Number(f: Line, k: nat): int
    requires SixDigits(f) && k <= 4
  {
    (f[k] - 0x30) as int * 10 + (f[k + 1] - 0x30) as int
  }

  predicate TwoAt(f: Line, j: nat) {
    j + 1 < |f| && 0x30 <= f[j] <= 0x39 && 0x30 <= f[j + 1] <= 0x39
  }

  function NumberAt(f: Line, j: nat): int
    requires j + 1 < |f|
  {
    (f[j] - 0x30) as int * 10 + (f[j + 1] - 0x30) as int
  }

  lemma PairRead(line: Line, i: nat, f: Line, j: nat)
    requires Holds(line, i, f) && j <= |f|
    ensures TwoDigits(line, i + j) == if TwoAt(f, j) then Some(NumberAt(f, j)) else None
  {
    if j < |f| { assert line[i + j] == line[i..i + |f|][j]; }
    if j + 1 < |f| { assert line[i + j + 1] == line[i..i + |f|][j + 1]; }
  }

  lemma SixIsThreePairs(f: Line)
    ensures SixDigits(f) <==> TwoAt(f, 0) && TwoAt(f, 2) && TwoAt(f, 4)
    ensures SixDigits(f) ==>
              Number(f, 0) == NumberAt(f, 0) && Number(f, 2) == NumberAt(f, 2) && Number(f, 4) == NumberAt(f, 4)
  {
  }

  /** Three numbers are read from a field exactly when it starts with six digits. */
  lemma SixRead(line: Line, i: nat, f: Line)
    requires Holds(line, i, f)
    ensures TwoDigits(line, i).Some? && TwoDigits(line, i + 2).Some? && TwoDigits(line, i + 4).Some? <==> SixDigits(f)
    ensures SixDigits(f) ==> TwoDigits(line, i) == Some(Number(f, 0))
                             && TwoDigits(line, i + 2) == Some(Number(f, 2)) && TwoDigits(line, i + 4) == Some(Number(f, 4))
  {
    hide *;
    SixIsThreePairs(f);
    TwoFits(f, 0);
    TwoFits(f, 2);
    PairRead(line, i, f, 0);
    if TwoAt(f, 0) {
      PairRead(line, i, f, 2);
      if TwoAt(f, 2) { PairRead(line, i, f, 4); }
    }
  }

  lemma TwoFits(f: Line, j: nat)
    ensures TwoAt(f, j) ==> j + 2 <= |f|
  {
  }

  lemma HeaderExactly(line: Line, f: Line)
    requires Holds(line, 0, f)
    ensures IsRmc(line) <==> Talks(f)
  {
    assert forall k :: 0 <= k < |f| ==> line[k] == line[0..|f|][k];
    if |f| >= 6 {
      assert f[..6] == line[..6];
      assert line[..6] == [line[0], line[1], line[2], line[3], line[4], line[5]];
      assert line[3..6] == [line[3], line[4], line[5]];
    }
  }

  /** What any list of fields, with a star and any two bytes behind it, is taken
      for: a time if and only if the two bytes are the digits of its checksum and it
      is an RMC sentence of at least ten fields whose status field starts with 'A'
      and whose time and date fields start with six digits, and then the time those
      digits state; nothing else, void, corrupted and cut-off sentences included. */
  lemma RmcExactly(fields: seq<Line>, c1: bv8, c2: bv8, rest: Line)
    requires fields != [] && Join(fields) != [] && forall j :: 0 <= j < |fields| ==> PlainField(fields[j])
    ensures RmcTime(Join(fields) + [0x2A, c1, c2] + rest) ==
            if |fields| >= 10 && Talks(fields[0]) && fields[2] != [] && fields[2][0] == 0x41
               && SixDigits(fields[1]) && SixDigits(fields[9]) && DigitsSay(c1, c2, Xor(Join(fields)[1..])) then
              var t, d := fields[1], fields[9];
              var yy := Number(d, 4);
              Some(MakeUnixTimeUtc(if yy >= 70 then 1900 + yy else 2000 + yy, Number(d, 2), Number(d, 0),
                     Number(t, 0), Number(t, 2), Number(t, 4)))
            else None
  {
    hide ChecksumOk, NthField, FieldsTime, MakeUnixTimeUtc, Join, PlainField, DigitsSay, SixDigits, Number, IsRmc, Talks, Holds, Xor;
    var body, line := Join(fields), Join(fields) + [0x2A, c1, c2] + rest;
    var after := AfterBody(body, c1, c2, rest);
    JoinClean(fields);
    FirstField([], fields, after);
    HeaderExactly(line, fields[0]);
    if Talks(fields[0]) {
      TalkStarts(fields);
      ChecksumExactly(body, c1, c2, rest);
      if |fields| < 10 {
        FieldMissing([], fields, after, 9);
      } else {
        FieldFound([], fields, after, 1);
        FieldFound([], fields, after, 2);
        FieldFound([], fields, after, 9);
        var time, status, date := NthField(line, 0, 1).value, NthField(line, 0, 2).value, NthField(line, 0, 9).value;
        FieldsExactly(line, time, status, date, fields[1], fields[2], fields[9]);
      }
    }
  }

  lemma AfterBody(body: Line, c1: bv8, c2: bv8, rest: Line) returns (after: Line)
    ensures after != [] && after[0] == 0x2A && body + [0x2A, c1, c2] + rest == [] + body + after
  {
    after := [0x2A, c1, c2] + rest;
  }

  lemma FieldsExactly(line: Line, time: nat, status: nat, date: nat, t: Line, s: Line, d: Line)
    requires Holds(line, time, t) && Holds(line, status, s) && Holds(line, date, d)
    ensures FieldsTime(line, time, status, date) ==
            if s != [] && s[0] == 0x41 && SixDigits(t) && SixDigits(d) then
              Some(MakeUnixTimeUtc(FullYear(Number(d, 4)), Number(d, 2), Number(d, 0), Number(t, 0), Number(t, 2), Number(t, 4)))
            else None
  {
    hide TwoDigits, MakeUnixTimeUtc, SixDigits, Number, Holds, At, FullYear;
    StatusRead(line, status, s);
    SixRead(line, time, t);
    SixRead(line, date, d);
  }

  lemma TalkStarts(fields: seq<Line>)
    requires fields != [] && Talks(fields[0])
    ensures |Join(fields)| >= 1 && Join(fields)[0] == DOLLAR
  {
    JoinStarts(fields);
    assert fields[0][0] == fields[0][..6][0];
    assert Join(fields)[0] == Join(fields)[..|fields[0]|][0];
  }

  lemma StatusRead(line: Line, i: nat, f: Line)
    requires Holds(line, i, f)
    ensures At(line, i) == 0x41 <==> f != [] && f[0] == 0x41
  {
    if f != [] { assert line[i] == line[i..i + |f|][0]; }
  }
}
