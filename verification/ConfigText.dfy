// The settings store's readers against the texts they read: decimal numbers with
// blanks and a sign, and dotted addresses.
module ConfigText {
  import opened Buffers
  import opened ConfigStore

  // ---- Numbers ----

  /** n in decimal, most significant digit first. */
  function Decimal(n: nat): (s: string)
    ensures s != "" && forall k :: 0 <= k < |s| ==> '0' <= s[k] <= '9'
  {
    var last := ['0' + (n % 10) as char];
    if n < 10 then last else Decimal(n / 10) + last
  }

  lemma {:induction false} DecimalValue(n: nat)
    ensures DigitsValue(Decimal(n)) == n
  {
    var s := Decimal(n);
    if n < 10 {
      assert s[..0] == "" && DigitsValue("") == 0;
    } else {
      DecimalValue(n / 10);
      assert s[..|s| - 1] == Decimal(n / 10);
    }
  }

  predicate Blank(s: string) {
    forall k :: 0 <= k < |s| ==> s[k] == ' ' || 9 <= s[k] as int <= 13
  }

  lemma {:induction false} BlanksSkipped(blanks: string, s: string)
    requires Blank(blanks)
    ensures ParseLong(blanks + s) == ParseLong(s)
    decreases |blanks|
  {
    if blanks == "" {
      assert blanks + s == s;
    } else {
      assert (blanks + s)[1..] == blanks[1..] + s;
      BlanksSkipped(blanks[1..], s);
    }
  }

  /** An optional sign and decimal digits are that number; anything behind the
      digits, or no digit at all, is refused. */
  lemma NumbersRead(n: nat, junk: string)
    requires junk != "" && !('0' <= junk[0] <= '9')
    ensures ParseLong(Decimal(n)) == ParseLong("+" + Decimal(n)) == Some(n)
    ensures var m := ParseLong("-" + Decimal(n)); m.Some? && m.value + n == 0
    ensures ParseLong(Decimal(n) + junk) == ParseLong("+" + Decimal(n) + junk) == ParseLong("-" + Decimal(n) + junk) == None
    ensures ParseLong("") == ParseLong("-") == ParseLong("+") == None
  {
    hide ParseLong, DigitsValue, Decimal;
    var d := Decimal(n);
    DecimalValue(n);
    DigitsRead(d);
    SignRead('+', d);
    SignRead('-', d);
    JunkRefused(d, junk);
    SignRead('+', d + junk);
    SignRead('-', d + junk);
    assert ['+'] + d == "+" + d && ['-'] + d == "-" + d;
    assert ['+'] + (d + junk) == "+" + d + junk && ['-'] + (d + junk) == "-" + d + junk;
    NothingRead();
  }

  lemma NothingRead()
    ensures ParseLong("") == ParseLong("-") == ParseLong("+") == None
  {
    assert "+"[1..] == "" && "-"[1..] == "";
  }

  lemma DigitsRead(d: string)
    requires d != "" && forall k :: 0 <= k < |d| ==> '0' <= d[k] <= '9'
    ensures ParseLong(d) == Some(DigitsValue(d))
  {
    assert !IsSpace(d[0]) && forall k :: 0 <= k < |d| ==> IsDigit(d[k]);
  }

  /** A sign in front of what starts with a digit. */
  lemma SignRead(sign: char, d: string)
    requires (sign == '+' || sign == '-') && d != "" && '0' <= d[0] <= '9'
    ensures var r, t := ParseLong([sign] + d), ParseLong(d);
            if t.None? then r.None? else r.Some? && r.value == if sign == '-' then -t.value else t.value
  {
    var s := [sign] + d;
    assert s[1..] == d && s[0] == sign && !IsSpace(sign) && !IsSpace(d[0]);
  }

  lemma JunkRefused(d: string, junk: string)
    requires d != "" && '0' <= d[0] <= '9' && junk != "" && !('0' <= junk[0] <= '9')
    ensures ParseLong(d + junk) == None
  {
    var t := d + junk;
    assert !IsDigit(t[|d|]) && t[0] == d[0] && !IsSpace(d[0]);
  }

  // ---- Addresses ----

  /** One to three digits worth at most 255. */
  predicate Octet(s: string) {
    1 <= |s| <= 3 && (forall k :: 0 <= k < |s| ==> '0' <= s[k] <= '9') && DigitsValue(s) <= 255
  }

  lemma {:induction false} RunOf(a: string, rest: string)
    requires (forall k :: 0 <= k < |a| ==> '0' <= a[k] <= '9') && (rest == "" || !('0' <= rest[0] <= '9'))
    ensures Run(a + rest) == |a|
    decreases |a|
  {
    if a == "" {
      assert a + rest == rest;
    } else {
      assert (a + rest)[1..] == a[1..] + rest;
      RunOf(a[1..], rest);
    }
  }

  lemma OctetStep(a: string, rest: string, g: nat)
    requires Octet(a)
    ensures Groups(a) == Some(1)
    ensures rest != "" && Groups(rest) == Some(g) ==> Groups(a + "." + rest) == Some(g + 1)
  {
    hide Run, DigitsValue;
    RunOf(a, "");
    assert a + "" == a && a[..|a|] == a;
    RunOf(a, "." + rest);
    var s := a + "." + rest;
    assert s == a + ("." + rest) && s[..|a|] == a && s[|a| + 1..] == rest;
  }

  /** A text that reads as groups starts with one of them. */
  lemma FirstGroup(s: string) returns (a: string, rest: string)
    requires s != "" && Groups(s).Some?
    ensures Octet(a) && |rest| < |s| && Groups(s).value >= 1
    ensures if Groups(s).value == 1 then s == a else rest != "" && s == a + "." + rest && Groups(rest) == Some(Groups(s).value - 1)
  {
    hide Run, DigitsValue;
    var n := Run(s);
    a, rest := s[..n], if n < |s| then s[n + 1..] else "";
    if n == |s| {
      assert s[..n] == s;
    } else {
      assert s == s[..n] + [s[n]] + s[n + 1..];
      GroupsCount(rest);
    }
  }

  lemma GroupsCount(s: string)
    requires s != "" && Groups(s).Some?
    ensures Groups(s).value >= 1
  {
  }

  /** An address is accepted exactly when it is four octets joined by dots. */
  lemma AddressExactly(s: string)
    ensures ValidIpv4(s) <==>
            exists a, b, c, d :: Octet(a) && Octet(b) && Octet(c) && Octet(d) && s == a + "." + b + "." + c + "." + d
  {
    hide Groups, Octet;
    if ValidIpv4(s) {
      NoGroups();
      var a, rest := FirstGroup(s);
      var b, rest2 := FirstGroup(rest);
      var c, d := FirstGroup(rest2);
      var d', nothing := FirstGroup(d);
      assert a + "." + (b + "." + (c + "." + d)) == a + "." + b + "." + c + "." + d;
      assert Octet(d);
    }
    forall a, b, c, d | Octet(a) && Octet(b) && Octet(c) && Octet(d) && s == a + "." + b + "." + c + "." + d
      ensures ValidIpv4(s)
    {
      OctetStep(d, "", 0);
      NonEmpty(d);
      OctetStep(c, d, 1);
      OctetStep(b, c + "." + d, 2);
      OctetStep(a, b + "." + (c + "." + d), 3);
      assert a + "." + (b + "." + (c + "." + d)) == s;
    }
  }

  lemma NonEmpty(a: string)
    requires Octet(a)
    ensures a != ""
  {
  }
}
