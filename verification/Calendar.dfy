// Civil date to Unix time: the Julian-day formula of make_unix_time_utc against a
// day-by-day count of the Gregorian calendar.
module Calendar {

  datatype Date = Date(year: int, month: int, day: int)

  predicate Leap(year: int) {
    year % 4 == 0 && (year % 100 != 0 || year % 400 == 0)
  }

  function DaysInMonth(year: int, month: int): int {
    if month == 2 then (if Leap(year) then 29 else 28)
    else if month == 4 || month == 6 || month == 9 || month == 11 then 30
    else 31
  }

  /** A date of the (proleptic) Gregorian calendar, from the year in which all
      operands of the formula are nonnegative. */
  predicate Valid(d: Date) {
    d.year > -4800 && 1 <= d.month <= 12 && 1 <= d.day <= DaysInMonth(d.year, d.month)
  }

  function Next(d: Date): (n: Date)
    requires Valid(d)
    ensures Valid(n)
  {
    if d.day < DaysInMonth(d.year, d.month) then d.(day := d.day + 1)
    else if d.month < 12 then Date(d.year, d.month + 1, 1)
    else Date(d.year + 1, 1, 1)
  }

  /** Days since 1970-01-01 as the source computes them. */
  function UnixDays(d: Date): int {
    var a := (14 - d.month) / 12;
    var y := d.year + 4800 - a;
    var m := d.month + 12 * a - 3;
    d.day + (153 * m + 2) / 5 + 365 * y + y / 4 - y / 100 + y / 400 - 32045 - 2440588
  }

  /** make_unix_time_utc. */
  function MakeUnixTimeUtc(year: int, month: int, day: int, hour: int, min: int, sec: int): int {
    UnixDays(Date(year, month, day)) * 86400 + hour * 3600 + min * 60 + sec
  }

  /** How the leap-day terms grow from one year to the next. */
  lemma LeapStep(y: int)
    requires y >= 0
    ensures (y + 1) / 4 - y / 4 == if (y + 1) % 4 == 0 then 1 else 0
    ensures (y + 1) / 100 - y / 100 == if (y + 1) % 100 == 0 then 1 else 0
    ensures (y + 1) / 400 - y / 400 == if (y + 1) % 400 == 0 then 1 else 0
  {
  }

  lemma ShiftedLeap(year: int)
    requires year > -4800
    ensures var y := year + 4800; Leap(year) <==> y % 4 == 0 && (y % 100 != 0 || y % 400 == 0)
    ensures var y := year + 4800; (y % 400 == 0 ==> y % 100 == 0) && (y % 100 == 0 ==> y % 4 == 0)
  {
    Shift4(year);
    Shift100(year);
    Shift400(year);
    Nested(year + 4800);
  }

  lemma Shift4(x: int)
    ensures (x + 4800) % 4 == x % 4
  {
  }

  lemma Shift100(x: int)
    ensures (x + 4800) % 100 == x % 100
  {
  }

  lemma Shift400(x: int)
    ensures (x + 4800) % 400 == x % 400
  {
  }

  lemma Nested(y: int)
    ensures (y % 400 == 0 ==> y % 100 == 0) && (y % 100 == 0 ==> y % 4 == 0)
  {
    Centuries(y);
    FourYears(y);
  }

  lemma Centuries(y: int)
    ensures y % 400 == 0 ==> y % 100 == 0
  {
    if y % 400 == 0 {
      var k := 4 * (y / 400) - y / 100;
      assert y % 100 == 100 * k;
      assert k == 0;
    }
  }

  lemma FourYears(y: int)
    ensures y % 100 == 0 ==> y % 4 == 0
  {
    if y % 100 == 0 {
      var k := 25 * (y / 100) - y / 4;
      assert y % 4 == 4 * k;
      assert k == 0;
    }
  }

  /** The formula advances by one from each date to the next. */
  lemma NextDay(d: Date)
    requires Valid(d)
    ensures UnixDays(Next(d)) == UnixDays(d) + 1
  {
    hide Leap;
    if d.day == DaysInMonth(d.year, d.month) {
      if d.month == 2 { FebruaryEnds(d); } else { MonthEnds(d); }
    }
  }

  /** The month term (153m + 2) / 5 steps by the length of every month but February. */
  lemma MonthEnds(d: Date)
    requires Valid(d) && d.month != 2 && d.day == DaysInMonth(d.year, d.month)
    ensures UnixDays(if d.month < 12 then Date(d.year, d.month + 1, 1) else Date(d.year + 1, 1, 1)) == UnixDays(d) + 1
  {
    hide Leap;
  }

  lemma FebruaryEnds(d: Date)
    requires Valid(d) && d.month == 2 && d.day == DaysInMonth(d.year, 2)
    ensures UnixDays(Date(d.year, 3, 1)) == UnixDays(d) + 1
  {
    hide Leap;
    LeapStep(d.year + 4799);
    ShiftedLeap(d.year);
  }

  const EPOCH := Date(1970, 1, 1)

  /** The date n days after 1970-01-01, counted one day at a time. */
  function CountFromEpoch(n: nat): (d: Date)
    ensures Valid(d) && d.year >= 1970
  {
    if n == 0 then EPOCH else Next(CountFromEpoch(n - 1))
  }

  lemma {:induction false} FormulaCounts(n: nat)
    ensures UnixDays(CountFromEpoch(n)) == n
  {
    hide UnixDays, Next;
    if n == 0 {
      EpochIsZero();
    } else {
      FormulaCounts(n - 1);
      NextDay(CountFromEpoch(n - 1));
    }
  }

  function Previous(d: Date): (p: Date)
    requires Valid(d) && d.year >= 1970 && d != EPOCH
    ensures Valid(p) && p.year >= 1970 && Next(p) == d
  {
    if d.day > 1 then d.(day := d.day - 1)
    else if d.month > 1 then Date(d.year, d.month - 1, DaysInMonth(d.year, d.month - 1))
    else Date(d.year - 1, 12, 31)
  }

  /** Every date from 1970 on is reached by the count, after exactly as many days
      as the formula says: the formula is the day-by-day count and is one-to-one. */
  lemma {:induction false} CalendarCorrect(d: Date)
    requires Valid(d) && d.year >= 1970
    ensures UnixDays(d) >= 0 && CountFromEpoch(UnixDays(d)) == d
    decreases d.year, d.month, d.day
  {
    hide Leap, UnixDays;
    if d == EPOCH {
      EpochIsZero();
    } else {
      var p := Previous(d);
      CalendarCorrect(p);
      NextDay(p);
    }
  }

  lemma EpochIsZero()
    ensures UnixDays(EPOCH) == 0
  {
  }

  /** Within a day, the seconds count up. */
  lemma SecondsWithinDay(d: Date, hour: int, min: int, sec: int)
    requires Valid(d) && 0 <= hour < 24 && 0 <= min < 60 && 0 <= sec < 60
    ensures var t := MakeUnixTimeUtc(d.year, d.month, d.day, hour, min, sec);
            t / 86400 == UnixDays(d) && t % 86400 / 3600 == hour && t % 3600 / 60 == min && t % 60 == sec
  {
    hide UnixDays;
    var days := UnixDays(d);
    SplitDays(days, hour * 3600 + min * 60 + sec);
    SplitHours(24 * days + hour, min * 60 + sec);
    SplitHours(hour, min * 60 + sec);
    SplitMinutes(1440 * days + 60 * hour + min, sec);
    SplitMinutes(min, sec);
  }

  lemma SplitDays(q: int, r: int)
    requires 0 <= r < 86400
    ensures (q * 86400 + r) / 86400 == q && (q * 86400 + r) % 86400 == r
  {
  }

  lemma SplitHours(q: int, r: int)
    requires 0 <= r < 3600
    ensures (q * 3600 + r) / 3600 == q && (q * 3600 + r) % 3600 == r
  {
  }

  lemma SplitMinutes(q: int, r: int)
    requires 0 <= r < 60
    ensures (q * 60 + r) / 60 == q && (q * 60 + r) % 60 == r
  {
  }
}
