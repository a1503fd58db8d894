// 32.32 fixed-point NTP timestamps: the microsecond calibration applied to t2
// and t3, and the conversion of a monotonic time to a timestamp through the
// last pulse and the measured frequency error.
module NtpTimestamp {
  import opened MachineInts

  datatype Stamp = Stamp(sec: U32, frac: U32)

  /** Seconds in the upper half, fraction in the lower: units of 2^-32 s. */
  function Units(s: Stamp): (v: nat)
    ensures v < 0x1_0000_0000_0000_0000
  {
    s.sec * 0x1_0000_0000 + s.frac
  }

  function FromUnits(v: int): (s: Stamp)
    ensures Units(s) == v % 0x1_0000_0000_0000_0000
  {
    var w := v % 0x1_0000_0000_0000_0000;
    Stamp(w / 0x1_0000_0000, w % 0x1_0000_0000)
  }

  lemma UnitsDetermineStamp(a: Stamp, b: Stamp)
    requires Units(a) == Units(b)
    ensures a == b
  {
  }

  /** us microseconds in timestamp units, as C integer division gives them. */
  function UsToUnits(us: int): int {
    TruncDiv(us * 0x1_0000_0000, 1_000_000)
  }

  /** The correction rounds toward zero, symmetrically. */
  lemma CorrectionExact(us: int)
    requires us >= 0
    ensures 0 <= us * 0x1_0000_0000 - UsToUnits(us) * 1_000_000 < 1_000_000
    ensures UsToUnits(-us) == -UsToUnits(us)
  {
  }

  function Calibrated(s: Stamp, us: int): Stamp {
    FromUnits(Units(s) - UsToUnits(us))
  }

  /** ntp_ts_sub_us: borrow and carry loops over an int64 fraction.  The result
      is the 64-bit timestamp minus the truncated correction, modulo the era. */
  method SubUs(s: Stamp, us: int) returns (r: Stamp)
    requires -0x8000_0000 <= us < 0x8000_0000
    ensures r == Calibrated(s, us)
    ensures Units(r) == (Units(s) - UsToUnits(us)) % 0x1_0000_0000_0000_0000
  {
    hide FromUnits, Units, TruncDiv;
    if us == 0 {
      ZeroCorrection(s);
      return s;
    }
    var f: int := s.frac - TruncDiv(us * 0x1_0000_0000, 1_000_000);
    var sec: int := s.sec;
    ghost var unwrapped: int := s.sec;
    SplitUnits(s.sec, s.frac, s.sec);
    while f < 0
      invariant unwrapped * 0x1_0000_0000 + f == s.sec * 0x1_0000_0000 + s.frac - UsToUnits(us)
      invariant sec == unwrapped % 0x1_0000_0000
      decreases -f
    {
      f, sec, unwrapped := f + 0x1_0000_0000, Wrap32(sec - 1), unwrapped - 1;
    }
    while f >= 0x1_0000_0000
      invariant f >= 0 && unwrapped * 0x1_0000_0000 + f == s.sec * 0x1_0000_0000 + s.frac - UsToUnits(us)
      invariant sec == unwrapped % 0x1_0000_0000
      decreases f
    {
      f, sec, unwrapped := f - 0x1_0000_0000, Wrap32(sec + 1), unwrapped + 1;
    }
    r := Stamp(sec, f);
    SplitUnits(unwrapped, f, sec);
    PlainUnits(s);
    UnitsDetermineStamp(r, Calibrated(s, us));
  }

  lemma PlainUnits(s: Stamp)
    ensures Units(s) == s.sec * 0x1_0000_0000 + s.frac
  {
  }

  lemma ZeroCorrection(s: Stamp)
    ensures UsToUnits(0) == 0 && Calibrated(s, 0) == s && Units(s) % 0x1_0000_0000_0000_0000 == Units(s)
  {
    hide Units;
    QuotientUnique(Units(s), 0, Units(s));
    UnitsDetermineStamp(s, Calibrated(s, 0));
  }

  lemma SplitUnits(unwrapped: int, f: U32, sec: U32)
    requires sec == unwrapped % 0x1_0000_0000
    ensures Units(Stamp(sec, f)) == (unwrapped * 0x1_0000_0000 + f) % 0x1_0000_0000_0000_0000
  {
    var q := unwrapped / 0x1_0000_0000;
    assert unwrapped * 0x1_0000_0000 + f == Units(Stamp(sec, f)) + q * 0x1_0000_0000_0000_0000;
  }

  /** Elapsed time between two timestamps, modulo the era. */
  function Elapsed(later: Stamp, earlier: Stamp): nat {
    (Units(later) - Units(earlier)) % 0x1_0000_0000_0000_0000
  }

  /** Calibrating both ends leaves the server's turnaround t3 - t2 unchanged. */
  lemma CalibrationCancels(t2: Stamp, t3: Stamp, us: int)
    ensures Elapsed(Calibrated(t3, us), Calibrated(t2, us)) == Elapsed(t3, t2)
  {
    hide FromUnits, UsToUnits, Units;
    EraDifference(Units(t3) - UsToUnits(us), Units(t2) - UsToUnits(us));
  }

  /** Calibrating only t2 shifts the turnaround by the correction. */
  lemma OneSidedCalibration(t2: Stamp, t3: Stamp, us: int)
    ensures Elapsed(t3, Calibrated(t2, us)) == (Units(t3) - Units(t2) + UsToUnits(us)) % 0x1_0000_0000_0000_0000
  {
    hide FromUnits, UsToUnits, Units;
    EraDifference(Units(t3), Units(t2) - UsToUnits(us));
    QuotientUnique(Units(t3), 0, Units(t3));
  }

  lemma EraDifference(a: int, b: int)
    ensures (a % 0x1_0000_0000_0000_0000 - b % 0x1_0000_0000_0000_0000) % 0x1_0000_0000_0000_0000
         == (a - b) % 0x1_0000_0000_0000_0000
  {
    var qa, qb := a / 0x1_0000_0000_0000_0000, b / 0x1_0000_0000_0000_0000;
    assert a - b == (a % 0x1_0000_0000_0000_0000 - b % 0x1_0000_0000_0000_0000) + (qa - qb) * 0x1_0000_0000_0000_0000;
  }

  lemma QuotientUnique(y: int, q: int, r: nat)
    requires y == q * 0x1_0000_0000_0000_0000 + r && r < 0x1_0000_0000_0000_0000
    ensures y % 0x1_0000_0000_0000_0000 == r && y / 0x1_0000_0000_0000_0000 == q
  {
  }

  // ---- Monotonic time to timestamp ----

  /** The last pulse: its monotonic time and the NTP second it stands for. */
  datatype Pulse = Pulse(us: nat, sec: U32)

  /** Frequency corrections to the elapsed microseconds, truncated toward zero. */
  function CorrectedDelta(raw: nat, ppm: real): int {
    raw + Trunc(Scale(-ppm * 0.000001, raw))
  }

  function Scale(k: real, n: nat): real {
    k * n as real
  }

  function RawDelta(monoUs: nat, pulse: Pulse): nat {
    if monoUs < pulse.us then 0 else monoUs - pulse.us
  }

  /** computeNtpTimestamp while locked: second and fraction come from the pulse's
      second and the corrected delta; the pulse's own fraction is not added. */
  function ComputeNtpTimestamp(monoUs: nat, pulse: Pulse, ppm: real): (s: Stamp) {
    var delta := CorrectedDelta(RawDelta(monoUs, pulse), ppm) % 0x1_0000_0000_0000_0000;
    Stamp(Wrap32(pulse.sec + delta / 1_000_000), (delta % 1_000_000 * 0x1_0000_0000 / 1_000_000) % 0x1_0000_0000)
  }

  /** Frequency errors the fit can report without being rejected are far below this. */
  predicate SaneRate(ppm: real) {
    -500.0 <= ppm <= 500.0
  }

  lemma TruncBounds(x: real)
    ensures x - 1.0 < Trunc(x) as real < x + 1.0
    ensures x >= 0.0 ==> 0.0 <= Trunc(x) as real <= x
    ensures x <= 0.0 ==> x <= Trunc(x) as real <= 0.0
  {
  }

  /** Within one microsecond of the exactly corrected delta, and never negative. */
  lemma DeltaError(raw: nat, ppm: real)
    requires SaneRate(ppm)
    ensures var exact := raw as real - ppm * 0.000001 * raw as real;
            exact - 1.0 < CorrectedDelta(raw, ppm) as real < exact + 1.0
    ensures CorrectedDelta(raw, ppm) >= 0
  {
    var x := Scale(-ppm * 0.000001, raw);
    TruncBounds(x);
    ScaleBounds(-ppm * 0.000001, raw);
    TruncAbove(x, raw);
    assert (raw + Trunc(x)) as real == raw as real + Trunc(x) as real;
    hide Trunc;
  }

  lemma TruncAbove(x: real, n: nat)
    requires -(n as real) <= x
    ensures n + Trunc(x) >= 0
  {
    TruncBounds(x);
  }

  lemma ScaleBounds(k: real, n: nat)
    requires -1.0 <= k <= 1.0
    ensures -(n as real) <= Scale(k, n) <= n as real
    ensures k >= 0.0 ==> Scale(k, n) >= 0.0
    ensures k <= 0.0 ==> Scale(k, n) <= 0.0
  {
    var r := n as real;
    Product(1.0 - k, r);
    Product(1.0 + k, r);
    assert (1.0 - k) * r == r - k * r && (1.0 + k) * r == r + k * r;
    if k >= 0.0 {
      Product(k, r);
    } else {
      Product(-k, r);
    }
  }

  lemma Product(a: real, b: real)
    requires a >= 0.0 && b >= 0.0
    ensures a * b >= 0.0
  {
  }

  /** Truncation cannot lose more than the step: x - y <= n implies the same of
      their truncations, for a whole n. */
  lemma TruncStep(x: real, y: real, n: int)
    requires x - y <= n as real
    requires (x >= 0.0 && y >= 0.0) || (x <= 0.0 && y <= 0.0)
    ensures Trunc(x) - Trunc(y) <= n
  {
    if x >= 0.0 && y >= 0.0 {
      assert (y + n as real).Floor == y.Floor + n;
    } else {
      assert ((-x) + n as real).Floor == (-x).Floor + n;
    }
  }

  lemma ScaleDifference(k: real, a: nat, b: nat)
    requires a <= b
    ensures Scale(k, b) - Scale(k, a) == Scale(k, b - a)
  {
    var x, y := a as real, (b - a) as real;
    assert b as real == x + y;
    assert k * (x + y) == k * x + k * y;
  }

  lemma DeltaMonotone(a: nat, b: nat, ppm: real)
    requires SaneRate(ppm) && a <= b
    ensures CorrectedDelta(a, ppm) <= CorrectedDelta(b, ppm)
  {
    hide Trunc, Scale;
    var k := -ppm * 0.000001;
    ScaleBounds(k, a);
    ScaleBounds(k, b);
    ScaleBounds(k, b - a);
    ScaleDifference(k, a, b);
    TruncStep(Scale(k, a), Scale(k, b), b - a);
  }

  /** Seconds and fraction together are floor(delta * 2^32 / 10^6). */
  lemma FractionIsFloor(delta: nat)
    ensures delta / 1_000_000 * 0x1_0000_0000 + delta % 1_000_000 * 0x1_0000_0000 / 1_000_000
         == delta * 0x1_0000_0000 / 1_000_000
    ensures delta % 1_000_000 * 0x1_0000_0000 / 1_000_000 < 0x1_0000_0000
  {
    var s, u := delta / 1_000_000, delta % 1_000_000;
    assert delta * 0x1_0000_0000 == s * 0x1_0000_0000 * 1_000_000 + u * 0x1_0000_0000;
    AddMultiple(u * 0x1_0000_0000, s * 0x1_0000_0000);
  }

  lemma AddMultiple(x: nat, k: nat)
    ensures (k * 1_000_000 + x) / 1_000_000 == k + x / 1_000_000
  {
  }

  /** The timestamp is the pulse's second plus the corrected delta, in units of
      2^-32 s rounded down, modulo the era. */
  lemma ComputedUnits(monoUs: nat, pulse: Pulse, ppm: real)
    requires SaneRate(ppm) && CorrectedDelta(RawDelta(monoUs, pulse), ppm) < 0x1_0000_0000_0000_0000
    ensures CorrectedDelta(RawDelta(monoUs, pulse), ppm) >= 0
    ensures Units(ComputeNtpTimestamp(monoUs, pulse, ppm))
         == (pulse.sec * 0x1_0000_0000 + CorrectedDelta(RawDelta(monoUs, pulse), ppm) * 0x1_0000_0000 / 1_000_000)
            % 0x1_0000_0000_0000_0000
  {
    hide CorrectedDelta, Units;
    var raw := RawDelta(monoUs, pulse);
    DeltaError(raw, ppm);
    var delta := CorrectedDelta(raw, ppm);
    FractionIsFloor(delta);
    QuotientUnique(delta, 0, delta);
    SmallMod(delta % 1_000_000 * 0x1_0000_0000 / 1_000_000);
    SplitUnits(pulse.sec + delta / 1_000_000, delta % 1_000_000 * 0x1_0000_0000 / 1_000_000,
      Wrap32(pulse.sec + delta / 1_000_000));
  }

  /** The corrected delta as the 64-bit counter the code computes with. */
  function Delta64(monoUs: nat, pulse: Pulse, ppm: real): (d: nat) {
    CorrectedDelta(RawDelta(monoUs, pulse), ppm) % 0x1_0000_0000_0000_0000
  }

  /** Read before the pulse it is based on, the clock stands at the pulse's second. */
  lemma ClampedBeforePulse(monoUs: nat, pulse: Pulse, ppm: real)
    requires monoUs <= pulse.us
    ensures ComputeNtpTimestamp(monoUs, pulse, ppm) == Stamp(pulse.sec, 0)
  {
    assert Scale(-ppm * 0.000001, 0) == 0.0;
  }

  /** Two conversions against the same pulse and rate give the same timestamp if
      and only if their corrected deltas are the same microsecond, modulo the era. */
  lemma ReadingsCoincide(a: nat, b: nat, pulse: Pulse, ppm: real)
    ensures ComputeNtpTimestamp(a, pulse, ppm) == ComputeNtpTimestamp(b, pulse, ppm)
       <==> Delta64(a, pulse, ppm) % 4_294_967_296_000_000 == Delta64(b, pulse, ppm) % 4_294_967_296_000_000
  {
    hide CorrectedDelta, RawDelta;
    var x, y := Delta64(a, pulse, ppm), Delta64(b, pulse, ppm);
    SplitMicros(x);
    SplitMicros(y);
    FractionIsFloor(x);
    FractionIsFloor(y);
    SmallMod(x % 1_000_000 * 0x1_0000_0000 / 1_000_000);
    SmallMod(y % 1_000_000 * 0x1_0000_0000 / 1_000_000);
    FractionInjective(x % 1_000_000, y % 1_000_000);
    SecondsCoincide(pulse.sec, x / 1_000_000, y / 1_000_000);
    MicrosDetermine(x / 1_000_000 % 0x1_0000_0000, x % 1_000_000, y / 1_000_000 % 0x1_0000_0000, y % 1_000_000);
  }

  lemma SplitMicros(d: nat)
    ensures d % 4_294_967_296_000_000 == d / 1_000_000 % 0x1_0000_0000 * 1_000_000 + d % 1_000_000
  {
    var q, r := d / 1_000_000, d % 1_000_000;
    var k, s := q / 0x1_0000_0000, q % 0x1_0000_0000;
    assert d == k * 4_294_967_296_000_000 + (s * 1_000_000 + r);
  }

  lemma MicrosDetermine(s: nat, r: nat, t: nat, u: nat)
    requires r < 1_000_000 && u < 1_000_000
    ensures s * 1_000_000 + r == t * 1_000_000 + u <==> s == t && r == u
  {
  }

  lemma FractionInjective(r: nat, u: nat)
    ensures r * 0x1_0000_0000 / 1_000_000 == u * 0x1_0000_0000 / 1_000_000 <==> r == u
  {
    var x, y := r * 0x1_0000_0000, u * 0x1_0000_0000;
    if x / 1_000_000 == y / 1_000_000 {
      assert -1_000_000 < x - y < 1_000_000;
    }
  }

  lemma SecondsCoincide(sec: U32, p: nat, q: nat)
    ensures Wrap32(sec + p) == Wrap32(sec + q) <==> p % 0x1_0000_0000 == q % 0x1_0000_0000
  {
    var m := p / 0x1_0000_0000 - q / 0x1_0000_0000;
    if p % 0x1_0000_0000 == q % 0x1_0000_0000 {
      assert sec + p == sec + q + m * 0x1_0000_0000;
    } else {
      var k := (sec + p) / 0x1_0000_0000 - (sec + q) / 0x1_0000_0000;
      assert Wrap32(sec + p) == Wrap32(sec + q) ==> p == q + k * 0x1_0000_0000;
    }
  }

  /** Era-free time at a monotonic instant, in units of 2^-32 s since 1900: the
      pulse's second plus the corrected delta, rounded down. */
  function UnwrappedUnits(monoUs: nat, pulse: Pulse, ppm: real): int {
    pulse.sec * 0x1_0000_0000 + CorrectedDelta(RawDelta(monoUs, pulse), ppm) * 0x1_0000_0000 / 1_000_000
  }

  /** For a fixed pulse and rate, served time never runs backwards: between two
      instants the timestamp advances by exactly the difference of the two
      unwrapped times, which is never negative, and the later timestamp is the
      greater one if and only if no era boundary lies between them. */
  lemma ServedTimeMonotone(early: nat, late: nat, pulse: Pulse, ppm: real)
    requires SaneRate(ppm) && early <= late
    requires CorrectedDelta(RawDelta(late, pulse), ppm) < 0x1_0000_0000_0000_0000
    ensures var a, b := ComputeNtpTimestamp(early, pulse, ppm), ComputeNtpTimestamp(late, pulse, ppm);
            var advance := UnwrappedUnits(late, pulse, ppm) - UnwrappedUnits(early, pulse, ppm);
            && advance >= 0 && Elapsed(b, a) == advance % 0x1_0000_0000_0000_0000
            && (advance < 0x1_0000_0000_0000_0000 ==>
                  Elapsed(b, a) == advance
                  && (Units(a) <= Units(b) <==>
                        UnwrappedUnits(early, pulse, ppm) / 0x1_0000_0000_0000_0000
                        == UnwrappedUnits(late, pulse, ppm) / 0x1_0000_0000_0000_0000))
  {
    var a, b := RawDelta(early, pulse), RawDelta(late, pulse);
    DeltaMonotone(a, b, ppm);
    DeltaError(a, ppm);
    ComputedUnits(early, pulse, ppm);
    ComputedUnits(late, pulse, ppm);
    FloorMonotone(CorrectedDelta(a, ppm), CorrectedDelta(b, ppm));
    var x, y := UnwrappedUnits(early, pulse, ppm), UnwrappedUnits(late, pulse, ppm);
    hide CorrectedDelta, Units, ComputeNtpTimestamp, UnwrappedUnits;
    EraDifference(y, x);
    EraOrder(x, y);
  }

  /** Times less than an era apart keep their order modulo the era exactly when
      they lie in the same era. */
  lemma EraOrder(x: int, y: int)
    requires x <= y
    ensures y - x < 0x1_0000_0000_0000_0000 ==>
      && (y - x) % 0x1_0000_0000_0000_0000 == y - x
      && (x % 0x1_0000_0000_0000_0000 <= y % 0x1_0000_0000_0000_0000
          <==> x / 0x1_0000_0000_0000_0000 == y / 0x1_0000_0000_0000_0000)
  {
  }

  lemma SmallMod(x: nat)
    requires x < 0x1_0000_0000
    ensures x % 0x1_0000_0000 == x
  {
  }

  lemma FloorMonotone(x: nat, y: nat)
    requires x <= y
    ensures 0 <= x * 0x1_0000_0000 / 1_000_000 <= y * 0x1_0000_0000 / 1_000_000
  {
    var p, q := x * 0x1_0000_0000, y * 0x1_0000_0000;
    assert p <= q;
    DivMonotone(p, q);
  }

  lemma DivMonotone(p: nat, q: nat)
    requires p <= q
    ensures p / 1_000_000 <= q / 1_000_000
  {
  }
}
