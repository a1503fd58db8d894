// The sliding capture fit of GpsDiscipline: the 240-entry ring of (GPS second,
// capture tick) samples and the solver over it, proved against LeastSquares.
module CaptureFit {
  import opened MachineInts
  import opened LeastSquares

  const MIN_SAMPLES := 16
  const NOMINAL_TICKS := 80000000.0
  const DRIFT_LAG := 60

  datatype FitSample = FitSample(sec: U32, tick: int)

  // ---- Reference definitions ----

  function LastN<T>(xs: seq<T>, n: nat): seq<T> {
    if |xs| <= n then xs else xs[|xs| - n..]
  }

  /** The window after pushing every element of xs, oldest first. */
  function PushAll(window: seq<FitSample>, xs: seq<FitSample>): seq<FitSample>
    decreases |xs|
  {
    if xs == [] then window else PushAll(LastN(window + [xs[0]], 240), xs[1..])
  }

  /** The samples as points, seen from sample k. */
  function Points(samples: seq<FitSample>, k: nat): (p: seq<Point>)
    requires k < |samples|
    ensures |p| == |samples|
    ensures forall i :: 0 <= i < |p| ==>
      p[i] == Point(Signed32(samples[i].sec - samples[k].sec) as real, (samples[i].tick - samples[k].tick) as real)
  {
    seq(|samples|, i requires 0 <= i < |samples| =>
      Point(Signed32(samples[i].sec - samples[k].sec) as real, (samples[i].tick - samples[k].tick) as real))
  }

  predicate PlausibleSlope(slope: real) {
    79960000.0 <= slope <= 80040000.0
  }

  /** When the samples rebased on sample k have an acceptable least-squares line. */
  predicate Solvable(samples: seq<FitSample>, k: nat)
    requires k < |samples|
  {
    && |samples| >= MIN_SAMPLES
    && Spans(Points(samples, k))
    && PlausibleSlope(Slope(Points(samples, k)))
  }

  // ---- The ring ----

  class Fit {
    const ring: array<FitSample>
    var head: nat
    var count: nat
    var ticksPerSec: real
    var residualTicks: real

    ghost predicate Valid()
      reads this`head, this`count
    {
      ring.Length == 240 && head < 240 && count <= 240
    }

    /** The live samples, oldest first. */
    ghost function Samples(): (s: seq<FitSample>)
      requires Valid()
      reads this`head, this`count, ring
      ensures |s| == count
      ensures forall i :: 0 <= i < count ==> s[i] == ring[(head + 240 - count + i) % 240]
    {
      var oldest := (head + 240 - count) % 240;
      if oldest + count <= 240 then ring[oldest..oldest + count]
      else ring[oldest..] + ring[..oldest + count - 240]
    }

    constructor ()
      ensures Valid() && fresh(ring) && Samples() == []
      ensures ticksPerSec == NOMINAL_TICKS && residualTicks == 0.0
    {
      ring := new FitSample[240](_ => FitSample(0, 0));
      head, count := 0, 0;
      ticksPerSec, residualTicks := NOMINAL_TICKS, 0.0;
    }

    method Reset()
      requires Valid()
      modifies this
      ensures Valid() && Samples() == []
      ensures ticksPerSec == NOMINAL_TICKS && residualTicks == 0.0
    {
      head, count := 0, 0;
      ticksPerSec := NOMINAL_TICKS;
      residualTicks := 0.0;
    }

    method Push(gpsSec: U32, tick: int)
      requires Valid()
      modifies this`head, this`count, ring
      ensures Valid()
      ensures Samples() == LastN(old(Samples()) + [FitSample(gpsSec, tick)], 240)
    {
      hide Samples;
      ghost var was, cells, h, n := Samples(), ring[..], head, count;
      ring[head] := FitSample(gpsSec, tick);
      head := (head + 1) % 240;
      if count < 240 {
        count := count + 1;
      }
      assert ring[..] == cells[h := FitSample(gpsSec, tick)];
      SlotsMove(cells, h, n, FitSample(gpsSec, tick), was, Samples());
    }

    /** p holds the live samples, oldest first, rebased on the oldest. */
    ghost predicate Rebased(idx: nat, p: seq<Point>)
      requires Valid()
      reads this`head, this`count, ring
    {
      && idx == (head + 240 - count) % 240
      && |p| == count > 0
      && forall i :: 0 <= i < count ==>
           var s := ring[(idx + i) % 240];
           p[i] == Point(Signed32(s.sec - ring[idx].sec) as real, (s.tick - ring[idx].tick) as real)
    }

    /** Accumulates as the source does, in two passes over the ring. */
    method Solve() returns (ok: bool)
      requires Valid()
      modifies this`ticksPerSec, this`residualTicks
      ensures ok <==> Samples() != [] && Solvable(Samples(), 0)
      ensures ok ==> ticksPerSec == Slope(Points(Samples(), 0)) && residualTicks == Residual(Points(Samples(), 0))
      ensures !ok ==> unchanged(this)
    {
      hide Samples;
      if count < MIN_SAMPLES { return false; }
      var idx := (head + 240 - count) % 240;
      SamplesRebased(idx);
      var slope, residual;
      ok, slope, residual := FitLine(idx, Points(Samples(), 0));
      if ok {
        ticksPerSec, residualTicks := slope, residual;
      }
    }

    lemma SamplesRebased(idx: nat)
      requires Valid() && count > 0 && idx == (head + 240 - count) % 240
      ensures Rebased(idx, Points(Samples(), 0))
    {
      hide Samples, Points, Signed32;
      assert Samples()[0] == ring[idx];
      assert forall i :: 0 <= i < count ==> Samples()[i] == ring[(idx + i) % 240];
    }

    method FitLine(idx: nat, ghost p: seq<Point>) returns (ok: bool, slope: real, residual: real)
      requires Valid() && Rebased(idx, p)
      ensures ok <==> Spans(p) && PlausibleSlope(Slope(p))
      ensures ok ==> slope == Slope(p) && residual == Residual(p)
    {
      hide Total, SpreadTerms, CrossTerms, Signed32;
      slope, residual := 0.0, 0.0;
      var mx, my := Means(idx, p);
      var sxx, sxy := SecondMoments(idx, mx, my, p);
      SpreadNonnegative(p, mx);
      if sxx <= 0.0 { return false, slope, residual; }
      slope := sxy / sxx;
      if slope < 79960000.0 || slope > 80040000.0 { return false, slope, residual; }
      var base, last := ring[idx], ring[(head + 239) % 240];
      LastSlot(head, count);
      var lx := Signed32(last.sec - base.sec) as real - mx;
      var ly := (last.tick - base.tick) as real - my;
      CentredResidual(p[count - 1], mx, my, slope);
      residual := ly - slope * lx;
      ok := true;
    }

    /** First pass: the means of the rebased samples. */
    method Means(idx: nat, ghost p: seq<Point>) returns (mx: real, my: real)
      requires Valid() && Rebased(idx, p)
      ensures mx == MeanX(p) && my == MeanY(p)
    {
      var base := ring[idx];
      var sx, sy := 0.0, 0.0;
      for i := 0 to count
        invariant sx == Total(Xs(p)[..i]) && sy == Total(Ys(p)[..i])
      {
        var s := ring[(idx + i) % 240];
        sx := sx + Signed32(s.sec - base.sec) as real;
        sy := sy + (s.tick - base.tick) as real;
        TotalStep(Xs(p), i);
        TotalStep(Ys(p), i);
      }
      assert Xs(p)[..count] == Xs(p) && Ys(p)[..count] == Ys(p);
      mx, my := sx / count as real, sy / count as real;
    }

    /** Second pass: the centred second moments. */
    method SecondMoments(idx: nat, mx: real, my: real, ghost p: seq<Point>) returns (sxx: real, sxy: real)
      requires Valid() && Rebased(idx, p)
      ensures sxx == Total(SpreadTerms(p, mx)) && sxy == Total(CrossTerms(p, mx, my))
    {
      var base := ring[idx];
      sxx, sxy := 0.0, 0.0;
      assert Total(SpreadTerms(p, mx)[..0]) == 0.0 && Total(CrossTerms(p, mx, my)[..0]) == 0.0;
      hide Total, SpreadTerms, CrossTerms, Signed32;
      for i := 0 to count
        invariant sxx == Total(SpreadTerms(p, mx)[..i]) && sxy == Total(CrossTerms(p, mx, my)[..i])
      {
        var s := ring[(idx + i) % 240];
        var dx := Signed32(s.sec - base.sec) as real - mx;
        var dy := (s.tick - base.tick) as real - my;
        SecondMomentStep(p, i, mx, my, dx, dy);
        sxx := sxx + dx * dx;
        sxy := sxy + dx * dy;
      }
      assert SpreadTerms(p, mx)[..count] == SpreadTerms(p, mx);
      assert CrossTerms(p, mx, my)[..count] == CrossTerms(p, mx, my);
    }
  }

  /** w lists the live cells of a ring, oldest first. */
  ghost predicate Lists(cells: seq<FitSample>, head: nat, count: nat, w: seq<FitSample>)
    requires |cells| == 240 && count <= 240
  {
    |w| == count && forall i :: 0 <= i < count ==> w[i] == cells[(head + 240 - count + i) % 240]
  }

  lemma SlotsMove(cells: seq<FitSample>, head: nat, count: nat, s: FitSample, was: seq<FitSample>, now: seq<FitSample>)
    requires |cells| == 240 && head < 240 && count <= 240
    requires Lists(cells, head, count, was)
    requires Lists(cells[head := s], (head + 1) % 240, if count < 240 then count + 1 else count, now)
    ensures now == LastN(was + [s], 240)
  {
    var drop := if count < 240 then 0 else 1;
    forall i | 0 <= i < |now|
      ensures now[i] == (was + [s])[i + drop]
    {
      SlotMoves(head, count, i);
      var slot := (head + 240 - count + i + drop) % 240;
      assert now[i] == cells[head := s][slot];
      assert i + drop < count ==> was[i + drop] == cells[slot];
    }
    assert now == (was + [s])[drop..];
  }

  /** Where sample i of the window lives after one more sample was written at `head`. */
  lemma SlotMoves(head: nat, count: nat, i: nat)
    requires head < 240 && count <= 240 && i <= count
    ensures var drop := if count < 240 then 0 else 1;
            var slot := ((head + 1) % 240 + 240 - (count + 1 - drop) + i) % 240;
            && slot == (head + 240 - count + i + drop) % 240
            && (i + drop < count ==> slot != head)
            && (i + drop == count ==> slot == head)
  {
  }

  /** The newest sample sits before the head, count - 1 slots past the oldest. */
  lemma LastSlot(head: nat, count: nat)
    requires head < 240 && 0 < count <= 240
    ensures (head + 239) % 240 == ((head + 240 - count) % 240 + (count - 1)) % 240
  {
  }

  lemma TotalStep(r: seq<real>, i: nat)
    requires i < |r|
    ensures Total(r[..i + 1]) == Total(r[..i]) + r[i]
  {
    assert r[..i + 1][..i] == r[..i];
  }

  lemma SecondMomentStep(p: seq<Point>, i: nat, mx: real, my: real, dx: real, dy: real)
    requires i < |p| && dx == p[i].x - mx && dy == p[i].y - my
    ensures Total(SpreadTerms(p, mx)[..i + 1]) == Total(SpreadTerms(p, mx)[..i]) + dx * dx
    ensures Total(CrossTerms(p, mx, my)[..i + 1]) == Total(CrossTerms(p, mx, my)[..i]) + dx * dy
  {
    hide Total;
    TotalStep(SpreadTerms(p, mx), i);
    TotalStep(CrossTerms(p, mx, my), i);
  }

  lemma CentredResidual(q: Point, mx: real, my: real, b: real)
    ensures q.y - my - b * (q.x - mx) == Deviation(q, my - b * mx, b)
  {
    Distribute(b, q.x, mx);
  }

  lemma SpreadNonnegative(p: seq<Point>, mx: real)
    ensures Total(SpreadTerms(p, mx)) >= 0.0
  {
    forall i | 0 <= i < |p| ensures SpreadTerms(p, mx)[i] >= 0.0 {
      SquareSign(p[i].x - mx);
    }
    Nonnegative(SpreadTerms(p, mx));
  }

  // ---- The window over whole runs ----

  lemma {:induction false} PushAllFrom(window: seq<FitSample>, xs: seq<FitSample>)
    requires |window| <= 240
    ensures PushAll(window, xs) == LastN(window + xs, 240)
    decreases |xs|
  {
    if xs == [] {
      assert window + xs == window;
    } else {
      PushAllFrom(LastN(window + [xs[0]], 240), xs[1..]);
      assert window + [xs[0]] + xs[1..] == window + xs;
    }
  }

  /** After any sequence of pushes the window is the last min(n, 240) samples, in order. */
  lemma WindowIsLastPushes(xs: seq<FitSample>)
    ensures PushAll([], xs) == LastN(xs, 240)
  {
    PushAllFrom([], xs);
    assert [] + xs == xs;
  }

  // ---- What a successful solve means ----

  /** A plausible slope is one within 500 ppm of the nominal rate. */
  lemma PlausibleWithin500Ppm(slope: real)
    ensures NOMINAL_TICKS == 80000000.0
    ensures PlausibleSlope(slope) <==> -0.0005 <= slope / NOMINAL_TICKS - 1.0 <= 0.0005
  {
  }

  /** Solving succeeds on at least 16 samples, of two different seconds at least,
      whose least-squares slope is plausible, and on no others. */
  lemma SolvableExactly(samples: seq<FitSample>)
    requires samples != []
    ensures Solvable(samples, 0) <==>
            && |samples| >= 16 && Spans(Points(samples, 0))
            && -0.0005 <= Slope(Points(samples, 0)) / 80000000.0 - 1.0 <= 0.0005
    ensures Spans(Points(samples, 0)) <==> exists i :: 0 <= i < |samples| && Signed32(samples[i].sec - samples[0].sec) != 0
  {
    hide Slope, Signed32, Spans;
    var p := Points(samples, 0);
    SpansExactly(p);
    SameSecond(samples[0].sec);
    assert forall i :: 0 <= i < |p| ==> (p[i].x != p[0].x <==> Signed32(samples[i].sec - samples[0].sec) != 0);
    if Spans(p) { PlausibleWithin500Ppm(Slope(p)); }
  }

  lemma SameSecond(sec: U32)
    ensures Signed32(sec - sec) == 0
  {
  }

  /** A successful solve is the least-squares line of the window: no other line,
      of any slope and intercept, deviates less, and the residual is the newest
      sample's deviation from it. */
  lemma SolveIsLeastSquares(samples: seq<FitSample>, a: real, b: real)
    requires samples != [] && Solvable(samples, 0)
    ensures var p := Points(samples, 0);
            && Total(SquaredDeviations(p, Intercept(p), Slope(p))) <= Total(SquaredDeviations(p, a, b))
            && (Total(SquaredDeviations(p, Intercept(p), Slope(p))) == Total(SquaredDeviations(p, a, b))
                <==> a == Intercept(p) && b == Slope(p))
  {
    LeastSquaresIsOptimal(Points(samples, 0), a, b);
  }

  /** `seconds` are the true, unbounded GPS seconds behind the 32-bit labels. */
  predicate TrueSeconds(samples: seq<FitSample>, seconds: seq<int>) {
    && |seconds| == |samples|
    && (forall i :: 0 <= i < |samples| ==> samples[i].sec == Wrap32(seconds[i]))
    && (forall i, j :: 0 <= i < |seconds| && 0 <= j < |seconds| ==> seconds[i] - seconds[j] < 0x8000_0000)
  }

  lemma SecondsDifference(samples: seq<FitSample>, seconds: seq<int>, i: nat, k: nat)
    requires TrueSeconds(samples, seconds) && i < |samples| && k < |samples|
    ensures Signed32(samples[i].sec - samples[k].sec) == seconds[i] - seconds[k]
  {
    assert seconds[k] - seconds[i] < 0x8000_0000;
    SignedDifference(seconds[i], seconds[k]);
  }

  lemma RebasedPoints(samples: seq<FitSample>, seconds: seq<int>, k: nat)
    requires TrueSeconds(samples, seconds) && k < |samples|
    ensures Points(samples, k) == Shift(Points(samples, 0), Points(samples, 0)[k].x, Points(samples, 0)[k].y)
  {
    hide Signed32, Points, Shift, TrueSeconds;
    var p := Points(samples, 0);
    forall i | 0 <= i < |samples|
      ensures Points(samples, k)[i] == Point(p[i].x - p[k].x, p[i].y - p[k].y)
    {
      SecondsDifference(samples, seconds, i, k);
      SecondsDifference(samples, seconds, i, 0);
      SecondsDifference(samples, seconds, k, 0);
    }
  }

  /** The result does not depend on which sample the others are rebased on, as
      long as the window spans fewer than 2^31 true seconds. */
  lemma RebaseChoiceIrrelevant(samples: seq<FitSample>, seconds: seq<int>, k: nat)
    requires TrueSeconds(samples, seconds) && k < |samples|
    requires Solvable(samples, 0)
    ensures Solvable(samples, k)
    ensures Slope(Points(samples, k)) == Slope(Points(samples, 0))
    ensures Residual(Points(samples, k)) == Residual(Points(samples, 0))
  {
    hide Points, Shift, TrueSeconds, Spans, Slope, Residual;
    var p := Points(samples, 0);
    RebasedPoints(samples, seconds, k);
    RebaseInvariant(p, p[k].x, p[k].y);
  }

  /** Collinear samples yield their exact slope and no residual. */
  lemma CollinearSamples(samples: seq<FitSample>, b: real)
    requires samples != [] && Solvable(samples, 0)
    requires forall q <- Points(samples, 0) :: q.y == b * q.x
    ensures Slope(Points(samples, 0)) == b && Residual(Points(samples, 0)) == 0.0
  {
    CollinearIsExact(Points(samples, 0), 0.0, b);
  }

  // ---- Frequency ramp and the reported prediction ----

  /** Consecutive one-second samples, from second `first`, of an oscillator at f
      ticks/s (at index 0) drifting by accel ticks/s^2. */
  predicate RampStream(xs: seq<FitSample>, first: int, origin: real, f: real, accel: real) {
    forall i :: 0 <= i < |xs| ==>
      && xs[i].sec == Wrap32(first + i)
      && xs[i].tick as real == origin + f * i as real + accel / 2.0 * (i as real * i as real)
  }

  lemma WindowOfRamp(xs: seq<FitSample>, first: int, origin: real, f: real, accel: real, k: nat, n: nat)
    requires RampStream(xs, first, origin, f, accel)
    requires 0 < n <= 240 && k + n <= |xs|
    ensures IsRamp(Points(xs[k..k + n], 0), f + accel * k as real, accel)
  {
    var w := xs[k..k + n];
    forall i | 0 <= i < n
      ensures Points(w, 0)[i] == Point(i as real, (f + accel * k as real) * i as real + accel / 2.0 * (i as real * i as real))
    {
      assert w[i] == xs[k + i] && w[0] == xs[k];
      SignedDifference(first + k + i, first + k);
      RampRebase(k as real, i as real, origin, f, accel);
    }
  }

  lemma RampRebase(k: real, i: real, origin: real, f: real, accel: real)
    ensures origin + f * (k + i) + accel / 2.0 * ((k + i) * (k + i)) - (origin + f * k + accel / 2.0 * (k * k))
         == (f + accel * k) * i + accel / 2.0 * (i * i)
  {
    assert (k + i) * (k + i) == k * k + 2.0 * (k * i) + i * i;
    Distribute(accel / 2.0, k * k, 2.0 * (k * i) + i * i);
    Distribute(accel / 2.0, 2.0 * (k * i), i * i);
    assert accel / 2.0 * (2.0 * (k * i)) == accel * k * i;
  }

  // ---- The drift measured between fits ----

  /** slopeLagged, slopeLagCount and statFreqDriftPerSec. */
  datatype Track = Track(lagged: real, count: nat, perSec: real)

  /** The fractional slope change over DRIFT_LAG pulses. */
  function DriftPerSec(slope: real, lagged: real): real {
    (slope - lagged) / 80000000.0 / 60.0
  }

  /** One successful solve: every DRIFT_LAG-th compares its slope with the last kept one. */
  function Tracked(t: Track, slope: real): Track {
    if t.count + 1 < DRIFT_LAG then t.(count := t.count + 1)
    else Track(slope, 0, if t.lagged != 0.0 then DriftPerSec(slope, t.lagged) else t.perSec)
  }

  /** One pushed sample: the new window, and the drift if it could be solved. */
  function Observed(window: seq<FitSample>, t: Track, s: FitSample): (seq<FitSample>, Track) {
    var w := LastN(window + [s], 240);
    (w, if Solvable(w, 0) then Tracked(t, Slope(Points(w, 0))) else t)
  }

  /** An empty ring after all of these samples. */
  function ObserveAll(xs: seq<FitSample>, t: Track): (seq<FitSample>, Track)
    decreases |xs|
  {
    if xs == [] then ([], t)
    else
      var (window, u) := ObserveAll(xs[..|xs| - 1], t);
      Observed(window, u, xs[|xs| - 1])
  }

  lemma LastNAppend(xs: seq<FitSample>, x: FitSample)
    ensures LastN(LastN(xs, 240) + [x], 240) == LastN(xs + [x], 240)
  {
  }

  lemma {:induction false} ObservedWindow(xs: seq<FitSample>, t: Track)
    ensures ObserveAll(xs, t).0 == LastN(xs, 240)
    decreases |xs|
  {
    if xs != [] {
      ObservedWindow(xs[..|xs| - 1], t);
      LastNAppend(xs[..|xs| - 1], xs[|xs| - 1]);
      assert xs[..|xs| - 1] + [xs[|xs| - 1]] == xs;
    }
  }

  /** residualPredictedSec of getStats, for a window of `fitCount` samples. */
  function PredictedResidualSec(driftPerSec: real, fitCount: nat): real {
    Abs(driftPerSec) * (fitCount as real * fitCount as real) / 12.0
  }

  /** The window of n samples of the stream starting at sample k. */
  function Window(xs: seq<FitSample>, k: nat, n: nat): (p: seq<Point>)
    requires 0 < n && k + n <= |xs|
  {
    Points(xs[k..k + n], 0)
  }

  lemma RampWindowFit(xs: seq<FitSample>, first: int, origin: real, f: real, accel: real, k: nat, n: nat)
    requires RampStream(xs, first, origin, f, accel)
    requires 2 <= n <= 240 && k + n <= |xs|
    ensures Spans(Window(xs, k, n))
    ensures Slope(Window(xs, k, n)) == RampSlope(n as real, f + accel * k as real, accel)
    ensures Residual(Window(xs, k, n)) == RampResidual(n as real, accel)
  {
    hide Slope, Residual, Spans, RampSlope, RampResidual, RampStream, IsRamp;
    WindowOfRamp(xs, first, origin, f, accel, k, n);
    RampFit(Window(xs, k, n), f + accel * k as real, accel);
  }

  /** How many samples the ring holds after m pushes. */
  function Held(m: nat): (n: nat)
    ensures n <= m && n <= 240
  {
    if m < 240 then m else 240
  }

  /** Where the middle of the window lies after m pushes, in seconds of the stream. */
  function Middle(m: nat): real {
    (m - Held(m)) as real + (Held(m) as real - 1.0) / 2.0
  }

  /** The slope fitted after m pushes of a ramp. */
  function SlopeAfter(m: nat, f: real, accel: real): real {
    f + accel * Middle(m)
  }

  /** The oscillator's rate is plausible at both ends of the stream. */
  predicate PlausibleRamp(xs: seq<FitSample>, f: real, accel: real) {
    PlausibleSlope(f) && PlausibleSlope(f + accel * |xs| as real)
  }

  /** A rate between two plausible ones is plausible. */
  lemma BetweenPlausible(f: real, accel: real, x: real, end: real)
    requires 0.0 <= x <= end && PlausibleSlope(f) && PlausibleSlope(f + accel * end)
    ensures PlausibleSlope(f + accel * x)
  {
    Distribute(accel, end, x);
    if accel >= 0.0 {
      NonnegativeProduct(accel, x);
      NonnegativeProduct(accel, end - x);
    } else {
      NonnegativeProduct(-accel, x);
      NonnegativeProduct(-accel, end - x);
    }
  }

  lemma NonnegativeProduct(a: real, b: real)
    requires a >= 0.0 && b >= 0.0
    ensures a * b >= 0.0
  {
  }

  lemma RampMiddle(n: real, k: real, f: real, accel: real)
    ensures RampSlope(n, f + accel * k, accel) == f + accel * (k + (n - 1.0) / 2.0)
  {
    Distribute(accel, k, (n - 1.0) / 2.0);
  }

  /** After m pushes of a ramp the window is solved, from the 16th on, with the
      rate at its middle and the ramp's residual. */
  lemma RampSolves(xs: seq<FitSample>, first: int, origin: real, f: real, accel: real, m: nat)
    requires RampStream(xs, first, origin, f, accel) && PlausibleRamp(xs, f, accel)
    requires 0 < m <= |xs|
    ensures |LastN(xs[..m], 240)| == Held(m) > 0
    ensures Solvable(LastN(xs[..m], 240), 0) <==> m >= MIN_SAMPLES
    ensures m >= MIN_SAMPLES ==>
      && Slope(Points(LastN(xs[..m], 240), 0)) == SlopeAfter(m, f, accel)
      && Residual(Points(LastN(xs[..m], 240), 0)) == RampResidual(Held(m) as real, accel)
  {
    hide Slope, Residual, Spans, RampSlope, RampResidual, RampStream, Points, SlopeAfter, PlausibleSlope, PlausibleRamp;
    var n := Held(m);
    assert LastN(xs[..m], 240) == xs[m - n..m];
    if m >= MIN_SAMPLES {
      RampWindowFit(xs, first, origin, f, accel, m - n, n);
      assert (m - n) + n == m;
      SlopeAtMiddle(m, f, accel);
      PositiveSlope(xs, m, f, accel);
    }
  }

  lemma SlopeAtMiddle(m: nat, f: real, accel: real)
    ensures RampSlope(Held(m) as real, f + accel * (m - Held(m)) as real, accel) == SlopeAfter(m, f, accel)
  {
    RampMiddle(Held(m) as real, (m - Held(m)) as real, f, accel);
  }

  lemma PositiveSlope(xs: seq<FitSample>, m: nat, f: real, accel: real)
    requires PlausibleRamp(xs, f, accel) && 0 < m <= |xs|
    ensures PlausibleSlope(SlopeAfter(m, f, accel)) && SlopeAfter(m, f, accel) > 0.0
  {
    BetweenPlausible(f, accel, Middle(m), |xs| as real);
  }

  // After m pushes on a tracker that had counted c solves, the drift in force
  // was measured at push LastUpdate(m, c), against the slope 60 pushes earlier.

  function Updates(m: nat, c: nat): nat {
    if m + c < MIN_SAMPLES - 1 then 0 else (m + c - 15) / 60
  }

  function LastUpdate(m: nat, c: nat): int {
    60 * Updates(m, c) - c + 15
  }

  predicate TrackOf(t: Track, t0: Track, m: nat, f: real, accel: real) {
    var c, u, at := t0.count, Updates(m, t0.count), LastUpdate(m, t0.count);
    if m < MIN_SAMPLES then t == t0
    else
      && t.count == m + c - 15 - 60 * u
      && (u == 0 ==> t.lagged == t0.lagged && t.perSec == t0.perSec)
      && (u >= 1 ==> at >= 16 && t.lagged == SlopeAfter(at, f, accel))
      && (u == 1 ==> t.perSec == if t0.lagged != 0.0 then DriftPerSec(SlopeAfter(at, f, accel), t0.lagged) else t0.perSec)
      && (u >= 2 ==> at - 60 >= 16 && t.perSec == DriftPerSec(SlopeAfter(at, f, accel), SlopeAfter(at - 60, f, accel)))
  }

  lemma {:induction false} TrackOnRamp(xs: seq<FitSample>, first: int, origin: real, f: real, accel: real, t0: Track, m: nat)
    requires RampStream(xs, first, origin, f, accel) && PlausibleRamp(xs, f, accel)
    requires m <= |xs| && t0.count < DRIFT_LAG
    ensures TrackOf(ObserveAll(xs[..m], t0).1, t0, m, f, accel)
    decreases m
  {
    hide RampStream, PlausibleRamp, ObserveAll, TrackOf, SlopeAfter, Tracked;
    if m == 0 {
      NothingTracked(t0, f, accel);
    } else {
      TrackOnRamp(xs, first, origin, f, accel, t0, m - 1);
      ObservedNext(xs, first, origin, f, accel, t0, m);
      var t := ObserveAll(xs[..m - 1], t0).1;
      KeptPositive(xs, t, t0, m - 1, f, accel);
      TrackStep(t, t0, m, f, accel);
    }
  }

  lemma NothingTracked(t0: Track, f: real, accel: real)
    ensures TrackOf(ObserveAll([], t0).1, t0, 0, f, accel)
  {
    hide DriftPerSec, SlopeAfter;
  }

  /** The m-th push of a ramp feeds the tracker the slope at that push. */
  lemma ObservedNext(xs: seq<FitSample>, first: int, origin: real, f: real, accel: real, t0: Track, m: nat)
    requires RampStream(xs, first, origin, f, accel) && PlausibleRamp(xs, f, accel) && 0 < m <= |xs|
    ensures var t := ObserveAll(xs[..m - 1], t0).1;
            ObserveAll(xs[..m], t0).1 == if m >= MIN_SAMPLES then Tracked(t, SlopeAfter(m, f, accel)) else t
  {
    hide Slope, Spans, Points, RampStream, SlopeAfter, DriftPerSec, LastN, Solvable, RampResidual, PlausibleRamp, Tracked;
    var before := xs[..m - 1];
    assert xs[..m][..m - 1] == before && xs[..m] == before + [xs[m - 1]];
    ObservedWindow(before, t0);
    LastNAppend(before, xs[m - 1]);
    RampSolves(xs, first, origin, f, accel, m);
  }

  lemma KeptPositive(xs: seq<FitSample>, t: Track, t0: Track, m: nat, f: real, accel: real)
    requires PlausibleRamp(xs, f, accel) && m <= |xs| && t0.count < DRIFT_LAG && TrackOf(t, t0, m, f, accel)
    ensures t.lagged != 0.0 || Updates(m, t0.count) == 0
  {
    hide SlopeAfter, PlausibleRamp, DriftPerSec;
    if m >= MIN_SAMPLES && Updates(m, t0.count) >= 1 {
      PositiveSlope(xs, LastUpdate(m, t0.count), f, accel);
    }
  }

  /** The tracker's invariant over one push. */
  lemma TrackStep(t: Track, t0: Track, m: nat, f: real, accel: real)
    requires m > 0 && t0.count < DRIFT_LAG && TrackOf(t, t0, m - 1, f, accel)
    requires t.lagged != 0.0 || Updates(m - 1, t0.count) == 0
    ensures TrackOf(if m >= MIN_SAMPLES then Tracked(t, SlopeAfter(m, f, accel)) else t, t0, m, f, accel)
  {
    hide SlopeAfter, DriftPerSec;
    var c := t0.count;
    if m >= MIN_SAMPLES {
      var x := m + c - 16;
      assert Updates(m - 1, c) == x / 60 && Updates(m, c) == (x + 1) / 60;
    }
  }

  /** What share of the acceleration the drift measured at push `at` sees: half
      of it while the ring is filling, all of it once both windows were full. */
  function Share(at: nat): real {
    if at <= 240 then 0.5 else if at >= 300 then 1.0 else (at - 180) as real / 120.0
  }

  lemma DriftShare(at: nat, f: real, accel: real)
    requires at >= 76
    ensures DriftPerSec(SlopeAfter(at, f, accel), SlopeAfter(at - 60, f, accel)) * 80000000.0 == accel * Share(at)
  {
    var a, b := Middle(at), Middle(at - 60);
    Distribute(accel, a, b);
    assert a - b == 60.0 * Share(at);
    assert accel * (60.0 * Share(at)) == 60.0 * (accel * Share(at));
  }

  /** By how many ticks the prediction exceeds the residual of an n-sample window. */
  function PredictionGap(accel: real, share: real, n: nat): real {
    var m := n as real;
    Abs(accel) * (share * (m * m) - (m - 1.0) * (m - 2.0)) / 12.0
  }

  /** Over every run of one-second pulses on a frequency ramp, from an empty ring
      and any tracker state, after two comparisons: the newest sample's residual
      is accel*(n-1)*(n-2)/12 ticks for the n samples held; the measured drift is
      Share of the acceleration; and the reported a*T^2/12 differs from the
      residual by exactly |accel|*(Share*n^2 - (n-1)(n-2))/12 ticks. */
  lemma RampPrediction(xs: seq<FitSample>, first: int, origin: real, f: real, accel: real, t0: Track)
    requires RampStream(xs, first, origin, f, accel) && PlausibleRamp(xs, f, accel)
    requires t0.count < DRIFT_LAG && Updates(|xs|, t0.count) >= 2
    ensures LastUpdate(|xs|, t0.count) >= 76
    ensures var (window, t) := ObserveAll(xs, t0);
            var n, share := Held(|xs|) as real, Share(LastUpdate(|xs|, t0.count));
            && window == LastN(xs, 240) && |window| == Held(|xs|) && Solvable(window, 0)
            && Residual(Points(window, 0)) == accel * (n - 1.0) * (n - 2.0) / 12.0
            && t.perSec * 80000000.0 == accel * share
            && PredictedResidualSec(t.perSec, |window|) * 80000000.0 - Abs(Residual(Points(window, 0)))
               == PredictionGap(accel, share, |window|)
  {
    hide *;
    assert xs[..|xs|] == xs;
    DriftMeasured(xs, first, origin, f, accel, t0);
    ObservedWindow(xs, t0);
    RampSolves(xs, first, origin, f, accel, |xs|);
    Mismatch(ObserveAll(xs, t0).1.perSec, Held(|xs|), accel, Share(LastUpdate(|xs|, t0.count)));
  }

  lemma DriftMeasured(xs: seq<FitSample>, first: int, origin: real, f: real, accel: real, t0: Track)
    requires RampStream(xs, first, origin, f, accel) && PlausibleRamp(xs, f, accel)
    requires t0.count < DRIFT_LAG && Updates(|xs|, t0.count) >= 2
    ensures |xs| >= LastUpdate(|xs|, t0.count) >= 76 && Held(|xs|) >= 16 && MIN_SAMPLES == 16
    ensures Share(LastUpdate(|xs|, t0.count)) >= 0.0
    ensures ObserveAll(xs, t0).1.perSec * 80000000.0 == accel * Share(LastUpdate(|xs|, t0.count))
  {
    hide RampStream, PlausibleRamp, ObserveAll, SlopeAfter, DriftPerSec;
    assert xs[..|xs|] == xs;
    TrackOnRamp(xs, first, origin, f, accel, t0, |xs|);
    DriftShare(LastUpdate(|xs|, t0.count), f, accel);
  }

  /** Once both compared windows were full the report overshoots the residual of
      the 240-sample window by |accel|*718/12 ticks; while the ring is filling it
      falls short by |accel|*(n^2/2 - 3n + 2)/12. */
  lemma PredictionGapCases(m: nat, at: nat, accel: real)
    requires at <= m
    ensures at >= 300 ==> PredictionGap(accel, Share(at), Held(m)) == Abs(accel) * 718.0 / 12.0
    ensures m <= 240 ==>
      var n := m as real;
      PredictionGap(accel, Share(at), Held(m)) == -(Abs(accel) * (n * n / 2.0 - 3.0 * n + 2.0) / 12.0)
  {
    var n := Held(m) as real;
    if m <= 240 {
      var q := n * n / 2.0 - 3.0 * n + 2.0;
      assert 0.5 * (n * n) - (n - 1.0) * (n - 2.0) == -q;
      Negated(Abs(accel), q);
    }
  }

  lemma Negated(a: real, q: real)
    ensures a * -q / 12.0 == -(a * q / 12.0)
  {
  }

  lemma Mismatch(perSec: real, n: nat, accel: real, share: real)
    requires perSec * 80000000.0 == accel * share && share >= 0.0 && n >= 2
    ensures var m := n as real;
            && RampResidual(m, accel) == accel * (m - 1.0) * (m - 2.0) / 12.0
            && PredictedResidualSec(perSec, n) * 80000000.0 - Abs(RampResidual(m, accel))
               == PredictionGap(accel, share, n)
  {
    var m := n as real;
    var q, sq := (m - 1.0) * (m - 2.0), m * m;
    assert q >= 0.0;
    assert accel * (m - 1.0) * (m - 2.0) == accel * q;
    AbsProduct(accel, q);
    assert Abs(accel * q / 12.0) == Abs(accel * q) / 12.0;
    AbsProduct(accel, share);
    AbsProduct(perSec, 80000000.0);
    assert Abs(perSec) * sq / 12.0 * 80000000.0 == Abs(perSec) * 80000000.0 * sq / 12.0;
    assert Abs(accel) * share * sq == Abs(accel) * (share * sq);
    Distribute(Abs(accel), share * sq, q);
  }

  lemma AbsProduct(a: real, q: real)
    requires q >= 0.0
    ensures Abs(a * q) == Abs(a) * q
  {
    var m := -a;
    assert m * q == -(a * q);
    if a < 0.0 {
      assert m * q >= 0.0;
    } else {
      assert a * q >= 0.0;
    }
  }
}
