// The least-squares line behind the capture fit: its optimality, its independence
// of the rebasing sample, and its endpoint residual under a frequency ramp.
module LeastSquares {
  datatype Point = Point(x: real, y: real)

  function Square(d: real): real {
    d * d
  }

  function Total(r: seq<real>): real {
    if r == [] then 0.0 else Total(r[..|r| - 1]) + r[|r| - 1]
  }

  function Xs(p: seq<Point>): (r: seq<real>)
    ensures |r| == |p|
  {
    seq(|p|, i requires 0 <= i < |p| => p[i].x)
  }

  function Ys(p: seq<Point>): (r: seq<real>)
    ensures |r| == |p|
  {
    seq(|p|, i requires 0 <= i < |p| => p[i].y)
  }

  function SpreadAt(q: Point, mx: real): real {
    Square(q.x - mx)
  }

  function CrossAt(q: Point, mx: real, my: real): real {
    (q.x - mx) * (q.y - my)
  }

  /** Squared abscissa deviations from mx. */
  function SpreadTerms(p: seq<Point>, mx: real): (r: seq<real>)
    ensures |r| == |p|
  {
    seq(|p|, i requires 0 <= i < |p| => SpreadAt(p[i], mx))
  }

  function CrossTerms(p: seq<Point>, mx: real, my: real): (r: seq<real>)
    ensures |r| == |p|
  {
    seq(|p|, i requires 0 <= i < |p| => CrossAt(p[i], mx, my))
  }

  function MeanX(p: seq<Point>): real
    requires p != []
  {
    Total(Xs(p)) / |p| as real
  }

  function MeanY(p: seq<Point>): real
    requires p != []
  {
    Total(Ys(p)) / |p| as real
  }

  function Spread(p: seq<Point>): real
    requires p != []
  {
    Total(SpreadTerms(p, MeanX(p)))
  }

  function Cross(p: seq<Point>): real
    requires p != []
  {
    Total(CrossTerms(p, MeanX(p), MeanY(p)))
  }

  predicate Spans(p: seq<Point>) {
    p != [] && Spread(p) != 0.0
  }

  function Slope(p: seq<Point>): real
    requires Spans(p)
  {
    Cross(p) / Spread(p)
  }

  function Intercept(p: seq<Point>): real
    requires Spans(p)
  {
    MeanY(p) - Slope(p) * MeanX(p)
  }

  // ---- Deviations from a line ----

  /** The deviation of q from the line y = a + b*x. */
  function Deviation(q: Point, a: real, b: real): real {
    q.y - (a + b * q.x)
  }

  function MomentAt(q: Point, a: real, b: real): real {
    q.x * Deviation(q, a, b)
  }

  function SquaredDeviation(q: Point, a: real, b: real): real {
    Square(Deviation(q, a, b))
  }

  function SquaredLineAt(q: Point, u: real, v: real): real {
    Square(u + v * q.x)
  }

  function Deviations(p: seq<Point>, a: real, b: real): (r: seq<real>)
    ensures |r| == |p|
  {
    seq(|p|, i requires 0 <= i < |p| => Deviation(p[i], a, b))
  }

  function Moments(p: seq<Point>, a: real, b: real): (r: seq<real>)
    ensures |r| == |p|
  {
    seq(|p|, i requires 0 <= i < |p| => MomentAt(p[i], a, b))
  }

  function SquaredDeviations(p: seq<Point>, a: real, b: real): (r: seq<real>)
    ensures |r| == |p|
  {
    seq(|p|, i requires 0 <= i < |p| => SquaredDeviation(p[i], a, b))
  }

  function SquaredLine(p: seq<Point>, u: real, v: real): (r: seq<real>)
    ensures |r| == |p|
  {
    seq(|p|, i requires 0 <= i < |p| => SquaredLineAt(p[i], u, v))
  }

  // ---- Sums are linear and monotone ----

  lemma Distribute(u: real, a: real, b: real)
    ensures u * (a + b) == u * a + u * b
    ensures u * (a - b) == u * a - u * b
  {
  }

  lemma {:induction false} Linear(u: seq<real>, r: seq<real>, s: seq<real>, t: seq<real>, a: real, b: real, c: real)
    requires |u| == |r| == |s| == |t|
    requires forall i :: 0 <= i < |u| ==> u[i] == a * r[i] + b * s[i] + c * t[i]
    ensures Total(u) == a * Total(r) + b * Total(s) + c * Total(t)
  {
    if u != [] {
      var n := |u| - 1;
      Linear(u[..n], r[..n], s[..n], t[..n], a, b, c);
      Distribute(a, Total(r[..n]), r[n]);
      Distribute(b, Total(s[..n]), s[n]);
      Distribute(c, Total(t[..n]), t[n]);
    }
  }

  lemma {:induction false} Constant(r: seq<real>, c: real)
    requires forall i :: 0 <= i < |r| ==> r[i] == c
    ensures Total(r) == |r| as real * c
  {
    if r != [] {
      Constant(r[..|r| - 1], c);
      Distribute(c, (|r| - 1) as real, 1.0);
    }
  }

  lemma {:induction false} Nonnegative(r: seq<real>)
    requires forall i :: 0 <= i < |r| ==> r[i] >= 0.0
    ensures Total(r) >= 0.0
  {
    if r != [] {
      Nonnegative(r[..|r| - 1]);
    }
  }

  lemma {:induction false} Positive(r: seq<real>, k: nat)
    requires forall i :: 0 <= i < |r| ==> r[i] >= 0.0
    requires k < |r| && r[k] != 0.0
    ensures Total(r) != 0.0
  {
    var front := r[..|r| - 1];
    Nonnegative(front);
    if k < |front| {
      Positive(front, k);
    }
  }

  lemma ZeroProduct(v: real, d: real)
    requires v * d == 0.0 && d != 0.0
    ensures v == 0.0
  {
    assert v == v * d / d;
  }

  lemma SquareSign(d: real)
    ensures Square(d) >= 0.0
    ensures d != 0.0 ==> Square(d) != 0.0
  {
    if d != 0.0 && Square(d) == 0.0 {
      ZeroProduct(d, d);
    }
  }

  // ---- Moments of the deviations ----

  lemma MovedDeviation(q: Point, a: real, b: real, u: real, v: real)
    ensures SquaredDeviation(q, a - u, b - v) - SquaredLineAt(q, u, v)
         == 1.0 * SquaredDeviation(q, a, b) + (2.0 * u) * Deviation(q, a, b) + (2.0 * v) * MomentAt(q, a, b)
  {
    var e, d := Deviation(q, a, b), u + v * q.x;
    Distribute(q.x, b, v);
    assert Deviation(q, a - u, b - v) == e + d;
    assert (e + d) * (e + d) == e * e + 2.0 * (e * d) + d * d;
    assert e * d == u * e + v * (q.x * e);
  }

  lemma MovedDeviations(p: seq<Point>, a: real, b: real, u: real, v: real) returns (change: seq<real>)
    ensures |change| == |p|
    ensures forall i :: 0 <= i < |p| ==>
      change[i] == 1.0 * SquaredDeviations(p, a - u, b - v)[i] + (-1.0) * SquaredLine(p, u, v)[i]
                   + 0.0 * SquaredLine(p, u, v)[i]
    ensures forall i :: 0 <= i < |p| ==>
      change[i] == 1.0 * SquaredDeviations(p, a, b)[i]
                   + (2.0 * u) * Deviations(p, a, b)[i] + (2.0 * v) * Moments(p, a, b)[i]
  {
    hide SquaredDeviation, SquaredLineAt, Deviation, MomentAt;
    change := seq(|p|, i requires 0 <= i < |p| =>
      SquaredDeviation(p[i], a - u, b - v) - SquaredLineAt(p[i], u, v));
    forall i | 0 <= i < |p|
      ensures change[i] == 1.0 * SquaredDeviations(p, a, b)[i]
                           + (2.0 * u) * Deviations(p, a, b)[i] + (2.0 * v) * Moments(p, a, b)[i]
    {
      MovedDeviation(p[i], a, b, u, v);
    }
  }

  /** Moving a line by (u, v) changes the squared deviations by first-order
      terms in the two moments and a sum of squares. */
  lemma MoveLine(p: seq<Point>, a: real, b: real, u: real, v: real)
    ensures Total(SquaredDeviations(p, a - u, b - v))
         == 1.0 * Total(SquaredDeviations(p, a, b)) + (2.0 * u) * Total(Deviations(p, a, b))
            + (2.0 * v) * Total(Moments(p, a, b)) + Total(SquaredLine(p, u, v))
  {
    hide *;
    var moved, line := SquaredDeviations(p, a - u, b - v), SquaredLine(p, u, v);
    var change := MovedDeviations(p, a, b, u, v);
    Linear(change, SquaredDeviations(p, a, b), Deviations(p, a, b), Moments(p, a, b), 1.0, 2.0 * u, 2.0 * v);
    Linear(change, moved, line, line, 1.0, -1.0, 0.0);
  }

  lemma DeviationTotal(p: seq<Point>, a: real, b: real)
    ensures Total(Deviations(p, a, b)) == Total(Ys(p)) - a * |p| as real - b * Total(Xs(p))
  {
    var ones := seq(|p|, _ => 1.0);
    Constant(ones, 1.0);
    Linear(Deviations(p, a, b), Ys(p), ones, Xs(p), 1.0, -a, -b);
  }

  lemma MomentTerm(q: Point, a: real, b: real, mx: real, my: real)
    requires a == my - b * mx
    ensures MomentAt(q, a, b) == 1.0 * CrossAt(q, mx, my) + (-b) * SpreadAt(q, mx) + mx * Deviation(q, a, b)
  {
    var dx, dy, e := q.x - mx, q.y - my, Deviation(q, a, b);
    Distribute(b, q.x, mx);
    assert e == dy - b * dx;
    assert dx * e == dx * dy - b * (dx * dx);
    Distribute(e, q.x, mx);
  }

  lemma MomentTerms(p: seq<Point>, a: real, b: real, mx: real, my: real)
    requires a == my - b * mx
    ensures forall i :: 0 <= i < |p| ==>
      Moments(p, a, b)[i] == 1.0 * CrossTerms(p, mx, my)[i] + (-b) * SpreadTerms(p, mx)[i]
                             + mx * Deviations(p, a, b)[i]
  {
    hide MomentAt, CrossAt, SpreadAt, Deviation;
    forall i | 0 <= i < |p|
      ensures Moments(p, a, b)[i] == 1.0 * CrossTerms(p, mx, my)[i] + (-b) * SpreadTerms(p, mx)[i]
                                     + mx * Deviations(p, a, b)[i]
    {
      MomentTerm(p[i], a, b, mx, my);
    }
  }

  lemma MomentTotal(p: seq<Point>, a: real, b: real, mx: real, my: real)
    requires a == my - b * mx
    ensures Total(Moments(p, a, b))
         == 1.0 * Total(CrossTerms(p, mx, my)) + (-b) * Total(SpreadTerms(p, mx)) + mx * Total(Deviations(p, a, b))
  {
    hide *;
    MomentTerms(p, a, b, mx, my);
    Linear(Moments(p, a, b), CrossTerms(p, mx, my), SpreadTerms(p, mx), Deviations(p, a, b), 1.0, -b, mx);
  }

  lemma ThroughTheMeans(n: real, mx: real, my: real, a: real, b: real, sx: real, sy: real)
    requires n * mx == sx && n * my == sy && a == my - b * mx
    ensures sy - a * n - b * sx == 0.0
  {
    Distribute(n, my, b * mx);
    assert b * sx == b * (n * mx) == n * (b * mx);
  }

  lemma MomentsVanish(p: seq<Point>, a: real, b: real, mx: real, my: real)
    requires |p| as real * mx == Total(Xs(p)) && |p| as real * my == Total(Ys(p))
    requires a == my - b * mx && b * Total(SpreadTerms(p, mx)) == Total(CrossTerms(p, mx, my))
    ensures Total(Deviations(p, a, b)) == 0.0 && Total(Moments(p, a, b)) == 0.0
  {
    hide *;
    DeviationTotal(p, a, b);
    ThroughTheMeans(|p| as real, mx, my, a, b, Total(Xs(p)), Total(Ys(p)));
    MomentTotal(p, a, b, mx, my);
  }

  /** The normal equations, in one direction: the fitted line has both moments zero. */
  lemma NormalEquations(p: seq<Point>)
    requires Spans(p)
    ensures Total(Deviations(p, Intercept(p), Slope(p))) == 0.0
    ensures Total(Moments(p, Intercept(p), Slope(p))) == 0.0
  {
    hide Total;
    MomentsVanish(p, Intercept(p), Slope(p), MeanX(p), MeanY(p));
  }

  // ---- Optimality ----

  lemma SquaredLineAtSign(q: Point, u: real, v: real)
    ensures SquaredLineAt(q, u, v) >= 0.0
    ensures u + v * q.x != 0.0 ==> SquaredLineAt(q, u, v) != 0.0
  {
    SquareSign(u + v * q.x);
  }

  lemma SquaredLineSign(p: seq<Point>, u: real, v: real)
    ensures forall i :: 0 <= i < |p| ==> SquaredLine(p, u, v)[i] >= 0.0
    ensures forall i :: 0 <= i < |p| && u + v * p[i].x != 0.0 ==> SquaredLine(p, u, v)[i] != 0.0
  {
    forall i | 0 <= i < |p|
      ensures SquaredLine(p, u, v)[i] >= 0.0 && (u + v * p[i].x != 0.0 ==> SquaredLine(p, u, v)[i] != 0.0)
    {
      SquaredLineAtSign(p[i], u, v);
    }
  }

  lemma TwoZeros(u: real, v: real, x1: real, x2: real)
    requires x1 != x2 && (u != 0.0 || v != 0.0)
    ensures u + v * x1 != 0.0 || u + v * x2 != 0.0
  {
    var d := x1 - x2;
    Distribute(v, x1, x2);
    if v * d == 0.0 {
      ZeroProduct(v, d);
    }
  }

  /** A nonzero spread needs two distinct abscissae. */
  lemma TwoAbscissae(p: seq<Point>) returns (j: nat)
    requires Spans(p)
    ensures 0 < j < |p| && p[j].x != p[0].x
  {
    if forall i :: 0 <= i < |p| ==> p[i].x == p[0].x {
      Constant(Xs(p), p[0].x);
      assert MeanX(p) == p[0].x;
      Constant(SpreadTerms(p, MeanX(p)), 0.0);
    }
    j :| 0 < j < |p| && p[j].x != p[0].x;
  }

  lemma NormalLineIsOptimal(p: seq<Point>, a0: real, b0: real, a: real, b: real)
    requires Spans(p)
    requires Total(Deviations(p, a0, b0)) == 0.0 && Total(Moments(p, a0, b0)) == 0.0
    ensures Total(SquaredDeviations(p, a0, b0)) <= Total(SquaredDeviations(p, a, b))
    ensures Total(SquaredDeviations(p, a0, b0)) == Total(SquaredDeviations(p, a, b)) ==> a == a0 && b == b0
  {
    hide *;
    var u, v := a0 - a, b0 - b;
    MoveLine(p, a0, b0, u, v);
    SquaredLineSign(p, u, v);
    Nonnegative(SquaredLine(p, u, v));
    if u != 0.0 || v != 0.0 {
      var j := TwoAbscissae(p);
      TwoZeros(u, v, p[0].x, p[j].x);
      Positive(SquaredLine(p, u, v), if u + v * p[0].x != 0.0 then 0 else j);
    }
  }

  /** The line through the means with slope Cross/Spread is the unique minimiser
      of the squared deviations among all lines, of any slope and any intercept. */
  lemma LeastSquaresIsOptimal(p: seq<Point>, a: real, b: real)
    requires Spans(p)
    ensures Total(SquaredDeviations(p, Intercept(p), Slope(p))) <= Total(SquaredDeviations(p, a, b))
    ensures Total(SquaredDeviations(p, Intercept(p), Slope(p))) == Total(SquaredDeviations(p, a, b))
            <==> a == Intercept(p) && b == Slope(p)
  {
    NormalEquations(p);
    NormalLineIsOptimal(p, Intercept(p), Slope(p), a, b);
  }

  /** The normal equations, in the other direction. */
  lemma NormalLineIsFit(p: seq<Point>, a: real, b: real)
    requires Spans(p)
    requires Total(Deviations(p, a, b)) == 0.0 && Total(Moments(p, a, b)) == 0.0
    ensures Slope(p) == b && Intercept(p) == a
  {
    NormalLineIsOptimal(p, a, b, Intercept(p), Slope(p));
    LeastSquaresIsOptimal(p, a, b);
  }

  // ---- The fitted residual of the newest sample ----

  function Residual(p: seq<Point>): real
    requires Spans(p)
  {
    Deviation(p[|p| - 1], Intercept(p), Slope(p))
  }

  lemma DistinctSpan(p: seq<Point>, j: nat)
    requires 0 < j < |p| && p[j].x != p[0].x
    ensures Spans(p)
  {
    var mx := MeanX(p);
    var k := if p[0].x != mx then 0 else j;
    forall i | 0 <= i < |p|
      ensures SpreadTerms(p, mx)[i] >= 0.0 && (p[i].x != mx ==> SpreadTerms(p, mx)[i] != 0.0)
    {
      SquareSign(p[i].x - mx);
    }
    Positive(SpreadTerms(p, mx), k);
  }

  /** A line is determined exactly when two of the points lie at different x. */
  lemma SpansExactly(p: seq<Point>)
    ensures Spans(p) <==> exists i :: 0 <= i < |p| && p[i].x != p[0].x
  {
    if i :| 0 <= i < |p| && p[i].x != p[0].x {
      DistinctSpan(p, i);
    } else if p != [] {
      SameTotal(Xs(p), p[0].x);
      SameTotal(SpreadTerms(p, MeanX(p)), 0.0);
    }
  }

  lemma {:induction false} SameTotal(r: seq<real>, c: real)
    requires forall i :: 0 <= i < |r| ==> r[i] == c
    ensures Total(r) == c * |r| as real
    decreases |r|
  {
    if r != [] {
      SameTotal(r[..|r| - 1], c);
      assert |r| as real == (|r| - 1) as real + 1.0;
    }
  }

  /** The samples seen from another origin. */
  function Shift(p: seq<Point>, s: real, t: real): (r: seq<Point>)
    ensures |r| == |p|
    ensures forall i :: 0 <= i < |p| ==> r[i] == Point(p[i].x - s, p[i].y - t)
  {
    seq(|p|, i requires 0 <= i < |p| => Point(p[i].x - s, p[i].y - t))
  }

  lemma ShiftedMoment(q: Point, s: real, t: real, a: real, b: real)
    ensures Deviation(Point(q.x - s, q.y - t), a - t + b * s, b) == Deviation(q, a, b)
    ensures MomentAt(Point(q.x - s, q.y - t), a - t + b * s, b)
         == 1.0 * MomentAt(q, a, b) + (-s) * Deviation(q, a, b) + 0.0 * Deviation(q, a, b)
  {
    Distribute(b, q.x, s);
    Distribute(Deviation(q, a, b), q.x, s);
  }

  lemma ShiftedMoments(p: seq<Point>, s: real, t: real, a: real, b: real)
    ensures var r, a' := Shift(p, s, t), a - t + b * s;
            && Total(Deviations(r, a', b)) == Total(Deviations(p, a, b))
            && Total(Moments(r, a', b)) == 1.0 * Total(Moments(p, a, b)) + (-s) * Total(Deviations(p, a, b))
                                           + 0.0 * Total(Deviations(p, a, b))
  {
    hide Deviation, MomentAt, Total;
    var r, a' := Shift(p, s, t), a - t + b * s;
    forall i | 0 <= i < |p|
      ensures Deviations(r, a', b)[i] == Deviations(p, a, b)[i]
      ensures Moments(r, a', b)[i] == 1.0 * Moments(p, a, b)[i] + (-s) * Deviations(p, a, b)[i]
                                      + 0.0 * Deviations(p, a, b)[i]
    {
      ShiftedMoment(p[i], s, t, a, b);
    }
    assert Deviations(r, a', b) == Deviations(p, a, b);
    Linear(Moments(r, a', b), Moments(p, a, b), Deviations(p, a, b), Deviations(p, a, b), 1.0, -s, 0.0);
  }

  /** The fit does not depend on the sample the others are rebased on. */
  lemma RebaseInvariant(p: seq<Point>, s: real, t: real)
    requires Spans(p)
    ensures var r := Shift(p, s, t);
            Spans(r) && Slope(r) == Slope(p) && Residual(r) == Residual(p)
  {
    var r, a, b := Shift(p, s, t), Intercept(p), Slope(p);
    var j := TwoAbscissae(p);
    DistinctSpan(r, j);
    NormalEquations(p);
    ShiftedMoments(p, s, t, a, b);
    NormalLineIsFit(r, a - t + b * s, b);
    ShiftedMoment(p[|p| - 1], s, t, a, b);
  }

  /** Collinear samples are fitted exactly. */
  lemma CollinearIsExact(p: seq<Point>, a: real, b: real)
    requires Spans(p)
    requires forall i :: 0 <= i < |p| ==> p[i].y == a + b * p[i].x
    ensures Slope(p) == b && Intercept(p) == a && Residual(p) == 0.0
  {
    forall i | 0 <= i < |p|
      ensures Deviations(p, a, b)[i] == 0.0 && Moments(p, a, b)[i] == 0.0
    {
      assert Deviation(p[i], a, b) == 0.0;
    }
    Constant(Deviations(p, a, b), 0.0);
    Constant(Moments(p, a, b), 0.0);
    NormalLineIsFit(p, a, b);
  }

  // ---- Constant frequency ramp ----

  /** One-second samples of an oscillator at f ticks/s drifting by accel ticks/s^2. */
  predicate IsRamp(p: seq<Point>, f: real, accel: real) {
    forall i :: 0 <= i < |p| ==> p[i] == Point(i as real, f * i as real + accel / 2.0 * (i as real * i as real))
  }

  /** The deviation of i^2 from its least-squares line over 0..n-1. */
  function UnitDeviation(i: real, n: real): real {
    i * i - (n - 1.0) * i + (n - 1.0) * (n - 2.0) / 6.0
  }

  function RampSlope(n: real, f: real, accel: real): real {
    f + accel * (n - 1.0) / 2.0
  }

  function RampResidual(n: real, accel: real): real {
    accel * (n - 1.0) * (n - 2.0) / 12.0
  }

  lemma RampDeviation(q: Point, i: real, n: real, f: real, accel: real)
    requires q == Point(i, f * i + accel / 2.0 * (i * i))
    ensures Deviation(q, -RampResidual(n, accel), RampSlope(n, f, accel)) == accel / 2.0 * UnitDeviation(i, n)
  {
    var h, m := accel / 2.0, n - 1.0;
    assert accel * m / 2.0 == h * m;
    assert (f + h * m) * i == f * i + h * (m * i);
    assert accel * m * (n - 2.0) / 12.0 == h * (m * (n - 2.0) / 6.0);
    Distribute(h, i * i, m * i);
    Distribute(h, i * i - m * i, m * (n - 2.0) / 6.0);
  }

  function UnitMoment(i: real, n: real): real {
    i * UnitDeviation(i, n)
  }

  function UnitDeviations(k: nat, n: real): (r: seq<real>)
    ensures |r| == k
  {
    seq(k, i requires 0 <= i < k => UnitDeviation(i as real, n))
  }

  function UnitMoments(k: nat, n: real): (r: seq<real>)
    ensures |r| == k
  {
    seq(k, i requires 0 <= i < k => UnitMoment(i as real, n))
  }

  /** Closed forms of the partial sums over 0..m-1. */
  function DeviationForm(m: real, n: real): real {
    m * (m - 1.0) * (2.0 * m - 1.0) / 6.0 - (n - 1.0) * (m * (m - 1.0) / 2.0) + m * ((n - 1.0) * (n - 2.0) / 6.0)
  }

  function MomentForm(m: real, n: real): real {
    Square(m * (m - 1.0) / 2.0) - (n - 1.0) * (m * (m - 1.0) * (2.0 * m - 1.0) / 6.0)
    + (n - 1.0) * (n - 2.0) / 6.0 * (m * (m - 1.0) / 2.0)
  }

  lemma DeviationFormStep(m: real, n: real)
    ensures DeviationForm(m, n) + UnitDeviation(m, n) == DeviationForm(m + 1.0, n)
  {
    assert (m + 1.0) * m * (2.0 * m + 1.0) / 6.0 == m * (m - 1.0) * (2.0 * m - 1.0) / 6.0 + m * m;
    assert (n - 1.0) * ((m + 1.0) * m / 2.0) == (n - 1.0) * (m * (m - 1.0) / 2.0) + (n - 1.0) * m;
  }

  lemma MomentFormStep(m: real, n: real)
    ensures MomentForm(m, n) + UnitMoment(m, n) == MomentForm(m + 1.0, n)
  {
    var t, c := m * (m - 1.0) / 2.0, (n - 1.0) * (n - 2.0) / 6.0;
    assert (m + 1.0) * m / 2.0 == t + m;
    assert Square(t + m) == Square(t) + m * (m * m);
    assert (m + 1.0) * m * (2.0 * m + 1.0) / 6.0 == m * (m - 1.0) * (2.0 * m - 1.0) / 6.0 + m * m;
    Distribute(n - 1.0, m * (m - 1.0) * (2.0 * m - 1.0) / 6.0, m * m);
    Distribute(c, t, m);
    assert UnitMoment(m, n) == m * (m * m) - (n - 1.0) * (m * m) + c * m;
  }

  lemma {:induction false} UnitDeviationTotal(k: nat, n: real)
    ensures Total(UnitDeviations(k, n)) == DeviationForm(k as real, n)
  {
    if k > 0 {
      hide UnitDeviation, DeviationForm;
      UnitDeviationTotal(k - 1, n);
      assert UnitDeviations(k, n)[..k - 1] == UnitDeviations(k - 1, n);
      DeviationFormStep((k - 1) as real, n);
      assert (k - 1) as real + 1.0 == k as real;
    }
  }

  lemma {:induction false} UnitMomentTotal(k: nat, n: real)
    ensures Total(UnitMoments(k, n)) == MomentForm(k as real, n)
  {
    if k > 0 {
      hide UnitMoment, MomentForm;
      UnitMomentTotal(k - 1, n);
      assert UnitMoments(k, n)[..k - 1] == UnitMoments(k - 1, n);
      MomentFormStep((k - 1) as real, n);
      assert (k - 1) as real + 1.0 == k as real;
    }
  }

  lemma FormsVanish(n: real)
    ensures DeviationForm(n, n) == 0.0 && MomentForm(n, n) == 0.0
  {
    var s := n * (n - 1.0);
    assert s * (2.0 * n - 1.0) / 6.0 - s * (n - 1.0) / 2.0 + s * (n - 2.0) / 6.0 == 0.0;
    var q := s * (n - 1.0);
    assert Square(s / 2.0) == q * n / 4.0;
    assert (n - 1.0) * (s * (2.0 * n - 1.0) / 6.0) == q * (2.0 * n - 1.0) / 6.0;
    assert (n - 1.0) * (n - 2.0) / 6.0 * (s / 2.0) == q * (n - 2.0) / 12.0;
  }

  lemma ScaledUnits(p: seq<Point>, a: real, b: real, h: real)
    requires forall i :: 0 <= i < |p| ==>
      p[i].x == i as real && Deviation(p[i], a, b) == h * UnitDeviation(i as real, |p| as real)
    ensures Total(Deviations(p, a, b)) == 0.0 && Total(Moments(p, a, b)) == 0.0
  {
    var n := |p| as real;
    hide Deviation, UnitDeviation, Total;
    forall i | 0 <= i < |p|
      ensures var g := UnitDeviations(|p|, n)[i]; Deviations(p, a, b)[i] == h * g + 0.0 * g + 0.0 * g
      ensures var g := UnitMoments(|p|, n)[i]; Moments(p, a, b)[i] == h * g + 0.0 * g + 0.0 * g
    {
      assert Moments(p, a, b)[i] == i as real * Deviation(p[i], a, b);
    }
    UnitDeviationTotal(|p|, n);
    UnitMomentTotal(|p|, n);
    FormsVanish(n);
    Linear(Deviations(p, a, b), UnitDeviations(|p|, n), UnitDeviations(|p|, n), UnitDeviations(|p|, n), h, 0.0, 0.0);
    Linear(Moments(p, a, b), UnitMoments(|p|, n), UnitMoments(|p|, n), UnitMoments(|p|, n), h, 0.0, 0.0);
  }

  lemma RampDeviations(p: seq<Point>, f: real, accel: real)
    requires IsRamp(p, f, accel)
    ensures var n := |p| as real;
            forall i :: 0 <= i < |p| ==>
              p[i].x == i as real
              && Deviation(p[i], -RampResidual(n, accel), RampSlope(n, f, accel)) == accel / 2.0 * UnitDeviation(i as real, n)
  {
    hide Deviation, RampResidual, RampSlope, UnitDeviation;
    var n := |p| as real;
    forall i | 0 <= i < |p|
      ensures Deviation(p[i], -RampResidual(n, accel), RampSlope(n, f, accel)) == accel / 2.0 * UnitDeviation(i as real, n)
    {
      RampDeviation(p[i], i as real, n, f, accel);
    }
  }

  lemma LastUnitDeviation(n: real, accel: real)
    ensures accel / 2.0 * UnitDeviation(n - 1.0, n) == RampResidual(n, accel)
  {
    var c := (n - 1.0) * (n - 2.0);
    assert UnitDeviation(n - 1.0, n) == c / 6.0;
    assert accel * (n - 1.0) * (n - 2.0) == accel * c;
  }

  /** Under a constant ramp the fitted slope is the frequency at mid-window, and
      the newest sample sits accel*(n-1)*(n-2)/12 ticks off the fitted line. */
  lemma RampFit(p: seq<Point>, f: real, accel: real)
    requires |p| >= 2 && IsRamp(p, f, accel)
    ensures Spans(p)
    ensures Slope(p) == RampSlope(|p| as real, f, accel)
    ensures Residual(p) == RampResidual(|p| as real, accel)
  {
    hide Deviation, RampResidual, RampSlope, UnitDeviation, Slope, Intercept, Total;
    var n := |p| as real;
    RampDeviations(p, f, accel);
    DistinctSpan(p, 1);
    ScaledUnits(p, -RampResidual(n, accel), RampSlope(n, f, accel), accel / 2.0);
    NormalLineIsFit(p, -RampResidual(n, accel), RampSlope(n, f, accel));
    LastUnitDeviation(n, accel);
  }
}
