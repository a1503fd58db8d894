// The holdover error model: root dispersion and the lock decision as functions
// of the time since the last accepted pulse, the filtered RMS and the measured
// frequency drift.
module Holdover {
  import opened MachineInts

  const FRESH_US := 2_500_000
  const MAX_US := 3_600_000_000

  /** The fit lags a ramp by half its 240-sample window, its EWMA by 1/0.05 samples. */
  function LagSec(): real {
    240.0 / 2.0 + 1.0 / 0.05
  }

  /** Drift in ppm per second, never below half a ppm per hour. */
  function DriftPpm(driftPerSec: real): (d: real)
    ensures d >= 0.5 / 3600.0
  {
    var measured, floor := Abs(driftPerSec) * 1000000.0, 0.5 / 3600.0;
    if measured > floor then measured else floor
  }

  /** What the frequency estimate's staleness adds after s seconds of coasting. */
  function Growth(drift: real, s: real): real {
    drift * LagSec() * 0.000001 * s + 0.5 * drift * 0.000001 * s * s
  }

  /** getRootDispersion. */
  function RootDispersion(lock: bool, sinceUs: int, rms: real, driftPerSec: real): real {
    if !lock then 1.0
    else
      var s := sinceUs as real / 1000000.0;
      if s <= FRESH_US as real / 1000000.0 then Abs(rms) + 0.1 * 0.000001 * s + 0.000016
      else Abs(rms) + Growth(DriftPpm(driftPerSec), s) + 0.000016
  }

  /** isLocked. */
  predicate IsLocked(lock: bool, sinceUs: int, rms: real, driftPerSec: real) {
    && lock
    && (sinceUs < FRESH_US || (sinceUs <= MAX_US && RootDispersion(lock, sinceUs, rms, driftPerSec) < 0.01))
  }

  // ---- Growth ----

  lemma ProductPositive(a: real, b: real)
    requires a > 0.0 && b > 0.0
    ensures a * b > 0.0
  {
  }

  lemma GrowthFactored(drift: real, s: real)
    ensures Growth(drift, s) == drift * (0.00014 * s + 0.0000005 * (s * s))
  {
    var q := s * s;
    assert 0.5 * drift * 0.000001 * s * s == 0.0000005 * drift * q;
    assert drift * (0.00014 * s + 0.0000005 * q) == 0.00014 * (drift * s) + 0.0000005 * (drift * q);
    assert drift * LagSec() * 0.000001 * s == 0.00014 * (drift * s);
  }

  lemma GrowthIncreases(drift: real, s: real, t: real)
    requires drift > 0.0 && 0.0 <= s < t
    ensures Growth(drift, s) < Growth(drift, t)
  {
    GrowthFactored(drift, s);
    GrowthFactored(drift, t);
    ProductPositive(t - s, t + s);
    assert t * t - s * s == (t - s) * (t + s);
    var x, y := 0.00014 * s + 0.0000005 * (s * s), 0.00014 * t + 0.0000005 * (t * t);
    ProductPositive(drift, y - x);
    assert drift * (y - x) == drift * y - drift * x;
  }

  /** Growth is the frequency error summed up: after s seconds of coasting the
      estimate is stale by 140 s of drift and by the time coasted. */
  lemma GrowthIsAccumulatedError(drift: real, s: real, t: real)
    ensures Growth(drift, 0.0) == 0.0
    ensures Growth(drift, t) - Growth(drift, s) == (t - s) * (drift * 0.000001 * (140.0 + (s + t) / 2.0))
  {
    GrowthFactored(drift, s);
    GrowthFactored(drift, t);
    var x, y := 0.00014 * s + 0.0000005 * (s * s), 0.00014 * t + 0.0000005 * (t * t);
    assert y - x == (t - s) * (0.00014 + 0.0000005 * (s + t)) by {
      assert t * t - s * s == (t - s) * (s + t);
    }
    assert drift * y - drift * x == drift * (y - x);
    Reorder(drift, t - s, 0.00014 + 0.0000005 * (s + t));
  }

  lemma Reorder(a: real, b: real, c: real)
    ensures a * (b * c) == b * (a * c)
  {
  }

  /** The drift that counts is the measured one in ppm per second, at least half
      a ppm per hour. */
  lemma DriftExactly(driftPerSec: real)
    ensures var d := DriftPpm(driftPerSec);
            && d * 3600.0 >= 0.5 && d >= driftPerSec * 1000000.0 && d >= -driftPerSec * 1000000.0
            && (d * 3600.0 == 0.5 || d == driftPerSec * 1000000.0 || d == -driftPerSec * 1000000.0)
  {
  }

  /** Dispersion is a whole second without lock.  With it, it starts at the RMS
      plus 16 us, stays within a quarter microsecond of that while pulses are
      fresh, and beyond 2.5 s is the RMS plus 16 us plus the accumulated error. */
  lemma DispersionAnchors(us: int, rms: real, driftPerSec: real)
    ensures RootDispersion(false, us, rms, driftPerSec) == 1.0
    ensures RootDispersion(true, 0, rms, driftPerSec) == Abs(rms) + 0.000016
    ensures RootDispersion(true, 1_000_000, rms, driftPerSec) == Abs(rms) + 0.0000161
    ensures 0 <= us <= 2_500_000 ==>
              Abs(rms) + 0.000016 <= RootDispersion(true, us, rms, driftPerSec) <= Abs(rms) + 0.00001625
    ensures us > 2_500_000 ==>
              RootDispersion(true, us, rms, driftPerSec) - Abs(rms) - 0.000016 == Growth(DriftPpm(driftPerSec), us as real / 1000000.0)
    ensures !IsLocked(false, us, rms, driftPerSec)
  {
    hide Growth, DriftPpm;
  }

  /** Beyond 2.5 s without an accepted pulse, root dispersion strictly increases. */
  lemma DispersionIncreases(a: int, b: int, rms: real, driftPerSec: real)
    requires FRESH_US < a < b
    ensures RootDispersion(true, a, rms, driftPerSec) < RootDispersion(true, b, rms, driftPerSec)
  {
    hide Growth, DriftPpm;
    GrowthIncreases(DriftPpm(driftPerSec), a as real / 1000000.0, b as real / 1000000.0);
  }

  /** Locked at 2.5 s exactly, where the fresh formula still applies. */
  lemma BoundaryLock(rms: real, driftPerSec: real)
    ensures IsLocked(true, FRESH_US, rms, driftPerSec) <==> Abs(rms) < 0.00998375
  {
  }

  /** Locked one microsecond later, where growth takes over. */
  lemma PastBoundaryLock(rms: real, driftPerSec: real)
    ensures IsLocked(true, FRESH_US + 1, rms, driftPerSec)
       <==> Abs(rms) < 0.009984 - Growth(DriftPpm(driftPerSec), 2.500001)
  {
    hide Growth;
    assert (FRESH_US + 1) as real / 1000000.0 == 2.500001;
  }

  /** The lock is out at 2.5 s and back later: the dispersion there lies above the
      limit while the lower formula that follows lies below it. */
  predicate Returns(rms: real, driftPerSec: real) {
    0.00998375 <= Abs(rms) < 0.009984 - Growth(DriftPpm(driftPerSec), 2.500001)
  }

  /** A lost lock returns without an accepted pulse if and only if it was lost at
      2.5 s exactly and the filtered RMS lies in the narrow band of Returns. */
  lemma LostLockReturns(a: int, rms: real, driftPerSec: real)
    ensures (!IsLocked(true, a, rms, driftPerSec) && exists b: int :: a < b && IsLocked(true, b, rms, driftPerSec))
       <==> a == FRESH_US && Returns(rms, driftPerSec)
  {
    hide RootDispersion, Growth, DriftPpm;
    BoundaryLock(rms, driftPerSec);
    PastBoundaryLock(rms, driftPerSec);
    forall b: int | a < b && !IsLocked(true, a, rms, driftPerSec) && IsLocked(true, b, rms, driftPerSec)
      ensures a == FRESH_US && IsLocked(true, FRESH_US + 1, rms, driftPerSec)
    {
      if a > FRESH_US {
        DispersionIncreases(a, b, rms, driftPerSec);
        assert false;
      }
      if b > FRESH_US + 1 { DispersionIncreases(FRESH_US + 1, b, rms, driftPerSec); }
    }
  }

  /** The band is not empty: it holds 9983.9 us at the floor drift. */
  lemma ReturnBand()
    ensures Returns(0.0099839, 0.0)
  {
    GrowthFactored(0.5 / 3600.0, 2.500001);
    assert DriftPpm(0.0) == 0.5 / 3600.0;
    assert 2.500001 * 2.500001 == 6.250005000001;
  }

  predicate HoldsFor(us: int, rms: real, driftPerSec: real) {
    forall t: int :: 0 <= t <= us ==> IsLocked(true, t, rms, driftPerSec)
  }

  /** Locked throughout a coast means locked at its end and, if it reaches 2.5 s,
      an RMS that survives that instant. */
  lemma LockedThroughout(us: nat, rms: real, driftPerSec: real)
    ensures HoldsFor(us, rms, driftPerSec) <==>
            IsLocked(true, us, rms, driftPerSec) && (us >= FRESH_US ==> Abs(rms) < 0.00998375)
  {
    hide RootDispersion;
    BoundaryLock(rms, driftPerSec);
    if IsLocked(true, us, rms, driftPerSec) && (us >= FRESH_US ==> Abs(rms) < 0.00998375) {
      forall t: int | 0 <= t <= us ensures IsLocked(true, t, rms, driftPerSec) {
        if FRESH_US < t < us {
          DispersionIncreases(t, us, rms, driftPerSec);
        }
      }
    }
  }

  lemma HourGrowth()
    ensures Growth(0.5 / 3600.0, 3600.0) == 0.00097
  {
    GrowthFactored(0.5 / 3600.0, 3600.0);
    assert 0.00014 * 3600.0 + 0.0000005 * (3600.0 * 3600.0) == 6.984;
    assert 0.5 / 3600.0 * 6.984 == 0.00097;
  }

  /** With the drift at its floor the lock lasts the full hour exactly when the
      filtered RMS is below 9.014 ms. */
  lemma FullHourAtFloor(rms: real, driftPerSec: real)
    requires Abs(driftPerSec) * 1000000.0 <= 0.5 / 3600.0
    ensures HoldsFor(MAX_US, rms, driftPerSec) <==> Abs(rms) < 0.009014
  {
    HourGrowth();
    assert DriftPpm(driftPerSec) == 0.5 / 3600.0;
    assert MAX_US as real / 1000000.0 == 3600.0;
    assert RootDispersion(true, MAX_US, rms, driftPerSec) == Abs(rms) + 0.00097 + 0.000016;
    if Abs(rms) < 0.009014 {
      LockedThroughout(MAX_US, rms, driftPerSec);
    } else {
      assert !IsLocked(true, MAX_US, rms, driftPerSec);
    }
  }

  lemma GrowthWithDrift(d: real, e: real, s: real)
    requires d <= e && s > 0.0
    ensures Growth(d, s) <= Growth(e, s)
  {
    GrowthFactored(d, s);
    GrowthFactored(e, s);
    ProductPositive(s, s);
    var x := 0.00014 * s + 0.0000005 * (s * s);
    if d < e {
      ProductPositive(e - d, x);
      assert (e - d) * x == e * x - d * x;
    }
  }

  /** A higher drift or RMS never lengthens a holdover. */
  lemma WorseNeverLonger(us: int, rms: real, worseRms: real, drift: real, worseDrift: real)
    requires us > FRESH_US && Abs(rms) <= Abs(worseRms) && Abs(drift) <= Abs(worseDrift)
    requires IsLocked(true, us, worseRms, worseDrift)
    ensures IsLocked(true, us, rms, drift)
  {
    hide Growth;
    GrowthWithDrift(DriftPpm(drift), DriftPpm(worseDrift), us as real / 1000000.0);
  }
}
