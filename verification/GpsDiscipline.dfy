// The PPS discipline of GpsDiscipline: pairing a pulse with an NMEA second, the
// mispair, outlier and gap guards, the unwrapped tick timeline, the anchor
// tuple, holdover entry, and the conversion of a captured tick to a timestamp.
module GpsDiscipline {
  import opened Buffers
  import opened MachineInts
  import LeastSquares
  import opened CaptureFit
  import opened NtpTimestamp
  import Holdover

  const NMEA_FRESH_US := 1_500_000
  const GAP_US := 20_000_000
  const MAX_ANCHOR_AGE_US := 20_000_000
  const MAX_CAPTURE_TICKS := 1_600_000_000
  const WARMUP := 20

  /** One handled pulse: its capture tick and monotonic edge, when the handler
      ran, what the running clock read at the edge, the calibration, and the
      value the RMS filter takes if the pulse carries a measurement. */
  datatype Edge = Edge(cap: U32, us: nat, now: nat, clockAtEdge: real, calibrationUs: int, rms: real)

  /** The anchor tuple published for captured ticks; published counts publications. */
  datatype Anchor = Anchor(tick: U32, sec: U32, frac: U32, us: nat, published: nat)

  datatype Gps = Gps(
    samples: seq<FitSample>, fitValid: bool, ticksPerSec: real, residualTicks: real,
    tickInit: bool, tickExt: int, tickLastRaw: U32,
    prevCap: U32, prevUs: nat, prevEdge: nat, mispairStreak: nat,
    lock: bool, holdover: bool, lastGoodUs: nat,
    lastPps: Stamp, lastPpsUs: nat, anchor: Anchor, ppsCount: nat,
    drift: Track, rms: real, nmeaSec: int, nmeaAt: nat)

  function Boot(): Gps {
    Gps([], false, NOMINAL_TICKS, 0.0, false, 0, 0, 0, 0, 0, 0, false, false, 0,
      Stamp(0, 0), 0, Anchor(0, 0, 0, 0, 0), 0, Track(0.0, 0, 0.0), 0.0, 0, 0)
  }

  // ---- One pulse as a function of the state ----

  /** The pulse belongs to the second after a fresh RMC sentence. */
  predicate Paired(g: Gps, p: Edge) {
    0 <= p.now - g.nmeaAt < NMEA_FRESH_US && g.nmeaSec > 0
  }

  predicate Mispaired(g: Gps, p: Edge) {
    var diff := (g.nmeaSec + 1) as real - p.clockAtEdge;
    g.lock && (diff > 0.5 || diff < -0.5)
  }

  predicate Skips(g: Gps, p: Edge) {
    Paired(g, p) && Mispaired(g, p) && g.mispairStreak + 1 < 3
  }

  predicate Accepts(g: Gps, p: Edge) {
    Paired(g, p) && !Skips(g, p)
  }

  function ResetFit(g: Gps): Gps {
    g.(samples := [], fitValid := false, ticksPerSec := NOMINAL_TICKS, residualTicks := 0.0, tickInit := false)
  }

  predicate Outlier(g: Gps, p: Edge) {
    var interval := Signed32(p.cap - g.prevCap) as real / 80.0;
    g.prevEdge != 0 && (interval < 900000.0 || interval > 1100000.0)
  }

  predicate Gap(g: Gps, p: Edge) {
    g.prevUs != 0 && p.us - g.prevUs > GAP_US
  }

  /** The tick timeline extended to this pulse. */
  function Unwrap(g: Gps, cap: U32): Gps {
    if !g.tickInit then g.(tickInit := true, tickExt := 0, tickLastRaw := cap)
    else g.(tickExt := g.tickExt + Signed32(cap - g.tickLastRaw), tickLastRaw := cap)
  }

  /** The timeline and the window with this pulse's sample. */
  function Sampled(g: Gps, p: Edge): Gps {
    var h := Unwrap(g, p.cap);
    h.(samples := LastN(h.samples + [FitSample(Wrap32(g.nmeaSec + 1), h.tickExt)], 240))
  }

  /** The window refitted; a successful solve also feeds the drift tracker. */
  function Refitted(g: Gps): Gps {
    if g.samples != [] && Solvable(g.samples, 0) then
      var p := Points(g.samples, 0);
      g.(fitValid := true, ticksPerSec := LeastSquares.Slope(p), residualTicks := LeastSquares.Residual(p),
         drift := Tracked(g.drift, LeastSquares.Slope(p)))
    else g.(fitValid := false)
  }

  function PushSample(g: Gps, p: Edge): Gps {
    Refitted(Sampled(g, p))
  }

  /** The pulse's NTP time: its second plus the calibration, floored to whole
      seconds and a nonnegative microsecond part. */
  function PpsStamp(unixSec: int, calibrationUs: int): Stamp {
    var whole := TruncDiv(calibrationUs, 1_000_000);
    var us := calibrationUs - whole * 1_000_000;
    var (sec, part) := if us < 0 then (unixSec + whole - 1, us + 1_000_000) else (unixSec + whole, us);
    Stamp(Wrap32(sec + 2_208_988_800), Wrap32(part * 0x1_0000_0000 / 1_000_000))
  }

  function Anchored(g: Gps, p: Edge): Gps {
    var s := PpsStamp(g.nmeaSec + 1, p.calibrationUs);
    g.(prevEdge := p.us, lastPps := s, lastPpsUs := p.us,
       anchor := Anchor(p.cap, s.sec, s.frac, p.us, g.anchor.published + 1))
  }

  function Relocked(g: Gps, p: Edge): Gps {
    g.(holdover := false, lastGoodUs := p.us, lock := true)
  }

  /** Anchor, last-PPS fields, last-good time and lock move together. */
  function Publish(g: Gps, p: Edge): Gps {
    Relocked(Anchored(g, p), p)
  }

  /** The filtered RMS takes clean pulses with a valid fit only. */
  function RecordRms(g: Gps, p: Edge, outlier: bool): Gps {
    if !outlier && g.fitValid then g.(rms := p.rms) else g
  }

  /** The pulse count; after the warmup pulse the accumulators start over. */
  function CountPulse(g: Gps, p: Edge): Gps {
    var h := g.(ppsCount := g.ppsCount + 1, prevCap := p.cap, prevUs := p.us);
    if h.ppsCount == WARMUP then h.(prevUs := 0, rms := 0.0) else h
  }

  /** Past the mispair guard: a persistent step restarts the fit. */
  function Trusted(g: Gps, p: Edge): Gps {
    if !g.lock then g
    else if Mispaired(g, p) then ResetFit(g).(mispairStreak := 0)
    else g.(mispairStreak := 0)
  }

  /** A long gap restarts the fit; an outlier interval keeps the pulse out of it. */
  function UsePulse(g: Gps, p: Edge): Gps {
    var h := if Gap(g, p) then ResetFit(g) else g;
    CountPulse(RecordRms(Publish(if Outlier(g, p) then h else PushSample(h, p), p), p, Outlier(g, p)), p)
  }

  function AcceptPulse(g: Gps, p: Edge): Gps {
    UsePulse(Trusted(g, p), p)
  }

  function SkipPulse(g: Gps, p: Edge): Gps {
    g.(mispairStreak := g.mispairStreak + 1, prevCap := p.cap, prevUs := p.us)
  }

  function StalePulse(g: Gps): Gps {
    ResetFit(g.(prevEdge := 0, prevCap := 0, mispairStreak := 0))
  }

  /** handle_pps_deferred for one consistent snapshot. */
  function HandlePulse(g: Gps, p: Edge): Gps {
    if !Paired(g, p) then StalePulse(g)
    else if Skips(g, p) then SkipPulse(g, p)
    else AcceptPulse(g, p)
  }

  /** The holdover check at the end of loop(). */
  function CheckHoldover(g: Gps, now: nat): Gps {
    if g.lock && !g.holdover && now - g.lastGoodUs > Holdover.FRESH_US then g.(holdover := true, fitValid := false) else g
  }

  /** One loop(): at most one new pulse, then the holdover check. */
  function Loop(g: Gps, p: Option<Edge>, now: nat): Gps {
    CheckHoldover(if p.Some? then HandlePulse(g, p.value) else g, now)
  }

  // ---- Reporting ----

  /** getRootDispersion at a time of the monotonic clock. */
  function DispersionAt(g: Gps, now: nat): real {
    Holdover.RootDispersion(g.lock, now - g.lastGoodUs, g.rms, g.drift.perSec)
  }

  /** isLocked at a time of the monotonic clock. */
  predicate LockedAt(g: Gps, now: nat) {
    Holdover.IsLocked(g.lock, now - g.lastGoodUs, g.rms, g.drift.perSec)
  }

  // ---- Captured tick to timestamp ----

  predicate RateOk(g: Gps) {
    g.fitValid ==> PlausibleSlope(g.ticksPerSec)
  }

  /** captureToNtp. */
  function CaptureToNtp(g: Gps, capTick: U32, now: nat): Option<Stamp>
    requires RateOk(g)
  {
    if !g.fitValid || g.anchor.published == 0 || now - g.anchor.us > MAX_ANCHOR_AGE_US then None
    else
      var ticks := Signed32(capTick - g.anchor.tick);
      if ticks > MAX_CAPTURE_TICKS || ticks < -MAX_CAPTURE_TICKS then None
      else
        var offset := g.anchor.frac as real / 4294967296.0 + ticks as real / g.ticksPerSec;
        var whole := offset.Floor;
        var rem := offset - whole as real;
        Some(Stamp(Wrap32(g.anchor.sec + whole), Wrap32(Trunc(rem * 4294967296.0))))
  }

  // ---- The discipline itself ----

  class Discipline {
    const fit: Fit
    var fitValid: bool
    var tickInit: bool
    var tickExt: int
    var tickLastRaw: U32
    var prevPpsCapValue: U32
    var prevPpsMonotonicUs: nat
    var prevPpsEdgeForOffset: nat
    var mispairStreak: nat
    var gpsLock: bool
    var holdover: bool
    var lastGoodPpsUs: nat
    var lastPps: Stamp
    var lastPpsMonotonicUs: nat
    var anchor: Anchor
    var statPpsCount: nat
    var slopeLagged: real
    var slopeLagCount: nat
    var statFreqDriftPerSec: real
    var filteredRmsOffsetSec: real
    var lastNmeaUnixSec: int
    var lastNmeaUpdateUs: nat

    ghost predicate Valid()
      reads this, fit
    {
      fit.Valid()
    }

    ghost function View(): Gps
      requires Valid()
      reads this, fit, fit.ring
    {
      Gps(fit.Samples(), fitValid, fit.ticksPerSec, fit.residualTicks, tickInit, tickExt, tickLastRaw,
        prevPpsCapValue, prevPpsMonotonicUs, prevPpsEdgeForOffset, mispairStreak,
        gpsLock, holdover, lastGoodPpsUs, lastPps, lastPpsMonotonicUs, anchor, statPpsCount,
        Track(slopeLagged, slopeLagCount, statFreqDriftPerSec), filteredRmsOffsetSec,
        lastNmeaUnixSec, lastNmeaUpdateUs)
    }

    constructor ()
      ensures Valid() && View() == Boot() && fresh(fit) && fresh(fit.ring)
    {
      fit := new Fit();
      fitValid, tickInit, tickExt, tickLastRaw := false, false, 0, 0;
      prevPpsCapValue, prevPpsMonotonicUs, prevPpsEdgeForOffset, mispairStreak := 0, 0, 0, 0;
      gpsLock, holdover, lastGoodPpsUs := false, false, 0;
      lastPps, lastPpsMonotonicUs, anchor := Stamp(0, 0), 0, Anchor(0, 0, 0, 0, 0);
      statPpsCount, lastNmeaUnixSec, lastNmeaUpdateUs := 0, 0, 0;
      slopeLagged, slopeLagCount, statFreqDriftPerSec, filteredRmsOffsetSec := 0.0, 0, 0.0, 0.0;
    }

    method FitReset()
      requires Valid()
      modifies this`fitValid, this`tickInit, fit
      ensures Valid() && View() == ResetFit(old(View()))
    {
      fit.Reset();
      fitValid := false;
      tickInit := false;
    }

    /** Unwrap the capture counter and push the sample. */
    method Push(p: Edge, ppsSec: int)
      requires Valid() && ppsSec == lastNmeaUnixSec + 1
      modifies this`tickInit, this`tickExt, this`tickLastRaw, fit, fit.ring
      ensures Valid() && View() == Sampled(old(View()), p)
      ensures fit.ticksPerSec == old(fit.ticksPerSec) && fit.residualTicks == old(fit.residualTicks)
    {
      hide Fit.Samples, LastN, Signed32;
      if !tickInit {
        tickInit := true;
        tickExt := 0;
        tickLastRaw := p.cap;
      } else {
        tickExt := tickExt + Signed32(p.cap - tickLastRaw);
        tickLastRaw := p.cap;
      }
      fit.Push(Wrap32(ppsSec), tickExt);
    }

    method Refit()
      requires Valid()
      modifies this`fitValid, this`slopeLagged, this`slopeLagCount, this`statFreqDriftPerSec
      modifies fit`ticksPerSec, fit`residualTicks
      ensures Valid() && View() == Refitted(old(View()))
    {
      hide Fit.Samples, LeastSquares.Slope, LeastSquares.Residual, Solvable, Points, Tracked;
      fitValid := fit.Solve();
      if fitValid { TrackSlope(); }
    }

    /** Every DRIFT_LAG-th solve compares its slope with the last kept one. */
    method TrackSlope()
      requires Valid()
      modifies this`slopeLagged, this`slopeLagCount, this`statFreqDriftPerSec
      ensures Valid() && View() == old(View()).(drift := Tracked(old(View()).drift, fit.ticksPerSec))
    {
      hide Fit.Samples, DriftPerSec;
      slopeLagCount := slopeLagCount + 1;
      if slopeLagCount >= DRIFT_LAG {
        if slopeLagged != 0.0 { statFreqDriftPerSec := DriftPerSec(fit.ticksPerSec, slopeLagged); }
        slopeLagged, slopeLagCount := fit.ticksPerSec, 0;
      }
    }

    method PublishAnchor(p: Edge, ppsSec: int)
      requires Valid() && ppsSec == lastNmeaUnixSec + 1
      modifies this`prevPpsEdgeForOffset, this`lastPps, this`lastPpsMonotonicUs, this`anchor
      ensures Valid() && View() == Anchored(old(View()), p)
    {
      hide Fit.Samples, PpsStamp;
      prevPpsEdgeForOffset := p.us;
      lastPps := StampPulse(ppsSec, p.calibrationUs);
      lastPpsMonotonicUs := p.us;
      anchor := Anchor(p.cap, lastPps.sec, lastPps.frac, p.us, anchor.published + 1);
    }

    method Relock(p: Edge)
      requires Valid()
      modifies this`holdover, this`lastGoodPpsUs, this`gpsLock
      ensures Valid() && View() == Relocked(old(View()), p)
    {
      hide Fit.Samples;
      if holdover { holdover := false; }
      lastGoodPpsUs := p.us;
      gpsLock := true;
    }

    method StampPulse(ppsSec: int, calibrationUs: int) returns (s: Stamp)
      ensures s == PpsStamp(ppsSec, calibrationUs)
    {
      var sec := ppsSec + TruncDiv(calibrationUs, 1_000_000);
      var us := calibrationUs - TruncDiv(calibrationUs, 1_000_000) * 1_000_000;
      if us < 0 {
        sec := sec - 1;
        us := us + 1_000_000;
      }
      s := Stamp(Wrap32(sec + 2_208_988_800), Wrap32(us * 0x1_0000_0000 / 1_000_000));
    }

    /** The mispair guard; true when the pulse is to be skipped. */
    method CheckPairing(p: Edge, ppsSec: int) returns (skip: bool)
      requires Valid() && ppsSec == lastNmeaUnixSec + 1 && Paired(View(), p)
      modifies this`mispairStreak, this`prevPpsCapValue, this`prevPpsMonotonicUs, this`fitValid, this`tickInit, fit
      ensures Valid() && (skip <==> old(Skips(View(), p)))
      ensures View() == if skip then SkipPulse(old(View()), p)
                        else Trusted(old(View()), p)
    {
      skip := false;
      if gpsLock {
        var pairDiff := ppsSec as real - p.clockAtEdge;
        if pairDiff > 0.5 || pairDiff < -0.5 {
          mispairStreak := mispairStreak + 1;
          if mispairStreak < 3 {
            prevPpsCapValue := p.cap;
            prevPpsMonotonicUs := p.us;
            return true;
          }
          FitReset();
        }
        mispairStreak := 0;
      }
    }

    /** The outlier gate and the gap guard. */
    method Guards(p: Edge) returns (outlier: bool)
      requires Valid()
      modifies this`fitValid, this`tickInit, fit
      ensures Valid() && outlier == old(Outlier(View(), p))
      ensures View() == if old(Gap(View(), p)) then ResetFit(old(View())) else old(View())
    {
      hide Fit.Samples, Signed32, ResetFit;
      outlier := false;
      if prevPpsEdgeForOffset != 0 {
        var interval := Signed32(p.cap - prevPpsCapValue) as real / 80.0;
        outlier := interval < 900000.0 || interval > 1100000.0;
      }
      if prevPpsMonotonicUs != 0 && p.us - prevPpsMonotonicUs > GAP_US {
        FitReset();
      }
    }

    method Use(p: Edge, ppsSec: int)
      requires Valid() && ppsSec == lastNmeaUnixSec + 1
      modifies this, fit, fit.ring
      ensures Valid() && View() == UsePulse(old(View()), p)
    {
      hide Fit.Samples, Outlier, Gap, Sampled, Refitted, Anchored, Relocked, ResetFit, CountPulse, RecordRms;
      var outlier := Guards(p);
      if !outlier {
        Push(p, ppsSec);
        Refit();
      }
      PublishAnchor(p, ppsSec);
      Relock(p);
      NoteRms(p, outlier);
      FinishPulse(p);
    }

    method HandlePps(p: Edge)
      requires Valid()
      modifies this, fit, fit.ring
      ensures Valid() && View() == HandlePulse(old(View()), p)
    {
      hide Fit.Samples, UsePulse, ResetFit, SkipPulse, Trusted;
      if 0 <= p.now - lastNmeaUpdateUs < NMEA_FRESH_US && lastNmeaUnixSec > 0 {
        var skip := CheckPairing(p, lastNmeaUnixSec + 1);
        if skip { return; }
        Use(p, lastNmeaUnixSec + 1);
      } else {
        prevPpsEdgeForOffset := 0;
        prevPpsCapValue := 0;
        mispairStreak := 0;
        FitReset();
      }
    }

    method NoteRms(p: Edge, outlier: bool)
      requires Valid()
      modifies this`filteredRmsOffsetSec
      ensures Valid() && View() == RecordRms(old(View()), p, outlier)
    {
      hide Fit.Samples;
      if !outlier && fitValid { filteredRmsOffsetSec := p.rms; }
    }

    method FinishPulse(p: Edge)
      requires Valid()
      modifies this`statPpsCount, this`prevPpsMonotonicUs, this`prevPpsCapValue, this`filteredRmsOffsetSec
      ensures Valid() && View() == CountPulse(old(View()), p)
    {
      hide Fit.Samples;
      statPpsCount := statPpsCount + 1;
      prevPpsMonotonicUs := p.us;
      prevPpsCapValue := p.cap;
      if statPpsCount == WARMUP { prevPpsMonotonicUs, filteredRmsOffsetSec := 0, 0.0; }
    }

    /** loop(): `edge` is the pulse the seqlock handed over, if any. */
    method RunLoop(edge: Option<Edge>, now: nat)
      requires Valid()
      modifies this, fit, fit.ring
      ensures Valid() && View() == Loop(old(View()), edge, now)
    {
      hide HandlePulse, CheckHoldover, Fit.Samples;
      if edge.Some? { HandlePps(edge.value); }
      EnterHoldover(now);
    }

    method EnterHoldover(now: nat)
      requires Valid()
      modifies this`holdover, this`fitValid
      ensures Valid() && View() == CheckHoldover(old(View()), now)
    {
      hide Fit.Samples;
      if !gpsLock { return; }
      if !holdover && now - lastGoodPpsUs > Holdover.FRESH_US {
        holdover := true;
        fitValid := false;
      }
    }
  }
}
