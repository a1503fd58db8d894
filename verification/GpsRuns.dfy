// The PPS discipline over whole runs: pairing safety, the anchor tuple, holdover,
// the tick timeline against true ticks, and the exactness of captured times.
module GpsRuns {
  import opened Buffers
  import opened MachineInts
  import opened LeastSquares
  import opened CaptureFit
  import NtpTimestamp
  import opened GpsDiscipline

  /** A fresh RMC sentence, or one loop() with the pulse it handles, if any. */
  datatype Event = Nmea(sec: int, at: nat) | Looped(edge: Option<Edge>, now: nat)

  datatype Verdict = Skipped | Accepted | Stale

  function VerdictOf(g: Gps, p: Edge): Verdict {
    if !Paired(g, p) then Stale else if Skips(g, p) then Skipped else Accepted
  }

  function Step(g: Gps, ev: Event): Gps {
    match ev
    case Nmea(sec, at) => g.(nmeaSec := sec, nmeaAt := at)
    case Looped(edge, now) => Loop(g, edge, now)
  }

  /** The state after a boot and these events, and the verdicts on the pulses handled. */
  function After(events: seq<Event>): (Gps, seq<Verdict>)
    decreases |events|
  {
    if events == [] then (Boot(), [])
    else
      var (g, seen) := After(events[..|events| - 1]);
      var ev := events[|events| - 1];
      (Step(g, ev), if ev.Looped? && ev.edge.Some? then seen + [VerdictOf(g, ev.edge.value)] else seen)
  }

  function TrailingSkips(seen: seq<Verdict>): nat
    decreases |seen|
  {
    if seen == [] || seen[|seen| - 1] != Skipped then 0 else 1 + TrailingSkips(seen[..|seen| - 1])
  }

  // ---- Invariants of every reachable state ----

  predicate Together(g: Gps) {
    && g.anchor.sec == g.lastPps.sec && g.anchor.frac == g.lastPps.frac
    && g.anchor.us == g.lastPpsUs == g.lastGoodUs
    && (g.lock <==> g.anchor.published > 0)
  }

  predicate Sound(g: Gps, seen: seq<Verdict>) {
    && Together(g)
    && g.mispairStreak == TrailingSkips(seen) <= 2 && (!g.lock ==> g.mispairStreak == 0)
    && (g.holdover ==> g.lock && !g.fitValid)
    && RateOk(g)
  }

  lemma TrailingAppend(seen: seq<Verdict>, v: Verdict)
    ensures TrailingSkips(seen + [v]) == if v == Skipped then 1 + TrailingSkips(seen) else 0
  {
    assert (seen + [v])[..|seen|] == seen;
  }

  lemma PushKeeps(g: Gps, p: Edge)
    requires RateOk(g)
    ensures RateOk(PushSample(g, p))
  {
    hide LastN, Slope, Residual, Points, Spans, PlausibleSlope;
  }

  /** A push touches the fit and the timeline only. */
  lemma PushTouches(g: Gps, p: Edge)
    ensures PushSample(g, p).(samples := g.samples, fitValid := g.fitValid, ticksPerSec := g.ticksPerSec,
              residualTicks := g.residualTicks, drift := g.drift, tickInit := g.tickInit, tickExt := g.tickExt,
              tickLastRaw := g.tickLastRaw) == g
  {
    hide LastN, Slope, Residual, Points, Spans, PlausibleSlope;
  }

  lemma AcceptKeeps(g: Gps, p: Edge, seen: seq<Verdict>)
    requires Sound(g, seen) && Accepts(g, p)
    ensures Sound(AcceptPulse(g, p), seen + [Accepted])
    ensures !AcceptPulse(g, p).holdover && AcceptPulse(g, p).lastGoodUs == p.us && AcceptPulse(g, p).lock
  {
    hide PushSample, PpsStamp, PlausibleSlope, TrailingSkips, Outlier;
    TrailingAppend(seen, Accepted);
    var h := if Gap(Trusted(g, p), p) then ResetFit(Trusted(g, p)) else Trusted(g, p);
    assert RateOk(h);
    PushKeeps(h, p);
    PushTouches(h, p);
  }

  lemma PulseKeeps(g: Gps, p: Edge, seen: seq<Verdict>)
    requires Sound(g, seen)
    ensures Sound(HandlePulse(g, p), seen + [VerdictOf(g, p)])
  {
    hide AcceptPulse, PlausibleSlope, TrailingSkips;
    TrailingAppend(seen, VerdictOf(g, p));
    if Accepts(g, p) { AcceptKeeps(g, p, seen); }
  }

  /** Every run keeps: the anchor, last-PPS and last-good fields agree, the streak
      counts the pulses just skipped, and holdover means the fit is invalid. */
  lemma {:induction false} RunSound(events: seq<Event>)
    ensures Sound(After(events).0, After(events).1)
    decreases |events|
  {
    hide HandlePulse, PlausibleSlope, VerdictOf;
    if events != [] {
      var (g, seen) := After(events[..|events| - 1]);
      RunSound(events[..|events| - 1]);
      match events[|events| - 1]
      case Nmea(sec, at) =>
      case Looped(edge, now) =>
        if edge.Some? { PulseKeeps(g, edge.value, seen); }
    }
  }

  /** While locked, a pulse is skipped exactly when its second is more than half
      a second from the running clock and the two pulses handled before it were
      not both skipped for the same reason. */
  lemma PairingSafety(events: seq<Event>, p: Edge)
    requires var g := After(events).0; g.lock && Paired(g, p)
    ensures var (g, seen) := After(events);
            var diff := (g.nmeaSec + 1) as real - p.clockAtEdge;
            VerdictOf(g, p) == Skipped <==>
              (diff > 0.5 || diff < -0.5)
              && !(|seen| >= 2 && seen[|seen| - 1] == Skipped && seen[|seen| - 2] == Skipped)
  {
    hide After;
    RunSound(events);
    TwoSkips(After(events).1);
  }

  lemma TwoSkips(seen: seq<Verdict>)
    ensures TrailingSkips(seen) >= 2 <==> |seen| >= 2 && seen[|seen| - 1] == Skipped && seen[|seen| - 2] == Skipped
  {
    if |seen| >= 2 {
      assert seen[..|seen| - 1][|seen| - 2] == seen[|seen| - 2];
    }
  }

  /** The served time moves only with an accepted pulse, and then all of it. */
  lemma AnchorMovesTogether(g: Gps, p: Edge)
    ensures var h := HandlePulse(g, p);
            if Accepts(g, p) then
              && h.lastPps == PpsStamp(g.nmeaSec + 1, p.calibrationUs) && h.lastPpsUs == h.lastGoodUs == p.us
              && h.anchor == Anchor(p.cap, h.lastPps.sec, h.lastPps.frac, p.us, g.anchor.published + 1) && h.lock
            else
              && h.lastPps == g.lastPps && h.lastPpsUs == g.lastPpsUs && h.lastGoodUs == g.lastGoodUs
              && h.anchor == g.anchor && h.lock == g.lock
  {
    hide PushSample, PpsStamp, Outlier, Mispaired, Trusted, Publish, CountPulse, RecordRms, ResetFit;
    var h := Trusted(g, p);
    var k := if Gap(h, p) then ResetFit(h) else h;
    GuardsServeNothing(g, p);
    PushServesNothing(k, p);
    PublishServes(k, p, Outlier(h, p));
    PublishServes(PushSample(k, p), p, Outlier(h, p));
    StaleServesNothing(g);
  }

  lemma PublishServes(g: Gps, p: Edge, outlier: bool)
    ensures var h := CountPulse(RecordRms(Publish(g, p), p, outlier), p);
            && h.lastPps == PpsStamp(g.nmeaSec + 1, p.calibrationUs) && h.lastPpsUs == h.lastGoodUs == p.us && h.lock
            && h.anchor == Anchor(p.cap, h.lastPps.sec, h.lastPps.frac, p.us, g.anchor.published + 1)
  {
    hide PpsStamp;
  }

  lemma GuardsServeNothing(g: Gps, p: Edge)
    ensures Trusted(g, p).nmeaSec == g.nmeaSec && Trusted(g, p).anchor == g.anchor
    ensures ResetFit(Trusted(g, p)).nmeaSec == g.nmeaSec && ResetFit(Trusted(g, p)).anchor == g.anchor
  {
    hide Mispaired;
  }

  lemma PushServesNothing(g: Gps, p: Edge)
    ensures PushSample(g, p).nmeaSec == g.nmeaSec && PushSample(g, p).anchor == g.anchor
  {
    hide LastN, Slope, Residual, Points, Solvable;
  }

  lemma StaleServesNothing(g: Gps)
    ensures var h := StalePulse(g);
            && h.lastPps == g.lastPps && h.lastPpsUs == g.lastPpsUs && h.lastGoodUs == g.lastGoodUs
            && h.anchor == g.anchor && h.lock == g.lock
  {
  }

  /** After every loop(), coasting beyond 2.5 s means holdover and nothing less
      enters it, holdover means no
      valid fit, and so no captured tick is converted. */
  lemma HoldoverStandsDown(events: seq<Event>, edge: Option<Edge>, now: nat, capTick: U32, at: nat)
    ensures var g := Step(After(events).0, Looped(edge, now));
            && (g.lock && now - g.lastGoodUs > 2_500_000 ==> g.holdover)
            && (now - g.lastGoodUs <= 2_500_000 && !After(events).0.holdover ==> !g.holdover)
            && (g.holdover ==> !g.fitValid)
            && RateOk(g) && (g.holdover ==> CaptureToNtp(g, capTick, at) == None)
  {
    hide After, HandlePulse, PlausibleSlope, VerdictOf;
    RunSound(events);
    var (g, seen) := After(events);
    if edge.Some? {
      PulseKeeps(g, edge.value, seen);
      NoNewHoldover(g, edge.value, seen);
    }
  }

  lemma NoNewHoldover(g: Gps, p: Edge, seen: seq<Verdict>)
    requires Sound(g, seen)
    ensures HandlePulse(g, p).holdover ==> g.holdover
  {
    hide AcceptPulse, PlausibleSlope, TrailingSkips, Mispaired;
    if Accepts(g, p) { AcceptKeeps(g, p, seen); }
  }

  /** A pulse that is pushed is one observation of the capture fit and its drift tracker. */
  lemma PushIsObserved(g: Gps, p: Edge)
    ensures var h := PushSample(g, p);
            (h.samples, h.drift) == Observed(g.samples, g.drift, FitSample(Wrap32(g.nmeaSec + 1), h.tickExt))
            && (h.fitValid <==> Solvable(h.samples, 0))
  {
    hide Signed32, Spans, PlausibleSlope, Points;
  }

  // ---- The tick timeline against true ticks ----

  /** A pulse together with the true, unbounded tick of its edge. */
  datatype Timed = Timed(p: Edge, tick: int)

  datatype Pushed = Pushed(sec: U32, tick: int)

  predicate Wrapped(t: Timed) {
    t.p.cap == Wrap32(t.tick)
  }

  predicate Restarts(g: Gps, p: Edge) {
    !Paired(g, p) || (!Skips(g, p) && ((g.lock && Mispaired(g, p)) || Gap(g, p)))
  }

  predicate Pushes(g: Gps, p: Edge) {
    Accepts(g, p) && !Outlier(g, p)
  }

  /** The samples pushed since the fit was last restarted, with their true ticks. */
  function History(g: Gps, past: seq<Pushed>, t: Timed): seq<Pushed> {
    var base := if Restarts(g, t.p) then [] else past;
    if Pushes(g, t.p) then base + [Pushed(Wrap32(g.nmeaSec + 1), t.tick)] else base
  }

  /** Fewer than 2^31 ticks from the previous pushed pulse. */
  predicate Near(past: seq<Pushed>) {
    |past| < 2 || -0x8000_0000 <= past[|past| - 1].tick - past[|past| - 2].tick < 0x8000_0000
  }

  function TrueSamples(past: seq<Pushed>): (s: seq<FitSample>)
    ensures |s| == |past|
  {
    seq(|past|, i requires 0 <= i < |past| => FitSample(past[i].sec, past[i].tick - past[0].tick))
  }

  /** The unwrapped timeline and the fit window are the true ones. */
  predicate TimelineTrue(g: Gps, past: seq<Pushed>) {
    && (g.tickInit <==> past != [])
    && g.samples == LastN(TrueSamples(past), 240)
    && (past != [] ==> g.tickLastRaw == Wrap32(past[|past| - 1].tick)
                       && g.tickExt == past[|past| - 1].tick - past[0].tick)
  }

  lemma TrueSamplesAppend(past: seq<Pushed>, x: Pushed)
    ensures TrueSamples(past + [x]) ==
            TrueSamples(past) + [FitSample(x.sec, x.tick - if past == [] then x.tick else past[0].tick)]
  {
  }

  /** Pushing onto a true timeline keeps it true exactly when fewer than 2^31
      ticks separate the two pulses. */
  lemma PushTimeline(g: Gps, past: seq<Pushed>, t: Timed)
    requires TimelineTrue(g, past) && Wrapped(t)
    ensures var x := past + [Pushed(Wrap32(g.nmeaSec + 1), t.tick)];
            TimelineTrue(PushSample(g, t.p), x) <==> Near(x)
  {
    hide LastN, TrueSamples, Slope, Residual, Points, Solvable, Signed32;
    var x := past + [Pushed(Wrap32(g.nmeaSec + 1), t.tick)];
    TrueSamplesAppend(past, x[|past|]);
    LastNAppend(TrueSamples(past), FitSample(Wrap32(g.nmeaSec + 1), t.tick - x[0].tick));
    if past != [] {
      SignedDifference(t.tick, past[|past| - 1].tick);
    }
  }

  lemma PulseTimeline(g: Gps, past: seq<Pushed>, t: Timed)
    requires TimelineTrue(g, past) && Wrapped(t)
    ensures Near(History(g, past, t)) || !Pushes(g, t.p) ==> TimelineTrue(HandlePulse(g, t.p), History(g, past, t))
  {
    hide PushSample, LastN, Signed32, Outlier, Publish, RecordRms, CountPulse;
    NothingPushed();
    var h := Trusted(g, t.p);
    var k := if Gap(h, t.p) then ResetFit(h) else h;
    SameInterval(g, t.p);
    if Accepts(g, t.p) {
      var base := if Restarts(g, t.p) then [] else past;
      assert TimelineTrue(k, base);
      PublishKeepsTimeline(k, base, t.p, Outlier(h, t.p));
      if Pushes(g, t.p) {
        PushTimeline(k, base, t);
        PublishKeepsTimeline(PushSample(k, t.p), base + [Pushed(Wrap32(g.nmeaSec + 1), t.tick)], t.p, false);
      }
    }
  }

  lemma SameInterval(g: Gps, p: Edge)
    ensures Outlier(Trusted(g, p), p) == Outlier(g, p)
  {
    hide Signed32;
  }

  lemma PublishKeepsTimeline(g: Gps, past: seq<Pushed>, p: Edge, outlier: bool)
    ensures TimelineTrue(CountPulse(RecordRms(Publish(g, p), p, outlier), p), past) == TimelineTrue(g, past)
  {
    hide LastN, TrueSamples, PpsStamp;
  }

  lemma NothingPushed()
    ensures LastN(TrueSamples([]), 240) == []
  {
  }

  /** The state and the pushed samples after a run of timed pulses, each preceded
      by the NMEA second it pairs with and followed by a holdover check. */
  datatype TimedEvent = TimedNmea(sec: int, at: nat) | TimedPulse(t: Timed, now: nat)

  function TimedAfter(events: seq<TimedEvent>): (Gps, seq<Pushed>)
    decreases |events|
  {
    if events == [] then (Boot(), [])
    else
      var (g, past) := TimedAfter(events[..|events| - 1]);
      match events[|events| - 1]
      case TimedNmea(sec, at) => (g.(nmeaSec := sec, nmeaAt := at), past)
      case TimedPulse(t, now) => (Loop(g, Some(t.p), now), History(g, past, t))
  }

  predicate NoAliasing(events: seq<TimedEvent>)
    decreases |events|
  {
    events == [] ||
    (NoAliasing(events[..|events| - 1]) && Near(TimedAfter(events).1)
     && (events[|events| - 1].TimedPulse? ==> Wrapped(events[|events| - 1].t)))
  }

  /** If fewer than 2^31 ticks separate successive pushed pulses, then over the
      whole run the extended tick is the true elapsed tick count, and the fit
      window holds the true ticks of the last 240 pushed pulses. */
  lemma {:induction false} TickTimeline(events: seq<TimedEvent>)
    requires NoAliasing(events)
    ensures TimelineTrue(TimedAfter(events).0, TimedAfter(events).1)
    decreases |events|
  {
    hide HandlePulse, History, LastN;
    if events == [] {
      NothingPushed();
    } else {
      var (g, past) := TimedAfter(events[..|events| - 1]);
      TickTimeline(events[..|events| - 1]);
      match events[|events| - 1]
      case TimedNmea(sec, at) =>
      case TimedPulse(t, now) => PulseTimeline(g, past, t);
    }
  }

  /** One second's loop: the RMC sentence, the pulse p, then the holdover check. */
  function Fed(g: Gps, sec: int, p: Edge): Gps {
    Loop(g.(nmeaSec := sec, nmeaAt := p.now), Some(p), p.us)
  }

  /** A pulse n seconds after the tick, time and second given, agreeing with its RMC sentence. */
  function PulseAfter(tick: int, us: nat, n: nat, sec: int): Timed {
    Timed(Edge(Wrap32(tick + n * 80_000_000), us + n * 1_000_000, us + n * 1_000_000, (sec + n + 1) as real, 0, 0.0),
      tick + n * 80_000_000)
  }

  /** The events of that second. */
  function Second(tick: int, us: nat, n: nat, sec: int): seq<TimedEvent> {
    var t := PulseAfter(tick, us, n, sec);
    [TimedNmea(sec + n, t.p.now), TimedPulse(t, t.p.us)]
  }

  /** Locked, running, and looking back at a pulse with this capture and time. */
  predicate LooksBack(g: Gps, cap: U32, us: nat) {
    g.tickInit && g.lock && g.prevCap == cap && g.prevEdge == us > 0 && (g.prevUs == us || g.prevUs == 0)
  }

  lemma FedPulse(g: Gps, cap: U32, us: nat, sec: int, p: Edge)
    requires LooksBack(g, cap, us) && sec > 0 && p.clockAtEdge == (sec + 1) as real && us <= p.us <= us + 20_000_000
    ensures var h, near := Fed(g, sec, p), 72_000_000 <= Signed32(p.cap - cap) <= 88_000_000;
            && LooksBack(h, p.cap, p.us)
            && !Restarts(g.(nmeaSec := sec, nmeaAt := p.now), p)
            && (Pushes(g.(nmeaSec := sec, nmeaAt := p.now), p) <==> near)
            && if near then h.tickLastRaw == p.cap && h.tickExt == g.tickExt + Signed32(p.cap - g.tickLastRaw)
               else h.tickLastRaw == g.tickLastRaw && h.tickExt == g.tickExt
  {
    hide PushSample, Publish, RecordRms, CountPulse, Signed32;
    var h := Trusted(g.(nmeaSec := sec, nmeaAt := p.now), p);
    PublishedFields(h, p, true);
    PushedFields(h, p);
    PublishedFields(PushSample(h, p), p, false);
  }

  /** What publishing leaves of the timeline and sets for the next pulse. */
  lemma PublishedFields(g: Gps, p: Edge, outlier: bool)
    ensures var h := CountPulse(RecordRms(Publish(g, p), p, outlier), p);
            && h.tickInit == g.tickInit && h.tickExt == g.tickExt && h.tickLastRaw == g.tickLastRaw
            && h.lock && !h.holdover && h.lastGoodUs == p.us
            && h.prevCap == p.cap && h.prevEdge == p.us && (h.prevUs == p.us || h.prevUs == 0)
  {
    hide PpsStamp;
  }

  lemma PushedFields(g: Gps, p: Edge)
    ensures var h := PushSample(g, p);
            && h.tickInit && h.tickLastRaw == p.cap
            && h.tickExt == if g.tickInit then g.tickExt + Signed32(p.cap - g.tickLastRaw) else 0
  {
    hide LastN, Points, Solvable, Signed32, Tracked;
  }

  lemma FirstPulse(sec: int, p: Edge)
    requires sec > 0 && p.us > 0
    ensures var h, g := Fed(Boot(), sec, p), Boot().(nmeaSec := sec, nmeaAt := p.now);
            && LooksBack(h, p.cap, p.us) && Pushes(g, p) && h.tickExt == 0 && h.tickLastRaw == p.cap
  {
    hide PushSample, Publish, RecordRms, CountPulse, Signed32;
    var g := Boot().(nmeaSec := sec, nmeaAt := p.now);
    PushedFields(g, p);
    PublishedFields(PushSample(g, p), p, false);
  }

  lemma SecondRuns(events: seq<TimedEvent>, tick: int, us: nat, n: nat, sec: int)
    ensures var (g, past), t := TimedAfter(events), PulseAfter(tick, us, n, sec);
            TimedAfter(events + Second(tick, us, n, sec))
            == (Fed(g, sec + n, t.p), History(g.(nmeaSec := sec + n, nmeaAt := t.p.now), past, t))
  {
    hide Loop, History;
    var s, t := Second(tick, us, n, sec), PulseAfter(tick, us, n, sec);
    var all, one := events + s, events + [TimedNmea(sec + n, t.p.now)];
    assert all[..|all| - 1] == one && one[..|one| - 1] == events;
  }

  /** The gap guard alone does not give that bound: outlier pulses move its
      reference but not the timeline's.  From boot, with pulses at seconds 0, 15,
      30 and 31, the middle two are rejected as outliers without tripping the 20 s
      guard, and the last, 31 s after the last pushed one, lands 2^32 ticks short. */
  lemma OutliersHideTheGap(tick: int, us: nat, sec: int)
    requires us > 0 && sec > 0
    ensures var (g, past) := TimedAfter(Second(tick, us, 0, sec) + Second(tick, us, 15, sec)
                                        + Second(tick, us, 30, sec) + Second(tick, us, 31, sec));
            && past == [Pushed(Wrap32(sec + 1), tick), Pushed(Wrap32(sec + 32), tick + 31 * 80_000_000)]
            && g.tickExt == 31 * 80_000_000 - 0x1_0000_0000 && !TimelineTrue(g, past)
  {
    hide Fed, Wrap32, Signed32, Restarts, Pushes, Second, TimedAfter, LastN, TrueSamples;
    var e0 := Second(tick, us, 0, sec);
    var e1 := e0 + Second(tick, us, 15, sec);
    var e2 := e1 + Second(tick, us, 30, sec);
    SignedTicks(tick, 1_200_000_000, 0);
    SignedTicks(tick, 2_400_000_000, 1_200_000_000);
    SignedTicks(tick, 2_480_000_000, 2_400_000_000);
    SignedTicks(tick, 2_480_000_000 - 0x1_0000_0000, 0);
    AliasedTick(tick);
    var p0, p1 := PulseAfter(tick, us, 0, sec).p, PulseAfter(tick, us, 15, sec).p;
    var p2, p3 := PulseAfter(tick, us, 30, sec).p, PulseAfter(tick, us, 31, sec).p;
    NothingRan();
    assert [] + e0 == e0;
    SecondRuns([], tick, us, 0, sec);
    FirstPulse(sec, p0);
    SecondRuns(e0, tick, us, 15, sec);
    var g0 := Fed(Boot(), sec, p0);
    FedPulse(g0, p0.cap, us, sec + 15, p1);
    SecondRuns(e1, tick, us, 30, sec);
    var g1 := Fed(g0, sec + 15, p1);
    FedPulse(g1, p1.cap, p1.us, sec + 30, p2);
    SecondRuns(e2, tick, us, 31, sec);
    var g2 := Fed(g1, sec + 30, p2);
    FedPulse(g2, p2.cap, p2.us, sec + 31, p3);
  }

  lemma NothingRan()
    ensures TimedAfter([]) == (Boot(), [])
  {
  }

  lemma SignedTicks(tick: int, a: int, b: int)
    requires -0x8000_0000 <= a - b < 0x8000_0000
    ensures Signed32(Wrap32(tick + a) - Wrap32(tick + b)) == a - b
    ensures Wrap32(tick + 0) == Wrap32(tick)
  {
    SignedDifference(tick + a, tick + b);
  }

  lemma AliasedTick(tick: int)
    ensures Wrap32(tick + 2_480_000_000) == Wrap32(tick + (2_480_000_000 - 0x1_0000_0000))
  {
    var q := tick + 2_480_000_000;
    assert q == (q - 0x1_0000_0000) + 0x1_0000_0000;
  }

  // ---- Captured ticks ----

  /** The exact time of a tick at the fitted rate, in seconds since the anchor's second. */
  function ExactOffset(g: Gps, anchorTick: int, tick: int): real
    requires PlausibleSlope(g.ticksPerSec)
  {
    g.anchor.frac as real / 4294967296.0 + (tick - anchorTick) as real / g.ticksPerSec
  }

  /** A captured tick within 1.6e9 ticks of the anchor is converted to the
      anchor's second plus the exact offset, rounded down to 2^-32 s; one further
      out but within half the counter range is refused. */
  lemma CaptureExact(g: Gps, anchorTick: int, tick: int, now: nat)
    requires g.fitValid && PlausibleSlope(g.ticksPerSec)
    requires g.anchor.published > 0 && now - g.anchor.us <= 20_000_000
    requires g.anchor.tick == Wrap32(anchorTick) && -0x8000_0000 <= tick - anchorTick < 0x8000_0000
    ensures var r := CaptureToNtp(g, Wrap32(tick), now);
            if -1_600_000_000 <= tick - anchorTick <= 1_600_000_000 then
              && r.Some?
              && var whole := ExactOffset(g, anchorTick, tick).Floor;
                 && r.value.sec == Wrap32(g.anchor.sec + whole)
                 && var served := whole as real + r.value.frac as real / 4294967296.0;
                    served <= ExactOffset(g, anchorTick, tick) < served + 1.0 / 4294967296.0
            else r == None
  {
    hide Signed32;
    SignedDifference(tick, anchorTick);
    var offset := ExactOffset(g, anchorTick, tick);
    FractionOf(offset - offset.Floor as real);
  }

  lemma FractionOf(rem: real)
    requires 0.0 <= rem < 1.0
    ensures var f := Wrap32(Trunc(rem * 4294967296.0)); f as real / 4294967296.0 <= rem < f as real / 4294967296.0 + 1.0 / 4294967296.0
  {
    var x := rem * 4294967296.0;
    assert 0.0 <= x < 4294967296.0;
    assert 0 <= x.Floor < 0x1_0000_0000;
  }

  // ---- The pulse's timestamp ----

  /** The published second and fraction are the pulse's second plus the signed
      calibration, rounded down to 2^-32 s, modulo the era. */
  lemma PpsStampExact(unixSec: int, calibrationUs: int)
    ensures NtpTimestamp.Units(PpsStamp(unixSec, calibrationUs)) ==
            ((unixSec + 2_208_988_800) * 0x1_0000_0000 + calibrationUs * 0x1_0000_0000 / 1_000_000) % 0x1_0000_0000_0000_0000
  {
    hide NtpTimestamp.Units;
    var whole := TruncDiv(calibrationUs, 1_000_000);
    var us := calibrationUs - whole * 1_000_000;
    var (up, part) := if us < 0 then (whole - 1, us + 1_000_000) else (whole, us);
    Remainder(calibrationUs);
    FloorSplit(up, part);
    var frac := part * 0x1_0000_0000 / 1_000_000;
    NtpTimestamp.SplitUnits(unixSec + up + 2_208_988_800, frac, Wrap32(unixSec + up + 2_208_988_800));
  }

  lemma Remainder(x: int)
    ensures -1_000_000 < x - TruncDiv(x, 1_000_000) * 1_000_000 < 1_000_000
  {
  }

  lemma FloorSplit(up: int, part: nat)
    requires part < 1_000_000
    ensures (up * 1_000_000 + part) * 0x1_0000_0000 / 1_000_000 == up * 0x1_0000_0000 + part * 0x1_0000_0000 / 1_000_000
    ensures part * 0x1_0000_0000 / 1_000_000 < 0x1_0000_0000
    ensures Wrap32(part * 0x1_0000_0000 / 1_000_000) == part * 0x1_0000_0000 / 1_000_000
  {
    var x := part * 0x1_0000_0000;
    var y := up * 0x1_0000_0000;
    assert (up * 1_000_000 + part) * 0x1_0000_0000 == y * 1_000_000 + x;
  }
}
