// Pulses and NMEA seconds against true time, and what each handled pulse does to
// the fit window and the accumulators.
module GpsPairing {
  import opened Buffers
  import opened MachineInts
  import opened CaptureFit
  import opened GpsDiscipline
  import opened GpsRuns

  // ---- Freshness ----

  /** From boot, with one RMC sentence received: the next pulse is used exactly
      when it is handled at or after the sentence, less than 1.5 s later. */
  lemma FreshnessExact(sec: int, at: nat, p: Edge)
    requires sec > 0
    ensures VerdictOf(After([Nmea(sec, at)]).0, p) == Accepted <==> at <= p.now < at + 1_500_000
  {
    AfterOne(Nmea(sec, at));
  }

  lemma AfterOne(ev: Event)
    ensures After([ev]).0 == Step(Boot(), ev)
  {
    assert [ev][..0] == [];
  }

  // ---- Pairing with true seconds ----

  /** The edge of true second t on the monotonic clock. */
  function EdgeOf(origin: int, t: int): int {
    origin + t * 1_000_000
  }

  /** Every RMC sentence arrives at most half a second after the edge of the
      second it states, and not before it. */
  predicate PromptNmea(events: seq<Event>, origin: int) {
    forall i :: 0 <= i < |events| && events[i].Nmea? ==>
      EdgeOf(origin, events[i].sec) <= events[i].at <= EdgeOf(origin, events[i].sec) + 500_000
  }

  lemma LoopKeepsNmea(g: Gps, edge: Option<Edge>, now: nat)
    ensures Loop(g, edge, now).nmeaSec == g.nmeaSec && Loop(g, edge, now).nmeaAt == g.nmeaAt
  {
    hide UsePulse, Mispaired;
    if edge.Some? { UseKeepsNmea(Trusted(g, edge.value), edge.value); }
  }

  lemma UseKeepsNmea(g: Gps, p: Edge)
    ensures UsePulse(g, p).nmeaSec == g.nmeaSec && UsePulse(g, p).nmeaAt == g.nmeaAt
  {
    hide PushSample, Publish, RecordRms, CountPulse, Outlier;
    var h := if Gap(g, p) then ResetFit(g) else g;
    PushTouches(h, p);
    PublishKeepsNmea(h, p, Outlier(g, p));
    PublishKeepsNmea(PushSample(h, p), p, Outlier(g, p));
  }

  lemma PublishKeepsNmea(g: Gps, p: Edge, outlier: bool)
    ensures var h := CountPulse(RecordRms(Publish(g, p), p, outlier), p); h.nmeaSec == g.nmeaSec && h.nmeaAt == g.nmeaAt
  {
    hide PpsStamp;
  }

  lemma {:induction false} LastNmea(events: seq<Event>, origin: int)
    requires PromptNmea(events, origin)
    ensures var g := After(events).0;
            g.nmeaSec == 0 || EdgeOf(origin, g.nmeaSec) <= g.nmeaAt <= EdgeOf(origin, g.nmeaSec) + 500_000
    decreases |events|
  {
    hide Loop;
    if events != [] {
      LastNmea(events[..|events| - 1], origin);
      match events[|events| - 1]
      case Nmea(sec, at) =>
      case Looped(edge, now) => LoopKeepsNmea(After(events[..|events| - 1]).0, edge, now);
    }
  }

  /** In every run with prompt sentences, a pulse of true second t that is paired
      is taken for second t if and only if no sentence arrived between its edge
      and its handling; if it is accepted, what is published is then that second,
      calibrated. */
  lemma PairedWithTrueSecond(events: seq<Event>, origin: int, p: Edge, t: int)
    requires PromptNmea(events, origin) && p.us == EdgeOf(origin, t)
    requires Paired(After(events).0, p) && p.us <= p.now
    ensures var g := After(events).0;
            && (g.nmeaSec + 1 == t <==> g.nmeaAt < p.us)
            && (Accepts(g, p) && g.nmeaAt < p.us ==> HandlePulse(g, p).lastPps == PpsStamp(t, p.calibrationUs))
  {
    hide After, Mispaired, HandlePulse, PpsStamp;
    LastNmea(events, origin);
    AnchorMovesTogether(After(events).0, p);
    PairSpan(origin, After(events).0.nmeaSec, t, After(events).0.nmeaAt, p.us, p.now);
  }

  lemma PairSpan(origin: int, sec: int, t: int, at: int, us: int, now: int)
    requires us == origin + t * 1_000_000 && at <= now < at + 1_500_000
    requires origin + sec * 1_000_000 <= at <= origin + sec * 1_000_000 + 500_000
    requires us <= now
    ensures sec + 1 == t <==> at < us
  {
  }

  /** The bound on the handling is needed: from boot, a pulse whose handling is
      delayed until the sentence of its own second has arrived is published one
      second ahead. */
  lemma LateHandlingIsAhead(origin: nat, t: nat, calibrationUs: int)
    requires t > 0
    ensures var at := EdgeOf(origin, t) + 300_000;
            var p := Edge(0, EdgeOf(origin, t), at + 1, 0.0, calibrationUs, 0.0);
            && PromptNmea([Nmea(t, at)], origin) && Accepts(After([Nmea(t, at)]).0, p)
            && HandlePulse(After([Nmea(t, at)]).0, p).lastPps == PpsStamp(t + 1, calibrationUs)
  {
    hide PpsStamp, HandlePulse;
    var at := EdgeOf(origin, t) + 300_000;
    AfterOne(Nmea(t, at));
    AnchorMovesTogether(After([Nmea(t, at)]).0, Edge(0, EdgeOf(origin, t), at + 1, 0.0, calibrationUs, 0.0));
  }

  // ---- What a pulse does to the window ----

  /** The pulse starts a new window: it came more than 20 s after the last
      handled one, or against the running clock for the third time. */
  predicate Anew(g: Gps, p: Edge) {
    || (g.prevUs != 0 && p.us > g.prevUs + 20_000_000)
    || (g.lock && Mispaired(g, p))
  }

  /** Its distance from the last handled pulse is not within a tenth of a second
      of one second, in 80 MHz ticks. */
  predicate OffBeat(g: Gps, p: Edge) {
    g.prevEdge != 0 && !(72_000_000 <= Signed32(p.cap - g.prevCap) <= 88_000_000)
  }

  /** The window after an accepted pulse: the old samples unless it starts anew,
      the pulse's own sample unless it is off beat, at most the last 240. */
  lemma WindowAfterPulse(g: Gps, p: Edge)
    requires Accepts(g, p)
    ensures var h := HandlePulse(g, p);
            var kept := if Anew(g, p) then [] else g.samples;
            && (OffBeat(g, p) ==> h.samples == kept)
            && (!OffBeat(g, p) ==> h.samples == LastN(kept + [FitSample(Wrap32(g.nmeaSec + 1), h.tickExt)], 240))
            && (!OffBeat(g, p) && (Anew(g, p) || !g.tickInit) ==> h.tickExt == 0)
  {
    hide PpsStamp, Mispaired, Refitted, LastN, Publish, RecordRms, CountPulse, Signed32;
    var h := Trusted(g, p);
    var k := if Gap(h, p) then ResetFit(h) else h;
    IntervalsAgree(g, p);
    WindowPublished(k, p, true);
    WindowPublished(PushSample(k, p), p, false);
    RefitKeepsWindow(Sampled(k, p));
  }

  lemma IntervalsAgree(g: Gps, p: Edge)
    ensures Outlier(Trusted(g, p), p) == OffBeat(g, p) && Gap(Trusted(g, p), p) == (g.prevUs != 0 && p.us > g.prevUs + 20_000_000)
    ensures Outlier(g, p) == OffBeat(g, p)
  {
    hide Mispaired, Signed32;
  }

  lemma WindowPublished(g: Gps, p: Edge, outlier: bool)
    ensures var h := CountPulse(RecordRms(Publish(g, p), p, outlier), p);
            h.samples == g.samples && h.tickExt == g.tickExt
  {
    hide PpsStamp;
  }

  lemma RefitKeepsWindow(g: Gps)
    ensures Refitted(g).samples == g.samples && Refitted(g).tickExt == g.tickExt
  {
    hide Solvable, Points;
  }

  /** A skipped pulse keeps the interval tracking going and touches nothing else
      but the streak; a pulse without fresh time forgets window, timeline and
      interval, so the next accepted one is on beat and starts a new window. */
  lemma OtherPulses(g: Gps, p: Edge)
    ensures Skips(g, p) ==>
              HandlePulse(g, p) == g.(mispairStreak := g.mispairStreak + 1, prevCap := p.cap, prevUs := p.us)
    ensures !Paired(g, p) ==>
              var h := HandlePulse(g, p);
              && h.samples == [] && !h.fitValid && !h.tickInit && h.prevEdge == 0 && h.mispairStreak == 0
              && h.ticksPerSec == 80000000.0 && h.residualTicks == 0.0
              && h.lock == g.lock && h.ppsCount == g.ppsCount && h.rms == g.rms && h.drift == g.drift
              && forall q: Edge :: !OffBeat(h, q)
  {
    hide Mispaired, AcceptPulse, Signed32;
  }

  /** The accumulators: every accepted pulse counts; the 20th clears the filtered
      RMS and the gap reference once; otherwise a clean pulse with a valid fit
      sets the RMS and any other leaves it. */
  lemma AccumulatorsAfterPulse(g: Gps, p: Edge)
    requires Accepts(g, p)
    ensures var h := HandlePulse(g, p);
            && h.ppsCount == g.ppsCount + 1 && h.prevCap == p.cap && h.prevEdge == p.us
            && h.prevUs == (if g.ppsCount == 19 then 0 else p.us)
            && h.rms == (if g.ppsCount == 19 then 0.0 else if !OffBeat(g, p) && h.fitValid then p.rms else g.rms)
  {
    hide PpsStamp, Mispaired, PushSample, Signed32;
    var h := Trusted(g, p);
    var k := if Gap(h, p) then ResetFit(h) else h;
    IntervalsAgree(g, p);
    PushTouches(k, p);
  }
}
