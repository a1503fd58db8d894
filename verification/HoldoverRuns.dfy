// The holdover error model over whole runs of the discipline: what dispersion
// and lock do while no pulse is accepted, and how long the last accepted pulse
// carries the lock and the captured timestamps.
module HoldoverRuns {
  import opened Buffers
  import MachineInts
  import CaptureFit
  import opened GpsDiscipline
  import opened GpsRuns
  import Holdover

  /** The pulse accepted last in a run. */
  function LastAccepted(events: seq<Event>): Option<Edge>
    decreases |events|
  {
    if events == [] then None
    else
      var g, ev := After(events[..|events| - 1]).0, events[|events| - 1];
      if ev.Looped? && ev.edge.Some? && Accepts(g, ev.edge.value) then ev.edge
      else LastAccepted(events[..|events| - 1])
  }

  /** No pulse of the second part of the run is accepted. */
  predicate Coasts(before: seq<Event>, rest: seq<Event>)
    decreases |rest|
  {
    rest == [] ||
    var init, ev := rest[..|rest| - 1], rest[|rest| - 1];
    && Coasts(before, init)
    && (ev.Looped? && ev.edge.Some? ==> !Accepts(After(before + init).0, ev.edge.value))
  }

  /** What the error model reads of the state. */
  predicate SameReference(g: Gps, h: Gps) {
    g.lock == h.lock && g.lastGoodUs == h.lastGoodUs && g.rms == h.rms && g.drift == h.drift && g.anchor == h.anchor
  }

  lemma StepKeepsReference(g: Gps, ev: Event)
    requires ev.Looped? && ev.edge.Some? ==> !Accepts(g, ev.edge.value)
    ensures SameReference(Step(g, ev), g)
  {
    hide AcceptPulse, Mispaired;
  }

  lemma AcceptSetsReference(g: Gps, p: Edge, now: nat)
    requires Accepts(g, p)
    ensures var h := Loop(g, Some(p), now); h.lock && h.lastGoodUs == h.anchor.us == p.us && h.anchor.tick == p.cap && h.anchor.published > 0
  {
    AnchorMovesTogether(g, p);
    hide HandlePulse;
  }

  /** In every run the lock flag is set once a pulse was accepted, and last-good
      time and anchor are those of the last accepted pulse. */
  lemma {:induction false} ReferenceIsLastAccepted(events: seq<Event>)
    ensures var g, last := After(events).0, LastAccepted(events);
            && (g.lock <==> last.Some?) && (g.anchor.published > 0 <==> last.Some?)
            && (last.Some? ==> g.lastGoodUs == g.anchor.us == last.value.us && g.anchor.tick == last.value.cap)
    decreases |events|
  {
    hide Step, Accepts;
    if events == [] {
      NothingAccepted();
    } else {
      var g, ev := After(events[..|events| - 1]).0, events[|events| - 1];
      ReferenceIsLastAccepted(events[..|events| - 1]);
      if ev.Looped? && ev.edge.Some? && Accepts(g, ev.edge.value) {
        AcceptSetsReference(g, ev.edge.value, ev.now);
        LoopStep(g, ev);
      } else {
        StepKeepsReference(g, ev);
      }
    }
  }

  lemma NothingAccepted()
    ensures !After([]).0.lock && After([]).0.anchor.published == 0
  {
  }

  lemma LoopStep(g: Gps, ev: Event)
    requires ev.Looped?
    ensures Step(g, ev) == Loop(g, ev.edge, ev.now)
  {
  }

  lemma {:induction false} CoastKeepsReference(before: seq<Event>, rest: seq<Event>)
    requires Coasts(before, rest)
    ensures SameReference(After(before + rest).0, After(before).0)
    decreases |rest|
  {
    hide Step, Accepts;
    if rest == [] {
      assert before + rest == before;
    } else {
      var init, ev := rest[..|rest| - 1], rest[|rest| - 1];
      CoastKeepsReference(before, init);
      assert (before + rest)[..|before + rest| - 1] == before + init;
      StepKeepsReference(After(before + init).0, ev);
    }
  }

  /** Over every stretch of a run without an accepted pulse, whatever NMEA,
      skipped and stale pulses it contains, root dispersion strictly increases
      from any instant more than 2.5 s after the last accepted pulse on. */
  lemma CoastingDispersion(before: seq<Event>, rest: seq<Event>, a: nat, b: nat)
    requires Coasts(before, rest) && LastAccepted(before).Some?
    requires a < b && a - LastAccepted(before).value.us > 2_500_000
    ensures DispersionAt(After(before).0, a) < DispersionAt(After(before + rest).0, b)
  {
    hide After, Coasts, Holdover.RootDispersion;
    CoastKeepsReference(before, rest);
    ReferenceIsLastAccepted(before);
    var g := After(before).0;
    Holdover.DispersionIncreases(a - g.lastGoodUs, b - g.lastGoodUs, g.rms, g.drift.perSec);
  }

  /** A lock lost during such a stretch returns within it if and only if it was
      looked at exactly 2.5 s after the last accepted pulse and the filtered RMS
      lies in the band of Returns. */
  lemma LostLockStaysLost(before: seq<Event>, rest: seq<Event>, a: nat)
    requires Coasts(before, rest) && !LockedAt(After(before).0, a)
    ensures var g, last := After(before).0, LastAccepted(before);
            (exists b: nat :: a < b && LockedAt(After(before + rest).0, b)) <==>
              last.Some? && a - last.value.us == 2_500_000 && Holdover.Returns(g.rms, g.drift.perSec)
  {
    hide After, Coasts, Holdover.IsLocked, Holdover.Returns;
    CoastKeepsReference(before, rest);
    ReferenceIsLastAccepted(before);
    var g, h := After(before).0, After(before + rest).0;
    if g.lock {
      Holdover.LostLockReturns(a - g.lastGoodUs, g.rms, g.drift.perSec);
      LockedTimes(g, h, a);
    } else {
      NeverLocked(h);
    }
  }

  lemma NeverLocked(g: Gps)
    requires !g.lock
    ensures forall b: nat :: !LockedAt(g, b)
  {
  }

  /** Instants of the clock and times since the last good pulse correspond. */
  lemma LockedTimes(g: Gps, h: Gps, a: nat)
    requires SameReference(h, g) && g.lock
    ensures (exists b: nat :: a < b && LockedAt(h, b)) <==>
            exists s: int :: a - g.lastGoodUs < s && Holdover.IsLocked(true, s, g.rms, g.drift.perSec)
  {
    hide Holdover.IsLocked;
    if s: int :| a - g.lastGoodUs < s && Holdover.IsLocked(true, s, g.rms, g.drift.perSec) {
      assert LockedAt(h, s + g.lastGoodUs);
    }
    if b: nat :| a < b && LockedAt(h, b) {
      assert Holdover.IsLocked(true, b - g.lastGoodUs, g.rms, g.drift.perSec);
    }
  }

  /** In every run: a second of dispersion and no lock before any pulse was
      accepted; at an accepted pulse the filtered RMS plus 16 us, and lock. */
  lemma ReportedAtPulse(events: seq<Event>, now: nat)
    ensures var g, last := After(events).0, LastAccepted(events);
            && (last.None? ==> DispersionAt(g, now) == 1.0 && !LockedAt(g, now))
            && (last.Some? ==> DispersionAt(g, last.value.us) == MachineInts.Abs(g.rms) + 0.000016 && LockedAt(g, last.value.us))
  {
    hide After, LastAccepted, Holdover.RootDispersion;
    ReferenceIsLastAccepted(events);
    var g := After(events).0;
    Holdover.DispersionAnchors(now - g.lastGoodUs, g.rms, g.drift.perSec);
  }

  /** Whenever the server claims lock, a pulse was accepted at most one hour before. */
  lemma NeverBeyondAnHour(events: seq<Event>, now: nat)
    requires LockedAt(After(events).0, now)
    ensures LastAccepted(events).Some? && now - LastAccepted(events).value.us <= 3_600_000_000
  {
    hide After, LastAccepted, Holdover.RootDispersion;
    ReferenceIsLastAccepted(events);
  }

  /** In every run a captured tick is converted if and only if the fit is valid, a
      pulse was accepted at most 20 s before, and the tick lies within 1.6e9 ticks
      of that pulse's. */
  lemma CaptureConverted(events: seq<Event>, capTick: MachineInts.U32, now: nat)
    ensures RateOk(After(events).0)
    ensures var g, last := After(events).0, LastAccepted(events);
            CaptureToNtp(g, capTick, now).Some? <==>
              && g.fitValid && last.Some? && now - last.value.us <= 20_000_000
              && -1_600_000_000 <= MachineInts.Signed32(capTick - last.value.cap) <= 1_600_000_000
  {
    hide After, LastAccepted, MachineInts.Signed32, CaptureFit.PlausibleSlope;
    ReferenceIsLastAccepted(events);
    RunSound(events);
  }
}
