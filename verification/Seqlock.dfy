// The odd/even seqlock that hands captures from interrupt handlers to tasks
// (PPS and RX capture callbacks, anchor publication, the RX interrupt stamp),
// as an interleaved step system: every shared access of the publisher and of the
// bounded-retry reader is one atomic step, and a schedule may interleave them in
// any order.  A 64-bit field is two words.
module Seqlock {
  import opened MachineInts

  datatype Publisher = Idle | Writing(value: seq<int>, next: nat)

  /** What one successful read returned.  `from` and `to` record how many publishes
      had completed when the sequence word was first and last read. */
  datatype Snapshot = Snapshot(seqNo: U32, words: seq<int>, from: nat, to: nat)

  datatype Reader =
    | Resting
    | Trying(tries: nat)
    | Copying(tries: nat, seqNo: U32, from: nat, got: seq<int>)

  /** `published` holds every completed value, oldest first, starting with the
      initial one. */
  datatype System = System(
    seqWord: U32, memory: seq<int>, published: seq<seq<int>>,
    publisher: Publisher, reader: Reader, snapshots: seq<Snapshot>)

  datatype Actor = Publish(value: seq<int>) | Read

  function Boot(initial: seq<int>): System {
    System(0, initial, [initial], Idle, Resting, [])
  }

  function PublisherStep(s: System, value: seq<int>): System {
    match s.publisher
    case Idle =>
      if |value| != |s.memory| then s
      else s.(seqWord := Wrap32(s.seqWord + 1), publisher := Writing(value, 0))
    case Writing(v, k) =>
      if k < |v| && k < |s.memory| then s.(memory := s.memory[k := v[k]], publisher := Writing(v, k + 1))
      else s.(seqWord := Wrap32(s.seqWord + 1), publisher := Idle, published := s.published + [v])
  }

  /** Publishes completed so far. */
  function Completed(s: System): nat {
    if s.published == [] then 0 else |s.published| - 1
  }

  function ReaderStep(s: System, budget: nat): System {
    match s.reader
    case Resting => s.(reader := Trying(0))
    case Trying(n) =>
      if n >= budget then s.(reader := Resting)
      else if s.seqWord % 2 == 1 then s.(reader := Trying(n + 1))
      else s.(reader := Copying(n + 1, s.seqWord, Completed(s), []))
    case Copying(n, seqNo, from, got) =>
      if |got| < |s.memory| then s.(reader := Copying(n, seqNo, from, got + [s.memory[|got|]]))
      else if s.seqWord == seqNo then
        s.(reader := Resting, snapshots := s.snapshots + [Snapshot(seqNo, got, from, Completed(s))])
      else s.(reader := Trying(n))
  }

  function Next(s: System, a: Actor, budget: nat): System {
    match a
    case Publish(v) => PublisherStep(s, v)
    case Read => ReaderStep(s, budget)
  }

  function Run(s: System, schedule: seq<Actor>, budget: nat): System
    decreases |schedule|
  {
    if schedule == [] then s else Run(Next(s, schedule[0], budget), schedule[1..], budget)
  }

  // ---- Inductive invariant ----

  ghost predicate PublisherInv(s: System) {
    && |s.published| > 0
    && (forall v <- s.published :: |v| == |s.memory|)
    && var last := s.published[|s.published| - 1];
       match s.publisher
       case Idle => s.seqWord == Wrap32(2 * Completed(s)) && s.memory == last
       case Writing(v, k) =>
         && s.seqWord == Wrap32(2 * Completed(s) + 1)
         && k <= |v| == |s.memory|
         && forall i :: 0 <= i < |s.memory| ==> s.memory[i] == if i < k then v[i] else last[i]
  }

  ghost predicate ReaderInv(s: System) {
    s.reader.Copying? ==>
      && s.reader.from <= Completed(s)
      && s.reader.seqNo == Wrap32(2 * s.reader.from)
      && |s.reader.got| <= |s.memory|
      && (forall t <- s.snapshots :: t.to <= s.reader.from)
      && (s.reader.from == Completed(s) && s.publisher.Idle? ==> s.reader.got == s.memory[..|s.reader.got|])
  }

  ghost predicate SnapshotOk(published: seq<seq<int>>, t: Snapshot) {
    && t.from <= t.to < |published|
    && t.seqNo == Wrap32(2 * t.from) == Wrap32(2 * t.to)
    && (t.to == t.from ==> t.words == published[t.from])
  }

  ghost predicate Inv(s: System) {
    && PublisherInv(s)
    && ReaderInv(s)
    && (forall t <- s.snapshots :: SnapshotOk(s.published, t))
    && (forall i, j :: 0 <= i < j < |s.snapshots| ==> s.snapshots[i].to <= s.snapshots[j].from)
  }

  lemma WrapStep(n: nat)
    ensures Wrap32(Wrap32(n) + 1) == Wrap32(n + 1)
  {
  }

  lemma Parity(n: nat)
    ensures Wrap32(2 * n) % 2 == 0 && Wrap32(2 * n + 1) % 2 == 1
  {
  }

  lemma PublisherKeepsInv(s: System, value: seq<int>)
    requires Inv(s)
    ensures Inv(PublisherStep(s, value))
  {
    var r := PublisherStep(s, value);
    WrapStep(2 * Completed(s));
    WrapStep(2 * Completed(s) + 1);
    hide Wrap32;
    assert PublisherInv(r);
    assert s.published <= r.published;
    assert forall t <- s.snapshots :: SnapshotOk(s.published, t) ==> SnapshotOk(r.published, t);
  }

  lemma ReaderKeepsInv(s: System, budget: nat)
    requires Inv(s)
    ensures Inv(ReaderStep(s, budget))
  {
    var r := ReaderStep(s, budget);
    Parity(Completed(s));
    hide Wrap32;
    if r.snapshots != s.snapshots {
      SnapshotTaken(s, budget);
    } else if s.reader.Trying? && r.reader.Copying? {
      assert forall t <- s.snapshots :: SnapshotOk(s.published, t) ==> t.to <= Completed(s);
    }
  }

  lemma SnapshotTaken(s: System, budget: nat)
    requires Inv(s) && ReaderStep(s, budget).snapshots != s.snapshots
    ensures Inv(ReaderStep(s, budget))
  {
    var r := ReaderStep(s, budget);
    var t := Snapshot(s.reader.seqNo, s.reader.got, s.reader.from, Completed(s));
    assert r == s.(reader := Resting, snapshots := s.snapshots + [t]);
    Parity(Completed(s));
    Parity(s.reader.from);
    assert s.publisher.Idle?;
    assert SnapshotOk(r.published, t);
  }

  lemma {:induction false} RunKeepsInv(s: System, schedule: seq<Actor>, budget: nat)
    requires Inv(s)
    ensures Inv(Run(s, schedule, budget))
    decreases |schedule|
  {
    if schedule != [] {
      match schedule[0]
      case Publish(v) =>
        PublisherKeepsInv(s, v);
        RunKeepsInv(PublisherStep(s, v), schedule[1..], budget);
      case Read =>
        ReaderKeepsInv(s, budget);
        RunKeepsInv(ReaderStep(s, budget), schedule[1..], budget);
    }
  }

  // ---- Main results ----

  lemma EqualSequenceNumbers(from: nat, to: nat)
    requires from <= to && to - from < 0x8000_0000
    ensures Wrap32(Wrap32(2 * to) - Wrap32(2 * from)) == 2 * (to - from)
  {
    WrapDifference(2 * to, 2 * from);
  }

  /** Whole reads: whatever the interleaving, a read during which fewer than
      2^31 publishes completed returns the words of a single publish, the one
      that was current when it started, under an even sequence number. */
  lemma SnapshotsAreWhole(initial: seq<int>, schedule: seq<Actor>, budget: nat, t: Snapshot)
    requires t in Run(Boot(initial), schedule, budget).snapshots
    requires t.to - t.from < 0x8000_0000
    ensures t.from < |Run(Boot(initial), schedule, budget).published|
    ensures t.words == Run(Boot(initial), schedule, budget).published[t.from]
    ensures t.seqNo == Wrap32(2 * t.from) && t.seqNo % 2 == 0
  {
    RunKeepsInv(Boot(initial), schedule, budget);
    assert SnapshotOk(Run(Boot(initial), schedule, budget).published, t);
    EqualSequenceNumbers(t.from, t.to);
    Parity(t.from);
  }

  /** Two reads bracket exactly one publish if and only if their sequence
      numbers differ by 2, as the transmit-capture check assumes, provided fewer
      than 2^31 publishes completed from the start of the first to the end of the
      second; the two values are then consecutive publishes. */
  lemma DifferenceOfTwoBracketsOnePublish(initial: seq<int>, schedule: seq<Actor>, budget: nat, i: nat, j: nat)
    requires i < j < |Run(Boot(initial), schedule, budget).snapshots|
    requires var snaps := Run(Boot(initial), schedule, budget).snapshots;
             snaps[j].to - snaps[i].from < 0x8000_0000
    ensures var s := Run(Boot(initial), schedule, budget);
            var a, b := s.snapshots[i], s.snapshots[j];
            && (Wrap32(b.seqNo - a.seqNo) == 2 <==> b.from == a.from + 1)
            && a.from <= b.from < |s.published|
            && a.words == s.published[a.from] && b.words == s.published[b.from]
  {
    var s := Run(Boot(initial), schedule, budget);
    RunKeepsInv(Boot(initial), schedule, budget);
    var a, b := s.snapshots[i], s.snapshots[j];
    assert SnapshotOk(s.published, a) && SnapshotOk(s.published, b) && a.to <= b.from;
    SnapshotsAreWhole(initial, schedule, budget, a);
    SnapshotsAreWhole(initial, schedule, budget, b);
    EqualSequenceNumbers(a.from, b.from);
  }

  // ---- Bounded retries ----

  /** Reader steps left before the current read ends, whatever the publisher does. */
  function Fuel(s: System, budget: nat): nat {
    var attempt := |s.memory| + 2;
    match s.reader
    case Resting => 0
    case Trying(n) => 1 + attempt * (if n < budget then budget - n else 0)
    case Copying(n, _, _, got) =>
      1 + attempt * (if n < budget then budget - n else 0)
      + 1 + (if |got| < |s.memory| then |s.memory| - |got| else 0)
  }

  lemma FuelStep(s: System, a: Actor, budget: nat)
    requires !s.reader.Resting?
    ensures a.Read? ==> Fuel(Next(s, a, budget), budget) < Fuel(s, budget)
    ensures a.Publish? ==> Fuel(Next(s, a, budget), budget) == Fuel(s, budget)
  {
    if s.reader.Trying? && s.reader.tries < budget {
      var attempt, left := |s.memory| + 2, budget - s.reader.tries;
      assert attempt * left == attempt * (left - 1) + attempt;
    }
  }

  function ReadSteps(schedule: seq<Actor>): nat {
    if schedule == [] then 0
    else (if schedule[0].Read? then 1 else 0) + ReadSteps(schedule[1..])
  }

  /** No pulse storm can make a read spin: after at most Fuel steps of its own
      (8 or 9 attempts of |memory|+2 accesses) the reader has returned, with or
      without a snapshot, under every schedule. */
  lemma {:induction false} ReadsReturn(s: System, schedule: seq<Actor>, budget: nat) returns (k: nat)
    requires ReadSteps(schedule) >= Fuel(s, budget)
    ensures k <= |schedule| && Run(s, schedule[..k], budget).reader.Resting?
    decreases |schedule|
  {
    if s.reader.Resting? {
      k := 0;
    } else {
      FuelStep(s, schedule[0], budget);
      var rest := ReadsReturn(Next(s, schedule[0], budget), schedule[1..], budget);
      k := rest + 1;
      assert schedule[..k][1..] == schedule[1..][..rest];
    }
  }

  // ---- The 2^31 bound is needed ----

  lemma {:induction false} RunAppend(s: System, first: seq<Actor>, second: seq<Actor>, budget: nat)
    ensures Run(s, first + second, budget) == Run(Run(s, first, budget), second, budget)
    decreases |first|
  {
    if first == [] {
      assert first + second == second;
    } else {
      assert (first + second)[1..] == first[1..] + second;
      RunAppend(Next(s, first[0], budget), first[1..], second, budget);
    }
  }

  lemma RunPair(s: System, a: Actor, b: Actor, budget: nat)
    ensures Run(s, [a, b], budget) == Next(Next(s, a, budget), b, budget)
  {
    assert [a, b][1..] == [b];
    assert Run(Next(s, a, budget), [b], budget) == Next(Next(s, a, budget), b, budget);
  }

  /** `times` whole publishes of a two-word value, as a schedule. */
  function Republish(v: seq<int>, times: nat): seq<Actor> {
    if times == 0 then []
    else ([Publish(v), Publish(v)] + [Publish(v), Publish(v)]) + Republish(v, times - 1)
  }

  lemma OnePublish(s: System, v: seq<int>, budget: nat)
    requires s.publisher.Idle? && |v| == |s.memory| == 2
    ensures Run(s, [Publish(v), Publish(v)] + [Publish(v), Publish(v)], budget)
         == s.(seqWord := Wrap32(s.seqWord + 2), memory := v, published := s.published + [v])
  {
    RunAppend(s, [Publish(v), Publish(v)], [Publish(v), Publish(v)], budget);
    RunPair(s, Publish(v), Publish(v), budget);
    var half := Run(s, [Publish(v), Publish(v)], budget);
    RunPair(half, Publish(v), Publish(v), budget);
    assert PublisherStep(half, v).memory == v;
  }

  lemma {:induction false} RepublishRuns(s: System, v: seq<int>, times: nat, budget: nat)
    requires s.publisher.Idle? && |v| == |s.memory| == 2
    requires |s.published| > 0
    ensures var r := Run(s, Republish(v, times), budget);
            && r.publisher.Idle? && r.seqWord == Wrap32(s.seqWord + 2 * times)
            && r.memory == (if times == 0 then s.memory else v)
            && Completed(r) == Completed(s) + times
            && r.reader == s.reader && r.snapshots == s.snapshots && |r.published| > 0
    decreases times
  {
    if times > 0 {
      var once := [Publish(v), Publish(v)] + [Publish(v), Publish(v)];
      OnePublish(s, v, budget);
      RunAppend(s, once, Republish(v, times - 1), budget);
      RepublishRuns(Run(s, once, budget), v, times - 1, budget);
    }
  }

  lemma TornReadStarts(budget: nat)
    requires budget > 0
    ensures Run(Boot([0, 0]), [Read, Read] + [Read], budget) == Boot([0, 0]).(reader := Copying(1, 0, 0, [0]))
  {
    var s := Boot([0, 0]);
    RunPair(s, Read, Read, budget);
    RunAppend(s, [Read, Read], [Read], budget);
    var s1 := Run(s, [Read, Read], budget);
    assert Run(s1, [Read], budget) == Next(s1, Read, budget);
    assert [] + [s.memory[0]] == [0];
  }

  lemma TornReadEnds(s: System, budget: nat)
    requires s.reader == Copying(1, 0, 0, [0]) && s.memory == [7, 7] && s.seqWord == 0
    ensures Run(s, [Read, Read], budget).snapshots == s.snapshots + [Snapshot(0, [0, 7], 0, Completed(s))]
  {
    RunPair(s, Read, Read, budget);
    assert [0] + [s.memory[1]] == [0, 7];
  }

  lemma TornRead(times: nat, budget: nat) returns (schedule: seq<Actor>)
    requires budget > 0 && times > 0 && Wrap32(2 * times) == 0
    ensures Snapshot(0, [0, 7], 0, times) in Run(Boot([0, 0]), schedule, budget).snapshots
  {
    var s0, start, storm := Boot([0, 0]), [Read, Read] + [Read], Republish([7, 7], times);
    TornReadStarts(budget);
    var s1 := Run(s0, start, budget);
    RepublishRuns(s1, [7, 7], times, budget);
    var s2 := Run(s1, storm, budget);
    TornReadEnds(s2, budget);
    RunAppend(s0, start, storm, budget);
    RunAppend(s0, start + storm, [Read, Read], budget);
    schedule := start + storm + [Read, Read];
  }

  /** With exactly 2^31 publishes inside one read the sequence word comes back
      round and a torn value is accepted: word 0 of one publish, word 1 of another. */
  lemma WindowBoundIsTight(budget: nat) returns (schedule: seq<Actor>, t: Snapshot)
    requires budget > 0
    ensures t in Run(Boot([0, 0]), schedule, budget).snapshots
    ensures t.to - t.from == 0x8000_0000
    ensures t.words == [0, 7]
  {
    schedule := TornRead(0x8000_0000, budget);
    t := Snapshot(0, [0, 7], 0, 0x8000_0000);
  }
}
