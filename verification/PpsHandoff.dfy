// The last pulse as the discipline task stores it and the NTP task reads it, on
// two cores and without a sequence word: second, fraction, then the two words of
// the monotonic time, against a reader that takes the monotonic time first.
// Every store and load is one atomic step and a schedule interleaves them freely.
module PpsHandoff {
  import MachineInts
  import opened NtpTimestamp

  /** Memory cells in the order they are stored: second, fraction, and the two
      words of the monotonic time. */
  const CELLS := 4

  /** The reader's order: both words of the monotonic time, second, fraction. */
  const ORDER: seq<nat> := [2, 3, 0, 1]

  datatype Actor = Store | Load

  /** `stored` counts the stores so far; load j saw `at[j]` of them. */
  datatype System = System(memory: seq<int>, stored: nat, got: seq<int>, at: seq<nat>)

  /** The pulses in the order they are accepted, the initial zeros first; four words each. */
  predicate PulsesOk(pulses: seq<seq<int>>) {
    pulses != [] && forall k :: 0 <= k < |pulses| ==> |pulses[k]| == CELLS
  }

  function Boot(pulses: seq<seq<int>>): System
    requires PulsesOk(pulses)
  {
    System(pulses[0], 0, [], [])
  }

  function Step(s: System, a: Actor, pulses: seq<seq<int>>): (r: System)
    requires PulsesOk(pulses) && |s.memory| == CELLS
    ensures |r.memory| == CELLS
  {
    match a
    case Store =>
      var k, c := s.stored / CELLS + 1, s.stored % CELLS;
      if k < |pulses| then s.(memory := s.memory[c := pulses[k][c]], stored := s.stored + 1) else s
    case Load =>
      if |s.got| < |ORDER| then s.(got := s.got + [s.memory[ORDER[|s.got|]]], at := s.at + [s.stored]) else s
  }

  function Run(pulses: seq<seq<int>>, schedule: seq<Actor>): (r: System)
    requires PulsesOk(pulses)
    ensures |r.memory| == CELLS
    decreases |schedule|
  {
    if schedule == [] then Boot(pulses)
    else Step(Run(pulses, schedule[..|schedule| - 1]), schedule[|schedule| - 1], pulses)
  }

  /** The pulse whose word is in cell c after n stores. */
  function Age(n: nat, c: nat): nat
    requires c < CELLS
  {
    (n + 3 - c) / 4
  }

  lemma AgeStep(n: nat, c: nat)
    requires c < CELLS
    ensures Age(n + 1, c) == if n % 4 == c then n / 4 + 1 else Age(n, c)
    ensures Age(n, c) <= (n + 3) / 4
  {
  }

  predicate MemoryInv(s: System, pulses: seq<seq<int>>)
    requires PulsesOk(pulses)
  {
    && |s.memory| == CELLS && s.stored <= 4 * (|pulses| - 1)
    && forall c :: 0 <= c < CELLS ==> s.memory[c] == pulses[Age(s.stored, c)][c]
  }

  predicate LoadsInv(s: System, pulses: seq<seq<int>>)
    requires PulsesOk(pulses)
  {
    && |s.got| == |s.at| <= |ORDER|
    && (forall j :: 0 <= j < |s.at| ==>
          s.at[j] <= s.stored <= 4 * (|pulses| - 1) && s.got[j] == pulses[Age(s.at[j], ORDER[j])][ORDER[j]])
    && forall i, j :: 0 <= i <= j < |s.at| ==> s.at[i] <= s.at[j]
  }

  lemma StoreKeeps(s: System, pulses: seq<seq<int>>)
    requires PulsesOk(pulses) && MemoryInv(s, pulses) && LoadsInv(s, pulses)
    ensures MemoryInv(Step(s, Store, pulses), pulses) && LoadsInv(Step(s, Store, pulses), pulses)
  {
    hide Age;
    var n := s.stored;
    if n / CELLS + 1 < |pulses| {
      var r := Step(s, Store, pulses);
      AgesBounded(n + 1);
      forall c | 0 <= c < CELLS ensures r.memory[c] == pulses[Age(n + 1, c)][c] {
        AgeStep(n, c);
      }
    }
  }

  lemma LoadKeeps(s: System, pulses: seq<seq<int>>)
    requires PulsesOk(pulses) && MemoryInv(s, pulses) && LoadsInv(s, pulses)
    ensures MemoryInv(Step(s, Load, pulses), pulses) && LoadsInv(Step(s, Load, pulses), pulses)
  {
    hide Age;
    AgesBounded(s.stored);
  }

  lemma AgesBounded(n: nat)
    ensures forall c :: 0 <= c < CELLS ==> Age(n, c) <= (n + 3) / 4
  {
  }

  lemma {:induction false} RunInv(pulses: seq<seq<int>>, schedule: seq<Actor>)
    requires PulsesOk(pulses)
    ensures MemoryInv(Run(pulses, schedule), pulses) && LoadsInv(Run(pulses, schedule), pulses)
    decreases |schedule|
  {
    hide Age, Step, LoadsInv, MemoryInv;
    if schedule == [] {
      BootInv(pulses);
    } else {
      var s := Run(pulses, schedule[..|schedule| - 1]);
      RunInv(pulses, schedule[..|schedule| - 1]);
      match schedule[|schedule| - 1]
      case Store => StoreKeeps(s, pulses);
      case Load => LoadKeeps(s, pulses);
    }
  }

  lemma BootInv(pulses: seq<seq<int>>)
    requires PulsesOk(pulses)
    ensures MemoryInv(Boot(pulses), pulses) && LoadsInv(Boot(pulses), pulses)
  {
    hide Age;
    forall c | 0 <= c < CELLS ensures Age(0, c) == 0 { NothingStored(c); }
  }

  lemma NothingStored(c: nat)
    requires c < CELLS
    ensures Age(0, c) == 0
  {
  }

  // ---- What a read returns ----

  /** Under every interleaving each word read is that of the pulse of its own age,
      and the read is of one pulse, number k, if and only if: the second word of
      the monotonic time and the second were loaded between pulses, after all
      stores of pulse k and before any of the next; the first word was loaded
      after its own store; and at most the next second was stored when the
      fraction was loaded. */
  lemma WholeRead(pulses: seq<seq<int>>, schedule: seq<Actor>, k: nat)
    requires PulsesOk(pulses) && |Run(pulses, schedule).got| == |ORDER|
    ensures var s := Run(pulses, schedule);
            && |s.at| == |ORDER| && s.at[0] <= s.at[1] <= s.at[2] <= s.at[3] <= 4 * (|pulses| - 1)
            && (forall j :: 0 <= j < |ORDER| ==> s.got[j] == pulses[Age(s.at[j], ORDER[j])][ORDER[j]])
            && ((forall j :: 0 <= j < |ORDER| ==> Age(s.at[j], ORDER[j]) == k) <==>
                  s.at[1] == s.at[2] == 4 * k && s.at[0] >= 4 * k - 1 && s.at[3] <= 4 * k + 1)
  {
    RunInv(pulses, schedule);
    var s := Run(pulses, schedule);
    hide Run;
    assert s.at[0] <= s.at[1] && s.at[1] <= s.at[2] && s.at[2] <= s.at[3];
    WholeAges(s.at[0], s.at[1], s.at[2], s.at[3], k);
    assert (forall j :: 0 <= j < |ORDER| ==> Age(s.at[j], ORDER[j]) == k) <==>
           Age(s.at[0], 2) == Age(s.at[1], 3) == Age(s.at[2], 0) == Age(s.at[3], 1) == k by {
      if Age(s.at[0], 2) == Age(s.at[1], 3) == Age(s.at[2], 0) == Age(s.at[3], 1) == k {
        forall j | 0 <= j < |ORDER| ensures Age(s.at[j], ORDER[j]) == k {
          assert j == 0 || j == 1 || j == 2 || j == 3;
        }
      }
      if forall j :: 0 <= j < |ORDER| ==> Age(s.at[j], ORDER[j]) == k {
        assert ORDER[0] == 2 && ORDER[1] == 3 && ORDER[2] == 0 && ORDER[3] == 1;
        assert Age(s.at[0], ORDER[0]) == k && Age(s.at[1], ORDER[1]) == k;
        assert Age(s.at[2], ORDER[2]) == k && Age(s.at[3], ORDER[3]) == k;
      }
    }
  }

  lemma WholeAges(a: nat, b: nat, c: nat, d: nat, k: nat)
    requires a <= b <= c <= d
    ensures Age(a, 2) == Age(b, 3) == Age(c, 0) == Age(d, 1) == k <==> b == c == 4 * k && a >= 4 * k - 1 && d <= 4 * k + 1
  {
  }

  /** The second is never of an older pulse than the monotonic time; during the
      stores of one pulse it is that pulse's or the one before, and it is the
      newer one exactly when the second was stored before it was loaded and the
      monotonic time was loaded before it was stored. */
  lemma TornByOnePulse(mono: nat, sec: nat, k: nat)
    requires 4 * k <= mono <= sec <= 4 * k + 4
    ensures Age(mono, 3) <= Age(sec, 0) && k <= Age(mono, 3) && Age(sec, 0) <= k + 1
    ensures Age(mono, 3) != Age(sec, 0) <==> mono < 4 * k + 4 && sec > 4 * k
  {
  }

  // ---- What a torn read serves ----

  /** The monotonic time of one pulse taken with the second of another serves a
      time that is off by exactly the difference of the two seconds. */
  lemma TornServedTime(monoUs: nat, us: nat, own: MachineInts.U32, other: MachineInts.U32, ppm: real)
    requires SaneRate(ppm) && CorrectedDelta(RawDelta(monoUs, Pulse(us, own)), ppm) < 0x1_0000_0000_0000_0000
    ensures Elapsed(ComputeNtpTimestamp(monoUs, Pulse(us, other), ppm), ComputeNtpTimestamp(monoUs, Pulse(us, own), ppm))
         == (other - own) * 0x1_0000_0000 % 0x1_0000_0000_0000_0000
  {
    hide CorrectedDelta, ComputeNtpTimestamp, Units;
    assert RawDelta(monoUs, Pulse(us, own)) == RawDelta(monoUs, Pulse(us, other));
    ComputedUnits(monoUs, Pulse(us, own), ppm);
    ComputedUnits(monoUs, Pulse(us, other), ppm);
    SecondsApart(own, other, CorrectedDelta(RawDelta(monoUs, Pulse(us, own)), ppm) * 0x1_0000_0000 / 1_000_000);
  }

  lemma SecondsApart(own: MachineInts.U32, other: MachineInts.U32, d: int)
    ensures ((other * 0x1_0000_0000 + d) % 0x1_0000_0000_0000_0000 - (own * 0x1_0000_0000 + d) % 0x1_0000_0000_0000_0000)
            % 0x1_0000_0000_0000_0000 == (other - own) * 0x1_0000_0000 % 0x1_0000_0000_0000_0000
  {
    EraDifference(other * 0x1_0000_0000 + d, own * 0x1_0000_0000 + d);
  }

  /** Such a read does happen: the reader takes the monotonic time of pulse 1, the
      writer stores the second of pulse 2, the reader takes that second.  A reply
      is then served one whole second ahead. */
  lemma TornReadExists(one: seq<int>, two: seq<int>)
    requires |one| == |two| == CELLS
    ensures var pulses := [[0, 0, 0, 0], one, two];
            var schedule := [Store, Store, Store, Store] + [Load, Load] + [Store] + [Load, Load];
            PulsesOk(pulses) && Run(pulses, schedule).got == [one[2], one[3], two[0], one[1]]
  {
    hide Run, Age, MemoryInv;
    var pulses := [[0, 0, 0, 0], one, two];
    var s1 := [Store, Store, Store, Store];
    assert Repeat(4) == s1 && Repeat(1) == [Store] && [] + s1 == s1;
    NothingRan(pulses);
    Stores(pulses, [], 4);
    Loads(pulses, s1);
    Stores(pulses, s1 + [Load, Load], 1);
    Loads(pulses, s1 + [Load, Load] + [Store]);
    var s := Run(pulses, s1 + [Load, Load] + [Store] + [Load, Load]);
    assert s.at == [4, 4, 5, 5];
    RunInv(pulses, s1 + [Load, Load] + [Store] + [Load, Load]);
    TornAges();
    assert s.got == [s.got[0], s.got[1], s.got[2], s.got[3]];
  }

  lemma NothingRan(pulses: seq<seq<int>>)
    requires PulsesOk(pulses)
    ensures Run(pulses, []) == Boot(pulses)
  {
  }

  lemma TornAges()
    ensures Age(4, 2) == 1 && Age(4, 3) == 1 && Age(5, 0) == 2 && Age(5, 1) == 1
  {
  }

  function Repeat(n: nat): (r: seq<Actor>)
    ensures |r| == n && forall i :: 0 <= i < n ==> r[i] == Store
  {
    if n == 0 then [] else Repeat(n - 1) + [Store]
  }

  lemma {:induction false} Stores(pulses: seq<seq<int>>, schedule: seq<Actor>, n: nat)
    requires PulsesOk(pulses) && Run(pulses, schedule).stored + n <= 4 * (|pulses| - 1)
    ensures var s, r := Run(pulses, schedule), Run(pulses, schedule + Repeat(n));
            r.stored == s.stored + n && r.at == s.at && r.got == s.got
    decreases n
  {
    hide Run;
    if n == 0 {
      assert schedule + [] == schedule;
    } else {
      Stores(pulses, schedule, n - 1);
      OneMore(pulses, schedule + Repeat(n - 1), Store);
      assert schedule + Repeat(n - 1) + [Store] == schedule + Repeat(n);
    }
  }

  lemma Loads(pulses: seq<seq<int>>, schedule: seq<Actor>)
    requires PulsesOk(pulses) && |Run(pulses, schedule).got| == |Run(pulses, schedule).at| <= 2
    ensures var s, r := Run(pulses, schedule), Run(pulses, schedule + [Load, Load]);
            r.stored == s.stored && r.at == s.at + [s.stored, s.stored] && |r.got| == |s.got| + 2
  {
    hide Run;
    OneMore(pulses, schedule, Load);
    OneMore(pulses, schedule + [Load], Load);
    assert schedule + [Load] + [Load] == schedule + [Load, Load];
    var s := Run(pulses, schedule);
    assert s.at + [s.stored] + [s.stored] == s.at + [s.stored, s.stored];
  }

  lemma OneMore(pulses: seq<seq<int>>, schedule: seq<Actor>, a: Actor)
    requires PulsesOk(pulses)
    ensures Run(pulses, schedule + [a]) == Step(Run(pulses, schedule), a, pulses)
  {
    hide Step;
    assert (schedule + [a])[..|schedule|] == schedule;
  }
}
