// The settings store over whole runs: after any stages, clears and commits, a
// successful commit and a normal boot agree with memory, in range.
module ConfigRuns {
  import opened Buffers
  import opened ConfigStore

  datatype Op = Staged(id: nat, value: string) | Cleared(id: nat) | Committed(nvs: Nvs)

  predicate OpOk(op: Op) {
    op.Staged? ==> CString(op.value)
  }

  predicate OpsOk(ops: seq<Op>) {
    forall i :: 0 <= i < |ops| ==> OpOk(ops[i])
  }

  predicate FlashOk(flash: Flash) {
    forall k :: k in flash && flash[k].StrEntry? ==> CString(flash[k].s)
  }

  function Step(fields: seq<Field>, st: Store, op: Op): (r: Store)
    requires Shape(fields, st) && |fields| > UI_LOCK
    ensures Shape(fields, r)
  {
    match op
    case Staged(id, value) => Stage(fields, st, id, value).0
    case Cleared(id) => Clear(fields, st, id).0
    case Committed(nvs) => Commit(fields, st, nvs).0
  }

  function After(fields: seq<Field>, st: Store, ops: seq<Op>): (r: Store)
    requires Shape(fields, st) && |fields| > UI_LOCK
    ensures Shape(fields, r)
    decreases |ops|
  {
    if ops == [] then st else Step(fields, After(fields, st, ops[..|ops| - 1]), ops[|ops| - 1])
  }

  // ---- Invariant ----

  /** Field i is in range, and matches flash unless it is staged or unpinned. */
  predicate FieldInv(f: Field, v: Val, fdirty: bool, stored: bool, flash: Flash) {
    InRange(f, v) && (!fdirty && stored ==> LoadOf(f, flash) == v)
  }

  ghost predicate Inv(fields: seq<Field>, st: Store) {
    && Shape(fields, st)
    && (forall i :: 0 <= i < |fields| ==> FieldInv(fields[i], st.vals[i], st.fdirty[i], st.stored[i], st.flash))
    && (!st.dirty ==> forall i :: 0 <= i < |fields| ==> !st.fdirty[i])
  }

  lemma LoadInRange(f: Field, flash: Flash)
    requires FlashOk(flash) && (f.Numeric? ==> f.imin <= f.idef <= f.imax) && (f.Text? ==> CString(f.sdef))
    ensures InRange(f, LoadOf(f, flash)) && InRange(f, Default(f))
  {
  }

  lemma BootInv(fields: seq<Field>, flash: Flash, readable: bool)
    requires TableOk(fields) && FlashOk(flash)
    ensures Inv(fields, Boot(fields, flash, readable))
  {
    forall i | 0 <= i < |fields| ensures InRange(fields[i], LoadOf(fields[i], flash)) && InRange(fields[i], Default(fields[i])) {
      LoadInRange(fields[i], flash);
    }
    hide InRange, LoadOf, Default, Present;
  }

  lemma SetKeeps(fields: seq<Field>, st: Store, id: nat, v: Val)
    requires Inv(fields, st) && id < |fields| && InRange(fields[id], v)
    ensures Inv(fields, SetVal(st, id, v))
  {
    hide InRange, LoadOf;
  }

  lemma StageKeeps(fields: seq<Field>, st: Store, id: nat, value: string)
    requires TableOk(fields) && Shape(fields, st) && Inv(fields, st) && CString(value)
    ensures Inv(fields, Stage(fields, st, id, value).0)
  {
    hide SetVal, ValidIpv4, ParseLong, Inv;
    if id < |fields| {
      FieldOf(fields, st, id);
      if Stage(fields, st, id, value).0 != st {
        var v := if fields[id].Text? then Val(st.vals[id].i, value) else Val(ParseLong(value).value, st.vals[id].s);
        SetKeeps(fields, st, id, v);
      }
    }
  }

  lemma FieldOf(fields: seq<Field>, st: Store, i: nat)
    requires Shape(fields, st) && Inv(fields, st) && i < |fields|
    ensures InRange(fields[i], st.vals[i])
  {
  }

  lemma ClearKeeps(fields: seq<Field>, st: Store, id: nat)
    requires Shape(fields, st) && Inv(fields, st)
    ensures Inv(fields, Clear(fields, st, id).0)
  {
    hide SetVal, Inv;
    if id < |fields| && fields[id].Text? {
      FieldOf(fields, st, id);
      SetKeeps(fields, st, id, Val(st.vals[id].i, ""));
    }
  }

  /** A value in range reads back as written. */
  lemma WriteReads(f: Field, v: Val, flash: Flash)
    requires InRange(f, v)
    ensures LoadOf(f, flash[f.key := EntryOf(f, v)]) == v
  {
  }

  /** Writing one key leaves what the others load. */
  lemma OtherKeysLoad(f: Field, g: Field, e: Entry, flash: Flash)
    requires f.key != g.key
    ensures LoadOf(f, flash[g.key := e]) == LoadOf(f, flash)
  {
  }

  lemma WrittenKeeps(fields: seq<Field>, st: Store, i: nat)
    requires TableOk(fields) && Inv(fields, st) && i < |fields|
    ensures Inv(fields, Written(fields, st, i)) && LoadOf(fields[i], Written(fields, st, i).flash) == st.vals[i]
    ensures forall k :: 0 <= k < |fields| && k != i ==> LoadOf(fields[k], Written(fields, st, i).flash) == LoadOf(fields[k], st.flash)
  {
    hide LoadOf, EntryOf, InRange;
    FieldOf(fields, st, i);
    WriteReads(fields[i], st.vals[i], st.flash);
    forall k | 0 <= k < |fields| && k != i ensures LoadOf(fields[k], Written(fields, st, i).flash) == LoadOf(fields[k], st.flash) {
      OtherKeysLoad(fields[k], fields[i], EntryOf(fields[i], st.vals[i]), st.flash);
    }
  }

  /** The write loop: every field from i on that it reaches is stored and equals flash. */
  lemma {:induction false} WriteKeeps(fields: seq<Field>, st: Store, i: nat, sets: nat)
    requires TableOk(fields) && Inv(fields, st) && i <= |fields|
    requires forall k :: 0 <= k < i ==> st.stored[k] && LoadOf(fields[k], st.flash) == st.vals[k]
    ensures var (w, ok) := WriteFrom(fields, st, i, sets);
            Inv(fields, w) && (ok ==> forall k :: 0 <= k < |fields| ==> w.stored[k] && LoadOf(fields[k], w.flash) == w.vals[k])
    decreases |fields| - i
  {
    hide LoadOf, EntryOf, InRange;
    if i < |fields| {
      if !st.fdirty[i] && st.stored[i] {
        WriteKeeps(fields, st, i + 1, sets);
      } else if sets > 0 {
        WrittenKeeps(fields, st, i);
        WriteKeeps(fields, Written(fields, st, i), i + 1, sets - 1);
      }
    }
  }

  /** Every commit keeps the invariant; a successful one leaves a normal boot that
      loads exactly the values in memory, which it did not change. */
  lemma CommitKeeps(fields: seq<Field>, st: Store, nvs: Nvs)
    requires TableOk(fields) && Inv(fields, st)
    ensures var (w, ok) := Commit(fields, st, nvs);
            && Inv(fields, w) && w.vals == st.vals
            && (ok ==> Boot(fields, w.flash, true).vals == w.vals && !w.dirty && AllStored(w))
  {
    hide LoadOf, InRange, WriteFrom, Present;
    WriteKeeps(fields, st, 0, nvs.sets);
    var (w, ok) := Commit(fields, st, nvs);
    if ok {
      assert Boot(fields, w.flash, true).vals == w.vals;
    }
  }

  lemma {:induction false} RunInv(fields: seq<Field>, st: Store, ops: seq<Op>)
    requires TableOk(fields) && Shape(fields, st) && Inv(fields, st) && OpsOk(ops)
    ensures Inv(fields, After(fields, st, ops))
    decreases |ops|
  {
    hide Inv, Stage, Clear, Commit;
    if ops != [] {
      var before := After(fields, st, ops[..|ops| - 1]);
      RunInv(fields, st, ops[..|ops| - 1]);
      match ops[|ops| - 1]
      case Staged(id, value) => StageKeeps(fields, before, id, value);
      case Cleared(id) => ClearKeeps(fields, before, id);
      case Committed(nvs) => CommitKeeps(fields, before, nvs);
    }
  }

  /** Whatever flash held, out-of-range and oversized values included, in normal
      or safe mode: after any stages, clears and commits, every numeric setting is
      in its range and every string shorter than 64; and after a successful commit
      a fresh normal boot loads exactly the settings in memory. */
  lemma {:induction false} CommitReloadAgree(fields: seq<Field>, flash: Flash, readable: bool, ops: seq<Op>, nvs: Nvs)
    requires TableOk(fields) && FlashOk(flash) && OpsOk(ops)
    ensures var st := After(fields, Boot(fields, flash, readable), ops);
            && (forall i :: 0 <= i < |fields| ==> InRange(fields[i], st.vals[i]))
            && var (w, ok) := Commit(fields, st, nvs);
               w.vals == st.vals && (ok ==> Boot(fields, w.flash, true).vals == st.vals)
  {
    hide InRange, Boot, After, Commit;
    BootInv(fields, flash, readable);
    RunInv(fields, Boot(fields, flash, readable), ops);
    CommitKeeps(fields, After(fields, Boot(fields, flash, readable), ops), nvs);
  }

  // ---- What one stage does ----

  /** An accepted value is visible at once, except that a blank password means no
      change; a refused one changes nothing. */
  lemma StageVisible(fields: seq<Field>, st: Store, id: nat, value: string)
    requires TableOk(fields) && Shape(fields, st) && Inv(fields, st) && CString(value)
    ensures var (w, ok) := Stage(fields, st, id, value);
            && (!ok ==> w == st)
            && (ok ==> id < |fields|)
            && (ok && fields[id].Numeric? ==> ParseLong(value).Some? && w.vals[id] == Val(ParseLong(value).value, ""))
            && (ok && fields[id].Text? ==>
                  w.vals[id] == if fields[id].secret && value == "" then st.vals[id] else Val(0, value))
            && (forall k :: 0 <= k < |fields| && k != id ==> w.vals[k] == st.vals[k]) && w.flash == st.flash
  {
    hide ParseLong, ValidIpv4, Inv;
    if id < |fields| { FieldOf(fields, st, id); }
  }

  /** Exactly what a stage refuses: an unknown field; the lock, for a value that
      starts with the digit one, while no password is set; a text of 64 characters
      or more, or one that is no dotted address where an address belongs; and a
      number that does not read to the end or is out of range. */
  lemma StageRefuses(fields: seq<Field>, st: Store, id: nat, value: string)
    requires TableOk(fields) && Shape(fields, st)
    ensures Stage(fields, st, id, value).1 <==>
            && id < |fields|
            && !(id == 11 && value != "" && value[0] == '1' && st.vals[10].s == "")
            && (fields[id].Text? ==> |value| < 64 && (2 <= id <= 4 ==> ValidIpv4(value)))
            && (fields[id].Numeric? ==> ParseLong(value).Some? && fields[id].imin <= ParseLong(value).value <= fields[id].imax)
  {
    hide ParseLong, ValidIpv4, SetVal;
  }

  /** Exactly what a clear refuses, and that it empties the text. */
  lemma ClearEmpties(fields: seq<Field>, st: Store, id: nat)
    requires Shape(fields, st)
    ensures var (w, ok) := Clear(fields, st, id);
            && (ok <==> id < |fields| && fields[id].Text?)
            && (!ok ==> w == st)
            && (ok ==> w.vals[id].s == "")
            && (forall k :: 0 <= k < |fields| && k != id ==> w.vals[k] == st.vals[k]) && w.flash == st.flash
  {
  }

  /** What a boot gives every field: what flash holds under its key if flash is
      read at all, the type agrees and it is a text of at most 63 characters or a
      number in range; otherwise its default, a text cut to 63 characters.  An out
      of range number still counts as stored. */
  lemma BootLoads(fields: seq<Field>, flash: Flash, readable: bool, i: nat)
    requires i < |fields|
    ensures var st, f := Boot(fields, flash, readable), fields[i];
            var has := readable && f.key in flash;
            && !st.dirty && !st.fdirty[i] && st.flash == flash
            && (st.stored[i] <==>
                  has && if f.Text? then flash[f.key].StrEntry? && |flash[f.key].s| <= 63 else flash[f.key].IntEntry?)
            && (f.Text? ==>
                  st.vals[i].s == if st.stored[i] then flash[f.key].s else if |f.sdef| <= 63 then f.sdef else f.sdef[..63])
            && (f.Numeric? ==>
                  st.vals[i].i == if st.stored[i] && f.imin <= flash[f.key].v <= f.imax then flash[f.key].v else f.idef)
  {
  }

  /** How many fields from i on a commit has to write: those staged or never stored. */
  function ToWrite(st: Store, i: nat): nat
    requires |st.fdirty| == |st.stored| && i <= |st.stored|
    decreases |st.stored| - i
  {
    if i == |st.stored| then 0
    else (if st.fdirty[i] || !st.stored[i] then 1 else 0) + ToWrite(st, i + 1)
  }

  lemma {:induction false} WriteSucceeds(fields: seq<Field>, st: Store, i: nat, sets: nat)
    requires Shape(fields, st) && i <= |fields|
    ensures WriteFrom(fields, st, i, sets).1 <==> ToWrite(st, i) <= sets
    decreases |fields| - i
  {
    hide EntryOf;
    if i < |fields| {
      if !st.fdirty[i] && st.stored[i] {
        WriteSucceeds(fields, st, i + 1, sets);
      } else if sets > 0 {
        WriteSucceeds(fields, Written(fields, st, i), i + 1, sets - 1);
        SameToWrite(st, Written(fields, st, i), i + 1);
      }
    }
  }

  lemma {:induction false} SameToWrite(a: Store, b: Store, i: nat)
    requires |a.fdirty| == |a.stored| == |b.fdirty| == |b.stored| && i <= |a.stored|
    requires forall k :: i <= k < |a.stored| ==> a.fdirty[k] == b.fdirty[k] && a.stored[k] == b.stored[k]
    ensures ToWrite(a, i) == ToWrite(b, i)
    decreases |a.stored| - i
  {
    if i < |a.stored| { SameToWrite(a, b, i + 1); }
  }

  /** A commit succeeds exactly when nothing is to be done, or flash opens, takes
      every field that is staged or was never stored, and commits; one that fails
      keeps every mark, so that the next one writes what is missing. */
  lemma CommitSucceeds(fields: seq<Field>, st: Store, nvs: Nvs)
    requires Shape(fields, st)
    ensures var (w, ok) := Commit(fields, st, nvs);
            && (ok <==> (!st.dirty && AllStored(st)) || (nvs.opens && nvs.commits && ToWrite(st, 0) <= nvs.sets))
            && (!ok ==> w.vals == st.vals && w.fdirty == st.fdirty && w.dirty == st.dirty)
  {
    hide WriteFrom, ToWrite, AllStored;
    WriteSucceeds(fields, st, 0, nvs.sets);
  }

  /** After a successful commit, committing again succeeds without opening flash. */
  lemma CommitSettles(fields: seq<Field>, st: Store, first: Nvs, second: Nvs)
    requires TableOk(fields) && Inv(fields, st) && Commit(fields, st, first).1
    ensures Commit(fields, Commit(fields, st, first).0, second) == Commit(fields, st, first)
  {
    hide LoadOf, InRange, WriteFrom, Present, Inv;
    CommitKeeps(fields, st, first);
  }

  /** Without a password the lock is refused by the first character of the value,
      not by the number it spells: it is taken exactly for the spellings of one
      that start otherwise, with a sign, a blank or a zero. */
  lemma LockWithoutPassword(fields: seq<Field>, st: Store, value: string)
    requires TableOk(fields) && Shape(fields, st) && st.vals[UI_PASS].s == ""
    requires fields[UI_LOCK].imin == 0 && fields[UI_LOCK].imax == 1 && st.vals[UI_LOCK].i == 0
    ensures Stage(fields, st, UI_LOCK, value).0.vals[UI_LOCK].i == 1 <==>
            ParseLong(value) == Some(1) && (value == "" || value[0] != '1')
  {
    hide ParseLong;
  }

  lemma PlusOneLocks()
    ensures ParseLong("+1") == Some(1) && ParseLong("01") == Some(1)
  {
    assert "+1"[1..] == "1" && "1"[..0] == "" && "01"[..1] == "0" && "0"[..0] == "";
    assert DigitsValue("") == 0 && DigitsValue("0") == 0 && DigitsValue("1") == 1 && DigitsValue("01") == 1;
  }
}
