// The settings store: in-memory values over a flash key/value map, staged and
// cleared one at a time, committed to flash in one pass, reloaded at boot.
module ConfigStore {
  import opened Buffers

  const STR_MAX := 64
  const NET_IP := 2
  const NET_GW := 3
  const NET_MASK := 4
  const UI_PASS := 10
  const UI_LOCK := 11

  /** A field of the table: numeric with its range, or text. */
  datatype Field =
    | Numeric(key: string, imin: int, imax: int, idef: int)
    | Text(key: string, sdef: string, secret: bool)

  datatype Entry = IntEntry(v: int) | StrEntry(s: string)

  type Flash = map<string, Entry>

  datatype Val = Val(i: int, s: string)

  predicate CString(s: string) {
    forall k :: 0 <= k < |s| ==> s[k] != '\0'
  }

  /** What the field table guarantees: distinct keys, defaults in range, and the
      lock and password where the code expects them. */
  ghost predicate TableOk(fields: seq<Field>) {
    && |fields| > UI_LOCK
    && (forall i, j :: 0 <= i < j < |fields| ==> fields[i].key != fields[j].key)
    && (forall i :: 0 <= i < |fields| ==> fields[i].Numeric? ==> fields[i].imin <= fields[i].idef <= fields[i].imax)
    && (forall i :: 0 <= i < |fields| ==> fields[i].Text? ==> CString(fields[i].sdef))
    && fields[UI_PASS].Text? && fields[UI_PASS].secret && fields[UI_LOCK].Numeric?
    && fields[NET_IP].Text? && fields[NET_GW].Text? && fields[NET_MASK].Text?
  }

  // ---- Loading ----

  /** snprintf into the 64-byte value: at most 63 characters. */
  function Truncated(s: string): (t: string)
    ensures |t| < STR_MAX && t <= s
  {
    if |s| < STR_MAX then s else s[..STR_MAX - 1]
  }

  function Default(f: Field): Val {
    if f.Text? then Val(0, Truncated(f.sdef)) else Val(f.idef, "")
  }

  /** The key reads back as the field's type; longer strings do not. */
  predicate Present(f: Field, flash: Flash) {
    && f.key in flash
    && if f.Text? then flash[f.key].StrEntry? && |flash[f.key].s| < STR_MAX else flash[f.key].IntEntry?
  }

  /** The value a normal-mode boot gives a field. */
  function LoadOf(f: Field, flash: Flash): Val {
    if !Present(f, flash) then Default(f)
    else if f.Text? then Val(0, flash[f.key].s)
    else if f.imin <= flash[f.key].v <= f.imax then Val(flash[f.key].v, "")
    else Default(f)
  }

  function EntryOf(f: Field, v: Val): Entry {
    if f.Text? then StrEntry(v.s) else IntEntry(v.i)
  }

  /** A value the field may hold. */
  predicate InRange(f: Field, v: Val) {
    if f.Text? then v.i == 0 && |v.s| < STR_MAX && CString(v.s) else f.imin <= v.i <= f.imax && v.s == ""
  }

  // ---- The store as a value ----

  datatype Store = Store(vals: seq<Val>, fdirty: seq<bool>, stored: seq<bool>, dirty: bool, flash: Flash)

  predicate Shape(fields: seq<Field>, st: Store) {
    |st.vals| == |st.fdirty| == |st.stored| == |fields|
  }

  /** cfg_init on freshly zeroed statics: `readable` is normal mode with a
      namespace that opens. */
  function Boot(fields: seq<Field>, flash: Flash, readable: bool): (st: Store)
    ensures Shape(fields, st)
  {
    Store(
      seq(|fields|, i requires 0 <= i < |fields| => if readable then LoadOf(fields[i], flash) else Default(fields[i])),
      seq(|fields|, _ => false),
      seq(|fields|, i requires 0 <= i < |fields| => readable && Present(fields[i], flash)),
      false, flash)
  }

  // ---- Staging ----

  predicate IsDigit(c: char) {
    '0' <= c <= '9'
  }

  predicate IsSpace(c: char) {
    c == ' ' || ('\t' <= c <= '\r')
  }

  function DigitsValue(s: string): (n: nat)
    requires forall k :: 0 <= k < |s| ==> IsDigit(s[k])
  {
    if s == "" then 0
    else
      assert IsDigit(s[|s| - 1]);
      DigitsValue(s[..|s| - 1]) * 10 + (s[|s| - 1] as int - '0' as int)
  }

  /** strtol over the whole string: blanks, a sign, then digits to the end. */
  function ParseLong(s: string): Option<int>
    decreases |s|
  {
    if s == "" then None
    else if IsSpace(s[0]) then ParseLong(s[1..])
    else if s[0] == '-' then ParseDigits(-1, s[1..])
    else if s[0] == '+' then ParseDigits(1, s[1..])
    else ParseDigits(1, s)
  }

  function ParseDigits(sign: int, digits: string): Option<int> {
    if digits == "" || exists k :: 0 <= k < |digits| && !IsDigit(digits[k]) then None
    else Some(sign * DigitsValue(digits))
  }

  /** The dotted groups of s, each of one to three digits and at most 255. */
  function Groups(s: string): Option<nat>
    decreases |s|
  {
    if s == "" then Some(0)
    else
      var n := Run(s);
      if n == 0 || n > 3 || DigitsValue(s[..n]) > 255 then None
      else if n == |s| then Some(1)
      else if s[n] != '.' || n + 1 == |s| then None
      else match Groups(s[n + 1..])
        case None => None
        case Some(k) => Some(k + 1)
  }

  /** How many digits s starts with. */
  function Run(s: string): (n: nat)
    ensures n <= |s| && forall k :: 0 <= k < n ==> IsDigit(s[k])
    ensures n < |s| ==> !IsDigit(s[n])
  {
    if s == "" || !IsDigit(s[0]) then 0 else 1 + Run(s[1..])
  }

  predicate ValidIpv4(s: string) {
    Groups(s) == Some(4)
  }

  function SetVal(st: Store, id: nat, v: Val): Store
    requires id < |st.vals| == |st.fdirty|
  {
    if st.vals[id] == v then st
    else st.(vals := st.vals[id := v], fdirty := st.fdirty[id := true], dirty := true)
  }

  /** cfg_stage: the new state and whether the value was taken. */
  function Stage(fields: seq<Field>, st: Store, id: nat, value: string): (r: (Store, bool))
    requires Shape(fields, st) && |fields| > UI_LOCK
    ensures Shape(fields, r.0)
  {
    if id >= |fields| then (st, false)
    else if id == UI_LOCK && value != "" && value[0] == '1' && st.vals[UI_PASS].s == "" then (st, false)
    else
      match fields[id]
      case Text(_, _, secret) =>
        if |value| >= STR_MAX then (st, false)
        else if (id == NET_IP || id == NET_GW || id == NET_MASK) && !ValidIpv4(value) then (st, false)
        else if secret && value == "" then (st, true)
        else (SetVal(st, id, Val(st.vals[id].i, value)), true)
      case Numeric(_, imin, imax, _) =>
        match ParseLong(value)
        case None => (st, false)
        case Some(v) => if v < imin || v > imax then (st, false) else (SetVal(st, id, Val(v, st.vals[id].s)), true)
  }

  function Clear(fields: seq<Field>, st: Store, id: nat): (r: (Store, bool))
    requires Shape(fields, st)
    ensures Shape(fields, r.0)
  {
    if id >= |fields| || !fields[id].Text? then (st, false)
    else (SetVal(st, id, Val(st.vals[id].i, "")), true)
  }

  // ---- Committing ----

  /** How the flash behaves during one commit: whether it opens, how many sets
      succeed before one fails, and the final commit. */
  datatype Nvs = Nvs(opens: bool, sets: nat, commits: bool)

  predicate AllStored(st: Store) {
    forall i :: 0 <= i < |st.stored| ==> st.stored[i]
  }

  /** The write loop from field i on. */
  function WriteFrom(fields: seq<Field>, st: Store, i: nat, sets: nat): (r: (Store, bool))
    requires Shape(fields, st) && i <= |fields|
    ensures Shape(fields, r.0) && r.0.vals == st.vals && r.0.fdirty == st.fdirty && r.0.dirty == st.dirty
    decreases |fields| - i
  {
    if i == |fields| then (st, true)
    else if !st.fdirty[i] && st.stored[i] then WriteFrom(fields, st, i + 1, sets)
    else if sets == 0 then (st, false)
    else WriteFrom(fields, Written(fields, st, i), i + 1, sets - 1)
  }

  function Written(fields: seq<Field>, st: Store, i: nat): (r: Store)
    requires Shape(fields, st) && i < |fields|
    ensures Shape(fields, r)
  {
    st.(flash := st.flash[fields[i].key := EntryOf(fields[i], st.vals[i])], stored := st.stored[i := true])
  }

  function Cleaned(st: Store): Store {
    st.(fdirty := seq(|st.fdirty|, _ => false), dirty := false)
  }

  /** cfg_commit: the new state and whether it returned ESP_OK. */
  function Commit(fields: seq<Field>, st: Store, nvs: Nvs): (r: (Store, bool))
    requires Shape(fields, st)
    ensures Shape(fields, r.0)
  {
    if !st.dirty && AllStored(st) then (st, true)
    else if !nvs.opens then (st, false)
    else
      var (w, ok) := WriteFrom(fields, st, 0, nvs.sets);
      if ok && nvs.commits then (Cleaned(w), true) else (w, false)
  }

  // ---- The store itself ----

  class Config {
    const fields: seq<Field>
    const sVal: array<Val>
    const sFdirty: array<bool>
    const sStored: array<bool>
    var sDirty: bool
    var flash: Flash

    ghost predicate Valid() {
      && TableOk(fields)
      && sVal.Length == sFdirty.Length == sStored.Length == |fields|
      && sFdirty != sStored
    }

    ghost function View(): (st: Store)
      requires Valid()
      reads this, sVal, sFdirty, sStored
      ensures Shape(fields, st)
    {
      Store(sVal[..], sFdirty[..], sStored[..], sDirty, flash)
    }

    /** The zeroed statics, then cfg_init. */
    constructor (fields: seq<Field>, flash: Flash, safeMode: bool, opens: bool)
      requires TableOk(fields)
      ensures Valid() && this.fields == fields && View() == Boot(fields, flash, !safeMode && opens)
      ensures fresh(sVal) && fresh(sFdirty) && fresh(sStored)
    {
      this.fields, this.flash, sDirty := fields, flash, false;
      sVal := new Val[|fields|](i requires 0 <= i < |fields| => Default(fields[i]));
      sFdirty := new bool[|fields|](_ => false);
      sStored := new bool[|fields|](_ => false);
      new;
      if safeMode || !opens {
        assert sVal[..] == Boot(fields, flash, false).vals;
        assert sFdirty[..] == Boot(fields, flash, false).fdirty && sStored[..] == Boot(fields, flash, false).stored;
        return;
      }
      Load();
    }

    method Load()
      requires Valid() && !sDirty && (forall i :: 0 <= i < |fields| ==> sVal[i] == Default(fields[i]) && !sStored[i] && !sFdirty[i])
      modifies sVal, sStored
      ensures View() == Boot(fields, flash, true)
    {
      for i := 0 to |fields|
        invariant forall k :: 0 <= k < |fields| ==>
          sVal[k] == (if k < i then LoadOf(fields[k], flash) else Default(fields[k]))
          && sStored[k] == (k < i && Present(fields[k], flash)) && !sFdirty[k]
      {
        var f := fields[i];
        if f.Text? {
          if f.key in flash && flash[f.key].StrEntry? && |flash[f.key].s| < STR_MAX {
            sVal[i] := Val(sVal[i].i, flash[f.key].s);
            sStored[i] := true;
          }
        } else {
          if f.key in flash && flash[f.key].IntEntry? {
            var v := flash[f.key].v;
            if v >= f.imin && v <= f.imax { sVal[i] := Val(v, sVal[i].s); }
            sStored[i] := true;
          }
        }
      }
      assert sVal[..] == Boot(fields, flash, true).vals;
      assert sFdirty[..] == Boot(fields, flash, true).fdirty && sStored[..] == Boot(fields, flash, true).stored;
    }

    method Set(id: nat, v: Val)
      requires Valid() && id < |fields|
      modifies sVal, sFdirty, this`sDirty
      ensures View() == SetVal(old(View()), id, v)
    {
      if sVal[id] != v {
        sVal[id] := v;
        sFdirty[id] := true;
        sDirty := true;
      }
    }

    method StageValue(id: nat, value: string) returns (ok: bool)
      requires Valid()
      modifies sVal, sFdirty, this`sDirty
      ensures (View(), ok) == Stage(fields, old(View()), id, value)
    {
      hide ParseLong, ValidIpv4, SetVal;
      if id >= |fields| { return false; }
      if id == UI_LOCK && value != "" && value[0] == '1' && sVal[UI_PASS].s == "" { return false; }
      var f := fields[id];
      if f.Text? {
        if |value| >= STR_MAX { return false; }
        if id == NET_IP || id == NET_GW || id == NET_MASK {
          var ip := CheckIpv4(value);
          if !ip { return false; }
        }
        if f.secret && value == "" { return true; }
        Set(id, Val(sVal[id].i, value));
        return true;
      }
      var v := ParseLong(value);
      if v.None? { return false; }
      if v.value < f.imin || v.value > f.imax { return false; }
      Set(id, Val(v.value, sVal[id].s));
      return true;
    }

    method ClearValue(id: nat) returns (ok: bool)
      requires Valid()
      modifies sVal, sFdirty, this`sDirty
      ensures (View(), ok) == Clear(fields, old(View()), id)
    {
      if id >= |fields| || !fields[id].Text? { return false; }
      Set(id, Val(sVal[id].i, ""));
      return true;
    }

    /** cfg_commit against one behaviour of the flash. */
    method CommitAll(nvs: Nvs) returns (ok: bool)
      requires Valid()
      modifies this, sStored, sFdirty
      ensures (View(), ok) == Commit(fields, old(View()), nvs)
    {
      hide WriteFrom;
      var unpinned := false;
      for k := 0 to |fields|
        invariant unpinned <==> exists j :: 0 <= j < k && !sStored[j]
      {
        if !sStored[k] { unpinned := true; }
      }
      if !sDirty && !unpinned { return true; }
      if !nvs.opens { return false; }
      var written := WriteFields(nvs.sets);
      if !written || !nvs.commits { return false; }
      ghost var w := View();
      forall k | 0 <= k < |fields| { sFdirty[k] := false; }
      sDirty := false;
      assert sFdirty[..] == Cleaned(w).fdirty;
      assert sVal[..] == w.vals && sStored[..] == w.stored;
      return true;
    }

    method WriteFields(sets: nat) returns (ok: bool)
      requires Valid()
      modifies this`flash, sStored
      ensures (View(), ok) == WriteFrom(fields, old(View()), 0, sets)
    {
      var i, left := 0, sets;
      while i < |fields|
        invariant 0 <= i <= |fields|
        invariant WriteFrom(fields, View(), i, left) == WriteFrom(fields, old(View()), 0, sets)
      {
        if !sFdirty[i] && sStored[i] {
          i := i + 1;
          continue;
        }
        if left == 0 { return false; }
        ghost var before := View();
        var f := fields[i];
        flash := flash[f.key := EntryOf(f, sVal[i])];
        sStored[i] := true;
        assert View() == Written(fields, before, i);
        i, left := i + 1, left - 1;
      }
      ok := true;
    }
  }

  /** One dotted group: its digits, at most three, and their value. */
  method ReadGroup(s: string) returns (ok: bool, digits: nat, v: nat)
    ensures ok <==> 1 <= Run(s) <= 3
    ensures ok ==> digits == Run(s) && v == DigitsValue(s[..digits])
  {
    digits, v := 0, 0;
    if s == "" || !IsDigit(s[0]) { return false, 0, 0; }
    while digits < |s| && IsDigit(s[digits])
      invariant 0 <= digits <= Run(s) && digits <= 3
      invariant v == DigitsValue(s[..digits])
    {
      assert s[..digits + 1][..digits] == s[..digits];
      v := v * 10 + (s[digits] as int - '0' as int);
      digits := digits + 1;
      if digits > 3 { return false, digits, v; }
    }
    ok := true;
  }

  /** valid_ipv4. */
  method CheckIpv4(s: string) returns (ok: bool)
    ensures ok <==> ValidIpv4(s)
  {
    hide Run, DigitsValue, Groups;
    NoGroups();
    assert s[0..] == s;
    var at, parts := 0, 0;
    while at < |s|
      invariant 0 <= at <= |s|
      invariant Groups(s) == AddGroups(Groups(s[at..]), parts)
    {
      var rest := s[at..];
      var good, digits, v := ReadGroup(rest);
      GroupStep(rest);
      if !good || v > 255 { return false; }
      parts := parts + 1;
      at := at + digits;
      if at < |s| {
        if s[at] != '.' { return false; }
        at := at + 1;
        if at == |s| { return false; }
        assert rest[digits + 1..] == s[at..];
      } else {
        assert s[at..] == "";
      }
    }
    assert s[at..] == "";
    ok := parts == 4;
  }

  function AddGroups(g: Option<nat>, n: nat): Option<nat> {
    match g
    case None => None
    case Some(k) => Some(k + n)
  }

  lemma NoGroups()
    ensures Groups("") == Some(0)
  {
  }

  lemma GroupStep(s: string)
    requires s != ""
    ensures var n := Run(s);
            Groups(s) ==
            if n == 0 || n > 3 || DigitsValue(s[..n]) > 255 then None
            else if n == |s| then Some(1)
            else if s[n] != '.' || n + 1 == |s| then None
            else AddGroups(Groups(s[n + 1..]), 1)
  {
  }
}
