// Value types nested in one another without end: which types have no full defaults at all, and
// what their resolution leaves in the table instead (assembly.go:2273-2336, 2646-2745).
module TypeNesting {
  import opened Common
  import opened TypeBuilder
  import opened TypeLayout
  import opened TypeDefaults

  ghost predicate Mentions(md: Metadata, sig: Sig, m: Name)
    decreases sig
  {
    if IsNullable(md, sig) then Mentions(md, sig.args[0], m) else Named(sig) == Some(m)
  }

  // Some field of n, static or not, takes its default from m.
  ghost predicate Leads(md: Metadata, n: Name, m: Name) {
    n in md.defs && exists f :: f in md.defs[n].fields && NeedsZero(f) && Mentions(md, f.sig.value, m)
  }

  // A class that a signature calls a value type.
  predicate IsMisKinded(md: Metadata, m: Name) { m in md.defs && !Library(md, m) && !IsValueType(md.defs[m]) }

  // ---------------------------------------------------------------- no full defaults at any depth

  ghost predicate Tangled(md: Metadata, s: set<Name>, n: Name) {
    n in md.defs && !Library(md, n) && exists m :: Leads(md, n, m) && (m in s || IsMisKinded(md, m))
  }

  // Types that each lead to another of them, or to a class called a value type.
  ghost predicate Tangle(md: Metadata, s: set<Name>) {
    forall n {:trigger Tangled(md, s, n)} :: n in s ==> Tangled(md, s, n)
  }

  ghost predicate NeverFull(md: Metadata, n: Name)
    requires n in md.defs
  {
    forall h: nat :: FullOwn(md, n, h).None?
  }

  lemma {:induction false} SigNeedsNamed(md: Metadata, sig: Sig, m: Name, h: nat)
    requires Mentions(md, sig, m) && forall g: nat :: g <= h ==> FullNamed(md, m, g).None?
    requires !Library(md, m)
    ensures FullSig(md, sig, h).None?
    decreases sig
  {
    if IsNullable(md, sig) { SigNeedsNamed(md, sig.args[0], m, if h == 0 then 0 else h - 1); }
  }

  lemma {:induction false} TangleNeverFull(md: Metadata, s: set<Name>, n: Name, h: nat)
    requires Tangle(md, s) && n in s
    ensures n in md.defs && FullOwn(md, n, h).None?
    decreases h
  {
    assert Tangled(md, s, n);
    var m :| Leads(md, n, m) && (m in s || IsMisKinded(md, m));
    if m in s { assert Tangled(md, s, m); }
    forall g: nat | g <= h ensures FullNamed(md, m, g).None? {
      if g > 0 && m in s { TangleNeverFull(md, s, m, g - 1); }
    }
    var fs := md.defs[n].fields;
    var f :| f in fs && NeedsZero(f) && Mentions(md, f.sig.value, m);
    SigNeedsNamed(md, f.sig.value, m, h);
    var rows := OwnRows(fs, GoesStatic(f));
    RowsHave(fs, f);
    var i :| 0 <= i < |rows| && rows[i] == f;
    if FullRows(md, rows, h).Some? { RowsAt(md, rows, h, i); }
  }

  // Rows that are never full together have one that is never full alone.
  lemma {:induction false} RowNeverFull(md: Metadata, rows: seq<Field>) returns (f: Field)
    requires forall h: nat :: FullRows(md, rows, h).None?
    ensures f in rows && forall h: nat :: FullField(md, f, h).None?
    decreases |rows|
  {
    assert FullRows(md, rows, 0).None?;
    var init := rows[..|rows| - 1];
    f := rows[|rows| - 1];
    if g: nat :| FullRows(md, init, g).Some? {
      forall h: nat ensures FullField(md, f, h).None? {
        if FullField(md, f, h).Some? {
          var top := if g < h then h else g;
          RowsSettled(md, init, g, top);
          if NeedsZero(f) { SigSettled(md, f.sig.value, h, top); }
          assert FullRows(md, rows, top).Some?;
        }
      }
    } else {
      f := RowNeverFull(md, init);
    }
  }

  lemma {:induction false} SigNeverFull(md: Metadata, sig: Sig) returns (m: Name)
    requires forall h: nat :: FullSig(md, sig, h).None?
    ensures Mentions(md, sig, m) && forall h: nat :: FullNamed(md, m, h).None?
    decreases sig
  {
    assert FullSig(md, sig, 0).None?;
    if IsNullable(md, sig) {
      forall h: nat ensures FullSig(md, sig.args[0], h).None? { assert FullSig(md, sig, h + 1).None?; }
      m := SigNeverFull(md, sig.args[0]);
    } else {
      m := Named(sig).value;
      forall h: nat ensures FullNamed(md, m, h).None? { assert FullSig(md, sig, h).None?; }
    }
  }

  lemma NeverFullLeads(md: Metadata, n: Name) returns (m: Name)
    requires n in md.defs && NeverFull(md, n)
    ensures Leads(md, n, m) && m in md.defs && !Library(md, m) && (IsMisKinded(md, m) || NeverFull(md, m))
  {
    var fs := md.defs[n].fields;
    var instance, statics := OwnRows(fs, false), OwnRows(fs, true);
    var f: Field;
    if g: nat :| FullRows(md, instance, g).Some? {
      forall h: nat ensures FullRows(md, statics, h).None? {
        if FullRows(md, statics, h).Some? {
          var top := if g < h then h else g;
          RowsSettled(md, instance, g, top);
          RowsSettled(md, statics, h, top);
          assert FullOwn(md, n, top).Some?;
        }
      }
      f := RowNeverFull(md, statics);
      RowsFrom(fs, true, f);
    } else {
      f := RowNeverFull(md, instance);
      RowsFrom(fs, false, f);
    }
    assert FullField(md, f, 0).None?;
    forall h: nat ensures FullSig(md, f.sig.value, h).None? { assert FullField(md, f, h).None?; }
    m := SigNeverFull(md, f.sig.value);
    assert FullNamed(md, m, 1).None?;
    if !IsMisKinded(md, m) {
      forall h: nat ensures FullOwn(md, m, h).None? { assert FullNamed(md, m, h + 1).None?; }
    }
  }

  lemma {:induction false} RowsFrom(fs: seq<Field>, statics: bool, f: Field)
    requires f in OwnRows(fs, statics)
    ensures f in fs
  {
    if f != fs[|fs| - 1] { RowsFrom(fs[..|fs| - 1], statics, f); }
  }

  // A type has full defaults, given enough levels, exactly if it is in no tangle.
  lemma NeverFullIffTangled(md: Metadata, n: Name)
    requires n in md.defs && !Library(md, n)
    ensures NeverFull(md, n) <==> exists s :: Tangle(md, s) && n in s
  {
    if s :| Tangle(md, s) && n in s {
      forall h: nat ensures FullOwn(md, n, h).None? { TangleNeverFull(md, s, n, h); }
    }
    if NeverFull(md, n) {
      var s := set x | x in md.defs && !Library(md, x) && NeverFull(md, x);
      forall x | x in s ensures Tangled(md, s, x) { var m := NeverFullLeads(md, x); }
      assert Tangle(md, s);
    }
  }

  // ---------------------------------------------------------------- what a cycle leaves behind

  // Value types that each lead to another of them; one with a static field of its own type is
  // enough.
  ghost predicate Cycle(md: Metadata, s: set<Name>) {
    forall n {:trigger Cyclic(md, s, n)} :: n in s ==> Cyclic(md, s, n)
  }

  ghost predicate Cyclic(md: Metadata, s: set<Name>, n: Name) {
    n in md.defs && !Library(md, n) && IsValueType(md.defs[n]) && exists m :: m in s && Leads(md, n, m)
  }

  // From this depth on, what the signature names of the cycle is past the limit.
  ghost predicate PastLimit(md: Metadata, s: set<Name>, sig: Sig, depth: nat)
    decreases sig
  {
    if IsNullable(md, sig) then PastLimit(md, s, sig.args[0], depth + 1)
    else Named(sig).Some? && Named(sig).value in s ==> depth >= MAX_VALUE_TYPE_DEPTH
  }

  ghost predicate AllPastLimit(md: Metadata, s: set<Name>, fs: seq<Field>, depth: nat) {
    forall f :: f in fs && NeedsZero(f) ==> PastLimit(md, s, f.sig.value, depth)
  }

  ghost function Everything(): Asked { iset n: Name, d: nat | true :: (n, d) }

  // t was laid out where everything of the cycle it leads to was past the limit.
  ghost predicate CutOff(md: Metadata, s: set<Name>, n: Name, t: TypeInfo) {
    n in md.defs && exists depth: nat ::
      && DefaultsFor(md, Everything(), OwnRows(md.defs[n].fields, false), depth, t.defaults)
      && DefaultsFor(md, Everything(), OwnRows(md.defs[n].fields, true), depth, t.staticDefaults)
      && AllPastLimit(md, s, md.defs[n].fields, depth)
  }

  ghost predicate Untouched(s: set<Name>, types: Types) { forall n :: n in s ==> n !in types }

  ghost predicate HasCutOff(md: Metadata, s: set<Name>, types: Types) {
    exists n :: n in s && n in types && CutOff(md, s, n, types[n])
  }

  ghost predicate Start(md: Metadata, s: set<Name>, types: Types) {
    && LibraryPaired(md) && Coherent(md, Everything(), types) && Cycle(md, s)
    && (Untouched(s, types) || HasCutOff(md, s, types))
  }

  // The first of the cycle to get into the table is cut off.
  ghost predicate Stays(md: Metadata, s: set<Name>, types: Types, types': Types) {
    Start(md, s, types') && (Untouched(s, types') ==> Untouched(s, types))
  }

  lemma EverythingIsClosed(md: Metadata)
    ensures Closed(md, Everything())
  {
    forall n, d | n in md.defs ensures Covered(md, Everything(), n, d) {
      forall f | f in md.defs[n].fields && NeedsZero(f) ensures SigAsks(md, Everything(), f.sig.value, d) {
        EverythingAsks(md, f.sig.value, d);
      }
    }
  }

  lemma {:induction false} EverythingAsks(md: Metadata, sig: Sig, d: nat)
    ensures SigAsks(md, Everything(), sig, d)
    decreases sig
  {
    if IsNullable(md, sig) { EverythingAsks(md, sig.args[0], d + 1); }
  }

  lemma {:induction false} ResolveCuts(md: Metadata, s: set<Name>, name: Name, depth: nat, types: Types, fuel: nat)
    requires Start(md, s, types) && ResolveAt(md, name, depth, types, fuel).Ret?
    ensures var r := ResolveAt(md, name, depth, types, fuel);
      Stays(md, s, types, r.types) && (name in s ==> !Untouched(s, r.types))
    decreases fuel, 0, 0, 0
  {
    EverythingIsClosed(md);
    ResolveKeeps(md, Everything(), name, depth, types, fuel);
    if name in s { assert Cyclic(md, s, name); }
    if name !in types && !Library(md, name) {
      BuildCuts(md, s, name, depth, types, fuel - 1);
      var r := BuildType(md, name, depth, types, fuel - 1);
      if r.value.Some? && name !in r.types { StoredStays(md, s, r.types, name, r.value.value); }
    }
  }

  lemma StoredStays(md: Metadata, s: set<Name>, types: Types, name: Name, t: TypeInfo)
    requires name !in types && (Untouched(s, types) || HasCutOff(md, s, types))
    requires name in s && Untouched(s, types) ==> CutOff(md, s, name, t)
    ensures Untouched(s, types[name := t]) || HasCutOff(md, s, types[name := t])
    ensures Untouched(s, types[name := t]) ==> Untouched(s, types)
    ensures name in s ==> !Untouched(s, types[name := t])
  {
    var after := types[name := t];
    if HasCutOff(md, s, types) {
      var n :| n in s && n in types && CutOff(md, s, n, types[n]);
      assert CutOff(md, s, n, after[n]);
    } else if name in s {
      assert CutOff(md, s, name, after[name]);
    }
    assert forall n :: n in types ==> n in after;
  }

  lemma {:induction false} BuildCuts(md: Metadata, s: set<Name>, name: Name, depth: nat, types: Types, fuel: nat)
    requires Start(md, s, types) && BuildType(md, name, depth, types, fuel).Ret? && !Library(md, name)
    ensures var r := BuildType(md, name, depth, types, fuel);
      && Stays(md, s, types, r.types)
      && (name in s && Untouched(s, r.types) ==> r.value.Some? && CutOff(md, s, name, r.value.value))
    decreases fuel, 4, 0, 0
  {
    if name in md.defs {
      var def := md.defs[name];
      if BaseOf(def).Some? { ResolveCuts(md, s, BaseOf(def).value, 0, types, fuel); }
      var r1 := InheritSlots(md, def, types, fuel);
      FieldsCut(md, s, def.fields, |def.fields|, depth, r1.value, r1.types, fuel);
      assert def.fields[..|def.fields|] == def.fields;
      if name in s { SlotsOfCycle(md, s, name, depth, types, fuel); }
    }
    if name in s { assert Cyclic(md, s, name); }
  }

  // A value type inherits nothing: its slots are its own.
  lemma SlotsOfCycle(md: Metadata, s: set<Name>, name: Name, depth: nat, types: Types, fuel: nat)
    requires Start(md, s, types) && name in s && BuildType(md, name, depth, types, fuel).Ret?
    ensures var t := BuildType(md, name, depth, types, fuel).value;
      && name in md.defs && t.Some?
      && DefaultsFor(md, Everything(), OwnRows(md.defs[name].fields, false), depth, t.value.defaults)
      && DefaultsFor(md, Everything(), OwnRows(md.defs[name].fields, true), depth, t.value.staticDefaults)
  {
    assert Cyclic(md, s, name);
    EverythingIsClosed(md);
    var fs := md.defs[name].fields;
    forall f | f in fs && NeedsZero(f) ensures SigAsks(md, Everything(), f.sig.value, depth) {
      EverythingAsks(md, f.sig.value, depth);
    }
    FieldsKeep(md, Everything(), fs, |fs|, depth, Slots([], [], [], []), types, fuel);
    assert fs[..|fs|] == fs;
    var slots := FieldsUpTo(md, fs, |fs|, depth, Slots([], [], [], []), types, fuel).value;
    assert slots.defaults[0..] == slots.defaults && slots.staticDefaults[0..] == slots.staticDefaults;
  }

  lemma {:induction false} FieldsCut(
      md: Metadata, s: set<Name>, fs: seq<Field>, k: nat, depth: nat, init: Slots, types: Types, fuel: nat)
    requires Start(md, s, types) && k <= |fs| && FieldsUpTo(md, fs, k, depth, init, types, fuel).Ret?
    ensures var r := FieldsUpTo(md, fs, k, depth, init, types, fuel);
      && Stays(md, s, types, r.types)
      && (Untouched(s, r.types) ==> AllPastLimit(md, s, fs[..k], depth))
    decreases fuel, 3, 0, k
  {
    if k > 0 {
      FieldsCut(md, s, fs, k - 1, depth, init, types, fuel);
      var types1 := FieldsUpTo(md, fs, k - 1, depth, init, types, fuel).types;
      var f := fs[k - 1];
      if NeedsZero(f) { SigCuts(md, s, f.sig.value, depth, types1, fuel); }
      assert fs[..k] == fs[..k - 1] + [f];
    }
  }

  lemma {:induction false} SigCuts(md: Metadata, s: set<Name>, sig: Sig, depth: nat, types: Types, fuel: nat)
    requires Start(md, s, types) && FieldOrLocalDefault(md, sig, depth, types, fuel).Ret?
    ensures var r := FieldOrLocalDefault(md, sig, depth, types, fuel);
      Stays(md, s, types, r.types) && (Untouched(s, r.types) ==> PastLimit(md, s, sig, depth))
    decreases fuel, 1, sig, 0
  {
    if IsNullable(md, sig) {
      SigCuts(md, s, sig.args[0], depth + 1, types, fuel);
    } else if Named(sig).Some? {
      if Named(sig).value in s { assert Cyclic(md, s, Named(sig).value); }
      if depth < MAX_VALUE_TYPE_DEPTH && Named(sig).value !in md.valueTypes {
        ResolveCuts(md, s, Named(sig).value, depth + 1, types, fuel);
      }
    }
  }

  // Every resolution of a member of a cycle leaves a member in the table that is cut off.
  lemma CycleIsCutOff(md: Metadata, s: set<Name>, name: Name, depth: nat, types: Types, fuel: nat)
    requires LibraryPaired(md) && Coherent(md, Everything(), types) && Cycle(md, s) && Untouched(s, types)
    requires name in s && ResolveAt(md, name, depth, types, fuel).Ret?
    ensures HasCutOff(md, s, ResolveAt(md, name, depth, types, fuel).types)
  {
    ResolveCuts(md, s, name, depth, types, fuel);
  }

  // The default holds null in place of the value type that is due.
  ghost predicate LacksValue(md: Metadata, sig: Sig, d: Default)
    decreases sig
  {
    if IsNullable(md, sig) then d.Struct? && |d.values| == 2 && LacksValue(md, sig.args[0], d.values[1])
    else Named(sig).Some? && d == Null
  }

  lemma {:induction false} PastLimitLacks(md: Metadata, s: set<Name>, sig: Sig, m: Name, depth: nat, d: Default)
    requires m in s && Mentions(md, sig, m) && PastLimit(md, s, sig, depth) && ZeroOf(md, Everything(), sig, depth, d)
    ensures LacksValue(md, sig, d) && (!IsNullable(md, sig) ==> depth >= MAX_VALUE_TYPE_DEPTH)
    decreases sig
  {
    if IsNullable(md, sig) { PastLimitLacks(md, s, sig.args[0], m, depth + 1, d.values[1]); }
  }

  function DefaultsOf(t: TypeInfo, statics: bool): seq<Default> { if statics then t.staticDefaults else t.defaults }

  // What the i-th own field of a kind takes its default from, and that default.
  ghost predicate RowAt(md: Metadata, n: Name, t: TypeInfo, statics: bool, i: int, f: Field, d: Default) {
    && n in md.defs && 0 <= i < |OwnRows(md.defs[n].fields, statics)| && i < |DefaultsOf(t, statics)|
    && f == OwnRows(md.defs[n].fields, statics)[i] && d == DefaultsOf(t, statics)[i] && NeedsZero(f)
  }

  // So it has a field whose default lacks its value.
  lemma CutOffLacks(md: Metadata, s: set<Name>, n: Name, t: TypeInfo)
    requires Cycle(md, s) && n in s && CutOff(md, s, n, t)
    ensures exists statics, i, f, d :: RowAt(md, n, t, statics, i, f, d) && LacksValue(md, f.sig.value, d)
  {
    assert Cyclic(md, s, n);
    var fs := md.defs[n].fields;
    var depth: nat :|
      && DefaultsFor(md, Everything(), OwnRows(fs, false), depth, t.defaults)
      && DefaultsFor(md, Everything(), OwnRows(fs, true), depth, t.staticDefaults)
      && AllPastLimit(md, s, fs, depth);
    var m :| m in s && Leads(md, n, m);
    var f :| f in fs && NeedsZero(f) && Mentions(md, f.sig.value, m);
    var statics := GoesStatic(f);
    var rows := OwnRows(fs, statics);
    RowsHave(fs, f);
    var i :| 0 <= i < |rows| && rows[i] == f;
    var d := DefaultsOf(t, statics)[i];
    assert DefaultFor(md, Everything(), rows[i], depth, d);
    PastLimitLacks(md, s, f.sig.value, m, depth, d);
    assert RowAt(md, n, t, statics, i, f, d);
  }

  // The field names a value type itself, not a nullable of one.
  predicate NamesDirectly(md: Metadata, f: Field) {
    NeedsZero(f) && !IsNullable(md, f.sig.value) && Named(f.sig.value).Some?
  }

  // And if it leads into the cycle other than through nullables, every field of a value type holds
  // null, those outside the cycle included.
  lemma CutOffIsNull(
      md: Metadata, s: set<Name>, n: Name, t: TypeInfo, g: Field, statics: bool, i: int, f: Field, d: Default)
    requires Cycle(md, s) && n in s && CutOff(md, s, n, t)
    requires g in md.defs[n].fields && NamesDirectly(md, g) && Named(g.sig.value).value in s
    requires RowAt(md, n, t, statics, i, f, d) && NamesDirectly(md, f)
    ensures d == Null
  {
    var fs := md.defs[n].fields;
    var depth: nat :|
      && DefaultsFor(md, Everything(), OwnRows(fs, false), depth, t.defaults)
      && DefaultsFor(md, Everything(), OwnRows(fs, true), depth, t.staticDefaults)
      && AllPastLimit(md, s, fs, depth);
    assert PastLimit(md, s, g.sig.value, depth);
    assert DefaultFor(md, Everything(), OwnRows(fs, statics)[i], depth, d);
    assert ZeroOf(md, Everything(), f.sig.value, depth, d);
    assert ZeroOfNamed(md, Everything(), Named(f.sig.value).value, depth, d);
  }

  // ---------------------------------------------------------------- one level too many

  // Structs nested one in another, 26 of them: the outermost needs one level more than there is.
  function Level(k: nat): (name: Name)
    ensures |name| == k
  {
    seq(k, i => 'S')
  }

  function Inner(k: nat): Field {
    Field("f", false, None, None, Some(if k < 25 then ValueType(Some(Level(k + 1))) else SmallInt))
  }

  function TowerDefs(n: nat): map<Name, TypeDef> {
    var def := TypeDef(Base("System.ValueType"), [Inner(n)]);
    if n == 0 then map[Level(0) := def] else TowerDefs(n - 1)[Level(n) := def]
  }

  ghost predicate LevelAt(md: Metadata, k: nat) {
    && Level(k) in md.defs && !Library(md, Level(k))
    && md.defs[Level(k)] == TypeDef(Base("System.ValueType"), [Inner(k)])
  }

  ghost predicate IsTower(md: Metadata) { forall k: nat {:trigger LevelAt(md, k)} :: k <= 25 ==> LevelAt(md, k) }

  lemma {:induction false} TowerLevel(k: nat, n: nat)
    requires k <= n
    ensures Level(k) in TowerDefs(n) && TowerDefs(n)[Level(k)] == TypeDef(Base("System.ValueType"), [Inner(k)])
  {
    if k < n {
      assert |Level(k)| != |Level(n)|;
      TowerLevel(k, n - 1);
    }
  }

  lemma OneFieldFull(md: Metadata, name: Name, f: Field, h: nat)
    requires name in md.defs && md.defs[name].fields == [f] && !GoesStatic(f)
    ensures FullOwn(md, name, h).Some? <==> FullField(md, f, h).Some?
  {
    assert [f][..0] == [];
    assert OwnRows([], false) == [] == OwnRows([], true);
    assert OwnRows([f], false) == [f] && OwnRows([f], true) == [];
    assert FullRows(md, [], h) == Some([]);
  }

  lemma {:induction false} TowerHeight(md: Metadata, k: nat, h: nat)
    requires IsTower(md) && k <= 25
    ensures Level(k) in md.defs && (FullOwn(md, Level(k), h).Some? <==> h >= 25 - k)
    decreases 25 - k
  {
    assert LevelAt(md, k);
    OneFieldFull(md, Level(k), Inner(k), h);
    if k < 25 {
      assert LevelAt(md, k + 1);
      assert FullField(md, Inner(k), h) == FullNamed(md, Level(k + 1), h);
      if h > 0 { TowerHeight(md, k + 1, h - 1); }
    }
  }

  function TowerInfo(k: nat): TypeInfo
    requires k <= 24
    decreases 24 - k
  {
    OneField(Level(k), if k == 24 then Null else NewStruct(TowerInfo(k + 1)))
  }

  function OneField(name: Name, d: Default): TypeInfo { TypeInfo(name, ["f"], [d], [], [], true, false, None) }

  // The build of a level, given what its field's default comes to.
  lemma TowerBuildOnce(md: Metadata, k: nat, depth: nat, types: Types, fuel: nat, d: Default, types': Types)
    requires IsTower(md) && k <= 25 && FieldOrLocalDefault(md, Inner(k).sig.value, depth, types, fuel) == Ret(d, types')
    ensures BuildType(md, Level(k), depth, types, fuel) == Ret(Some(OneField(Level(k), d)), types')
  {
    var init, slots := Slots([], [], [], []), Slots(["f"], [d], [], []);
    assert LevelAt(md, k);
    var def := md.defs[Level(k)];
    assert BaseOf(def) == None;
    assert InheritSlots(md, def, types, fuel) == Ret(init, types);
    assert FieldDefault(md, Inner(k), depth, types, fuel) == Ret(d, types');
    assert FieldsUpTo(md, def.fields, 0, depth, init, types, fuel) == Ret(init, types);
    assert AddSlot(init, Inner(k), d) == slots;
    assert FieldsUpTo(md, def.fields, 1, depth, init, types, fuel) == Ret(slots, types');
    assert MakeType(Level(k), def, slots) == OneField(Level(k), d);
  }

  // From the outside in, the level at the depth limit is stored without its field's value.
  lemma {:induction false} OuterFirst(md: Metadata, k: nat, fuel: nat)
    requires IsTower(md) && k <= 24 && fuel == 25 - k
    ensures var r := ResolveAt(md, Level(k), k, map[], fuel);
      && r.Ret? && r.value == Some(TowerInfo(k)) && Level(24) in r.types && r.types[Level(24)] == TowerInfo(24)
      && (forall n :: n in r.types ==> |n| >= k)
    decreases 24 - k
  {
    if k < 24 {
      OuterFirst(md, k + 1, fuel - 1);
      var inner := ResolveAt(md, Level(k + 1), k + 1, map[], fuel - 1);
      LevelDefault(md, k, fuel - 1, inner.types);
      TowerResolve(md, k, fuel, NewStruct(TowerInfo(k + 1)), inner.types);
    } else {
      TowerResolve(md, k, fuel, Null, map[]);
    }
  }

  // The default of a level's field, once the next level is resolved.
  lemma LevelDefault(md: Metadata, k: nat, fuel: nat, types: Types)
    requires IsTower(md) && k < 24
    requires ResolveAt(md, Level(k + 1), k + 1, map[], fuel) == Ret(Some(TowerInfo(k + 1)), types)
    ensures FieldOrLocalDefault(md, Inner(k).sig.value, k, map[], fuel) == Ret(NewStruct(TowerInfo(k + 1)), types)
  {
    assert LevelAt(md, k + 1);
  }

  lemma TowerResolve(md: Metadata, k: nat, fuel: nat, d: Default, types: Types)
    requires IsTower(md) && k <= 24 && fuel > 0 && Level(k) !in types
    requires FieldOrLocalDefault(md, Inner(k).sig.value, k, map[], fuel - 1) == Ret(d, types)
    ensures ResolveAt(md, Level(k), k, map[], fuel)
         == Ret(Some(OneField(Level(k), d)), types[Level(k) := OneField(Level(k), d)])
  {
    assert LevelAt(md, k);
    TowerBuildOnce(md, k, k, map[], fuel - 1, d, types);
  }

  // From the inside out it is stored with it.
  lemma InnerFirst(md: Metadata, fuel: nat)
    requires IsTower(md) && fuel >= 2
    ensures var r := ResolveAt(md, Level(24), 0, map[], fuel);
      r.Ret? && Level(24) in r.types && r.types[Level(24)] == OneField(Level(24), Struct(Level(25), [Int32Zero]))
  {
    assert LevelAt(md, 24) && LevelAt(md, 25);
    var last := OneField(Level(25), Int32Zero);
    var types, d := map[Level(25) := last], NewStruct(last);
    TowerBuildOnce(md, 25, 1, map[], fuel - 2, Int32Zero, map[]);
    assert ResolveAt(md, Level(25), 1, map[], fuel - 1) == Ret(Some(last), types);
    assert FieldOrLocalDefault(md, Inner(24).sig.value, 0, map[], fuel - 1) == Ret(d, types);
    TowerBuildOnce(md, 24, 0, map[], fuel - 1, d, types);
    assert |Level(24)| != |Level(25)|;
  }

  lemma TowerExists(n: nat)
    requires n == 25
    ensures IsTower(Metadata(TowerDefs(n), map[], map[], map[]))
  {
    forall k: nat | k <= 25 ensures LevelAt(Metadata(TowerDefs(n), map[], map[], map[]), k) { TowerLevel(k, n); }
  }

  // So the limit of ShallowTypesIgnoreOrder is tight: at one level more, without any cycle, a default
  // depends on the order.
  lemma TowerDependsOnOrder(md: Metadata)
    requires IsTower(md)
    ensures var outer, level := Level(0), Level(24);
      && outer in md.defs && FullOwn(md, outer, 25).Some? && FullOwn(md, outer, 24).None?
      && var out, inn := ResolveAt(md, outer, 0, map[], 25), ResolveAt(md, level, 0, map[], 25);
      && out.Ret? && level in out.types && out.types[level].defaults == [Null]
      && inn.Ret? && level in inn.types && inn.types[level].defaults == [Struct(Level(25), [Int32Zero])]
  {
    TowerHeight(md, 0, 25);
    TowerHeight(md, 0, 24);
    OuterFirst(md, 0, 25);
    InnerFirst(md, 25);
  }

  // ---------------------------------------------------------------- ill-formed signatures

  // A rank that falls from every class to its base and never rises from a type to what its fields
  // name, be it a value type or not. Well-formed signatures over chains that end have one; so do
  // ill-formed ones as long as no base chain leads back to where a field came from.
  ghost predicate Ranked(md: Metadata, rank: Name -> nat) {
    && (forall n :: n in md.defs && !Library(md, n) && BaseOf(md.defs[n]).Some? ==>
          rank(BaseOf(md.defs[n]).value) < rank(n))
    && (forall n, m :: Leads(md, n, m) && !Library(md, n) ==> rank(m) <= rank(n))
  }

  // Then resolution halts, whatever the signatures call a value type.
  lemma {:induction false} RankedHalts(
      md: Metadata, rank: Name -> nat, name: Name, depth: nat, types: Types, fuel: nat)
    requires Ranked(md, rank) && fuel > 25 * rank(name) + Remaining(depth)
    ensures ResolveAt(md, name, depth, types, fuel).Ret?
    decreases fuel, 0, 0, 0
  {
    if name !in types && !Library(md, name) && name in md.defs {
      var def := md.defs[name];
      if BaseOf(def).Some? { RankedHalts(md, rank, BaseOf(def).value, 0, types, fuel - 1); }
      var r := InheritSlots(md, def, types, fuel - 1);
      forall f, m | f in def.fields && NeedsZero(f) && Mentions(md, f.sig.value, m) ensures rank(m) <= rank(name) {
        assert Leads(md, name, m);
      }
      RankedFieldsHalt(md, rank, rank(name), def.fields, |def.fields|, depth, r.value, r.types, fuel - 1);
      assert BuildType(md, name, depth, types, fuel - 1).Ret?;
    }
  }

  lemma {:induction false} RankedFieldsHalt(
      md: Metadata, rank: Name -> nat, top: nat, fs: seq<Field>, k: nat, depth: nat, init: Slots, types: Types,
      fuel: nat)
    requires Ranked(md, rank) && k <= |fs| && fuel >= 25 * top + Remaining(depth)
    requires forall f, m :: f in fs && NeedsZero(f) && Mentions(md, f.sig.value, m) ==> rank(m) <= top
    ensures FieldsUpTo(md, fs, k, depth, init, types, fuel).Ret?
    decreases fuel, 3, 0, k
  {
    if k > 0 {
      RankedFieldsHalt(md, rank, top, fs, k - 1, depth, init, types, fuel);
      var types1 := FieldsUpTo(md, fs, k - 1, depth, init, types, fuel).types;
      if NeedsZero(fs[k - 1]) { RankedSigHalts(md, rank, top, fs[k - 1].sig.value, depth, types1, fuel); }
    }
  }

  lemma {:induction false} RankedSigHalts(
      md: Metadata, rank: Name -> nat, top: nat, sig: Sig, depth: nat, types: Types, fuel: nat)
    requires Ranked(md, rank) && fuel >= 25 * top + Remaining(depth)
    requires forall m :: Mentions(md, sig, m) ==> rank(m) <= top
    ensures FieldOrLocalDefault(md, sig, depth, types, fuel).Ret?
    decreases fuel, 1, sig, 0
  {
    if IsNullable(md, sig) {
      RankedSigHalts(md, rank, top, sig.args[0], depth + 1, types, fuel);
    } else if Named(sig).Some? && depth < MAX_VALUE_TYPE_DEPTH {
      assert Mentions(md, sig, Named(sig).value);
      RankedHalts(md, rank, Named(sig).value, depth + 1, types, fuel);
    }
  }
}
