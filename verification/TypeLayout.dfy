// What a type table holds after any resolutions: inherited field slots (assembly.go:2219-2259,
// 2285-2336), and what in a type does and does not depend on the order of resolutions.
module TypeLayout {
  import opened Common
  import opened TypeBuilder

  // The field names a type declares itself, in row order.
  function OwnFields(fs: seq<Field>): seq<string> {
    if fs == [] then []
    else OwnFields(fs[..|fs| - 1]) + (if GoesStatic(fs[|fs| - 1]) then [] else [fs[|fs| - 1].name])
  }

  function OwnStatics(fs: seq<Field>): seq<string> {
    if fs == [] then []
    else OwnStatics(fs[..|fs| - 1]) + (if GoesStatic(fs[|fs| - 1]) then [fs[|fs| - 1].name] else [])
  }

  // The rows behind those two lists.
  function OwnRows(fs: seq<Field>, statics: bool): seq<Field> {
    if fs == [] then []
    else OwnRows(fs[..|fs| - 1], statics) + (if GoesStatic(fs[|fs| - 1]) == statics then [fs[|fs| - 1]] else [])
  }

  // ---------------------------------------------------------------- what a resolution asks for

  // The questions (name, depth) that resolutions put to the table. A type's base is asked for at
  // depth 0 again, what its fields name one deeper.
  type Asked = iset<(Name, nat)>

  ghost predicate Closed(md: Metadata, asked: Asked) {
    forall n, d {:trigger Covered(md, asked, n, d)} :: (n, d) in asked && n in md.defs && !Library(md, n)
      ==> Covered(md, asked, n, d)
  }

  ghost predicate Covered(md: Metadata, asked: Asked, n: Name, d: nat)
    requires n in md.defs
  {
    && (BaseOf(md.defs[n]).Some? ==> (BaseOf(md.defs[n]).value, 0) in asked)
    && FieldsAsk(md, asked, md.defs[n].fields, d)
  }

  ghost predicate FieldsAsk(md: Metadata, asked: Asked, fs: seq<Field>, d: nat) {
    forall f :: f in fs && NeedsZero(f) ==> SigAsks(md, asked, f.sig.value, d)
  }

  // Neither embedded data nor a constant, so a zero value of its type.
  predicate NeedsZero(f: Field) { f.sig.Some? && f.rva.None? && f.constant.None? }

  predicate IsNullable(md: Metadata, sig: Sig) {
    sig.GenericValue? && |sig.args| == 1 && sig.token == Some(NULLABLE) && NULLABLE in md.valueTypes
  }

  // The value type a signature names, other than as a nullable.
  function Named(sig: Sig): Option<Name> {
    match sig
    case ValueType(token) => token
    case GenericValue(token, _) => token
    case _ => None
  }

  ghost predicate SigAsks(md: Metadata, asked: Asked, sig: Sig, d: nat)
    decreases sig
  {
    if IsNullable(md, sig) then SigAsks(md, asked, sig.args[0], d + 1)
    else Named(sig).Some? && d < MAX_VALUE_TYPE_DEPTH && Named(sig).value !in md.valueTypes ==>
      (Named(sig).value, d + 1) in asked
  }

  // ---------------------------------------------------------------- zero values

  // d is the zero value of a named value type at a nesting depth: the library's, an enum's
  // underlying zero, or a struct of that type, with each of its fields' defaults. Null stands in
  // from the depth limit on, and for a name that is not that of a value type.
  ghost predicate ZeroOfNamed(md: Metadata, asked: Asked, name: Name, depth: nat, d: Default)
    decreases d, 0
  {
    if depth >= MAX_VALUE_TYPE_DEPTH then d == Null
    else if name in md.valueTypes then d == NewStruct(md.valueTypes[name])
    else if name in md.staticHosts then d == ZeroFrom(md.staticHosts[name])
    else if name in md.defs && IsEnum(md.defs[name]) then d == Int32Zero
    else if name in md.defs && IsValueType(md.defs[name]) then
      d.Struct? && d.typeName == name && HoldsDefaults(md, asked, name, OwnRows(md.defs[name].fields, false), d.values)
    else if name !in md.defs && name in md.imports then d == ZeroFrom(md.imports[name])
    else d == Null
  }

  function ZeroFrom(t: TypeInfo): Default {
    if !t.isValueType then Null else if t.isEnum then Int32Zero else NewStruct(t)
  }

  ghost predicate ZeroOf(md: Metadata, asked: Asked, sig: Sig, depth: nat, d: Default)
    decreases d, 1
  {
    match sig
    case SmallInt => d == Int32Zero
    case LongInt => d == Int64Zero
    case Single => d == Float32Zero
    case Double => d == Float64Zero
    case Reference => d == Null
    case ValueType(token) => if token.Some? then ZeroOfNamed(md, asked, token.value, depth, d) else d == Null
    case GenericValue(token, args) =>
      if |args| == 1 && token == Some(NULLABLE) && NULLABLE in md.valueTypes then
        && d.Struct? && d.typeName == md.valueTypes[NULLABLE].name
        && |d.values| == 2 && d.values[0] == False && ZeroOf(md, asked, args[0], depth + 1, d.values[1])
      else if token.Some? then ZeroOfNamed(md, asked, token.value, depth, d) else d == Null
  }

  // d is what a fresh instance holds in the field: its embedded data or constant, or a zero value.
  ghost predicate DefaultFor(md: Metadata, asked: Asked, f: Field, depth: nat, d: Default)
    decreases d, 2
  {
    if f.sig.Some? && f.rva.Some? then d == Blob(f.rva.value)
    else if f.constant.Some? then d == f.constant.value
    else if f.sig.Some? then ZeroOf(md, asked, f.sig.value, depth, d)
    else d == Null
  }

  ghost predicate DefaultsFor(md: Metadata, asked: Asked, rows: seq<Field>, depth: nat, ds: seq<Default>)
    decreases ds, 0
  {
    |rows| == |ds| && forall i :: 0 <= i < |rows| ==> DefaultFor(md, asked, rows[i], depth, ds[i])
  }

  // The same at some depth the type was asked for at: a struct in the table may have been built at
  // any of those.
  ghost predicate HoldsDefaults(md: Metadata, asked: Asked, name: Name, rows: seq<Field>, ds: seq<Default>)
    decreases ds, 1
  {
    exists depth: nat :: (name, depth) in asked && DefaultsFor(md, asked, rows, depth, ds)
  }

  // What resolving `name` answers once the table has it: this assembly's type, the library's, or
  // another assembly's.
  function Known(md: Metadata, types: Types, name: Name): Option<TypeInfo> {
    if name in types then Some(types[name])
    else if name in md.valueTypes then Some(md.valueTypes[name])
    else if name in md.staticHosts then Some(md.staticHosts[name])
    else if name !in md.defs then Imported(md, name)
    else None
  }

  predicate Library(md: Metadata, name: Name) { name in md.valueTypes || name in md.staticHosts }

  predicate Paired(t: TypeInfo) { |t.fields| == |t.defaults| && |t.statics| == |t.staticDefaults| }

  ghost predicate LibraryPaired(md: Metadata) {
    && (forall n :: n in md.valueTypes ==> Paired(md.valueTypes[n]))
    && (forall n :: n in md.staticHosts ==> Paired(md.staticHosts[n]))
    && (forall n :: n in md.imports ==> Paired(md.imports[n]))
  }

  function InheritedFields(base: Option<TypeInfo>): seq<string> {
    if base.Some? then base.value.fields else []
  }

  function InheritedDefaults(base: Option<TypeInfo>): seq<Default> {
    if base.Some? then base.value.defaults else []
  }

  function KnownBase(md: Metadata, types: Types, def: TypeDef): Option<TypeInfo> {
    if BaseOf(def).Some? then Known(md, types, BaseOf(def).value) else None
  }

  // t is what the definition of `name` lays out, over the base the table holds.
  ghost predicate Laid(md: Metadata, asked: Asked, types: Types, name: Name, t: TypeInfo) {
    && name in md.defs && !Library(md, name)
    && var def := md.defs[name];
    && var base := KnownBase(md, types, def);
    && t.name == name && t.base == BaseOf(def)
    && t.isValueType == IsValueType(def) && t.isEnum == IsEnum(def)
    && Paired(t)
    && t.fields == InheritedFields(base) + OwnFields(def.fields)
    && InheritedDefaults(base) <= t.defaults
    && HoldsDefaults(md, asked, name, OwnRows(def.fields, false), t.defaults[|InheritedDefaults(base)|..])
    && t.statics == OwnStatics(def.fields)
    && HoldsDefaults(md, asked, name, OwnRows(def.fields, true), t.staticDefaults)
    && (BaseOf(def).Some? && base.None? ==> BaseOf(def).value !in md.defs)
    && BaseChainEnds(md, name)
  }

  ghost predicate Coherent(md: Metadata, asked: Asked, types: Types) {
    forall n {:trigger Laid(md, asked, types, n, types[n])} :: n in types ==> Laid(md, asked, types, n, types[n])
  }

  ghost predicate Grown(types: Types, types': Types) {
    forall n :: n in types ==> n in types' && types'[n] == types[n]
  }

  lemma LaidStable(md: Metadata, asked: Asked, types: Types, types': Types, name: Name, t: TypeInfo)
    requires Laid(md, asked, types, name, t) && Grown(types, types')
    requires forall n :: n in types' && n !in types ==> n in md.defs && !Library(md, n)
    ensures Laid(md, asked, types', name, t)
  {}

  // ---------------------------------------------------------------- every resolution keeps it

  ghost predicate Kept(md: Metadata, asked: Asked, types: Types, types': Types) {
    Coherent(md, asked, types') && Grown(types, types')
  }

  lemma {:induction false} ResolveKeeps(md: Metadata, asked: Asked, name: Name, depth: nat, types: Types, fuel: nat)
    requires LibraryPaired(md) && Coherent(md, asked, types) && ResolveAt(md, name, depth, types, fuel).Ret?
    requires Closed(md, asked) && (name, depth) in asked
    ensures var r := ResolveAt(md, name, depth, types, fuel);
      Kept(md, asked, types, r.types) && r.value == Known(md, r.types, name) && (r.value.None? ==> name !in md.defs)
    decreases fuel, 0, 0, 0
  {
    if name !in types && !Library(md, name) {
      BuildKeeps(md, asked, name, depth, types, fuel - 1);
      var r := BuildType(md, name, depth, types, fuel - 1);
      if r.value.Some? && name !in r.types {
        StoredIsCoherent(md, asked, r.types, name, r.value.value);
      }
    }
  }

  lemma StoredIsCoherent(md: Metadata, asked: Asked, types: Types, name: Name, t: TypeInfo)
    requires Coherent(md, asked, types) && Laid(md, asked, types, name, t) && name !in types
    ensures Kept(md, asked, types, types[name := t])
  {
    var after := types[name := t];
    LaidStable(md, asked, types, after, name, t);
    forall n | n in types ensures Laid(md, asked, after, n, types[n]) {
      LaidStable(md, asked, types, after, n, types[n]);
    }
  }

  lemma {:induction false} BuildKeeps(md: Metadata, asked: Asked, name: Name, depth: nat, types: Types, fuel: nat)
    requires LibraryPaired(md) && Coherent(md, asked, types) && BuildType(md, name, depth, types, fuel).Ret?
    requires Closed(md, asked) && (name, depth) in asked
    requires !Library(md, name)
    ensures var r := BuildType(md, name, depth, types, fuel);
      && Kept(md, asked, types, r.types) && r.value.Some? == (name in md.defs)
      && (r.value.Some? ==> Laid(md, asked, r.types, name, r.value.value))
    decreases fuel, 4, 0, 0
  {
    if name in md.defs {
      var def := md.defs[name];
      assert Covered(md, asked, name, depth);
      if BaseOf(def).Some? { ResolveKeeps(md, asked, BaseOf(def).value, 0, types, fuel); }
      ChainEndsOnReturn(md, asked, name, depth, types, fuel);
      var r1 := InheritSlots(md, def, types, fuel);
      InheritedIsBase(md, asked, def, types, fuel);
      FieldsKeep(md, asked, def.fields, |def.fields|, depth, r1.value, r1.types, fuel);
      assert def.fields[..|def.fields|] == def.fields;
      var r2 := FieldsUpTo(md, def.fields, |def.fields|, depth, r1.value, r1.types, fuel);
      if BaseOf(def).Some? { KnownStays(md, asked, r1.types, r2.types, BaseOf(def).value); }
      BuiltIsLaid(md, asked, r2.types, name, depth, r1.value, r2.value);
    }
  }

  // What a type starts from is what the table then holds of its base.
  lemma InheritedIsBase(md: Metadata, asked: Asked, def: TypeDef, types: Types, fuel: nat)
    requires LibraryPaired(md) && Coherent(md, asked, types) && InheritSlots(md, def, types, fuel).Ret?
    requires BaseOf(def).Some? ==>
      var r := ResolveAt(md, BaseOf(def).value, 0, types, fuel);
      Coherent(md, asked, r.types) && r.value == Known(md, r.types, BaseOf(def).value)
    ensures var r := InheritSlots(md, def, types, fuel);
      Inherits(md, r.types, def, r.value)
  {
    if BaseOf(def).Some? {
      var r := ResolveAt(md, BaseOf(def).value, 0, types, fuel);
      if r.value.Some? { KnownIsPaired(md, asked, r.types, BaseOf(def).value); }
    }
  }

  // The slots of the base the table holds, and no static ones.
  ghost predicate Inherits(md: Metadata, types: Types, def: TypeDef, slots: Slots) {
    && slots.fields == InheritedFields(KnownBase(md, types, def))
    && slots.defaults == InheritedDefaults(KnownBase(md, types, def))
    && slots.statics == [] && slots.staticDefaults == []
    && |slots.fields| == |slots.defaults|
  }

  lemma BuiltIsLaid(md: Metadata, asked: Asked, types: Types, name: Name, depth: nat, init: Slots, slots: Slots)
    requires name in md.defs && !Library(md, name) && (name, depth) in asked && BaseChainEnds(md, name)
    requires Inherits(md, types, md.defs[name], init) && SlotsHold(md, asked, md.defs[name].fields, depth, init, slots)
    requires var base := BaseOf(md.defs[name]);
      base.Some? && Known(md, types, base.value).None? ==> base.value !in md.defs
    ensures Laid(md, asked, types, name, MakeType(name, md.defs[name], slots))
  {
    assert slots.staticDefaults[0..] == slots.staticDefaults;
  }

  // What a build returned for has a chain of bases that ends.
  lemma ChainEndsOnReturn(md: Metadata, asked: Asked, name: Name, depth: nat, types: Types, fuel: nat)
    requires Coherent(md, asked, types) && BuildType(md, name, depth, types, fuel).Ret? && name in md.defs
    ensures BaseChainEnds(md, name)
  {
    forall n | n in types ensures BaseChainEnds(md, n) { assert Laid(md, asked, types, n, types[n]); }
    if BaseOf(md.defs[name]).Some? {
      var base := BaseOf(md.defs[name]).value;
      if !BaseChainEnds(md, base) { EndlessNeverHalts(md, base, 0, types, fuel); }
      var k: nat :| ChainEnds(md, base, k);
      assert ChainEnds(md, name, k + 1);
    } else {
      assert ChainEnds(md, name, 0);
    }
  }

  lemma KnownIsPaired(md: Metadata, asked: Asked, types: Types, name: Name)
    requires LibraryPaired(md) && Coherent(md, asked, types) && Known(md, types, name).Some?
    ensures Paired(Known(md, types, name).value)
  {
    if name in types { assert Laid(md, asked, types, name, types[name]); }
  }

  // Growth never gives a library name to the assembly.
  lemma KnownStays(md: Metadata, asked: Asked, types: Types, types': Types, name: Name)
    requires Coherent(md, asked, types') && Grown(types, types')
    ensures name in types || Library(md, name) || name !in md.defs ==> Known(md, types', name) == Known(md, types, name)
  {
    if name in types' { assert Laid(md, asked, types', name, types'[name]); }
  }

  // What the accumulators hold after the rows fs, over what they began with.
  ghost predicate SlotsHold(md: Metadata, asked: Asked, fs: seq<Field>, depth: nat, init: Slots, slots: Slots) {
    && |slots.fields| == |slots.defaults| && |slots.statics| == |slots.staticDefaults|
    && slots.fields == init.fields + OwnFields(fs)
    && slots.statics == init.statics + OwnStatics(fs)
    && init.defaults <= slots.defaults && init.staticDefaults <= slots.staticDefaults
    && DefaultsFor(md, asked, OwnRows(fs, false), depth, slots.defaults[|init.defaults|..])
    && DefaultsFor(md, asked, OwnRows(fs, true), depth, slots.staticDefaults[|init.staticDefaults|..])
  }

  lemma {:induction false} FieldsKeep(
      md: Metadata, asked: Asked, fs: seq<Field>, k: nat, depth: nat, init: Slots, types: Types, fuel: nat)
    requires LibraryPaired(md) && Coherent(md, asked, types) && k <= |fs|
    requires Closed(md, asked) && FieldsAsk(md, asked, fs, depth)
    requires FieldsUpTo(md, fs, k, depth, init, types, fuel).Ret?
    requires |init.fields| == |init.defaults| && |init.statics| == |init.staticDefaults|
    ensures var r := FieldsUpTo(md, fs, k, depth, init, types, fuel);
      Kept(md, asked, types, r.types) && SlotsHold(md, asked, fs[..k], depth, init, r.value)
    decreases fuel, 3, 0, k
  {
    if k > 0 {
      FieldsKeep(md, asked, fs, k - 1, depth, init, types, fuel);
      var r := FieldsUpTo(md, fs, k - 1, depth, init, types, fuel);
      DefaultKeeps(md, asked, fs[k - 1], depth, r.types, fuel);
      var d := FieldDefault(md, fs[k - 1], depth, r.types, fuel).value;
      assert fs[..k][..k - 1] == fs[..k - 1];
      SlotAdded(md, asked, fs[..k], depth, init, r.value, d);
      assert FieldsUpTo(md, fs, k, depth, init, types, fuel).value == AddSlot(r.value, fs[k - 1], d);
    }
  }

  // One more row: its default goes to the slot its name goes to.
  lemma {:induction false} SlotAdded(
      md: Metadata, asked: Asked, fs: seq<Field>, depth: nat, init: Slots, slots: Slots, d: Default)
    requires fs != [] && SlotsHold(md, asked, fs[..|fs| - 1], depth, init, slots)
    requires DefaultFor(md, asked, fs[|fs| - 1], depth, d)
    ensures SlotsHold(md, asked, fs, depth, init, AddSlot(slots, fs[|fs| - 1], d))
  {
    var f := fs[|fs| - 1];
    var r := AddSlot(slots, f, d);
    if GoesStatic(f) {
      assert r.staticDefaults[|init.staticDefaults|..] == slots.staticDefaults[|init.staticDefaults|..] + [d];
    } else {
      assert r.defaults[|init.defaults|..] == slots.defaults[|init.defaults|..] + [d];
    }
  }

  lemma {:induction false} DefaultKeeps(md: Metadata, asked: Asked, f: Field, depth: nat, types: Types, fuel: nat)
    requires LibraryPaired(md) && Coherent(md, asked, types) && FieldDefault(md, f, depth, types, fuel).Ret?
    requires Closed(md, asked) && (NeedsZero(f) ==> SigAsks(md, asked, f.sig.value, depth))
    ensures var r := FieldDefault(md, f, depth, types, fuel);
      Kept(md, asked, types, r.types) && DefaultFor(md, asked, f, depth, r.value)
    decreases fuel, 2, 0, 0
  {
    if NeedsZero(f) { SigDefaultKeeps(md, asked, f.sig.value, depth, types, fuel); }
  }

  lemma {:induction false} SigDefaultKeeps(
      md: Metadata, asked: Asked, sig: Sig, depth: nat, types: Types, fuel: nat)
    requires LibraryPaired(md) && Coherent(md, asked, types) && FieldOrLocalDefault(md, sig, depth, types, fuel).Ret?
    requires Closed(md, asked) && SigAsks(md, asked, sig, depth)
    ensures var r := FieldOrLocalDefault(md, sig, depth, types, fuel);
      Kept(md, asked, types, r.types) && ZeroOf(md, asked, sig, depth, r.value)
    decreases fuel, 1, sig, 0
  {
    if IsNullable(md, sig) {
      SigDefaultKeeps(md, asked, sig.args[0], depth + 1, types, fuel);
    } else if Named(sig).Some? {
      ValueTypeKeeps(md, asked, Named(sig).value, depth, types, fuel);
    }
  }

  lemma {:induction false} ValueTypeKeeps(
      md: Metadata, asked: Asked, name: Name, depth: nat, types: Types, fuel: nat)
    requires LibraryPaired(md) && Coherent(md, asked, types) && Closed(md, asked)
    requires ValueTypeDefault(md, Some(name), depth, types, fuel).Ret?
    requires depth < MAX_VALUE_TYPE_DEPTH && name !in md.valueTypes ==> (name, depth + 1) in asked
    ensures var r := ValueTypeDefault(md, Some(name), depth, types, fuel);
      Kept(md, asked, types, r.types) && ZeroOfNamed(md, asked, name, depth, r.value)
    decreases fuel, 0, 1, 0
  {
    if depth < MAX_VALUE_TYPE_DEPTH && name !in md.valueTypes {
      ResolveKeeps(md, asked, name, depth + 1, types, fuel);
      var r := ResolveAt(md, name, depth + 1, types, fuel);
      if r.value.Some? { KnownIsZero(md, asked, name, depth, r.types); }
    }
  }

  lemma KnownIsZero(md: Metadata, asked: Asked, name: Name, depth: nat, types: Types)
    requires Coherent(md, asked, types) && name !in md.valueTypes && Known(md, types, name).Some?
    requires depth < MAX_VALUE_TYPE_DEPTH
    ensures ZeroOfNamed(md, asked, name, depth, ZeroFrom(Known(md, types, name).value))
  {
    if name in types {
      var t := types[name];
      assert Laid(md, asked, types, name, t);
      if IsValueType(md.defs[name]) { assert t.defaults[0..] == t.defaults; }
    }
  }

  // ---------------------------------------------------------------- entries and definitions

  // How many of the first i rows are static, or embedded data with a signature, or else neither.
  function Rank(fs: seq<Field>, statics: bool, i: nat): nat
    requires i <= |fs|
  {
    if i == 0 then 0
    else Rank(fs, statics, i - 1) + (if StaticRow(fs[i - 1]) == statics then 1 else 0)
  }

  predicate StaticRow(f: Field) { f.isStatic || (f.rva.Some? && f.sig.Some?) }

  lemma {:induction false} RankOfInit(fs: seq<Field>, statics: bool, i: nat)
    requires i <= |fs| - 1
    ensures Rank(fs[..|fs| - 1], statics, i) == Rank(fs, statics, i)
  {
    if i > 0 { RankOfInit(fs, statics, i - 1); }
  }

  // A row stands among its like where it stands among all of them.
  lemma {:induction false} RowAtRank(fs: seq<Field>, i: nat)
    requires i < |fs|
    ensures var st := StaticRow(fs[i]);
      && Rank(fs, st, i) < |OwnRows(fs, st)| && OwnRows(fs, st)[Rank(fs, st, i)] == fs[i]
      && |OwnStatics(fs)| == |OwnRows(fs, true)| && |OwnFields(fs)| == |OwnRows(fs, false)|
      && (if st then OwnStatics(fs) else OwnFields(fs))[Rank(fs, st, i)] == fs[i].name
    decreases |fs|
  {
    var init := fs[..|fs| - 1];
    LikeRows(fs);
    LikeRows(init);
    RankOfInit(fs, StaticRow(fs[i]), i);
    if i < |init| { RowAtRank(init, i); }
  }

  lemma {:induction false} LikeRows(fs: seq<Field>)
    ensures |OwnRows(fs, true)| == |OwnStatics(fs)| == Rank(fs, true, |fs|)
    ensures |OwnRows(fs, false)| == |OwnFields(fs)| == Rank(fs, false, |fs|)
  {
    if fs != [] {
      LikeRows(fs[..|fs| - 1]);
      RankOfInit(fs, true, |fs| - 1);
      RankOfInit(fs, false, |fs| - 1);
    }
  }

  // An entry is an enum, a value type or a class with the base its definition names, unless that is
  // the root.
  lemma EntryFollowsParent(md: Metadata, asked: Asked, types: Types, n: Name)
    requires Coherent(md, asked, types) && n in types && n in md.defs
    ensures var t, parent := types[n], md.defs[n].parent;
      && (t.isEnum <==> parent == Base("System.Enum"))
      && (t.isValueType <==> parent == Base("System.Enum") || parent == Base("System.ValueType"))
      && (forall b :: t.base == Some(b) <==>
            parent == Base(b) && b !in {"System.Object", "System.ValueType", "System.Enum"})
  {
    assert Laid(md, asked, types, n, types[n]);
  }

  // Where the i-th row stands in an entry with these inherited fields.
  predicate RowStands(fs: seq<Field>, inherited: seq<string>, t: TypeInfo, i: nat)
    requires i < |fs|
  {
    && |t.fields| == |t.defaults| == |inherited| + Rank(fs, false, |fs|)
    && |t.statics| == |t.staticDefaults| == Rank(fs, true, |fs|)
    && if StaticRow(fs[i]) then
         var k := Rank(fs, true, i); k < |t.statics| && t.statics[k] == fs[i].name
       else
         var k := |inherited| + Rank(fs, false, i); k < |t.fields| && t.fields[k] == fs[i].name
  }

  lemma NamesAtRank(fs: seq<Field>, inherited: seq<string>, t: TypeInfo, i: nat)
    requires i < |fs| && Paired(t)
    requires t.fields == inherited + OwnFields(fs) && t.statics == OwnStatics(fs)
    ensures RowStands(fs, inherited, t, i)
  {
    RowAtRank(fs, i);
    LikeRows(fs);
  }

  lemma EntryNames(md: Metadata, asked: Asked, types: Types, n: Name)
    requires Coherent(md, asked, types) && n in types && n in md.defs
    ensures var t, fs := types[n], md.defs[n].fields;
      var base := if t.base.Some? then Known(md, types, t.base.value) else None;
      t.fields == InheritedFields(base) + OwnFields(fs) && t.statics == OwnStatics(fs) && Paired(t)
  {
    assert Laid(md, asked, types, n, types[n]);
  }

  // Each row's name, with its default beside it, stands after the inherited ones at its rank among
  // the instance rows, or at its rank among the static ones.
  lemma EntryFollowsRows(md: Metadata, asked: Asked, types: Types, n: Name, i: nat)
    requires Coherent(md, asked, types) && n in types && n in md.defs && i < |md.defs[n].fields|
    ensures var base := if types[n].base.Some? then Known(md, types, types[n].base.value) else None;
      RowStands(md.defs[n].fields, InheritedFields(base), types[n], i)
  {
    EntryNames(md, asked, types, n);
    var base := if types[n].base.Some? then Known(md, types, types[n].base.value) else None;
    NamesAtRank(md.defs[n].fields, InheritedFields(base), types[n], i);
  }

  // ---------------------------------------------------------------- inherited slots

  // The k-th class up the chain of bases.
  function Ancestor(md: Metadata, name: Name, k: nat): Option<Name>
    decreases k
  {
    if k == 0 then Some(name)
    else if name !in md.defs || Library(md, name) || BaseOf(md.defs[name]).None? then None
    else Ancestor(md, BaseOf(md.defs[name]).value, k - 1)
  }

  // A field keeps its slot, and the slot its default, all the way down the hierarchy: what an
  // ancestor lays out is a prefix of what the class lays out.
  lemma {:induction false} AncestorLayoutIsPrefix(md: Metadata, asked: Asked, types: Types, name: Name, k: nat)
    requires LibraryPaired(md) && Coherent(md, asked, types) && name in types
    requires Ancestor(md, name, k).Some? && Known(md, types, Ancestor(md, name, k).value).Some?
    ensures var a := Known(md, types, Ancestor(md, name, k).value).value;
      a.fields <= types[name].fields && a.defaults <= types[name].defaults && Paired(a) && Paired(types[name])
    decreases k
  {
    assert Laid(md, asked, types, name, types[name]);
    if k > 0 {
      var base := BaseOf(md.defs[name]).value;
      if base in types {
        AncestorLayoutIsPrefix(md, asked, types, base, k - 1);
      } else {
        assert Ancestor(md, name, k) == Ancestor(md, base, k - 1);
      }
    }
  }

  // Every class of the chain whose definition the assembly has is in the table once the class is,
  // so the prefix law holds for all of them.
  lemma {:induction false} AncestorsAreKnown(md: Metadata, asked: Asked, types: Types, name: Name, k: nat)
    requires Coherent(md, asked, types) && name in types && Ancestor(md, name, k).Some?
    requires Ancestor(md, name, k).value in md.defs || Library(md, Ancestor(md, name, k).value)
    ensures Known(md, types, Ancestor(md, name, k).value).Some?
    decreases k
  {
    assert Laid(md, asked, types, name, types[name]);
    if k > 0 {
      var base := BaseOf(md.defs[name]).value;
      if base in types { AncestorsAreKnown(md, asked, types, base, k - 1); }
    }
  }

  // Starting from an empty table, any sequence of top-level resolutions keeps these laws and
  // never replaces an entry.
  function ResolveAll(md: Metadata, names: seq<Name>, types: Types, fuel: nat): Outcome<()> {
    if names == [] then Ret((), types)
    else match ResolveAt(md, names[0], 0, types, fuel)
      case Exhausted => Exhausted
      case Ret(_, types') => ResolveAll(md, names[1..], types', fuel)
  }

  lemma {:induction false} ResolveAllKeeps(md: Metadata, asked: Asked, names: seq<Name>, types: Types, fuel: nat)
    requires LibraryPaired(md) && Coherent(md, asked, types) && ResolveAll(md, names, types, fuel).Ret?
    requires Closed(md, asked) && forall n :: n in names ==> (n, 0) in asked
    ensures Kept(md, asked, types, ResolveAll(md, names, types, fuel).types)
  {
    if names != [] {
      ResolveKeeps(md, asked, names[0], 0, types, fuel);
      ResolveAllKeeps(md, asked, names[1..], ResolveAt(md, names[0], 0, types, fuel).types, fuel);
    }
  }

  // Field and static names depend on the metadata alone: two tables filled in any two orders, by
  // resolutions asking for anything, agree on every type they share.
  lemma LayoutIgnoresOrder(md: Metadata, asked: Asked, asked': Asked, types: Types, types': Types, name: Name)
    requires Coherent(md, asked, types) && Coherent(md, asked', types') && name in types && name in types'
    ensures types[name].fields == types'[name].fields && types[name].statics == types'[name].statics
  {
    assert Laid(md, asked, types, name, types[name]);
    var k: nat :| ChainEnds(md, name, k);
    SameLayout(md, asked, asked', types, types', name, k);
  }

  lemma {:induction false} SameLayout(
      md: Metadata, asked: Asked, asked': Asked, types: Types, types': Types, name: Name, k: nat)
    requires Coherent(md, asked, types) && Coherent(md, asked', types') && name in types && name in types'
    requires ChainEnds(md, name, k)
    ensures types[name].fields == types'[name].fields && types[name].statics == types'[name].statics
    decreases k
  {
    assert Laid(md, asked, types, name, types[name]) && Laid(md, asked', types', name, types'[name]);
    if BaseOf(md.defs[name]).Some? {
      var base := BaseOf(md.defs[name]).value;
      if base in types { assert Laid(md, asked, types, base, types[base]); }
      if base in types' { assert Laid(md, asked', types', base, types'[base]); }
      if base in types && base in types' { SameLayout(md, asked, asked', types, types', base, k - 1); }
    }
  }

  // Defaults do not have that independence. Two structs that contain each other, resolved in one
  // order or the other, end up with different default values for the same type.
  function Mutual(): Metadata {
    Metadata(map["A" := TypeDef(Base("System.ValueType"), [Field("b", false, None, None, Some(ValueType(Some("B"))))]),
                 "B" := TypeDef(Base("System.ValueType"), [Field("a", false, None, None, Some(ValueType(Some("A"))))])],
             map[], map[], map[])
  }

  function Info(name: Name, d: Default): TypeInfo {
    TypeInfo(name, [if name == "A" then "b" else "a"], [d], [], [], true, false, None)
  }

  function Other(name: Name): Name { if name == "A" then "B" else "A" }

  // The innermost build, at the depth limit, is stored first: which of the two that is depends
  // on the parity of the depth.
  function MutualTable(name: Name, depth: nat): Types {
    if depth == 24 then map[name := Info(name, Null)]
    else
      var inner := if depth % 2 == 0 then name else Other(name);
      map[inner := Info(inner, Null), Other(inner) := Info(Other(inner), Struct(inner, [Null]))]
  }

  // One build of either struct, given what its only field's default comes to.
  lemma MutualBuildOnce(name: Name, depth: nat, fuel: nat, d: Default, types: Types)
    requires (name == "A" || name == "B")
    requires FieldOrLocalDefault(Mutual(), ValueType(Some(Other(name))), depth, map[], fuel) == Ret(d, types)
    ensures BuildType(Mutual(), name, depth, map[], fuel) == Ret(Some(Info(name, d)), types)
  {
    var md := Mutual();
    var def := md.defs[name];
    var f, init := def.fields[0], Slots([], [], [], []);
    assert BaseOf(def) == None;
    assert FieldDefault(md, f, depth, map[], fuel) == Ret(d, types);
    assert FieldsUpTo(md, def.fields, 0, depth, init, map[], fuel) == Ret(init, map[]);
    assert AddSlot(init, f, d) == Slots([f.name], [d], [], []);
    assert FieldsUpTo(md, def.fields, 1, depth, init, map[], fuel) == Ret(Slots([f.name], [d], [], []), types);
    assert InheritSlots(md, def, map[], fuel) == Ret(init, map[]);
    assert Info(name, d) == MakeType(name, def, Slots([f.name], [d], [], []));
  }

  lemma MutualResolve(name: Name, depth: nat, fuel: nat, d: Default, types: Types)
    requires (name == "A" || name == "B") && fuel > 0
    requires FieldOrLocalDefault(Mutual(), ValueType(Some(Other(name))), depth, map[], fuel - 1) == Ret(d, types)
    ensures ResolveAt(Mutual(), name, depth, map[], fuel)
         == if name in types then Ret(Some(types[name]), types)
            else Ret(Some(Info(name, d)), types[name := Info(name, d)])
  {
    MutualBuildOnce(name, depth, fuel - 1, d, types);
  }

  lemma MutualDefault(name: Name, depth: nat, fuel: nat, t: TypeInfo, types: Types)
    requires (name == "A" || name == "B") && depth < 24 && t.isValueType && !t.isEnum
    requires ResolveAt(Mutual(), Other(name), depth + 1, map[], fuel) == Ret(Some(t), types)
    ensures FieldOrLocalDefault(Mutual(), ValueType(Some(Other(name))), depth, map[], fuel) == Ret(NewStruct(t), types)
  {}

  lemma MutualTableStep(name: Name, depth: nat)
    requires (name == "A" || name == "B") && depth < 24
    ensures var inner, other := MutualTable(Other(name), depth + 1), Other(name);
      var d := Struct(other, inner[other].defaults);
      && inner[other].isValueType && !inner[other].isEnum && NewStruct(inner[other]) == d
      && MutualTable(name, depth) == (if name in inner then inner else inner[name := Info(name, d)])
  {
    var inner := MutualTable(Other(name), depth + 1);
    assert Other(Other(name)) == name;
    if depth < 23 {
      assert MutualTable(name, depth) == inner;
    } else {
      assert inner == map[Other(name) := Info(Other(name), Null)];
    }
  }

  lemma {:induction false} MutualBuild(name: Name, depth: nat, fuel: nat)
    requires (name == "A" || name == "B") && depth <= 24 && fuel == 25 - depth
    ensures ResolveAt(Mutual(), name, depth, map[], fuel)
         == Ret(Some(MutualTable(name, depth)[name]), MutualTable(name, depth))
    decreases 24 - depth
  {
    if depth < 24 {
      var other := Other(name);
      var inner := MutualTable(other, depth + 1);
      MutualBuild(other, depth + 1, fuel - 1);
      MutualTableStep(name, depth);
      MutualDefault(name, depth, fuel - 1, inner[other], inner);
      MutualResolve(name, depth, fuel, NewStruct(inner[other]), inner);
    } else {
      MutualResolve(name, depth, fuel, Null, map[]);
    }
  }

  lemma DefaultsDependOnOrder()
    ensures var md := Mutual();
      var ab := ResolveAll(md, ["A", "B"], map[], 25);
      var ba := ResolveAll(md, ["B", "A"], map[], 25);
      && ab.Ret? && ba.Ret? && "A" in ab.types && "A" in ba.types
      && ab.types["A"].defaults == [Null] && ba.types["A"].defaults == [Struct("B", [Null])]
  {
    MutualBuild("A", 0, 25);
    MutualBuild("B", 0, 25);
    var md := Mutual();
    assert MutualTable("A", 0) == map["A" := Info("A", Null), "B" := Info("B", Struct("A", [Null]))];
    assert MutualTable("B", 0) == map["B" := Info("B", Null), "A" := Info("A", Struct("B", [Null]))];
    assert ResolveAll(md, ["A", "B"][1..], MutualTable("A", 0), 25).types == MutualTable("A", 0);
    assert ResolveAll(md, ["B", "A"][1..], MutualTable("B", 0), 25).types == MutualTable("B", 0);
  }
}
