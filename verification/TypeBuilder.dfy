// buildType and the default values of fields (assembly.go:2201-2363, 2619-2745) within one
// assembly, called by one thread. What dependencies and the cross-package index serve is fixed here;
// module SharedLayout has the resolutions that serve it.
//
// The functions carry the `types` table along and a fuel: the number of buildType activations
// that may be nested. Exhausted means that number did not suffice; the source has no such
// limit, so running out at every fuel is its unbounded recursion.
module TypeBuilder {
  import opened Common

  type Name = string

  // A signature, with its type token already resolved to a name where that is possible.
  datatype Sig =
    | SmallInt                                          // bool, char and the integers up to 32 bits
    | LongInt
    | Single
    | Double
    | ValueType(token: Option<Name>)
    | GenericValue(token: Option<Name>, args: seq<Sig>)
    | Reference                                         // every other shape

  datatype Default =
    | Null | False | Int32Zero | Int64Zero | Float32Zero | Float64Zero
    | Blob(rva: nat)
    | Constant(row: nat)
    | Struct(typeName: Name, values: seq<Default>)

  datatype Field = Field(
    name: string,
    isStatic: bool,
    rva: Option<nat>,             // embedded data, if the field has it
    constant: Option<Default>,    // literal fields: the decoded Constant row, Null if undecodable
    sig: Option<Sig>)             // None if the signature does not parse

  datatype Parent = NoBase | Unresolvable | Base(name: Name)

  datatype TypeDef = TypeDef(parent: Parent, fields: seq<Field>)

  datatype TypeInfo = TypeInfo(
    name: Name, fields: seq<string>, defaults: seq<Default>,
    statics: seq<string>, staticDefaults: seq<Default>,
    isValueType: bool, isEnum: bool, base: Option<Name>)

  type Types = map<Name, TypeInfo>

  // The assembly's own type definitions, the base library's two registries, and the types other
  // assemblies serve for names it does not declare.
  datatype Metadata = Metadata(defs: map<Name, TypeDef>, valueTypes: Types, staticHosts: Types, imports: Types)

  function Imported(md: Metadata, name: Name): Option<TypeInfo> {
    if name in md.imports then Some(md.imports[name]) else None
  }

  datatype Outcome<+T> = Exhausted | Ret(value: T, types: Types)

  datatype Slots = Slots(
    fields: seq<string>, defaults: seq<Default>, statics: seq<string>, staticDefaults: seq<Default>)

  const MAX_VALUE_TYPE_DEPTH: nat := 24
  const NULLABLE: Name := "System.Nullable`1"

  predicate IsValueType(def: TypeDef) {
    def.parent == Base("System.ValueType") || def.parent == Base("System.Enum")
  }

  predicate IsEnum(def: TypeDef) { def.parent == Base("System.Enum") }

  // The base whose fields are inherited.
  function BaseOf(def: TypeDef): Option<Name> {
    if def.parent.Base? && !IsValueType(def) && def.parent.name != "System.Object"
    then Some(def.parent.name) else None
  }

  function NewStruct(t: TypeInfo): Default { Struct(t.name, t.defaults) }

  // ---------------------------------------------------------------- the build, with its table

  function ResolveAt(md: Metadata, name: Name, depth: nat, types: Types, fuel: nat): Outcome<Option<TypeInfo>>
    decreases fuel, 0, 0, 0
  {
    if name in types then Ret(Some(types[name]), types)
    else if name in md.valueTypes then Ret(Some(md.valueTypes[name]), types)
    else if name in md.staticHosts then Ret(Some(md.staticHosts[name]), types)
    else if fuel == 0 then Exhausted
    else match BuildType(md, name, depth, types, fuel - 1)
      case Exhausted => Exhausted
      case Ret(None, types') => Ret(Imported(md, name), types')
      case Ret(Some(t), types') =>
        if name in types' then Ret(Some(types'[name]), types') else Ret(Some(t), types'[name := t])
  }

  function BuildType(md: Metadata, name: Name, depth: nat, types: Types, fuel: nat): Outcome<Option<TypeInfo>>
    decreases fuel, 4, 0, 0
  {
    if name !in md.defs then Ret(None, types)
    else
      var def := md.defs[name];
      match InheritSlots(md, def, types, fuel)
      case Exhausted => Exhausted
      case Ret(inherited, types1) =>
        match FieldsUpTo(md, def.fields, |def.fields|, depth, inherited, types1, fuel)
        case Exhausted => Exhausted
        case Ret(slots, types2) => Ret(Some(MakeType(name, def, slots)), types2)
  }

  function MakeType(name: Name, def: TypeDef, slots: Slots): TypeInfo {
    TypeInfo(name, slots.fields, slots.defaults, slots.statics, slots.staticDefaults,
             IsValueType(def), IsEnum(def), BaseOf(def))
  }

  // The base's slots come first; a base that does not resolve contributes none.
  function InheritSlots(md: Metadata, def: TypeDef, types: Types, fuel: nat): Outcome<Slots>
    decreases fuel, 3, 0, 0
  {
    match BaseOf(def)
    case None => Ret(Slots([], [], [], []), types)
    case Some(base) =>
      match ResolveAt(md, base, 0, types, fuel)
      case Exhausted => Exhausted
      case Ret(None, types') => Ret(Slots([], [], [], []), types')
      case Ret(Some(t), types') => Ret(Slots(t.fields, t.defaults, [], []), types')
  }

  // The accumulators after the first k field rows.
  function FieldsUpTo(md: Metadata, fs: seq<Field>, k: nat, depth: nat, init: Slots, types: Types, fuel: nat)
    : Outcome<Slots>
    requires k <= |fs|
    decreases fuel, 3, 0, k
  {
    if k == 0 then Ret(init, types)
    else match FieldsUpTo(md, fs, k - 1, depth, init, types, fuel)
      case Exhausted => Exhausted
      case Ret(slots, types1) =>
        match FieldDefault(md, fs[k - 1], depth, types1, fuel)
        case Exhausted => Exhausted
        case Ret(d, types2) => Ret(AddSlot(slots, fs[k - 1], d), types2)
  }

  predicate GoesStatic(f: Field) { f.isStatic || (f.rva.Some? && f.sig.Some?) }

  function AddSlot(slots: Slots, f: Field, d: Default): Slots {
    if GoesStatic(f)
    then slots.(statics := slots.statics + [f.name], staticDefaults := slots.staticDefaults + [d])
    else slots.(fields := slots.fields + [f.name], defaults := slots.defaults + [d])
  }

  function FieldDefault(md: Metadata, f: Field, depth: nat, types: Types, fuel: nat): Outcome<Default>
    decreases fuel, 2, 0, 0
  {
    if f.sig.Some? && f.rva.Some? then Ret(Blob(f.rva.value), types)
    else if f.constant.Some? then Ret(f.constant.value, types)
    else if f.sig.Some? then FieldOrLocalDefault(md, f.sig.value, depth, types, fuel)
    else Ret(Null, types)
  }

  function FieldOrLocalDefault(md: Metadata, sig: Sig, depth: nat, types: Types, fuel: nat): Outcome<Default>
    decreases fuel, 1, sig, 0
  {
    match sig
    case SmallInt => Ret(Int32Zero, types)
    case LongInt => Ret(Int64Zero, types)
    case Single => Ret(Float32Zero, types)
    case Double => Ret(Float64Zero, types)
    case Reference => Ret(Null, types)
    case ValueType(token) => ValueTypeDefault(md, token, depth, types, fuel)
    case GenericValue(token, args) =>
      if |args| == 1 && token == Some(NULLABLE) && NULLABLE in md.valueTypes then
        match FieldOrLocalDefault(md, args[0], depth + 1, types, fuel)
        case Exhausted => Exhausted
        case Ret(d, types') => Ret(Struct(md.valueTypes[NULLABLE].name, [False, d]), types')
      else ValueTypeDefault(md, token, depth, types, fuel)
  }

  function ValueTypeDefault(md: Metadata, token: Option<Name>, depth: nat, types: Types, fuel: nat): Outcome<Default>
    decreases fuel, 0, 1, 0
  {
    if depth >= MAX_VALUE_TYPE_DEPTH || token.None? then Ret(Null, types)
    else if token.value in md.valueTypes then Ret(NewStruct(md.valueTypes[token.value]), types)
    else match ResolveAt(md, token.value, depth + 1, types, fuel)
      case Exhausted => Exhausted
      case Ret(t, types') =>
        Ret(if t.None? || !t.value.isValueType then Null
            else if t.value.isEnum then Int32Zero
            else NewStruct(t.value), types')
  }

  // ---------------------------------------------------------------- halting

  // The chain of bases from `name` leaves the assembly's own classes within k steps.
  ghost predicate ChainEnds(md: Metadata, name: Name, k: nat)
    decreases k
  {
    || name in md.valueTypes || name in md.staticHosts || name !in md.defs
    || BaseOf(md.defs[name]).None?
    || (k > 0 && ChainEnds(md, BaseOf(md.defs[name]).value, k - 1))
  }

  // A value-type signature names a value type (section II.23.2.12 of ECMA-335).
  ghost predicate SigWellKinded(md: Metadata, sig: Sig)
    decreases sig
  {
    match sig
    case ValueType(Some(n)) => n in md.defs ==> IsValueType(md.defs[n])
    case GenericValue(token, args) =>
      && (token.Some? && token.value in md.defs ==> IsValueType(md.defs[token.value]))
      && forall i :: 0 <= i < |args| ==> SigWellKinded(md, args[i])
    case _ => true
  }

  ghost predicate WellKinded(md: Metadata) {
    forall n, i :: n in md.defs && 0 <= i < |md.defs[n].fields| && md.defs[n].fields[i].sig.Some? ==>
      SigWellKinded(md, md.defs[n].fields[i].sig.value)
  }

  // Nested builds still possible below a value type at this depth.
  function Remaining(depth: nat): nat { if depth < MAX_VALUE_TYPE_DEPTH then MAX_VALUE_TYPE_DEPTH - depth else 0 }

  lemma {:induction false} ValueTypeHalts(md: Metadata, name: Name, depth: nat, types: Types, fuel: nat)
    requires WellKinded(md) && fuel >= Remaining(depth) + 1
    requires name in md.defs ==> IsValueType(md.defs[name])
    ensures ResolveAt(md, name, depth, types, fuel).Ret?
    decreases fuel, 0, 0, 0
  {
    if name in md.defs {
      var fs := md.defs[name].fields;
      FieldsHalt(md, fs, |fs|, depth, Slots([], [], [], []), types, fuel - 1);
      assert BuildType(md, name, depth, types, fuel - 1).Ret?;
    }
  }

  lemma {:induction false} FieldsHalt(
      md: Metadata, fs: seq<Field>, k: nat, depth: nat, init: Slots, types: Types, fuel: nat)
    requires WellKinded(md) && k <= |fs| && fuel >= Remaining(depth)
    requires forall i :: 0 <= i < |fs| && fs[i].sig.Some? ==> SigWellKinded(md, fs[i].sig.value)
    ensures FieldsUpTo(md, fs, k, depth, init, types, fuel).Ret?
    decreases fuel, 3, 0, k
  {
    if k > 0 {
      FieldsHalt(md, fs, k - 1, depth, init, types, fuel);
      var types1 := FieldsUpTo(md, fs, k - 1, depth, init, types, fuel).types;
      if fs[k - 1].sig.Some? { DefaultHalts(md, fs[k - 1].sig.value, depth, types1, fuel); }
    }
  }

  lemma {:induction false} DefaultHalts(md: Metadata, sig: Sig, depth: nat, types: Types, fuel: nat)
    requires WellKinded(md) && SigWellKinded(md, sig) && fuel >= Remaining(depth)
    ensures FieldOrLocalDefault(md, sig, depth, types, fuel).Ret?
    decreases fuel, 1, sig, 0
  {
    if sig.GenericValue? && |sig.args| == 1 { DefaultHalts(md, sig.args[0], depth + 1, types, fuel); }
    if (sig.ValueType? || sig.GenericValue?) && sig.token.Some? && depth < MAX_VALUE_TYPE_DEPTH {
      ValueTypeHalts(md, sig.token.value, depth + 1, types, fuel);
    }
  }

  // However struct fields refer to one another, at most (length of the base chain) + 25
  // activations of buildType are ever nested.
  lemma {:induction false} ResolveHalts(md: Metadata, name: Name, depth: nat, types: Types, fuel: nat, k: nat)
    requires WellKinded(md) && ChainEnds(md, name, k) && fuel >= k + MAX_VALUE_TYPE_DEPTH + 1
    ensures ResolveAt(md, name, depth, types, fuel).Ret?
    decreases k
  {
    if name !in types && name !in md.valueTypes && name !in md.staticHosts && name in md.defs {
      var def := md.defs[name];
      if BaseOf(def).Some? { ResolveHalts(md, BaseOf(def).value, 0, types, fuel - 1, k - 1); }
      var r := InheritSlots(md, def, types, fuel - 1);
      FieldsHalt(md, def.fields, |def.fields|, depth, r.value, r.types, fuel - 1);
      assert BuildType(md, name, depth, types, fuel - 1).Ret?;
    }
  }

  ghost predicate BaseChainEnds(md: Metadata, name: Name) { exists k: nat :: ChainEnds(md, name, k) }

  lemma {:induction false} EndlessNeverHalts(md: Metadata, name: Name, depth: nat, types: Types, fuel: nat)
    requires !BaseChainEnds(md, name) && (forall n :: n in types ==> BaseChainEnds(md, n))
    ensures ResolveAt(md, name, depth, types, fuel) == Exhausted
    decreases fuel
  {
    assert !ChainEnds(md, name, 0);
    var base := BaseOf(md.defs[name]).value;
    forall k: nat ensures !ChainEnds(md, base, k) { assert !ChainEnds(md, name, k + 1); }
    if fuel > 0 {
      EndlessNeverHalts(md, base, 0, types, fuel - 1);
      assert InheritSlots(md, md.defs[name], types, fuel - 1) == Exhausted;
      assert BuildType(md, name, depth, types, fuel - 1) == Exhausted;
    }
  }

  ghost predicate Halts(md: Metadata, name: Name, depth: nat) {
    exists fuel: nat :: ResolveAt(md, name, depth, map[], fuel).Ret?
  }

  // Resolution of a name halts exactly when its chain of bases ends: no other recursion (through
  // self-referential, mutually nested or nullable struct fields) can run away.
  lemma HaltsIffBaseChainEnds(md: Metadata, name: Name, depth: nat)
    requires WellKinded(md)
    ensures Halts(md, name, depth) <==> BaseChainEnds(md, name)
  {
    if BaseChainEnds(md, name) {
      var k: nat :| ChainEnds(md, name, k);
      var fuel := k + MAX_VALUE_TYPE_DEPTH + 1;
      ResolveHalts(md, name, depth, map[], fuel, k);
      assert ResolveAt(md, name, depth, map[], fuel).Ret?;
    } else {
      forall fuel: nat ensures ResolveAt(md, name, depth, map[], fuel) == Exhausted {
        EndlessNeverHalts(md, name, depth, map[], fuel);
      }
    }
  }

  // Without the guarantee on signatures the depth limit does not help: a field of a class whose
  // signature calls a derived class a value type restarts the depth at every base.
  function MisKinded(): Metadata {
    Metadata(map["Root" := TypeDef(NoBase, [Field("f", false, None, None, Some(ValueType(Some("Derived"))))]),
                 "Derived" := TypeDef(Base("Root"), [])], map[], map[], map[])
  }

  lemma {:induction false} MisKindedSignatureNeverHalts(depth: nat, fuel: nat)
    requires depth < MAX_VALUE_TYPE_DEPTH
    ensures ChainEnds(MisKinded(), "Derived", 1) && ChainEnds(MisKinded(), "Root", 0)
    ensures ResolveAt(MisKinded(), "Root", depth, map[], fuel) == Exhausted
    decreases fuel
  {
    var md := MisKinded();
    var root, derived := md.defs["Root"], md.defs["Derived"];
    assert BaseOf(derived) == Some("Root") && BaseOf(root) == None;
    assert ChainEnds(md, "Root", 0);
    if fuel >= 2 {
      MisKindedSignatureNeverHalts(0, fuel - 2);
      assert InheritSlots(md, derived, map[], fuel - 2) == Exhausted;
      assert BuildType(md, "Derived", depth + 1, map[], fuel - 2) == Exhausted;
    }
    if fuel >= 1 {
      assert ResolveAt(md, "Derived", depth + 1, map[], fuel - 1) == Exhausted;
      assert FieldOrLocalDefault(md, ValueType(Some("Derived")), depth, map[], fuel - 1) == Exhausted;
      assert FieldDefault(md, root.fields[0], depth, map[], fuel - 1) == Exhausted;
      assert FieldsUpTo(md, root.fields, 0, depth, Slots([], [], [], []), map[], fuel - 1).Ret?;
      assert FieldsUpTo(md, root.fields, 1, depth, Slots([], [], [], []), map[], fuel - 1) == Exhausted;
      assert BuildType(md, "Root", depth, map[], fuel - 1) == Exhausted;
    }
  }
}
