// When the default values of types do not depend on the order in which types are resolved
// (assembly.go:2219-2336, 2619-2745): exactly what metadata alone says they are, as long as value
// types are nested no deeper than the limit.
module TypeDefaults {
  import opened Common
  import opened TypeBuilder
  import opened TypeLayout

  // ---------------------------------------------------------------- full defaults

  // The zero value of a signature computed from the metadata alone, with h levels of nesting to go;
  // None where more are needed.
  function FullSig(md: Metadata, sig: Sig, h: nat): Option<Default>
    decreases h, 1, sig, 0
  {
    match sig
    case SmallInt => Some(Int32Zero)
    case LongInt => Some(Int64Zero)
    case Single => Some(Float32Zero)
    case Double => Some(Float64Zero)
    case Reference => Some(Null)
    case ValueType(token) => if token.Some? then FullNamed(md, token.value, h) else Some(Null)
    case GenericValue(token, args) =>
      if IsNullable(md, sig) then
        (match FullSig(md, args[0], if h == 0 then 0 else h - 1)
         case None => None
         case Some(d) => Some(Struct(md.valueTypes[NULLABLE].name, [False, d])))
      else if token.Some? then FullNamed(md, token.value, h)
      else Some(Null)
  }

  // A name that is not that of a value type has no full default if the assembly declares it.
  function FullNamed(md: Metadata, name: Name, h: nat): Option<Default>
    decreases h, 0, 0, 0
  {
    if h == 0 then None
    else if name in md.valueTypes then Some(NewStruct(md.valueTypes[name]))
    else if name in md.staticHosts then Some(ZeroFrom(md.staticHosts[name]))
    else if name !in md.defs then Some(if name in md.imports then ZeroFrom(md.imports[name]) else Null)
    else if !IsValueType(md.defs[name]) then None
    else match FullOwn(md, name, h - 1)
      case None => None
      case Some((own, _)) => Some(if IsEnum(md.defs[name]) then Int32Zero else Struct(name, own))
  }

  // The defaults of a type's own instance fields and of its static ones.
  function FullOwn(md: Metadata, name: Name, h: nat): Option<(seq<Default>, seq<Default>)>
    requires name in md.defs
    decreases h, 4, 0, 0
  {
    match (FullRows(md, OwnRows(md.defs[name].fields, false), h), FullRows(md, OwnRows(md.defs[name].fields, true), h))
    case (Some(own), Some(statics)) => Some((own, statics))
    case _ => None
  }

  function FullRows(md: Metadata, rows: seq<Field>, h: nat): Option<seq<Default>>
    decreases h, 3, 0, |rows|
  {
    if rows == [] then Some([])
    else match (FullRows(md, rows[..|rows| - 1], h), FullField(md, rows[|rows| - 1], h))
      case (Some(ds), Some(d)) => Some(ds + [d])
      case _ => None
  }

  function FullField(md: Metadata, f: Field, h: nat): Option<Default>
    decreases h, 2, 0, 0
  {
    if f.sig.Some? && f.rva.Some? then Some(Blob(f.rva.value))
    else if f.constant.Some? then f.constant
    else if f.sig.Some? then FullSig(md, f.sig.value, h)
    else Some(Null)
  }

  predicate FullAt(md: Metadata, name: Name, h: nat) {
    name in md.defs && !Library(md, name) ==> FullOwn(md, name, h).Some?
  }

  // ---------------------------------------------------------------- more levels change nothing

  lemma {:induction false} SigSettled(md: Metadata, sig: Sig, h: nat, more: nat)
    requires h <= more && FullSig(md, sig, h).Some?
    ensures FullSig(md, sig, more) == FullSig(md, sig, h)
    decreases h, 1, sig, 0
  {
    if IsNullable(md, sig) {
      SigSettled(md, sig.args[0], if h == 0 then 0 else h - 1, if more == 0 then 0 else more - 1);
    } else if Named(sig).Some? {
      var name := Named(sig).value;
      if !Library(md, name) && name in md.defs { OwnSettled(md, name, h - 1, more - 1); }
    }
  }

  lemma {:induction false} OwnSettled(md: Metadata, name: Name, h: nat, more: nat)
    requires name in md.defs && h <= more && FullOwn(md, name, h).Some?
    ensures FullOwn(md, name, more) == FullOwn(md, name, h)
    decreases h, 4, 0, 0
  {
    RowsSettled(md, OwnRows(md.defs[name].fields, false), h, more);
    RowsSettled(md, OwnRows(md.defs[name].fields, true), h, more);
  }

  lemma {:induction false} RowsSettled(md: Metadata, rows: seq<Field>, h: nat, more: nat)
    requires h <= more && FullRows(md, rows, h).Some?
    ensures FullRows(md, rows, more) == FullRows(md, rows, h)
    decreases h, 3, 0, |rows|
  {
    if rows != [] {
      RowsSettled(md, rows[..|rows| - 1], h, more);
      var f := rows[|rows| - 1];
      if NeedsZero(f) { SigSettled(md, f.sig.value, h, more); }
    }
  }

  lemma {:induction false} RowsAt(md: Metadata, rows: seq<Field>, h: nat, i: nat)
    requires FullRows(md, rows, h).Some? && i < |rows|
    ensures |FullRows(md, rows, h).value| == |rows|
    ensures FullField(md, rows[i], h) == Some(FullRows(md, rows, h).value[i])
  {
    RowsLength(md, rows, h);
    RowsLength(md, rows[..|rows| - 1], h);
    if i < |rows| - 1 { RowsAt(md, rows[..|rows| - 1], h, i); }
  }

  lemma {:induction false} RowsLength(md: Metadata, rows: seq<Field>, h: nat)
    ensures FullRows(md, rows, h).Some? ==> |FullRows(md, rows, h).value| == |rows|
  {
    if rows != [] { RowsLength(md, rows[..|rows| - 1], h); }
  }

  // ---------------------------------------------------------------- tables hold full defaults

  // Everything asked for has full defaults from the depth it is asked for at.
  ghost predicate AllFull(md: Metadata, asked: Asked) {
    forall n, d :: (n, d) in asked ==> d <= MAX_VALUE_TYPE_DEPTH && FullAt(md, n, MAX_VALUE_TYPE_DEPTH - d)
  }

  lemma {:induction false} ZeroIsFull(md: Metadata, asked: Asked, sig: Sig, depth: nat, d: Default)
    requires AllFull(md, asked) && ZeroOf(md, asked, sig, depth, d) && FullSig(md, sig, Remaining(depth)).Some?
    ensures Some(d) == FullSig(md, sig, Remaining(depth))
    decreases d, 0
  {
    if IsNullable(md, sig) {
      ZeroIsFull(md, asked, sig.args[0], depth + 1, d.values[1]);
      assert d.values == [False, d.values[1]];
    } else if Named(sig).Some? {
      var name := Named(sig).value;
      if depth < MAX_VALUE_TYPE_DEPTH && !Library(md, name) && name in md.defs && !IsEnum(md.defs[name]) {
        HeldIsFull(md, asked, name, OwnRows(md.defs[name].fields, false), d.values);
        OwnSettled(md, name, Remaining(depth) - 1, MAX_VALUE_TYPE_DEPTH);
      }
    }
  }

  // Held defaults are the full ones at whatever depth the type was built.
  lemma {:induction false} HeldIsFull(md: Metadata, asked: Asked, name: Name, rows: seq<Field>, ds: seq<Default>)
    requires AllFull(md, asked) && HoldsDefaults(md, asked, name, rows, ds)
    requires name in md.defs && !Library(md, name)
    requires rows == OwnRows(md.defs[name].fields, false) || rows == OwnRows(md.defs[name].fields, true)
    ensures FullRows(md, rows, MAX_VALUE_TYPE_DEPTH) == Some(ds)
    decreases ds, 1
  {
    var depth: nat :| (name, depth) in asked && DefaultsFor(md, asked, rows, depth, ds);
    var h := MAX_VALUE_TYPE_DEPTH - depth;
    assert FullOwn(md, name, h).Some?;
    RowsLength(md, rows, h);
    forall i | 0 <= i < |rows| ensures ds[i] == FullRows(md, rows, h).value[i] {
      RowsAt(md, rows, h, i);
      assert DefaultFor(md, asked, rows[i], depth, ds[i]);
      if NeedsZero(rows[i]) { ZeroIsFull(md, asked, rows[i].sig.value, depth, ds[i]); }
    }
    assert ds == FullRows(md, rows, h).value;
    RowsSettled(md, rows, h, MAX_VALUE_TYPE_DEPTH);
  }

  // The whole type computed from the metadata alone, over at most k classes above it.
  function FullType(md: Metadata, name: Name, k: nat): Option<TypeInfo>
    decreases k
  {
    if Library(md, name) || name !in md.defs then Known(md, map[], name)
    else if FullOwn(md, name, MAX_VALUE_TYPE_DEPTH).None? then None
    else
      var def := md.defs[name];
      var (own, statics) := FullOwn(md, name, MAX_VALUE_TYPE_DEPTH).value;
      var base := if BaseOf(def).None? || k == 0 then None else FullType(md, BaseOf(def).value, k - 1);
      Some(TypeInfo(name, InheritedFields(base) + OwnFields(def.fields), InheritedDefaults(base) + own,
                    OwnStatics(def.fields), statics, IsValueType(def), IsEnum(def), BaseOf(def)))
  }

  lemma {:induction false} EntryIsFull(md: Metadata, asked: Asked, types: Types, name: Name, k: nat)
    requires AllFull(md, asked) && Coherent(md, asked, types) && name in types && ChainEnds(md, name, k)
    ensures FullType(md, name, k) == Some(types[name])
    decreases k
  {
    var t := types[name];
    assert Laid(md, asked, types, name, t);
    var def := md.defs[name];
    var base := KnownBase(md, types, def);
    if BaseOf(def).Some? && BaseOf(def).value in types {
      assert Laid(md, asked, types, BaseOf(def).value, types[BaseOf(def).value]);
      EntryIsFull(md, asked, types, BaseOf(def).value, k - 1);
    }
    var own := t.defaults[|InheritedDefaults(base)|..];
    HeldIsFull(md, asked, name, OwnRows(def.fields, false), own);
    HeldIsFull(md, asked, name, OwnRows(def.fields, true), t.staticDefaults);
    assert t.defaults == InheritedDefaults(base) + own;
  }

  // ---------------------------------------------------------------- any order of resolutions

  // The type and every class above it nest value types no deeper than the limit.
  ghost predicate Shallow(md: Metadata, name: Name) {
    forall k: nat :: Ancestor(md, name, k).Some? ==> FullAt(md, Ancestor(md, name, k).value, MAX_VALUE_TYPE_DEPTH)
  }

  // All that resolving shallow types can ask for.
  ghost function ShallowQuestions(md: Metadata): Asked {
    iset n: Name, d: nat
      | d <= MAX_VALUE_TYPE_DEPTH && FullAt(md, n, MAX_VALUE_TYPE_DEPTH - d) && Shallow(md, n)
      :: (n, d)
  }

  lemma {:induction false} RowsHave(fs: seq<Field>, f: Field)
    requires f in fs
    ensures f in OwnRows(fs, GoesStatic(f))
  {
    if f != fs[|fs| - 1] {
      assert fs == fs[..|fs| - 1] + [fs[|fs| - 1]];
      RowsHave(fs[..|fs| - 1], f);
    }
  }

  lemma ShallowValueType(md: Metadata, name: Name, h: nat)
    requires h < MAX_VALUE_TYPE_DEPTH && FullNamed(md, name, h + 1).Some?
    ensures FullAt(md, name, h) && Shallow(md, name)
  {
    if name in md.defs && !Library(md, name) { OwnSettled(md, name, h, MAX_VALUE_TYPE_DEPTH); }
    forall k: nat ensures k > 0 ==> Ancestor(md, name, k).None? {}
  }

  lemma {:induction false} FullSigAsks(md: Metadata, sig: Sig, d: nat)
    requires FullSig(md, sig, Remaining(d)).Some?
    ensures SigAsks(md, ShallowQuestions(md), sig, d)
    decreases sig
  {
    if IsNullable(md, sig) {
      FullSigAsks(md, sig.args[0], d + 1);
    } else if Named(sig).Some? && d < MAX_VALUE_TYPE_DEPTH {
      ShallowValueType(md, Named(sig).value, MAX_VALUE_TYPE_DEPTH - d - 1);
    }
  }

  lemma ShallowBase(md: Metadata, n: Name)
    requires Shallow(md, n) && n in md.defs && !Library(md, n) && BaseOf(md.defs[n]).Some?
    ensures (BaseOf(md.defs[n]).value, 0) in ShallowQuestions(md)
  {
    var base := BaseOf(md.defs[n]).value;
    forall k: nat ensures Ancestor(md, base, k) == Ancestor(md, n, k + 1) {}
    assert Ancestor(md, base, 0) == Some(base);
  }

  lemma FieldIsFull(md: Metadata, n: Name, h: nat, f: Field)
    requires n in md.defs && FullOwn(md, n, h).Some? && f in md.defs[n].fields && NeedsZero(f)
    ensures FullSig(md, f.sig.value, h).Some?
  {
    var rows := OwnRows(md.defs[n].fields, GoesStatic(f));
    RowsHave(md.defs[n].fields, f);
    var i :| 0 <= i < |rows| && rows[i] == f;
    RowsAt(md, rows, h, i);
  }

  lemma ShallowIsClosed(md: Metadata)
    ensures Closed(md, ShallowQuestions(md)) && AllFull(md, ShallowQuestions(md))
  {
    var asked := ShallowQuestions(md);
    forall n, d | (n, d) in asked && n in md.defs && !Library(md, n) ensures Covered(md, asked, n, d) {
      if BaseOf(md.defs[n]).Some? { ShallowBase(md, n); }
      forall f | f in md.defs[n].fields && NeedsZero(f) ensures SigAsks(md, asked, f.sig.value, d) {
        FieldIsFull(md, n, MAX_VALUE_TYPE_DEPTH - d, f);
        FullSigAsks(md, f.sig.value, d);
      }
    }
  }

  // Whatever shallow types are resolved, in whatever order, every entry of the table is what the
  // metadata alone says: no default depends on what was resolved before.
  lemma ShallowTypesAreFull(md: Metadata, names: seq<Name>, fuel: nat, name: Name)
    requires LibraryPaired(md) && (forall n :: n in names ==> Shallow(md, n))
    requires ResolveAll(md, names, map[], fuel).Ret? && name in ResolveAll(md, names, map[], fuel).types
    ensures exists k :: FullType(md, name, k) == Some(ResolveAll(md, names, map[], fuel).types[name])
    ensures forall k :: ChainEnds(md, name, k) ==>
      FullType(md, name, k) == Some(ResolveAll(md, names, map[], fuel).types[name])
  {
    var asked, types := ShallowQuestions(md), ResolveAll(md, names, map[], fuel).types;
    ShallowIsClosed(md);
    forall n | n in names ensures (n, 0) in asked { assert Ancestor(md, n, 0) == Some(n); }
    ResolveAllKeeps(md, asked, names, map[], fuel);
    assert Laid(md, asked, types, name, types[name]);
    forall k | ChainEnds(md, name, k) ensures FullType(md, name, k) == Some(types[name]) {
      EntryIsFull(md, asked, types, name, k);
    }
  }

  lemma ShallowTypesIgnoreOrder(md: Metadata, names: seq<Name>, fuel: nat, names': seq<Name>, fuel': nat, name: Name)
    requires LibraryPaired(md) && (forall n :: n in names + names' ==> Shallow(md, n))
    requires ResolveAll(md, names, map[], fuel).Ret? && name in ResolveAll(md, names, map[], fuel).types
    requires ResolveAll(md, names', map[], fuel').Ret? && name in ResolveAll(md, names', map[], fuel').types
    ensures ResolveAll(md, names, map[], fuel).types[name] == ResolveAll(md, names', map[], fuel').types[name]
  {
    var asked, types := ShallowQuestions(md), ResolveAll(md, names, map[], fuel).types;
    forall n | n in names ensures (n, 0) in asked {
      assert n in names + names' && Ancestor(md, n, 0) == Some(n);
    }
    ShallowIsClosed(md);
    ResolveAllKeeps(md, asked, names, map[], fuel);
    assert Laid(md, asked, types, name, types[name]);
    var k: nat :| ChainEnds(md, name, k);
    ShallowTypesAreFull(md, names, fuel, name);
    ShallowTypesAreFull(md, names', fuel', name);
  }
}
