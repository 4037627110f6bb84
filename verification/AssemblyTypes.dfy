// The same resolution as the source runs it: methods that fill the assembly's `types` table in
// place, with the loop over field rows, each proved to compute what module TypeBuilder says.
// The ghost fuel is the nesting TypeBuilder.ResolveHalts allows; it carries the termination proof.
module AssemblyTypes {
  import opened Common
  import opened TypeBuilder
  import opened TypeLayout

  class Assembly {
    const md: Metadata
    var types: Types

    constructor (md: Metadata)
      ensures this.md == md && types == map[]
    {
      this.md := md;
      types := map[];
    }

    // The entry point: halts whenever the chain of bases ends, and leaves the table laid out.
    method ResolveTypeByFullName(name: Name, ghost chain: nat, ghost asked: Asked) returns (t: Option<TypeInfo>)
      requires WellKinded(md) && LibraryPaired(md) && ChainEnds(md, name, chain)
      requires Coherent(md, asked, types) && Closed(md, asked) && (name, 0) in asked
      modifies this
      ensures Coherent(md, asked, types) && Grown(old(types), types)
      ensures t == Known(md, types, name)
      ensures t.Some? <==> name in md.defs || Library(md, name) || name in md.imports || name in old(types)
    {
      ghost var fuel := chain + MAX_VALUE_TYPE_DEPTH + 1;
      ResolveHalts(md, name, 0, types, fuel, chain);
      ResolveKeeps(md, asked, name, 0, types, fuel);
      t := ResolveTypeByFullNameAt(name, 0, fuel);
      assert name in types ==> Laid(md, asked, types, name, types[name]);
    }

    method ResolveTypeByFullNameAt(name: Name, depth: nat, ghost fuel: nat) returns (t: Option<TypeInfo>)
      requires ResolveAt(md, name, depth, types, fuel).Ret?
      modifies this
      ensures Ret(t, types) == ResolveAt(md, name, depth, old(types), fuel)
      decreases fuel, 0, 0, 0
    {
      if name in types { return Some(types[name]); }
      if name in md.valueTypes { return Some(md.valueTypes[name]); }
      if name in md.staticHosts { return Some(md.staticHosts[name]); }
      t := Build(name, depth, fuel - 1);
      if t.None? {
        return Imported(md, name);
      } else {
        if name in types { return Some(types[name]); }
        types := types[name := t.value];
      }
    }

    method Build(name: Name, depth: nat, ghost fuel: nat) returns (t: Option<TypeInfo>)
      requires BuildType(md, name, depth, types, fuel).Ret?
      modifies this
      ensures Ret(t, types) == BuildType(md, name, depth, old(types), fuel)
      decreases fuel, 4, 0, 0
    {
      if name !in md.defs { return None; }
      var def := md.defs[name];
      var slots := Slots([], [], [], []);
      if BaseOf(def).Some? {
        var base := ResolveTypeByFullNameAt(BaseOf(def).value, 0, fuel);
        if base.Some? { slots := Slots(base.value.fields, base.value.defaults, [], []); }
      }
      ghost var inherited, types1 := slots, types;
      assert InheritSlots(md, def, old(types), fuel) == Ret(inherited, types1);
      var fs := def.fields;
      var i := 0;
      while i < |fs|
        invariant 0 <= i <= |fs|
        invariant FieldsUpTo(md, fs, i, depth, inherited, types1, fuel) == Ret(slots, types)
      {
        PrefixHalts(md, fs, i + 1, |fs|, depth, inherited, types1, fuel);
        var f := fs[i];
        var d := Null;
        if f.sig.Some? && f.rva.Some? {
          d := Blob(f.rva.value);
        } else if f.constant.Some? {
          d := f.constant.value;
        } else if f.sig.Some? {
          d := DefaultOf(f.sig.value, depth, fuel);
        }
        if GoesStatic(f) {
          slots := slots.(statics := slots.statics + [f.name], staticDefaults := slots.staticDefaults + [d]);
        } else {
          slots := slots.(fields := slots.fields + [f.name], defaults := slots.defaults + [d]);
        }
        i := i + 1;
      }
      t := Some(MakeType(name, def, slots));
    }

    method DefaultOf(sig: Sig, depth: nat, ghost fuel: nat) returns (d: Default)
      requires FieldOrLocalDefault(md, sig, depth, types, fuel).Ret?
      modifies this
      ensures Ret(d, types) == FieldOrLocalDefault(md, sig, depth, old(types), fuel)
      decreases fuel, 1, sig, 0
    {
      match sig
      case SmallInt => d := Int32Zero;
      case LongInt => d := Int64Zero;
      case Single => d := Float32Zero;
      case Double => d := Float64Zero;
      case Reference => d := Null;
      case ValueType(token) => d := DefaultOfValueType(token, depth, fuel);
      case GenericValue(token, args) =>
        if |args| == 1 && token == Some(NULLABLE) && NULLABLE in md.valueTypes {
          d := DefaultOf(args[0], depth + 1, fuel);
          d := Struct(md.valueTypes[NULLABLE].name, [False, d]);
        } else {
          d := DefaultOfValueType(token, depth, fuel);
        }
    }

    method DefaultOfValueType(token: Option<Name>, depth: nat, ghost fuel: nat) returns (d: Default)
      requires ValueTypeDefault(md, token, depth, types, fuel).Ret?
      modifies this
      ensures Ret(d, types) == ValueTypeDefault(md, token, depth, old(types), fuel)
      decreases fuel, 0, 1, 0
    {
      if depth >= MAX_VALUE_TYPE_DEPTH || token.None? { return Null; }
      if token.value in md.valueTypes { return NewStruct(md.valueTypes[token.value]); }
      var t := ResolveTypeByFullNameAt(token.value, depth + 1, fuel);
      if t.None? || !t.value.isValueType { return Null; }
      if t.value.isEnum { return Int32Zero; }
      return NewStruct(t.value);
    }
  }

  // A loop over field rows that gets through gets through every prefix.
  lemma {:induction false} PrefixHalts(
      md: Metadata, fs: seq<Field>, k: nat, n: nat, depth: nat, init: Slots, types: Types, fuel: nat)
    requires k <= n <= |fs| && FieldsUpTo(md, fs, n, depth, init, types, fuel).Ret?
    ensures FieldsUpTo(md, fs, k, depth, init, types, fuel).Ret?
    decreases n
  {
    if k < n { PrefixHalts(md, fs, k, n - 1, depth, init, types, fuel); }
  }
}
