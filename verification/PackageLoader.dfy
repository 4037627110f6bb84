// LoadPackage: the memoised walk over the locked graph, and the shared type index
// (nuget.go:119-210, assembly.go:136-152, 2184-2199).
module PackageLoader {
  import opened Common
  import opened PackageGraph

  // The map every assembly of one load shares; it is one object, so a later addition is seen by all.
  class TypeIndex {
    var m: map<Name, Assembly>
    constructor () ensures m == map[] { m := map[]; }
  }

  class Assembly {
    const types: seq<Name>
    var deps: seq<Assembly>
    var index: TypeIndex?

    constructor (types: seq<Name>)
      ensures this.types == types && deps == [] && index == null
    {
      this.types, deps, index := types, [], null;
    }

    // Names already claimed stay with whoever claimed them first.
    method IndexOwnTypesInto(idx: TypeIndex)
      modifies idx
      ensures forall n :: n in idx.m <==> n in old(idx.m) || n in types
      ensures forall n :: n in idx.m ==> idx.m[n] == (if n in old(idx.m) then old(idx.m)[n] else this)
    {
      for i := 0 to |types|
        invariant forall n :: n in idx.m <==> n in old(idx.m) || n in types[..i]
        invariant forall n :: n in idx.m ==> idx.m[n] == (if n in old(idx.m) then old(idx.m)[n] else this)
      {
        if types[i] !in idx.m { idx.m := idx.m[types[i] := this]; }
      }
    }

    // The index WithDependencies joins: the assembly's own, else the first a dependency has.
    ghost function Joined(more: seq<Assembly>): (r: TypeIndex?)
      reads this, more
    {
      if index != null then index else FirstIndex(more)
    }

    method WithDependencies(more: seq<Assembly>)
      modifies this, Just(Joined(more))
      ensures deps == old(deps) + more
      ensures index == old(Joined(more))
      ensures index != null ==>
        && (forall n :: n in index.m <==> n in old(Joined(more).m) || n in types)
        && (forall n :: n in index.m ==>
              index.m[n] == (if n in old(Joined(more).m) then old(Joined(more).m)[n] else this))
    {
      var idx := index;
      if idx == null {
        var i := 0;
        while i < |more|
          invariant 0 <= i <= |more| && idx == null
          invariant FirstIndex(more) == FirstIndex(more[i..])
        {
          if more[i].index != null {
            idx := more[i].index;
            break;
          }
          i := i + 1;
        }
      }
      deps := deps + more;
      if idx != null {
        IndexOwnTypesInto(idx);
        index := idx;
      }
    }
  }

  ghost function Just(idx: TypeIndex?): set<object> { if idx == null then {} else {idx} }

  ghost function FirstIndex(more: seq<Assembly>): TypeIndex?
    reads more
  {
    if more == [] then null else if more[0].index != null then more[0].index else FirstIndex(more[1..])
  }

  type Loaded = map<Id, Assembly?>

  // The assemblies of the listed ids that have one, in order.
  ghost function Links(loaded: Loaded, ids: seq<Id>): seq<Assembly> {
    if ids == [] then []
    else
      var last := ids[|ids| - 1];
      Links(loaded, ids[..|ids| - 1]) + (if last in loaded && loaded[last] != null then [loaded[last]] else [])
  }

  ghost predicate Grown(loaded: Loaded, loaded': Loaded) {
    forall k :: k in loaded ==> k in loaded' && loaded'[k] == loaded[k]
  }

  // The first i listed dependencies are memoised, and the assembly is linked to theirs.
  ghost predicate LinkedUpTo(loaded: Loaded, asm: Assembly, ids: seq<Id>, i: nat)
    requires i <= |ids|
    reads asm
  {
    (forall d :: d in ids[..i] ==> d in loaded) && asm.deps == Links(loaded, ids[..i])
  }

  lemma {:induction false} LinksStable(loaded: Loaded, loaded': Loaded, ids: seq<Id>)
    requires Grown(loaded, loaded') && forall d :: d in ids ==> d in loaded
    ensures Links(loaded', ids) == Links(loaded, ids)
  {
    if ids != [] {
      assert ids[|ids| - 1] in ids;
      LinksStable(loaded, loaded', ids[..|ids| - 1]);
    }
  }

  // How many of the ids have an assembly.
  ghost function Assemblies(loaded: Loaded, ids: seq<Id>): nat {
    if ids == [] then 0
    else
      var last := ids[|ids| - 1];
      Assemblies(loaded, ids[..|ids| - 1]) + (if last in loaded && loaded[last] != null then 1 else 0)
  }

  // deps are the assemblies of the ids that have one, each at its place among those.
  ghost predicate InOrder(loaded: Loaded, deps: seq<Assembly>, ids: seq<Id>) {
    && |deps| == Assemblies(loaded, ids)
    && forall i :: 0 <= i < |ids| && ids[i] in loaded && loaded[ids[i]] != null ==>
         Assemblies(loaded, ids[..i]) < |deps| && deps[Assemblies(loaded, ids[..i])] == loaded[ids[i]]
  }

  lemma {:induction false} LinksInOrder(loaded: Loaded, ids: seq<Id>)
    ensures InOrder(loaded, Links(loaded, ids), ids)
  {
    if ids != [] {
      var init := ids[..|ids| - 1];
      LinksInOrder(loaded, init);
      forall i | 0 <= i < |ids| && ids[i] in loaded && loaded[ids[i]] != null
        ensures Assemblies(loaded, ids[..i]) < |Links(loaded, ids)|
        ensures Links(loaded, ids)[Assemblies(loaded, ids[..i])] == loaded[ids[i]]
      {
        if i < |init| { assert init[..i] == ids[..i]; } else { assert ids[..i] == init; }
      }
    }
  }

  lemma LinkedStep(
      before: Loaded, loaded: Loaded, deps: seq<Assembly>, asm: Assembly, ids: seq<Id>, i: nat)
    requires i < |ids| && Grown(before, loaded) && ids[i] in loaded
    requires (forall d :: d in ids[..i] ==> d in before) && deps == Links(before, ids[..i])
    requires asm.deps == deps + (if loaded[ids[i]] != null then [loaded[ids[i]]] else [])
    ensures LinkedUpTo(loaded, asm, ids, i + 1)
  {
    LinksStable(before, loaded, ids[..i]);
    assert ids[..i + 1][..i] == ids[..i];
  }

  // The same in terms of the lockfile's row for the id.
  ghost predicate Loads(w: World, loaded: Loaded, k: Id, p: Package)
    requires k in loaded
    reads loaded[k]
  {
    && (loaded[k] != null <==> p.asset != "")
    && (loaded[k] != null ==>
          && p in w.assets && loaded[k].types == w.assets[p]
          && (forall d :: d in p.dependencies ==> d in loaded)
          && InOrder(loaded, loaded[k].deps, p.dependencies))
  }

  lemma WalkedLoads(w: World, loaded: Loaded, k: Id, p: Package)
    requires k in loaded && Walked(w, loaded, k) && IsRow(w, k, p)
    ensures Loads(w, loaded, k, p)
  {
    FindIsRow(w, k, p);
    DependenciesAreListed(w, k, p);
    LinksInOrder(loaded, DependenciesOf(w, k));
  }

  // What holds of an id whose walk is finished: its assembly, if it has an asset, is linked to the
  // assemblies of its listed dependencies, in order.
  ghost predicate Walked(w: World, loaded: Loaded, k: Id)
    requires k in loaded
    reads loaded[k]
  {
    && !Bad(w, k)
    && (loaded[k] != null <==> Selected(w, k))
    && (loaded[k] != null ==>
          && loaded[k].types == w.assets[Find(w.packages, k).value]
          && (forall d :: d in DependenciesOf(w, k) ==> d in loaded)
          && loaded[k].deps == Links(loaded, DependenciesOf(w, k)))
  }

  ghost predicate Finished(w: World, loaded: Loaded, k: Id)
    requires k in loaded
    reads loaded[k]
  {
    Walked(w, loaded, k) && (loaded[k] != null ==> loaded[k].index == null)
  }

  // The index knows exactly the names the loaded assemblies declare, each by one that declares it.
  ghost predicate IndexOk(loaded: Loaded, m: map<Name, Assembly>) {
    && (forall n :: n in m <==> exists k :: k in loaded && loaded[k] != null && n in loaded[k].types)
    && (forall n :: n in m ==> n in m[n].types && exists k :: k in loaded && loaded[k] == m[n])
  }

  ghost predicate Gained(w: World, loaded: Loaded, id: Id, k: Id)
    requires k in loaded
    reads loaded[k]
  {
    Finished(w, loaded, k) && Reachable(w, id, k)
  }

  lemma GainedGrows(w: World, loaded: Loaded, loaded': Loaded, id: Id, k: Id)
    requires k in loaded && Gained(w, loaded, id, k) && Grown(loaded, loaded')
    ensures Gained(w, loaded', id, k)
  {
    if loaded[k] != null { LinksStable(loaded, loaded', DependenciesOf(w, k)); }
  }

  class Loader {
    const w: World
    var loaded: Loaded
    ghost var fetched: seq<Id>      // every asset load performed, in order

    constructor (w: World)
      ensures this.w == w && loaded == map[] && fetched == []
    {
      this.w, loaded, fetched := w, map[], [];
    }

    // Assets are fetched only for memoised ids, each once.
    ghost predicate Valid()
      reads this, set k | k in loaded && loaded[k] != null :: loaded[k]
    {
      && Distinct(fetched)
      && (forall k :: k in fetched ==> k in loaded)
      && (forall k :: k in loaded ==> k in Ids(w.packages))
      && (forall k :: k in loaded && loaded[k] != null ==> loaded[k].index == null)
    }

    // Ids memoised by now and not at the time of the call are finished, came from `id`, and have
    // an assembly of their own that did not exist then.
    twostate predicate Explored(id: Id)
      reads this, set k | k in loaded && loaded[k] != null :: loaded[k]
    {
      && Grown(old(loaded), loaded)
      && (forall k :: k in loaded && k !in old(loaded) ==> Gained(w, loaded, id, k))
      && (forall k :: k in loaded && k !in old(loaded) && loaded[k] != null ==> fresh(loaded[k]))
    }

    method LoadLockedPackage(id: Id) returns (r: Result<Assembly?, ()>)
      requires Valid()
      modifies this
      ensures r.Ok? ==> Valid() && Explored(id) && id in loaded && r.value == loaded[id]
      ensures r.Err? ==> exists b :: Bad(w, b) && Reachable(w, id, b)
      decreases Ids(w.packages) - loaded.Keys, 0
    {
      if id in loaded { return Ok(loaded[id]); }
      ReachesItself(w, id);
      FindIsLocked(w.packages, id);
      var found := Find(w.packages, id);
      if found.None? { return Err(()); }
      if found.value.asset == "" {
        loaded := loaded[id := null];
        return Ok(null);
      }
      if found.value !in w.assets { return Err(()); }
      var asm := Fetch(id, w.assets[found.value]);
      assert id in Ids(w.packages) - old(loaded).Keys && id !in Ids(w.packages) - loaded.Keys;
      var ok := LoadDependencies(id, asm);
      return if ok then Ok(asm) else Err(());
    }

    // The asset is loaded, and memoised before its dependencies are looked at.
    method Fetch(id: Id, types: seq<Name>) returns (asm: Assembly)
      requires Valid() && id !in loaded && id in Ids(w.packages)
      modifies this
      ensures Valid() && fresh(asm) && asm.types == types && asm.deps == [] && asm.index == null
      ensures loaded == old(loaded)[id := asm] && fetched == old(fetched) + [id]
    {
      asm := new Assembly(types);
      loaded := loaded[id := asm];
      fetched := fetched + [id];
    }

    // The loop over an assembly's listed dependencies.
    method LoadDependencies(id: Id, asm: Assembly) returns (ok: bool)
      requires Valid() && id in loaded && loaded[id] == asm && asm.index == null && asm.deps == []
      requires forall k :: k in loaded && k != id ==> loaded[k] != asm
      modifies this, asm
      ensures ok ==> Valid() && Explored(id) && asm.index == null
      ensures ok ==> forall d :: d in DependenciesOf(w, id) ==> d in loaded
      ensures ok ==> asm.deps == Links(loaded, DependenciesOf(w, id))
      ensures !ok ==> exists b :: Bad(w, b) && Reachable(w, id, b)
      decreases Ids(w.packages) - loaded.Keys, 2
    {
      var ids := DependenciesOf(w, id);
      for i := 0 to |ids|
        invariant Valid() && Explored(id) && asm.index == null
        invariant LinkedUpTo(loaded, asm, ids, i)
        invariant forall k :: k in loaded && k != id ==> loaded[k] != asm
      {
        ghost var before, deps := loaded, asm.deps;
        var d := LoadDependency(id, asm, ids[i]);
        if !d { return false; }
        LinkedStep(before, loaded, deps, asm, ids, i);
        forall k | k in before && k !in old(loaded) ensures Gained(w, loaded, id, k) {
          GainedGrows(w, before, loaded, id, k);
        }
      }
      assert ids[..|ids|] == ids;
      return true;
    }

    // One turn of that loop.
    method LoadDependency(id: Id, asm: Assembly, d: Id) returns (ok: bool)
      requires Valid() && id in loaded && loaded[id] == asm && asm.index == null
      requires d in DependenciesOf(w, id)
      modifies this, asm
      ensures ok ==> Valid() && Explored(id) && d in loaded && asm.index == null
      ensures ok ==> asm.deps == old(asm.deps) + (if loaded[d] != null then [loaded[d]] else [])
      ensures !ok ==> exists b :: Bad(w, b) && Reachable(w, id, b)
      decreases Ids(w.packages) - loaded.Keys, 1
    {
      var dep := LoadLockedPackage(d);
      if dep.Err? {
        ghost var b :| Bad(w, b) && Reachable(w, d, b);
        ReachesThrough(w, id, d, b);
        return false;
      }
      forall k | Reachable(w, d, k) ensures Reachable(w, id, k) { ReachesThrough(w, id, d, k); }
      if dep.value != null {
        assert loaded[d].index == null && [dep.value][1..] == [];
        assert FirstIndex([dep.value]) == null;
        asm.WithDependencies([dep.value]);
      }
      return true;
    }

    // The first range over the map: every assembly indexes its own types, in whatever order the
    // map is traversed.
    method FillIndex(idx: TypeIndex)
      requires idx.m == map[]
      modifies idx
      ensures IndexOk(loaded, idx.m)
    {
      var rest := set k | k in loaded && loaded[k] != null;
      ghost var done: set<Id> := {};
      while rest != {}
        invariant forall k :: k in rest || k in done <==> k in loaded && loaded[k] != null
        invariant forall n :: n in idx.m <==>
          exists k :: k in done && k in loaded && loaded[k] != null && n in loaded[k].types
        invariant forall n :: n in idx.m ==> n in idx.m[n].types && exists k :: k in loaded && loaded[k] == idx.m[n]
        decreases rest
      {
        var k :| k in rest;
        loaded[k].IndexOwnTypesInto(idx);
        rest, done := rest - {k}, done + {k};
      }
    }

    // The second range: every assembly gets the same index object.
    method ShareIndex(idx: TypeIndex)
      modifies (set k | k in loaded && loaded[k] != null :: loaded[k])`index
      ensures forall k :: k in loaded && loaded[k] != null ==> loaded[k].index == idx
    {
      var rest := set k | k in loaded && loaded[k] != null;
      while rest != {}
        invariant forall k :: k in rest ==> k in loaded && loaded[k] != null
        invariant forall k :: k in loaded && loaded[k] != null && k !in rest ==> loaded[k].index == idx
        decreases rest
      {
        var k :| k in rest;
        loaded[k].index := idx;
        rest := rest - {k};
      }
    }

    // In terms of the lockfile's rows: succeeds exactly when the root's has an asset and every
    // reachable id has a row that can be loaded. Then exactly the reachable ids were visited, each
    // fetched at most once, every assembly is linked to the assemblies of what its row lists, in that
    // order, and all share one index over all their types.
    method LoadPackage(root: Id) returns (r: Result<Assembly, ()>)
      requires loaded == map[] && fetched == []
      modifies this
      ensures r.Ok? <==>
        (exists p :: IsRow(w, root, p) && p.asset != "") && forall k :: Reachable(w, root, k) ==> Usable(w, k)
      ensures r.Ok? ==> root in loaded && r.value == loaded[root] && r.value.index != null
      ensures r.Ok? ==> forall k :: k in loaded <==> Reachable(w, root, k)
      ensures r.Ok? ==> Distinct(fetched) && forall k :: k in fetched ==> k in loaded
      ensures r.Ok? ==> forall k, p :: k in loaded && IsRow(w, k, p) ==> Loads(w, loaded, k, p)
      ensures r.Ok? ==> forall k :: k in loaded && loaded[k] != null ==> loaded[k].index == r.value.index
      ensures r.Ok? ==> IndexOk(loaded, r.value.index.m)
    {
      forall k ensures Usable(w, k) <==> !Bad(w, k) { UsableIffNotBad(w, k); }
      UsableIffNotBad(w, root);
      r := LoadAll(root);
      if r.Ok? {
        forall k, p | k in loaded && IsRow(w, k, p) ensures Loads(w, loaded, k, p) { WalkedLoads(w, loaded, k, p); }
      }
    }

    // The same in terms of the lookups the walk makes.
    method LoadAll(root: Id) returns (r: Result<Assembly, ()>)
      requires loaded == map[] && fetched == []
      modifies this
      ensures r.Ok? <==> Selected(w, root) && forall k :: Reachable(w, root, k) ==> !Bad(w, k)
      ensures r.Ok? ==> root in loaded && r.value == loaded[root] && r.value.index != null
      ensures r.Ok? ==> forall k :: k in loaded <==> Reachable(w, root, k)
      ensures r.Ok? ==> Distinct(fetched) && forall k :: k in fetched ==> k in loaded
      ensures r.Ok? ==> forall k :: k in loaded ==>
        Walked(w, loaded, k) && (loaded[k] != null ==> loaded[k].index == r.value.index)
      ensures r.Ok? ==> IndexOk(loaded, r.value.index.m)
    {
      ReachesItself(w, root);
      var asm := LoadLockedPackage(root);
      if asm.Err? { return Err(()); }
      ClosedSetHoldsReachable(w, loaded.Keys, root);
      if asm.value == null { return Err(()); }
      assert forall k :: k in loaded ==> Gained(w, loaded, root, k);
      var idx := IndexAll();
      return Ok(asm.value);
    }

    // Both ranges.
    method IndexAll() returns (idx: TypeIndex)
      modifies (set k | k in loaded && loaded[k] != null :: loaded[k])`index
      ensures fresh(idx) && IndexOk(loaded, idx.m)
      ensures forall k :: k in loaded && loaded[k] != null ==> loaded[k].index == idx
    {
      idx := new TypeIndex();
      FillIndex(idx);
      ShareIndex(idx);
    }
  }
}
