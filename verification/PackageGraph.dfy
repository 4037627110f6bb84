// The dependency graph of a lockfile (internal/nuget/lockfile.go, nuget.go:164-188), on values.
module PackageGraph {
  import opened Common

  type Id = string
  type Name = string

  datatype Package = Package(id: Id, version: string, asset: string, dependencies: seq<Id>)

  // What the lockfile says and what the package cache holds: the type names, in row order, of the
  // locked asset of each package that can be fetched, opened and loaded.
  datatype World = World(packages: seq<Package>, assets: map<Package, seq<Name>>)

  // The row of the lockfile that counts for an id: the first one with it.
  ghost predicate IsRow(w: World, id: Id, p: Package) {
    exists i :: 0 <= i < |w.packages| && IsFirst(w.packages, id, i) && w.packages[i] == p
  }

  ghost predicate IsFirst(ps: seq<Package>, id: Id, i: nat)
    requires i < |ps|
  {
    ps[i].id == id && forall j :: 0 <= j < i ==> ps[j].id != id
  }

  // What loading a goes on to: the dependencies its row lists, if it has a selected asset.
  ghost predicate Follows(w: World, a: Id, b: Id) {
    exists p :: IsRow(w, a, p) && p.asset != "" && b in p.dependencies
  }

  // The first package with that id.
  function Find(ps: seq<Package>, id: Id): Option<Package> {
    if ps == [] then None else if ps[0].id == id then Some(ps[0]) else Find(ps[1..], id)
  }

  predicate Selected(w: World, id: Id) { Find(w.packages, id).Some? && Find(w.packages, id).value.asset != "" }

  function DependenciesOf(w: World, id: Id): seq<Id> {
    if Selected(w, id) then Find(w.packages, id).value.dependencies else []
  }

  // Ids that stop the load: not locked at all, or locked but not loadable.
  predicate Bad(w: World, id: Id) {
    Find(w.packages, id).None? || (Selected(w, id) && Find(w.packages, id).value !in w.assets)
  }

  ghost predicate Path(w: World, p: seq<Id>) {
    p != [] && forall i :: 0 <= i < |p| - 1 ==> Follows(w, p[i], p[i + 1])
  }

  // Reachable through packages with a selected asset.
  ghost predicate Reachable(w: World, a: Id, b: Id) {
    exists p :: Path(w, p) && p[0] == a && p[|p| - 1] == b
  }

  lemma {:induction false} FindIsFirst(ps: seq<Package>, id: Id, i: nat)
    requires i < |ps| && IsFirst(ps, id, i)
    ensures Find(ps, id) == Some(ps[i])
  {
    if i > 0 { FindIsFirst(ps[1..], id, i - 1); }
  }

  lemma {:induction false} FindHasFirst(ps: seq<Package>, id: Id) returns (i: nat)
    requires Find(ps, id).Some?
    ensures i < |ps| && IsFirst(ps, id, i) && ps[i] == Find(ps, id).value
  {
    if ps[0].id == id { return 0; }
    var k := FindHasFirst(ps[1..], id);
    i := k + 1;
    forall j | 0 <= j < i ensures ps[j].id != id { if j > 0 { assert ps[j] == ps[1..][j - 1]; } }
  }

  // The lookup finds the row that counts, and the walk follows what it lists.
  lemma FindIsRow(w: World, id: Id, p: Package)
    ensures Find(w.packages, id) == Some(p) <==> IsRow(w, id, p)
  {
    if IsRow(w, id, p) {
      var i :| 0 <= i < |w.packages| && IsFirst(w.packages, id, i) && w.packages[i] == p;
      FindIsFirst(w.packages, id, i);
    }
    if Find(w.packages, id) == Some(p) {
      var i := FindHasFirst(w.packages, id);
      assert 0 <= i < |w.packages| && w.packages[i] == p;
    }
  }

  lemma DependenciesAreListed(w: World, id: Id, p: Package)
    requires IsRow(w, id, p)
    ensures DependenciesOf(w, id) == if p.asset != "" then p.dependencies else []
  {
    FindIsRow(w, id, p);
  }

  lemma FollowsIff(w: World, a: Id, b: Id)
    ensures Follows(w, a, b) <==> b in DependenciesOf(w, a)
  {
    if p :| IsRow(w, a, p) && p.asset != "" && b in p.dependencies { DependenciesAreListed(w, a, p); }
    if b in DependenciesOf(w, a) {
      var p := Find(w.packages, a).value;
      FindIsRow(w, a, p);
      DependenciesAreListed(w, a, p);
    }
  }

  // The lockfile has a row for the id and, if that has a selected asset, it can be loaded.
  ghost predicate Usable(w: World, id: Id) { exists p :: IsRow(w, id, p) && (p.asset != "" ==> p in w.assets) }

  lemma UsableIffNotBad(w: World, id: Id)
    ensures Usable(w, id) <==> !Bad(w, id)
    ensures Selected(w, id) <==> exists p :: IsRow(w, id, p) && p.asset != ""
  {
    if Find(w.packages, id).Some? { FindIsRow(w, id, Find(w.packages, id).value); }
    forall p | IsRow(w, id, p) ensures Find(w.packages, id) == Some(p) { FindIsRow(w, id, p); }
  }

  lemma ReachesItself(w: World, a: Id)
    ensures Reachable(w, a, a)
  {
    assert Path(w, [a]);
  }

  lemma ReachesThrough(w: World, a: Id, b: Id, c: Id)
    requires b in DependenciesOf(w, a) && Reachable(w, b, c)
    ensures Reachable(w, a, c)
  {
    FollowsIff(w, a, b);
    var p :| Path(w, p) && p[0] == b && p[|p| - 1] == c;
    var q := [a] + p;
    assert Path(w, q) && q[0] == a && q[|q| - 1] == c;
  }

  // A set that holds the root and every dependency of its members holds everything reachable.
  lemma {:induction false} ClosedSetHoldsPath(w: World, s: set<Id>, p: seq<Id>)
    requires Path(w, p) && p[0] in s
    requires forall a, b :: a in s && b in DependenciesOf(w, a) ==> b in s
    ensures p[|p| - 1] in s
  {
    if |p| > 1 {
      assert Follows(w, p[0], p[1]);
      FollowsIff(w, p[0], p[1]);
      assert Path(w, p[1..]) by {
        forall i | 0 <= i < |p[1..]| - 1 ensures Follows(w, p[1..][i], p[1..][i + 1]) {
          assert Follows(w, p[i + 1], p[i + 2]);
        }
      }
      ClosedSetHoldsPath(w, s, p[1..]);
    }
  }

  lemma ClosedSetHoldsReachable(w: World, s: set<Id>, root: Id)
    requires root in s && forall a, b :: a in s && b in DependenciesOf(w, a) ==> b in s
    ensures forall b :: Reachable(w, root, b) ==> b in s
  {
    forall b | Reachable(w, root, b) ensures b in s {
      var p :| Path(w, p) && p[0] == root && p[|p| - 1] == b;
      ClosedSetHoldsPath(w, s, p);
    }
  }

  ghost function Ids(ps: seq<Package>): set<Id> { set p | p in ps :: p.id }

  lemma {:induction false} FindIsLocked(ps: seq<Package>, id: Id)
    ensures Find(ps, id).Some? <==> id in Ids(ps)
  {
    if ps != [] {
      FindIsLocked(ps[1..], id);
      assert ps == [ps[0]] + ps[1..];
    }
  }
}
