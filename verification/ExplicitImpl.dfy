// resolveExplicitImpl (assembly.go:1174-1256): the walk over a type's ancestors for a MethodImpl
// row (section II.22.27 of ECMA-335), and the cache in front of it.
module ExplicitImpl {
  import opened Common

  type Asm = nat
  type Name = string

  // A MethodImpl row with its two tokens resolved where they can be.
  datatype Row = Row(declaration: Option<(Name, string)>, body: Option<string>)

  datatype Query = Query(concrete: Name, iface: Name, method_: string)

  // The loaded metadata, which never changes: the MethodImpl rows of every declared type (None if
  // they do not decode), dependency edges, the shared index, and the base that resolving a type
  // name yields ("" for a type without one).
  datatype Config = Config(
    rows: map<(Asm, Name), Option<seq<Row>>>,
    deps: map<Asm, seq<Asm>>,
    rank: map<Asm, nat>,
    index: map<(Asm, Name), Asm>,
    bases: map<Name, Name>)
  {
    function DepsOf(a: Asm): seq<Asm> { if a in deps then deps[a] else [] }
    function RankOf(a: Asm): nat { if a in rank then rank[a] else 0 }

    predicate Declares(a: Asm, t: Name) { (a, t) in rows }

    // Dependencies are acyclic, and the index points at declaring assemblies.
    ghost predicate Valid() {
      && (forall a, d :: d in DepsOf(a) ==> RankOf(d) < RankOf(a))
      && (forall k :: k in index ==> Declares(index[k], k.1))
    }
  }

  // ---------------------------------------------------------------- one type

  function ScanRows(rs: seq<Row>, q: Query): Option<string> {
    if rs == [] then None
    else if rs[0].declaration == Some((q.iface, q.method_)) && rs[0].body.Some? then rs[0].body
    else ScanRows(rs[1..], q)
  }

  function Exact(cfg: Config, a: Asm, t: Name, q: Query): Option<string>
    requires cfg.Valid()
    decreases if cfg.Declares(a, t) then 0 else cfg.RankOf(a) + 1, 0
  {
    if cfg.Declares(a, t) then
      (if cfg.rows[(a, t)].Some? then ScanRows(cfg.rows[(a, t)].value, q) else None)
    else
      var viaDeps := FirstDep(cfg, a, cfg.DepsOf(a), t, q);
      if viaDeps.Some? then viaDeps
      else if (a, t) in cfg.index && cfg.index[(a, t)] != a then Exact(cfg, cfg.index[(a, t)], t, q)
      else None
  }

  function FirstDep(cfg: Config, a: Asm, ds: seq<Asm>, t: Name, q: Query): Option<string>
    requires cfg.Valid() && forall d :: d in ds ==> cfg.RankOf(d) < cfg.RankOf(a)
    decreases cfg.RankOf(a), 1, |ds|
  {
    if ds == [] then None
    else
      var r := Exact(cfg, ds[0], t, q);
      if r.Some? then r else FirstDep(cfg, a, ds[1..], t, q)
  }

  // The i-th row implements the method of the interface, and no row before it does.
  ghost predicate Implements(rs: seq<Row>, q: Query, i: nat)
    requires i < |rs|
  {
    && rs[i].declaration == Some((q.iface, q.method_)) && rs[i].body.Some?
    && forall j :: 0 <= j < i ==> !(rs[j].declaration == Some((q.iface, q.method_)) && rs[j].body.Some?)
  }

  lemma {:induction false} ScanFinds(rs: seq<Row>, q: Query, i: nat)
    requires i < |rs| && Implements(rs, q, i)
    ensures ScanRows(rs, q) == rs[i].body
  {
    if i > 0 { ScanFinds(rs[1..], q, i - 1); }
  }

  lemma {:induction false} ScanStopsAt(rs: seq<Row>, q: Query) returns (i: nat)
    requires ScanRows(rs, q).Some?
    ensures i < |rs| && Implements(rs, q, i) && ScanRows(rs, q) == rs[i].body
  {
    if rs[0].declaration == Some((q.iface, q.method_)) && rs[0].body.Some? { return 0; }
    var k := ScanStopsAt(rs[1..], q);
    i := k + 1;
    forall j | 0 <= j < i ensures !(rs[j].declaration == Some((q.iface, q.method_)) && rs[j].body.Some?) {
      if j > 0 { assert rs[j] == rs[1..][j - 1]; }
    }
  }

  // A type the assembly declares answers with the body of its first row for that interface and method,
  // and with nothing if it has no such row or its rows do not decode.
  lemma ExactIsFirstRow(cfg: Config, a: Asm, t: Name, q: Query, m: string)
    requires cfg.Valid() && (a, t) in cfg.rows
    ensures Exact(cfg, a, t, q) == Some(m) <==>
      && cfg.rows[(a, t)].Some?
      && exists i :: 0 <= i < |cfg.rows[(a, t)].value| && Implements(cfg.rows[(a, t)].value, q, i)
                  && cfg.rows[(a, t)].value[i].body == Some(m)
  {
    if cfg.rows[(a, t)].Some? {
      var rs := cfg.rows[(a, t)].value;
      if i: nat :| i < |rs| && Implements(rs, q, i) && rs[i].body == Some(m) { ScanFinds(rs, q, i); }
      if ScanRows(rs, q) == Some(m) {
        var i := ScanStopsAt(rs, q);
        assert 0 <= i < |rs| && Implements(rs, q, i) && rs[i].body == Some(m);
      }
    }
  }

  // The first dependency that has an answer.
  ghost predicate FirstAnswer(cfg: Config, ds: seq<Asm>, t: Name, q: Query, i: nat)
    requires cfg.Valid() && i < |ds|
  {
    Exact(cfg, ds[i], t, q).Some? && forall j :: 0 <= j < i ==> Exact(cfg, ds[j], t, q).None?
  }

  lemma {:induction false} FirstDepFinds(cfg: Config, a: Asm, ds: seq<Asm>, t: Name, q: Query, i: nat)
    requires cfg.Valid() && forall d :: d in ds ==> cfg.RankOf(d) < cfg.RankOf(a)
    requires i <= |ds| && (forall j :: 0 <= j < i ==> Exact(cfg, ds[j], t, q).None?)
    requires i < |ds| ==> Exact(cfg, ds[i], t, q).Some?
    ensures FirstDep(cfg, a, ds, t, q) == if i < |ds| then Exact(cfg, ds[i], t, q) else None
    decreases |ds|
  {
    if i > 0 {
      forall j | 0 <= j < i - 1 ensures Exact(cfg, ds[1..][j], t, q).None? { assert ds[1..][j] == ds[j + 1]; }
      FirstDepFinds(cfg, a, ds[1..], t, q, i - 1);
    }
  }

  // A type it does not declare is answered for by the first listed dependency that has an answer, else
  // by the assembly the index names, else by nobody.
  lemma ExactElsewhere(cfg: Config, a: Asm, t: Name, q: Query)
    requires cfg.Valid() && (a, t) !in cfg.rows
    ensures forall i :: a in cfg.deps && 0 <= i < |cfg.deps[a]| && FirstAnswer(cfg, cfg.deps[a], t, q, i) ==>
      Exact(cfg, a, t, q) == Exact(cfg, cfg.deps[a][i], t, q)
    ensures (a in cfg.deps ==> forall i :: 0 <= i < |cfg.deps[a]| ==> Exact(cfg, cfg.deps[a][i], t, q).None?) ==>
      Exact(cfg, a, t, q) == if (a, t) in cfg.index && cfg.index[(a, t)] != a
                             then Exact(cfg, cfg.index[(a, t)], t, q) else None
  {
    var ds := if a in cfg.deps then cfg.deps[a] else [];
    forall i | 0 <= i < |ds| && FirstAnswer(cfg, ds, t, q, i)
      ensures Exact(cfg, a, t, q) == Exact(cfg, ds[i], t, q)
    {
      FirstDepFinds(cfg, a, ds, t, q, i);
    }
    if forall i :: 0 <= i < |ds| ==> Exact(cfg, ds[i], t, q).None? { FirstDepFinds(cfg, a, ds, t, q, |ds|); }
  }

  // ---------------------------------------------------------------- the ancestors

  // The k-th type met going up from the concrete one.
  function AncestorAt(cfg: Config, q: Query, k: nat): Option<Name> {
    if k == 0 then (if q.concrete == "" then None else Some(q.concrete))
    else match AncestorAt(cfg, q, k - 1)
      case None => None
      case Some(t) => if t in cfg.bases && cfg.bases[t] != "" then Some(cfg.bases[t]) else None
  }

  ghost predicate Misses(cfg: Config, a: Asm, q: Query, k: nat)
    requires cfg.Valid()
  {
    var t := AncestorAt(cfg, q, k);
    t.Some? ==> Exact(cfg, a, t.value, q) == None
  }

  // The k-th ancestor matches and no nearer one does.
  ghost predicate NearestMatch(cfg: Config, a: Asm, q: Query, k: nat)
    requires cfg.Valid()
  {
    !Misses(cfg, a, q, k) && forall j :: 0 <= j < k ==> Misses(cfg, a, q, j)
  }

  // The body of the nearest ancestor's matching row, qualified by that ancestor; None when no
  // ancestor, however far up, has one.
  ghost function Answer(cfg: Config, a: Asm, q: Query): Option<string>
    requires cfg.Valid()
  {
    if k: nat :| NearestMatch(cfg, a, q, k) then
      var t := AncestorAt(cfg, q, k).value;
      Some(t + "::" + Exact(cfg, a, t, q).value)
    else None
  }

  lemma NearestIsUnique(cfg: Config, a: Asm, q: Query, j: nat, k: nat)
    requires cfg.Valid() && NearestMatch(cfg, a, q, j) && NearestMatch(cfg, a, q, k)
    ensures j == k
  {}

  lemma {:induction false} AncestorsEnd(cfg: Config, q: Query, k: nat, i: nat)
    requires k <= i && AncestorAt(cfg, q, k).None?
    ensures AncestorAt(cfg, q, i).None?
  {
    if k < i { AncestorsEnd(cfg, q, k, i - 1); }
  }

  // Once the chain comes back to a type already met, it stays among those already met.
  lemma {:induction false} AncestorsRepeat(cfg: Config, q: Query, k: nat, i: nat)
    requires exists j :: 0 <= j < k && AncestorAt(cfg, q, j) == AncestorAt(cfg, q, k)
    ensures exists j :: 0 <= j < k && AncestorAt(cfg, q, j) == AncestorAt(cfg, q, i)
  {
    if i >= k && i > 0 {
      AncestorsRepeat(cfg, q, k, i - 1);
      var j :| 0 <= j < k && AncestorAt(cfg, q, j) == AncestorAt(cfg, q, i - 1);
      assert AncestorAt(cfg, q, j + 1) == AncestorAt(cfg, q, i);
    }
  }

  // ---------------------------------------------------------------- the cache key

  const NUL: string := ['\0']

  function Key(q: Query): string { q.concrete + NUL + q.iface + NUL + q.method_ }

  predicate NulFree(q: Query) { '\0' !in q.concrete && '\0' !in q.iface && '\0' !in q.method_ }

  lemma KeyInjective(p: Query, q: Query)
    requires NulFree(p) && NulFree(q) && Key(p) == Key(q)
    ensures p == q
  {
    assert Key(p) == p.concrete + ['\0'] + (p.iface + NUL + p.method_);
    assert Key(q) == q.concrete + ['\0'] + (q.iface + NUL + q.method_);
    SplitUnique(p.concrete, p.iface + NUL + p.method_, q.concrete, q.iface + NUL + q.method_, '\0');
    SplitUnique(p.iface, p.method_, q.iface, q.method_, '\0');
  }

  function NulCount(s: string): nat {
    if s == [] then 0 else (if s[0] == '\0' then 1 else 0) + NulCount(s[1..])
  }

  lemma {:induction false} NulCountConcat(s: string, t: string)
    ensures NulCount(s + t) == NulCount(s) + NulCount(t)
  {
    if s == [] { assert s + t == t; } else {
      NulCountConcat(s[1..], t);
      assert (s + t)[1..] == s[1..] + t;
    }
  }

  lemma {:induction false} NulCountZero(s: string)
    ensures NulCount(s) == 0 <==> '\0' !in s
  {
    if s != [] { NulCountZero(s[1..]); assert s == [s[0]] + s[1..]; }
  }

  lemma KeyNulCount(q: Query)
    ensures NulCount(Key(q)) == NulCount(q.concrete) + NulCount(q.iface) + NulCount(q.method_) + 2
  {
    assert NulCount(NUL) == 1;
    NulCountConcat(q.concrete + NUL + q.iface + NUL, q.method_);
    NulCountConcat(q.concrete + NUL + q.iface, NUL);
    NulCountConcat(q.concrete + NUL, q.iface);
    NulCountConcat(q.concrete, NUL);
  }

  // A query shares its key with no other exactly when none of its names holds a NUL.
  lemma KeyIsOwnIffNulFree(q: Query)
    ensures (forall p :: Key(p) == Key(q) ==> p == q) <==> NulFree(q)
  {
    if NulFree(q) {
      forall p | Key(p) == Key(q) ensures p == q {
        KeyNulCount(p);
        KeyNulCount(q);
        NulCountZero(q.concrete); NulCountZero(q.iface); NulCountZero(q.method_);
        NulCountZero(p.concrete); NulCountZero(p.iface); NulCountZero(p.method_);
        KeyInjective(p, q);
      }
    } else {
      var p := Resplit(q);
      assert Key(p) == Key(q) && p != q;
    }
  }

  // The parts of a name around a NUL in it.
  ghost function CutAt(name: string): (r: (string, string))
    requires '\0' in name
    ensures name == r.0 + NUL + r.1
  {
    var i :| 0 <= i < |name| && name[i] == '\0';
    (name[..i], name[i + 1..])
  }

  lemma Joined(a: string, b: string, c: string, d: string)
    ensures (a + NUL + b) + NUL + (c + NUL + d) == a + NUL + (b + NUL + c) + NUL + d
    ensures (a + NUL + b) + NUL + (c + NUL + d) == a + NUL + b + NUL + (c + NUL + d)
    ensures (a + NUL + b) + NUL + c + NUL + d == a + NUL + b + NUL + (c + NUL + d)
    ensures a + NUL + (b + NUL + c) + NUL + d == a + NUL + b + NUL + (c + NUL + d)
  {}

  // Another query with the same key: cut at a NUL inside a name instead of at its end.
  lemma Resplit(q: Query) returns (p: Query)
    requires !NulFree(q)
    ensures Key(p) == Key(q) && p != q
  {
    if '\0' in q.concrete {
      var (a, b) := CutAt(q.concrete);
      p := Query(a, b, q.iface + NUL + q.method_);
      Joined(a, b, q.iface, q.method_);
    } else if '\0' in q.iface {
      var (b, c) := CutAt(q.iface);
      p := Query(q.concrete, b, c + NUL + q.method_);
      Joined(q.concrete, b, c, q.method_);
    } else {
      var (c, d) := CutAt(q.method_);
      p := Query(q.concrete, q.iface + NUL + c, d);
      Joined(q.concrete, q.iface, c, d);
      assert |p.iface| > |q.iface|;
    }
  }

  // ---------------------------------------------------------------- the assembly

  type Cache = map<string, Option<string>>

  ghost predicate CacheOk(cfg: Config, a: Asm, cache: Cache)
    requires cfg.Valid()
  {
    forall q :: NulFree(q) && Key(q) in cache ==> cache[Key(q)] == Answer(cfg, a, q)
  }

  lemma StoreKeepsCache(cfg: Config, a: Asm, cache: Cache, q: Query)
    requires cfg.Valid() && CacheOk(cfg, a, cache) && NulFree(q)
    ensures CacheOk(cfg, a, cache[Key(q) := Answer(cfg, a, q)])
  {
    forall p | NulFree(p) && Key(p) == Key(q) ensures p == q { KeyInjective(p, q); }
  }

  class Assembly {
    const cfg: Config
    const self: Asm
    var explicitImpls: Cache

    ghost predicate Valid()
      reads this
    {
      cfg.Valid() && CacheOk(cfg, self, explicitImpls)
    }

    constructor (cfg: Config, self: Asm)
      requires cfg.Valid()
      ensures this.cfg == cfg && this.self == self && Valid()
    {
      this.cfg, this.self, explicitImpls := cfg, self, map[];
    }

    // The k-th ancestor is the nearest with a match, declared by the assembly itself, and its i-th row is
    // the first for the interface and method asked.
    ghost predicate OwnRow(q: Query, k: nat, i: nat)
      requires cfg.Valid()
    {
      && NearestMatch(cfg, self, q, k)
      && var t := AncestorAt(cfg, q, k).value;
      && (self, t) in cfg.rows && cfg.rows[(self, t)].Some?
      && i < |cfg.rows[(self, t)].value| && Implements(cfg.rows[(self, t)].value, q, i)
    }

    lemma OwnRowAnswers(q: Query, k: nat, i: nat)
      requires cfg.Valid() && OwnRow(q, k, i)
      ensures var t := AncestorAt(cfg, q, k).value;
        Answer(cfg, self, q) == Some(t + "::" + cfg.rows[(self, t)].value[i].body.value)
    {
      MatchFound(cfg, self, q, k);
      ScanFinds(cfg.rows[(self, AncestorAt(cfg, q, k).value)].value, q, i);
    }

    // Hit or miss, the answer is that of the walk: the body that the first fitting row of the nearest
    // ancestor names.
    method Resolve(q: Query) returns (r: Option<string>)
      requires Valid() && NulFree(q)
      modifies this
      ensures Valid() && r == Answer(cfg, self, q)
      ensures forall k: nat, i: nat :: OwnRow(q, k, i) ==>
        var t := AncestorAt(cfg, q, k).value; r == Some(t + "::" + cfg.rows[(self, t)].value[i].body.value)
      ensures explicitImpls == old(explicitImpls)[Key(q) := r]
    {
      forall k: nat, i: nat | OwnRow(q, k, i)
        ensures var t := AncestorAt(cfg, q, k).value;
          Answer(cfg, self, q) == Some(t + "::" + cfg.rows[(self, t)].value[i].body.value)
      {
        OwnRowAnswers(q, k, i);
      }
      if Key(q) in explicitImpls {
        assert explicitImpls == explicitImpls[Key(q) := explicitImpls[Key(q)]];
        return explicitImpls[Key(q)];
      }
      r := Uncached(q);
      StoreKeepsCache(cfg, self, explicitImpls, q);
      explicitImpls := explicitImpls[Key(q) := r];
    }

    // Ends on any chain of bases, a cyclic one included.
    method Uncached(q: Query) returns (r: Option<string>)
      requires cfg.Valid()
      ensures r == Answer(cfg, self, q)
    {
      var seen: set<Name> := {};
      var typeName := q.concrete;
      ghost var chain: seq<Name> := [];
      while typeName != "" && typeName !in seen
        invariant AncestorAt(cfg, q, |chain|) == if typeName == "" then None else Some(typeName)
        invariant WalkedPast(cfg, self, q, chain) && forall t :: t in seen ==> t in chain
        decreases cfg.bases.Keys - seen
      {
        seen := seen + {typeName};
        var m := Exact(cfg, self, typeName, q);
        if m.Some? {
          MatchFound(cfg, self, q, |chain|);
          return Some(typeName + "::" + m.value);
        }
        chain := chain + [typeName];
        if typeName !in cfg.bases {
          NoMatchAfterEnd(cfg, self, q, |chain|);
          return None;
        }
        typeName := cfg.bases[typeName];
      }
      if typeName == "" {
        NoMatchAfterEnd(cfg, self, q, |chain|);
      } else {
        ghost var j :| 0 <= j < |chain| && chain[j] == typeName;
        NoMatchOnCycle(cfg, self, q, |chain|);
      }
      return None;
    }
  }

  // The types met so far, none of which matched.
  ghost predicate WalkedPast(cfg: Config, a: Asm, q: Query, chain: seq<Name>)
    requires cfg.Valid()
  {
    forall j :: 0 <= j < |chain| ==> AncestorAt(cfg, q, j) == Some(chain[j]) && Misses(cfg, a, q, j)
  }

  lemma MatchFound(cfg: Config, a: Asm, q: Query, k: nat)
    requires cfg.Valid() && NearestMatch(cfg, a, q, k)
    ensures var t := AncestorAt(cfg, q, k).value;
      Answer(cfg, a, q) == Some(t + "::" + Exact(cfg, a, t, q).value)
  {
    forall j: nat | NearestMatch(cfg, a, q, j) ensures j == k { NearestIsUnique(cfg, a, q, j, k); }
  }

  lemma NoMatchAfterEnd(cfg: Config, a: Asm, q: Query, k: nat)
    requires cfg.Valid() && forall j :: 0 <= j < k ==> Misses(cfg, a, q, j)
    requires AncestorAt(cfg, q, k).None?
    ensures Answer(cfg, a, q) == None
  {
    forall i: nat ensures Misses(cfg, a, q, i) {
      if i >= k { AncestorsEnd(cfg, q, k, i); }
    }
  }

  lemma NoMatchOnCycle(cfg: Config, a: Asm, q: Query, k: nat)
    requires cfg.Valid() && forall j :: 0 <= j < k ==> Misses(cfg, a, q, j)
    requires exists j :: 0 <= j < k && AncestorAt(cfg, q, j) == AncestorAt(cfg, q, k)
    ensures Answer(cfg, a, q) == None
  {
    forall i: nat ensures Misses(cfg, a, q, i) {
      AncestorsRepeat(cfg, q, k, i);
      var j :| 0 <= j < k && AncestorAt(cfg, q, j) == AncestorAt(cfg, q, i);
      assert Misses(cfg, a, q, j);
    }
  }

  // ---------------------------------------------------------------- many threads

  // A call reads the cache in one critical section, walks outside any, and stores in another.
  datatype Pc = Idle | Walking(q: Query) | Storing(q: Query, answer: Option<string>)

  datatype State = State(cache: Cache, threads: map<nat, Pc>, log: seq<(Query, Option<string>)>)

  datatype Action = Call(q: Query) | Continue

  function PcOf(s: State, t: nat): Pc { if t in s.threads then s.threads[t] else Idle }

  ghost function Step(cfg: Config, a: Asm, s: State, t: nat, act: Action): State
    requires cfg.Valid()
  {
    match (PcOf(s, t), act)
    case (Idle, Call(q)) =>
      if Key(q) in s.cache then s.(log := s.log + [(q, s.cache[Key(q)])])
      else s.(threads := s.threads[t := Walking(q)])
    case (Walking(q), Continue) => s.(threads := s.threads[t := Storing(q, Answer(cfg, a, q))])
    case (Storing(q, r), Continue) =>
      s.(cache := s.cache[Key(q) := r], threads := s.threads[t := Idle], log := s.log + [(q, r)])
    case _ => s
  }

  ghost function Run(cfg: Config, a: Asm, s: State, sched: seq<(nat, Action)>): State
    requires cfg.Valid()
  {
    if sched == [] then s
    else
      var last := sched[|sched| - 1];
      Step(cfg, a, Run(cfg, a, s, sched[..|sched| - 1]), last.0, last.1)
  }

  ghost predicate Inv(cfg: Config, a: Asm, s: State)
    requires cfg.Valid()
  {
    && CacheOk(cfg, a, s.cache)
    && (forall t :: t in s.threads && s.threads[t] != Idle ==> NulFree(s.threads[t].q))
    && (forall t :: t in s.threads && s.threads[t].Storing? ==> s.threads[t].answer == Answer(cfg, a, s.threads[t].q))
    && (forall i :: 0 <= i < |s.log| ==> s.log[i].1 == Answer(cfg, a, s.log[i].0))
  }

  // Any threads, any order, hit or miss: every finished call got what the uncached walk returns.
  lemma {:induction false} EveryCallGetsTheWalk(cfg: Config, a: Asm, sched: seq<(nat, Action)>)
    requires cfg.Valid()
    requires forall i :: 0 <= i < |sched| && sched[i].1.Call? ==> NulFree(sched[i].1.q)
    ensures Inv(cfg, a, Run(cfg, a, State(map[], map[], []), sched))
  {
    if sched != [] {
      var rest, last := sched[..|sched| - 1], sched[|sched| - 1];
      EveryCallGetsTheWalk(cfg, a, rest);
      var s := Run(cfg, a, State(map[], map[], []), rest);
      if PcOf(s, last.0).Storing? { StoreKeepsCache(cfg, a, s.cache, PcOf(s, last.0).q); }
    }
  }
}
