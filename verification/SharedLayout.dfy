// Inherited fields across assemblies and threads (assembly.go:2226-2236): whoever builds a type, and
// whichever assembly serves its base, the fields of the base come first.
module SharedLayout {
  import opened Common
  import opened TypeInterning

  type Key = (Asm, Name)

  // b is the type that resolving the base of k, from the assembly k is built from, is served by.
  ghost predicate BaseKey(cfg: Config, k: Key, b: Key) {
    cfg.BaseOf(k.0, k.1) == Some(b.1) && exists fuel :: ServerOf(cfg, k.0, b.1, fuel) == Owner(b.0)
  }

  function FieldsAt(s: State, k: Key): seq<string>
    requires k in s.types && s.types[k] < |s.heap|
  {
    s.heap[s.types[k]].fields
  }

  // The one resolution of a type's base that its object was built on.
  lemma ParentAnswer(cfg: Config, s: State, k: Key, fuel: nat) returns (e: Event)
    requires Inv(cfg, s) && k in s.types && cfg.BaseOf(k.0, k.1).Some?
    requires ServerOf(cfg, k.0, cfg.BaseOf(k.0, k.1).value, fuel) != Unknown
    ensures s.types[k] < |s.heap| && s.heap[s.types[k]].parent == Some(e)
    ensures AnswerOk(cfg, s.types, k.0, cfg.BaseOf(k.0, k.1).value, e.answer, e.height)
    ensures ServerOf(cfg, k.0, cfg.BaseOf(k.0, k.1).value, e.height)
         == ServerOf(cfg, k.0, cfg.BaseOf(k.0, k.1).value, fuel)
    ensures FieldsAt(s, k) == FieldsOf(cfg, s.heap, e.answer) + cfg.declared[k].fields
    ensures e.answer.Hit? && e.answer.ref.Built? ==> e.answer.ref.id < s.types[k]
  {
    assert ObjectOk(cfg, s, s.types[k]);
    e := s.heap[s.types[k]].parent.value;
    var base := cfg.BaseOf(k.0, k.1).value;
    if e.height < fuel { FuelSettles(cfg, k.0, base, e.height, fuel); }
    else { FuelSettles(cfg, k.0, base, fuel, e.height); }
  }

  // A type's fields are those of the type that serves its base, then its own; that type is in its
  // server's table by then, and was built before.
  lemma EntryOverBase(cfg: Config, s: State, k: Key, b: Key)
    requires Inv(cfg, s) && k in s.types && BaseKey(cfg, k, b)
    ensures b in s.types && s.types[b] < s.types[k] < |s.heap|
    ensures FieldsAt(s, k) == FieldsAt(s, b) + cfg.declared[k].fields
  {
    var fuel: nat :| ServerOf(cfg, k.0, b.1, fuel) == Owner(b.0);
    var e := ParentAnswer(cfg, s, k, fuel);
  }

  // A base the library serves gives the library's fields, one that nobody serves gives none.
  lemma EntryElsewhere(cfg: Config, s: State, k: Key)
    requires Inv(cfg, s) && k in s.types
    ensures s.types[k] < |s.heap|
    ensures cfg.BaseOf(k.0, k.1) == None ==> k in cfg.declared && FieldsAt(s, k) == cfg.declared[k].fields
    ensures forall base :: cfg.BaseOf(k.0, k.1) == Some(base) && base in cfg.native ==>
      k in cfg.declared && FieldsAt(s, k) == cfg.native[base] + cfg.declared[k].fields
    ensures forall base, fuel :: cfg.BaseOf(k.0, k.1) == Some(base) && ServerOf(cfg, k.0, base, fuel) == Nobody ==>
      FieldsAt(s, k) == cfg.declared[k].fields
  {
    assert ObjectOk(cfg, s, s.types[k]);
    if cfg.BaseOf(k.0, k.1).Some? {
      var base := cfg.BaseOf(k.0, k.1).value;
      if base in cfg.native { var _ := ParentAnswer(cfg, s, k, 0); }
      forall fuel: nat | ServerOf(cfg, k.0, base, fuel) == Nobody ensures FieldsAt(s, k) == cfg.declared[k].fields {
        var _ := ParentAnswer(cfg, s, k, fuel);
      }
    }
  }

  // The bases of the first, one after the other, across whatever assemblies serve them.
  ghost predicate BaseChain(cfg: Config, p: seq<Key>) {
    p != [] && forall i :: 0 <= i < |p| - 1 ==> BaseKey(cfg, p[i], p[i + 1])
  }

  lemma {:induction false} ChainIsPrefix(cfg: Config, s: State, p: seq<Key>)
    requires Inv(cfg, s) && BaseChain(cfg, p) && p[0] in s.types
    ensures p[|p| - 1] in s.types
    ensures s.types[p[|p| - 1]] < |s.heap| && s.types[p[0]] < |s.heap|
    ensures FieldsAt(s, p[|p| - 1]) <= FieldsAt(s, p[0])
    decreases |p|
  {
    assert ObjectOk(cfg, s, s.types[p[0]]);
    if |p| > 1 {
      var rest := p[1..];
      assert BaseKey(cfg, p[0], p[1]);
      EntryOverBase(cfg, s, p[0], p[1]);
      assert BaseChain(cfg, rest) by {
        forall i | 0 <= i < |rest| - 1 ensures BaseKey(cfg, rest[i], rest[i + 1]) {
          assert BaseKey(cfg, p[i + 1], p[i + 2]);
        }
      }
      ChainIsPrefix(cfg, s, rest);
    }
  }

  // In every interleaving, once a type is in a table so are all its ancestors, each in the table of
  // the assembly that serves it, and the fields of each are a prefix of the type's own.
  lemma AncestorFieldsArePrefix(cfg: Config, sched: Schedule, p: seq<Key>)
    requires BaseChain(cfg, p) && p[0] in Run(cfg, INITIAL, sched).types
    ensures var s := Run(cfg, INITIAL, sched);
      && p[|p| - 1] in s.types && s.types[p[|p| - 1]] < |s.heap| && s.types[p[0]] < |s.heap|
      && FieldsAt(s, p[|p| - 1]) <= FieldsAt(s, p[0])
  {
    RunKeepsInv(cfg, INITIAL, sched);
    ChainIsPrefix(cfg, Run(cfg, INITIAL, sched), p);
  }

  lemma {:induction false} SameFields(cfg: Config, s: State, s': State, k: Key)
    requires Inv(cfg, s) && Inv(cfg, s') && k in s.types && k in s'.types
    ensures s.types[k] < |s.heap| && s'.types[k] < |s'.heap| && FieldsAt(s, k) == FieldsAt(s', k)
    decreases s.types[k]
  {
    assert ObjectOk(cfg, s, s.types[k]) && ObjectOk(cfg, s', s'.types[k]);
    var parent := s.heap[s.types[k]].parent;
    if parent.Some? {
      var base := parent.value.name;
      var e := ParentAnswer(cfg, s, k, parent.value.height);
      var e' := ParentAnswer(cfg, s', k, parent.value.height);
      if e.answer.Hit? && e.answer.server.Owner? { SameFields(cfg, s, s', (e.answer.server.asm, base)); }
    }
  }

  // And a type has the same fields in every run.
  lemma LayoutIgnoresInterleaving(cfg: Config, sched: Schedule, sched': Schedule, k: Key)
    requires k in Run(cfg, INITIAL, sched).types && k in Run(cfg, INITIAL, sched').types
    ensures var s, s' := Run(cfg, INITIAL, sched), Run(cfg, INITIAL, sched');
      s.types[k] < |s.heap| && s'.types[k] < |s'.heap| && FieldsAt(s, k) == FieldsAt(s', k)
  {
    RunKeepsInv(cfg, INITIAL, sched);
    RunKeepsInv(cfg, INITIAL, sched');
    SameFields(cfg, Run(cfg, INITIAL, sched), Run(cfg, INITIAL, sched'), k);
  }
}
