// ConcurrentDictionary<K,V> over one mutex-guarded map, keyed by encoded keys
// (internal/bcl/system_concurrentdictionary.go).
module ConcurrentDicts {
  import opened Common
  import opened Values
  import opened LockedObjects

  type Key = string
  type Entries = map<Key, Value>

  // GetOrAdd carries what its factory would produce if it ran, or a literal value as an Ok.
  datatype Op =
    | GetOrAdd(key: Key, compute: Result<Value, ()>, byFactory: bool)
    | TryAdd(key: Key, value: Value)
    | TryGetValue(key: Key)
    | TryRemove(key: Key)
    | SetItem(key: Key, value: Value)
    | Clear

  datatype Answer =
    | Got(value: Value, computed: bool)
    | Failed
    | Added(ok: bool)
    | Found(out: Option<Value>)
    | Done

  function Apply(m: Entries, op: Op): (Entries, Answer) {
    match op
    case GetOrAdd(k, compute, _) =>
      if k in m then (m, Got(m[k], false))
      else (match compute
            case Ok(v) => (m[k := v], Got(v, true))
            case Err(_) => (m, Failed))
    case TryAdd(k, v) => if k in m then (m, Added(false)) else (m[k := v], Added(true))
    case TryGetValue(k) => (m, Found(if k in m then Some(m[k]) else None))
    case TryRemove(k) => if k in m then (m - {k}, Found(Some(m[k]))) else (m, Found(None))
    case SetItem(k, v) => (m[k := v], Done)
    case Clear => (map[], Done)
  }

  // The factory runs where the key is absent.
  predicate RunsFactory(m: Entries, op: Op) { op.GetOrAdd? && op.byFactory && op.key !in m }

  // Any number of dictionaries, all empty at the start.
  const DICT := Objects((x: Ref) => map[], Apply, RunsFactory)

  // The operations as the source runs them between Lock and Unlock.
  class NativeConcurrentDict {
    var m: Entries

    constructor ()
      ensures m == map[]
    {
      m := map[];
    }

    method DoGetOrAdd(k: Key, compute: Result<Value, ()>, ghost byFactory: bool) returns (a: Answer)
      modifies this
      ensures (m, a) == Apply(old(m), GetOrAdd(k, compute, byFactory))
    {
      if k in m { return Got(m[k], false); }
      if compute.Err? { return Failed; }
      m := m[k := compute.value];
      return Got(compute.value, true);
    }

    method DoTryAdd(k: Key, v: Value) returns (ok: bool)
      modifies this
      ensures (m, Added(ok)) == Apply(old(m), TryAdd(k, v))
    {
      if k in m { return false; }
      m := m[k := v];
      return true;
    }

    method DoTryRemove(k: Key) returns (out: Option<Value>)
      modifies this
      ensures (m, Found(out)) == Apply(old(m), TryRemove(k))
    {
      if k !in m { return None; }
      out := Some(m[k]);
      m := m - {k};
    }

    method DoSetItem(k: Key, v: Value)
      modifies this
      ensures (m, Done) == Apply(old(m), SetItem(k, v))
    {
      m := m[k := v];
    }

    method DoClear()
      modifies this
      ensures (m, Done) == Apply(old(m), Clear)
    {
      m := map[];
    }
  }

  type History = seq<(Op, Answer)>

  // The call took key k out.
  predicate Takes(e: (Op, Answer), k: Key) {
    e.0.Clear? || (e.0.TryRemove? && e.0.key == k && e.1 != Found(None))
  }

  // The call put a value under k or took k out.
  predicate Touches(e: (Op, Answer), k: Key) {
    || Takes(e, k) || (e.0.SetItem? && e.0.key == k)
    || (e.0.TryAdd? && e.0.key == k && e.1 == Added(true))
    || (e.0.GetOrAdd? && e.0.key == k && e.1.Got? && e.1.computed)
  }

  lemma ApplyKeeps(m: Entries, e: (Op, Answer), m': Entries, k: Key)
    requires k in m && (m', e.1) == Apply(m, e.0) && !Takes(e, k)
    ensures k in m' && (!Touches(e, k) ==> m'[k] == m[k])
  {}

  // A key stays until a call takes it out, and keeps its value until a call touches it.
  lemma {:induction false} KeptUntilTouched(log: History, i: nat, j: nat, k: Key)
    requires i <= j <= |log| && Sequential(DICT, map[], log) && k in After(DICT, map[], log, i)
    requires forall n :: i <= n < j ==> !Takes(log[n], k)
    ensures k in After(DICT, map[], log, j)
    ensures (forall n :: i <= n < j ==> !Touches(log[n], k)) ==>
      After(DICT, map[], log, j)[k] == After(DICT, map[], log, i)[k]
    decreases j - i
  {
    if i < j {
      KeptUntilTouched(log, i, j - 1, k);
      AfterStep(DICT, map[], log, j - 1);
      ApplyKeeps(After(DICT, map[], log, j - 1), log[j - 1], After(DICT, map[], log, j), k);
    }
  }

  // In every interleaving, between two runs of a factory for the same key there is a call that
  // took the key out: one run per period of presence.
  lemma OneFactoryRunPerPresence(sched: Schedule<Op>, x: Ref, i: nat, j: nat)
    requires var log: History := LogOf(Run(DICT, Initial(), sched), x);
      && i < j < |log| && log[i].0.GetOrAdd? && log[j].0.GetOrAdd? && log[i].0.key == log[j].0.key
      && log[i].1.Got? && log[j].1.Got? && log[j].1.computed
    ensures var log: History := LogOf(Run(DICT, Initial(), sched), x);
      exists n :: i < n < j && Takes(log[n], log[i].0.key)
  {
    EveryRunIsSequential(DICT, sched, x);
    var log: History := LogOf(Run(DICT, Initial(), sched), x);
    var k := log[i].0.key;
    AfterStep(DICT, map[], log, i);
    AfterStep(DICT, map[], log, j);
    if forall n :: i < n < j ==> !Takes(log[n], k) { KeptUntilTouched(log, i + 1, j, k); }
  }

  // Every GetOrAdd that returns a value returns the one stored at that moment, and until a call
  // touches the key every GetOrAdd and TryGetValue of it returns that same value.
  lemma GetOrAddReturnsStored(sched: Schedule<Op>, x: Ref, i: nat, j: nat)
    requires var log: History := LogOf(Run(DICT, Initial(), sched), x);
      && i < j < |log| && log[i].0.GetOrAdd? && log[i].1.Got?
      && (log[j].0.GetOrAdd? || log[j].0.TryGetValue?) && log[j].0.key == log[i].0.key
      && forall n :: i < n < j ==> !Touches(log[n], log[i].0.key)
    ensures var log: History := LogOf(Run(DICT, Initial(), sched), x);
      && log[i].0.key in After(DICT, map[], log, i + 1)
      && After(DICT, map[], log, i + 1)[log[i].0.key] == log[i].1.value
      && log[j].1 == if log[j].0.GetOrAdd? then Got(log[i].1.value, false) else Found(Some(log[i].1.value))
  {
    EveryRunIsSequential(DICT, sched, x);
    var log: History := LogOf(Run(DICT, Initial(), sched), x);
    AfterStep(DICT, map[], log, i);
    AfterStep(DICT, map[], log, j);
    KeptUntilTouched(log, i + 1, j, log[i].0.key);
  }

  // The value a finished call put under k, if it did.
  function Stored(e: (Op, Answer), k: Key): Option<Value> {
    match e.0
    case SetItem(key, value) => if key == k then Some(value) else None
    case TryAdd(key, value) => if key == k && e.1 == Added(true) then Some(value) else None
    case GetOrAdd(key, _, _) => if key == k && e.1.Got? && e.1.computed then Some(e.1.value) else None
    case _ => None
  }

  // The i-th call is the last of the first n that stored something under k or took k out.
  ghost predicate LastTouch(log: History, n: nat, k: Key, i: nat)
    requires n <= |log|
  {
    i < n && Touches(log[i], k) && forall m :: i < m < n ==> !Touches(log[m], k)
  }

  lemma CallStores(m: Entries, e: (Op, Answer), m': Entries, k: Key)
    requires (m', e.1) == Apply(m, e.0)
    ensures Touches(e, k) ==> if Stored(e, k).Some? then k in m' && m'[k] == Stored(e, k).value else k !in m'
    ensures !Touches(e, k) ==> (k in m' <==> k in m) && (k in m ==> m'[k] == m[k])
  {}

  // What a key is bound to follows from the calls alone: what the last call that touched it stored.
  lemma {:induction false} HoldsLastStored(log: History, n: nat, k: Key)
    requires Sequential(DICT, map[], log) && n <= |log|
    ensures var m := After(DICT, map[], log, n);
      && (k in m ==> exists i: nat :: LastTouch(log, n, k, i))
      && forall i: nat :: LastTouch(log, n, k, i) ==>
           if Stored(log[i], k).Some? then k in m && m[k] == Stored(log[i], k).value else k !in m
  {
    if n > 0 {
      HoldsLastStored(log, n - 1, k);
      AfterStep(DICT, map[], log, n - 1);
      var m, e := After(DICT, map[], log, n - 1), log[n - 1];
      CallStores(m, e, After(DICT, map[], log, n), k);
      if Touches(e, k) {
        assert LastTouch(log, n, k, n - 1);
        forall i: nat | LastTouch(log, n, k, i) ensures i == n - 1 {}
      } else {
        if k in m {
          var i: nat :| LastTouch(log, n - 1, k, i);
          assert LastTouch(log, n, k, i);
        }
        forall i: nat | LastTouch(log, n, k, i) ensures LastTouch(log, n - 1, k, i) {
          assert i == n - 1 ==> Touches(e, k);
        }
      }
    }
  }

  // What the dictionary holds for k before the j-th call.
  ghost predicate Bound(log: History, j: nat, k: Key, v: Value)
    requires j <= |log|
  {
    exists i: nat :: LastTouch(log, j, k, i) && Stored(log[i], k) == Some(v)
  }

  // In every interleaving each answer follows from the calls that finished before: reading and removing
  // find exactly what is bound, TryAdd succeeds exactly where nothing is, and GetOrAdd returns what is
  // bound or else what its own factory yields.
  lemma AnswersFollowCalls(sched: Schedule<Op>, x: Ref, j: nat, v: Value)
    requires j < |LogOf(Run(DICT, Initial(), sched), x)|
    ensures var log: History := LogOf(Run(DICT, Initial(), sched), x);
      match log[j].0
      case TryGetValue(k) => log[j].1 == Found(Some(v)) <==> Bound(log, j, k, v)
      case TryRemove(k) => log[j].1 == Found(Some(v)) <==> Bound(log, j, k, v)
      case TryAdd(k, _) => log[j].1 == Added(forall u :: !Bound(log, j, k, u))
      case GetOrAdd(k, compute, _) =>
        && (log[j].1 == Got(v, false) <==> Bound(log, j, k, v))
        && (log[j].1 == Got(v, true) <==> compute == Ok(v) && forall u :: !Bound(log, j, k, u))
        && (log[j].1 == Failed <==> compute.Err? && forall u :: !Bound(log, j, k, u))
      case SetItem(_, _) => log[j].1 == Done
      case Clear => log[j].1 == Done
  {
    var log: History := LogOf(Run(DICT, Initial(), sched), x);
    EveryRunIsSequential(DICT, sched, x);
    AfterStep(DICT, map[], log, j);
    if !log[j].0.Clear? { BoundIff(log, j, log[j].0.key); }
  }

  lemma BoundIff(log: History, j: nat, k: Key)
    requires Sequential(DICT, map[], log) && j <= |log|
    ensures var m := After(DICT, map[], log, j);
      forall v :: Bound(log, j, k, v) <==> k in m && m[k] == v
    ensures k !in After(DICT, map[], log, j) <==> forall v :: !Bound(log, j, k, v)
  {
    HoldsLastStored(log, j, k);
    var m := After(DICT, map[], log, j);
    if k in m {
      var i: nat :| LastTouch(log, j, k, i);
      assert Bound(log, j, k, m[k]);
    }
  }

  // A factory runs exactly where the answer is not one already stored.
  lemma FactoryRunsForNewAnswers(m: Entries, op: Op)
    requires op.GetOrAdd?
    ensures RunsFactory(m, op) <==>
              op.byFactory && Apply(m, op).1 != Got(if op.key in m then m[op.key] else Null, false)
  {}
}
