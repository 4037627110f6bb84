// Multicast delegates: Combine, Remove and equality on invocation lists
// (internal/bcl/system_delegate.go:18-116).
module Delegates {
  import opened Common
  import opened Values

  // A bound target; `chain` holds the targets combined after it.
  datatype Func = Func(fullName: string, receiver: Option<Value>, chain: seq<Func>, typeName: string, isVirtual: bool)

  // NoDelegate stands for null and every value that is not a delegate.
  datatype Delegate = NoDelegate | Del(func: Func)

  // Targets in a chain have no chain of their own, as every operation below leaves them.
  predicate Flat(d: Delegate) { d.Del? ==> forall f :: f in d.func.chain ==> f.chain == [] }

  predicate FlatList(list: seq<Func>) { forall f :: f in list ==> f.chain == [] }

  // delegateFuncs: the targets in invocation order.
  function ListOf(d: Delegate): seq<Func> {
    match d
    case NoDelegate => []
    case Del(f) => [f.(chain := [])] + f.chain
  }

  function FromList(list: seq<Func>): Delegate {
    if list == [] then NoDelegate else Del(list[0].(chain := list[1..]))
  }

  function Combine(a: Delegate, b: Delegate): Delegate {
    if ListOf(a) == [] then FromList(ListOf(b))
    else if ListOf(b) == [] then FromList(ListOf(a))
    else FromList(ListOf(a) + ListOf(b))
  }

  predicate SameTarget(f: Func, g: Func) {
    && f.fullName == g.fullName
    && f.receiver.Some? == g.receiver.Some?
    && (f.receiver.Some? ==> ValuesEqual(f.receiver.value, g.receiver.value))
  }

  // The run compares element by element over the first list.
  predicate SameRun(a: seq<Func>, b: seq<Func>)
    requires |a| <= |b|
  {
    forall i :: 0 <= i < |a| ==> SameTarget(a[i], b[i])
  }

  predicate RunAt(source: seq<Func>, value: seq<Func>, start: nat) {
    start + |value| <= |source| && SameRun(source[start..start + |value|], value)
  }

  // The greatest start up to `from` of a run of `value`, if there is one.
  function LastRun(source: seq<Func>, value: seq<Func>, from: int): (r: Option<nat>)
    ensures r.Some? ==> r.value <= from && RunAt(source, value, r.value)
    decreases from
  {
    if from < 0 then None
    else if RunAt(source, value, from) then Some(from)
    else LastRun(source, value, from - 1)
  }

  function Cut(source: seq<Func>, start: nat, n: nat): seq<Func>
    requires start + n <= |source|
  {
    source[..start] + source[start + n..]
  }

  function RemovedList(source: seq<Func>, value: seq<Func>): seq<Func> {
    if source == [] || value == [] then source
    else match LastRun(source, value, |source| - |value|)
      case None => source
      case Some(start) => Cut(source, start, |value|)
  }

  method Remove(source: Delegate, value: Delegate) returns (r: Delegate)
    ensures r == FromList(RemovedList(ListOf(source), ListOf(value)))
  {
    var s, v := ListOf(source), ListOf(value);
    if |s| == 0 || |v| == 0 { return FromList(s); }
    var start := |s| - |v|;
    while start >= 0
      invariant start <= |s| - |v|
      invariant LastRun(s, v, |s| - |v|) == LastRun(s, v, start)
    {
      if RunAt(s, v, start) {
        return FromList(Cut(s, start, |v|));
      }
      start := start - 1;
    }
    return FromList(s);
  }

  predicate Equal(a: Delegate, b: Delegate) {
    |ListOf(a)| == |ListOf(b)| && SameRun(ListOf(a), ListOf(b))
  }

  // ---------------------------------------------------------------- lists and delegates

  lemma FromListOf(d: Delegate)
    ensures FromList(ListOf(d)) == d
  {}

  lemma ListOfFrom(list: seq<Func>)
    requires FlatList(list)
    ensures ListOf(FromList(list)) == list && Flat(FromList(list))
  {
    if list != [] {
      assert list[0].(chain := []) == list[0];
      assert list == [list[0]] + list[1..];
    }
  }

  // The delegate itself is invoked first, then what was combined after it.
  lemma HeadIsFirst(f: Func)
    ensures ListOf(Del(f))[0].fullName == f.fullName && ListOf(Del(f))[0].receiver == f.receiver
    ensures ListOf(Del(f))[1..] == f.chain
    ensures ListOf(NoDelegate) == []
  {}

  lemma ListIsFlat(d: Delegate)
    requires Flat(d)
    ensures FlatList(ListOf(d))
  {}

  // ---------------------------------------------------------------- Combine

  // Combining concatenates invocation lists.
  lemma CombineConcatenates(a: Delegate, b: Delegate)
    requires Flat(a) && Flat(b)
    ensures ListOf(Combine(a, b)) == ListOf(a) + ListOf(b) && Flat(Combine(a, b))
  {
    ListIsFlat(a);
    ListIsFlat(b);
    ListOfFrom(ListOf(a) + ListOf(b));
    FromListOf(a);
    FromListOf(b);
    assert [] + ListOf(b) == ListOf(b) && ListOf(a) + [] == ListOf(a);
  }

  lemma ListDetermines(a: Delegate, b: Delegate)
    requires ListOf(a) == ListOf(b)
    ensures a == b
  {
    FromListOf(a);
    FromListOf(b);
  }

  lemma CombineIsMonoid(a: Delegate, b: Delegate, c: Delegate)
    requires Flat(a) && Flat(b) && Flat(c)
    ensures Combine(Combine(a, b), c) == Combine(a, Combine(b, c))
    ensures Combine(NoDelegate, a) == a == Combine(a, NoDelegate)
  {
    assert Combine(Combine(a, b), c) == Combine(a, Combine(b, c)) by {
      var ab, bc := Combine(a, b), Combine(b, c);
      CombineConcatenates(a, b);
      CombineConcatenates(b, c);
      CombineConcatenates(ab, c);
      CombineConcatenates(a, bc);
      ConcatAssociates(ListOf(a), ListOf(b), ListOf(c));
      ListDetermines(Combine(ab, c), Combine(a, bc));
    }
    FromListOf(a);
  }

  // ---------------------------------------------------------------- Remove

  lemma {:induction false} LastRunIs(source: seq<Func>, value: seq<Func>, from: int, s: nat)
    requires s <= from && RunAt(source, value, s)
    requires forall t: nat :: s < t <= from ==> !RunAt(source, value, t)
    ensures LastRun(source, value, from) == Some(s)
    decreases from
  {
    if s < from { LastRunIs(source, value, from - 1, s); }
  }

  // Remove changes nothing where no run matches.
  lemma RemoveWithoutMatch(source: seq<Func>, value: seq<Func>)
    requires forall s: nat :: s <= |source| ==> !RunAt(source, value, s)
    ensures RemovedList(source, value) == source
  {}

  // Otherwise it cuts out one matching run, the rightmost.
  lemma RemoveCutsRightmostRun(source: seq<Func>, value: seq<Func>, s: nat)
    requires value != [] && RunAt(source, value, s)
    requires forall t: nat :: s < t <= |source| ==> !RunAt(source, value, t)
    ensures RemovedList(source, value) == source[..s] + source[s + |value|..]
  {
    assert s + |value| <= |source|;
    assert LastRun(source, value, |source| - |value|) == Some(s) by {
      LastRunIs(source, value, |source| - |value|, s);
    }
  }

  lemma CutIsFlat(source: seq<Func>, start: nat, n: nat)
    requires FlatList(source) && start + n <= |source|
    ensures FlatList(Cut(source, start, n))
  {}

  lemma RemovedIsFlat(source: seq<Func>, value: seq<Func>)
    requires FlatList(source)
    ensures FlatList(RemovedList(source, value))
  {
    if source != [] && value != [] {
      match LastRun(source, value, |source| - |value|) {
        case None =>
        case Some(start) => CutIsFlat(source, start, |value|);
      }
    }
  }

  // What is left is again an invocation list.
  lemma RemoveStaysFlat(source: Delegate, value: Delegate)
    requires Flat(source)
    ensures var left := RemovedList(ListOf(source), ListOf(value));
      ListOf(FromList(left)) == left && Flat(FromList(left))
  {
    ListIsFlat(source);
    RemovedIsFlat(ListOf(source), ListOf(value));
    ListOfFrom(RemovedList(ListOf(source), ListOf(value)));
  }

  predicate Recognisable(list: seq<Func>) {
    forall i :: 0 <= i < |list| && list[i].receiver.Some? ==> Comparable(list[i].receiver.value)
  }

  lemma TargetsSame(f: Func, g: Func)
    ensures SameTarget(f, g) <==>
      f.fullName == g.fullName && f.receiver == g.receiver && (f.receiver.Some? ==> Comparable(f.receiver.value))
  {
    if f.receiver.Some? && g.receiver.Some? { EqualIffSameComparable(f.receiver.value, g.receiver.value); }
  }

  // A list that has an unrecognisable target matches nowhere, not even itself.
  lemma UnrecognisableNeverMatches(source: seq<Func>, value: seq<Func>, s: nat)
    requires !Recognisable(value)
    ensures !RunAt(source, value, s)
  {
    var i :| 0 <= i < |value| && value[i].receiver.Some? && !Comparable(value[i].receiver.value);
    if s + |value| <= |source| {
      var run := source[s..s + |value|];
      TargetsSame(run[i], value[i]);
      assert !SameTarget(run[i], value[i]);
    }
  }

  lemma RecognisableMatchesItself(value: seq<Func>)
    requires Recognisable(value)
    ensures SameRun(value, value)
  {
    forall i | 0 <= i < |value| ensures SameTarget(value[i], value[i]) { TargetsSame(value[i], value[i]); }
  }

  // Unsubscribing undoes subscribing exactly when every receiver in what was subscribed is
  // comparable. A handler bound to another delegate (a delegate used as an extension-method
  // receiver) or to a value holding NaN is never removed.
  lemma RemoveUndoesCombineIff(a: Delegate, b: Delegate)
    requires Flat(a) && Flat(b)
    ensures RemovedList(ListOf(Combine(a, b)), ListOf(b)) == ListOf(a) <==> Recognisable(ListOf(b))
  {
    CombineConcatenates(a, b);
    if ListOf(b) != [] { RemoveTailIff(ListOf(a), ListOf(b)); }
  }

  lemma RemoveTailIff(a: seq<Func>, b: seq<Func>)
    requires b != []
    ensures RemovedList(a + b, b) == a <==> Recognisable(b)
  {
    var both := a + b;
    if Recognisable(b) {
      RecognisableMatchesItself(b);
      assert both[|a|..|a| + |b|] == b;
      assert RunAt(both, b, |a|);
      RemoveCutsRightmostRun(both, b, |a|);
      assert Cut(both, |a|, |b|) == a;
    } else {
      forall s: nat ensures !RunAt(both, b, s) { UnrecognisableNeverMatches(both, b, s); }
      RemoveWithoutMatch(both, b);
    }
  }

  // op_Equality: the same names and receivers in the same order, all comparable; so a delegate
  // equals itself exactly when its receivers are comparable.
  lemma EqualIffSameTargets(a: Delegate, b: Delegate)
    ensures Equal(a, b) <==>
      && |ListOf(a)| == |ListOf(b)| && Recognisable(ListOf(a))
      && forall i :: 0 <= i < |ListOf(a)| ==>
           ListOf(a)[i].fullName == ListOf(b)[i].fullName && ListOf(a)[i].receiver == ListOf(b)[i].receiver
  {
    var la, lb := ListOf(a), ListOf(b);
    if |la| == |lb| {
      forall i | 0 <= i < |la|
        ensures SameTarget(la[i], lb[i]) <==>
          la[i].fullName == lb[i].fullName && la[i].receiver == lb[i].receiver
          && (la[i].receiver.Some? ==> Comparable(la[i].receiver.value))
      {
        TargetsSame(la[i], lb[i]);
      }
    }
  }
}
