// Lazy<T>: a value computed once under the instance's mutex (internal/bcl/system_lazy.go).
module Lazies {
  import opened Common
  import opened Values
  import opened LockedObjects

  datatype Cell = Cell(hasValue: bool, value: Value)

  // An access to Value carries what its factory would produce if it ran.
  datatype Op = GetValue(compute: Result<Value, ()>) | GetIsValueCreated

  datatype Answer = Got(value: Value, computed: bool) | Failed | Created(b: bool)

  const FRESH := Cell(false, Null)

  function Apply(c: Cell, op: Op): (Cell, Answer) {
    match op
    case GetIsValueCreated => (c, Created(c.hasValue))
    case GetValue(compute) =>
      if c.hasValue then (c, Got(c.value, false))
      else match compute
        case Ok(v) => (Cell(true, v), Got(v, true))
        case Err(_) => (c, Failed)
  }

  // The factory runs where no value is there yet.
  predicate RunsFactory(c: Cell, op: Op) { op.GetValue? && !c.hasValue }

  // Any number of instances, all fresh at the start.
  const LAZY := Objects((x: Ref) => FRESH, Apply, RunsFactory)

  class NativeLazy {
    var hasValue: bool
    var value: Value

    ghost function State(): Cell
      reads this
    {
      Cell(hasValue, value)
    }

    constructor ()
      ensures State() == FRESH
    {
      hasValue, value := false, Null;
    }

    // The body between Lock and Unlock; `compute` is what running the factory now yields.
    method GetOrCompute(compute: Result<Value, ()>) returns (r: Result<Value, ()>)
      modifies this
      ensures (State(), r) == (var (c, a) := Apply(old(State()), GetValue(compute));
                               (c, if a.Got? then Ok(a.value) else Err(())))
    {
      if hasValue { return Ok(value); }
      if compute.Err? { return Err(()); }
      value := compute.value;
      hasValue := true;
      return Ok(value);
    }

    method IsValueCreated() returns (b: bool)
      ensures Created(b) == Apply(State(), GetIsValueCreated).1
    {
      b := hasValue;
    }
  }

  type History = seq<(Op, Answer)>

  ghost predicate ComputedBefore(log: History, n: nat)
    requires n <= |log|
  {
    exists i :: 0 <= i < n && log[i].1.Got? && log[i].1.computed
  }

  // The object remembers exactly whether some call so far computed, and what.
  lemma {:induction false} HoldsAfter(log: History, n: nat)
    requires Sequential(LAZY, FRESH, log) && n <= |log|
    ensures var c := After(LAZY, FRESH, log, n);
      && (c.hasValue <==> ComputedBefore(log, n))
      && (forall i :: 0 <= i < n && log[i].1.Got? ==> c.hasValue && log[i].1.value == c.value)
  {
    if n > 0 {
      HoldsAfter(log, n - 1);
      AfterStep(LAZY, FRESH, log, n - 1);
    }
  }

  lemma ScheduledAnswer(sched: Schedule<Op>, x: Ref, j: nat)
    requires j < |LogOf(Run(LAZY, Initial(), sched), x)|
    ensures var log: History := LogOf(Run(LAZY, Initial(), sched), x);
      var c := After(LAZY, FRESH, log, j);
      && log[j].1 == Apply(c, log[j].0).1
      && (c.hasValue <==> ComputedBefore(log, j))
      && (forall i :: 0 <= i < j && log[i].1.Got? ==> c.hasValue && log[i].1.value == c.value)
  {
    EveryRunIsSequential(LAZY, sched, x);
    var log: History := LogOf(Run(LAZY, Initial(), sched), x);
    AfterStep(LAZY, FRESH, log, j);
    HoldsAfter(log, j);
  }

  // In every interleaving of any number of threads: at most one access computes, all accesses that
  // return a value return that one, and no access fails after it. Failures before it leave the
  // instance as it was, so the next access computes again.
  lemma ComputedOnce(sched: Schedule<Op>, x: Ref, i: nat, j: nat)
    requires i < j < |LogOf(Run(LAZY, Initial(), sched), x)|
    ensures var log: History := LogOf(Run(LAZY, Initial(), sched), x);
      && (log[i].1.Got? ==> !log[j].1.Failed? && (log[j].1.Got? ==> log[j].1 == Got(log[i].1.value, false)))
      && (log[j].1.Got? && !log[j].1.computed ==>
            exists k :: 0 <= k < j && log[k].1 == Got(log[j].1.value, true))
  {
    ScheduledAnswer(sched, x, j);
  }

  // What an access that computes returns is what its factory yields.
  lemma ComputedIsTheFactorys(sched: Schedule<Op>, x: Ref, j: nat)
    requires j < |LogOf(Run(LAZY, Initial(), sched), x)|
    ensures var log: History := LogOf(Run(LAZY, Initial(), sched), x);
      && (log[j].1.Got? && log[j].1.computed ==> log[j].0 == GetValue(Ok(log[j].1.value)))
      && (log[j].1.Failed? ==> log[j].0.GetValue? && log[j].0.compute.Err?)
      && (log[j].1.Created? <==> log[j].0.GetIsValueCreated?)
  {
    ScheduledAnswer(sched, x, j);
  }

  // And the factory runs exactly for accesses that compute or fail.
  lemma FactoryRunsForNewAnswers(c: Cell, op: Op)
    ensures RunsFactory(c, op) <==> Apply(c, op).1.Failed? || (Apply(c, op).1.Got? && Apply(c, op).1.computed)
  {}

  // IsValueCreated answers whether an access has computed by then.
  lemma IsValueCreatedTellsWhetherComputed(sched: Schedule<Op>, x: Ref, j: nat)
    requires j < |LogOf(Run(LAZY, Initial(), sched), x)|
    requires LogOf(Run(LAZY, Initial(), sched), x)[j].0.GetIsValueCreated?
    ensures var log: History := LogOf(Run(LAZY, Initial(), sched), x);
      log[j].1 == Created(ComputedBefore(log, j))
  {
    ScheduledAnswer(sched, x, j);
  }

  // An access succeeds exactly when a value is there or its own factory succeeds.
  lemma RetryableUntilComputed(sched: Schedule<Op>, x: Ref, j: nat)
    requires j < |LogOf(Run(LAZY, Initial(), sched), x)|
    requires LogOf(Run(LAZY, Initial(), sched), x)[j].0.GetValue?
    ensures var log: History := LogOf(Run(LAZY, Initial(), sched), x);
      log[j].1.Got? <==> log[j].0.compute.Ok? || exists k :: 0 <= k < j && log[k].1.Got?
  {
    ScheduledAnswer(sched, x, j);
  }
}
