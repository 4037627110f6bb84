// Any number of threads calling any number of objects, each with a mutex of its own that an operation
// holds throughout, the factory it may call included: the shape of LazyGetOrCompute
// (internal/bcl/system_lazy.go:93-110) and of every ConcurrentDictionary operation
// (internal/bcl/system_concurrentdictionary.go:80-174).
module LockedObjects {
  import opened Common

  type Thread = nat
  type Ref = nat

  // A call of an object. Holding remembers the object as it was read on entry: the operation's
  // writes are computed from that, so a change by somebody else meanwhile would be lost.
  datatype Activation<S, Op> = Waiting(x: Ref, op: Op) | Holding(x: Ref, op: Op, seen: S)

  // A thread is inside the calls on its stack, each made by a factory of the one before.
  datatype State<S, Op, R> = State(
    objects: map<Ref, S>,
    mutexes: map<Ref, Thread>,
    stacks: map<Thread, seq<Activation<S, Op>>>,
    logs: map<Ref, seq<(Op, R)>>)              // the finished calls of each object, in order

  // How objects start, what an operation does and answers, and whether it runs a factory first.
  datatype Objects<!S, !Op, !R> = Objects(start: Ref -> S, apply: (S, Op) -> (S, R), callsOut: (S, Op) -> bool)

  datatype Action<Op> =
    | Call(x: Ref, op: Op)     // an idle thread calls an object, or the factory it runs does
    | Enter                    // the innermost call gets the mutex, if it is free, and reads the object
    | Finish                   // it writes, releases the mutex and returns

  type Schedule<Op> = seq<(Thread, Action<Op>)>

  function Initial<S, Op, R>(): State<S, Op, R> { State(map[], map[], map[], map[]) }

  function At<S, Op, R>(o: Objects<S, Op, R>, s: State<S, Op, R>, x: Ref): S {
    if x in s.objects then s.objects[x] else o.start(x)
  }

  function LogOf<S, Op, R>(s: State<S, Op, R>, x: Ref): seq<(Op, R)> { if x in s.logs then s.logs[x] else [] }

  function StackOf<S, Op, R>(s: State<S, Op, R>, t: Thread): seq<Activation<S, Op>> {
    if t in s.stacks then s.stacks[t] else []
  }

  function Top<S, Op, R>(s: State<S, Op, R>, t: Thread): Activation<S, Op>
    requires StackOf(s, t) != []
  {
    StackOf(s, t)[|StackOf(s, t)| - 1]
  }

  function Below<S, Op, R>(s: State<S, Op, R>, t: Thread): seq<Activation<S, Op>>
    requires StackOf(s, t) != []
  {
    StackOf(s, t)[..|StackOf(s, t)| - 1]
  }

  // An idle thread may call, and so may the factory of an operation that runs one.
  predicate MayCall<S, Op, R>(o: Objects<S, Op, R>, s: State<S, Op, R>, t: Thread) {
    StackOf(s, t) == [] || (Top(s, t).Holding? && o.callsOut(Top(s, t).seen, Top(s, t).op))
  }

  predicate MayEnter<S, Op, R>(s: State<S, Op, R>, t: Thread) {
    StackOf(s, t) != [] && Top(s, t).Waiting? && Top(s, t).x !in s.mutexes
  }

  predicate MayFinish<S, Op, R>(s: State<S, Op, R>, t: Thread) { StackOf(s, t) != [] && Top(s, t).Holding? }

  function Called<S, Op, R>(s: State<S, Op, R>, t: Thread, x: Ref, op: Op): State<S, Op, R> {
    s.(stacks := s.stacks[t := StackOf(s, t) + [Waiting(x, op)]])
  }

  function Entered<S, Op, R>(o: Objects<S, Op, R>, s: State<S, Op, R>, t: Thread): State<S, Op, R>
    requires MayEnter(s, t)
  {
    var x, op := Top(s, t).x, Top(s, t).op;
    s.(mutexes := s.mutexes[x := t], stacks := s.stacks[t := Below(s, t) + [Holding(x, op, At(o, s, x))]])
  }

  function Finished<S, Op, R>(o: Objects<S, Op, R>, s: State<S, Op, R>, t: Thread): State<S, Op, R>
    requires MayFinish(s, t)
  {
    var x, op := Top(s, t).x, Top(s, t).op;
    var (after, result) := o.apply(Top(s, t).seen, op);
    State(s.objects[x := after], s.mutexes - {x}, s.stacks[t := Below(s, t)], s.logs[x := LogOf(s, x) + [(op, result)]])
  }

  function Step<S, Op, R>(o: Objects<S, Op, R>, s: State<S, Op, R>, t: Thread, a: Action<Op>): State<S, Op, R> {
    match a
    case Call(x, op) => if MayCall(o, s, t) then Called(s, t, x, op) else s
    case Enter => if MayEnter(s, t) then Entered(o, s, t) else s
    case Finish => if MayFinish(s, t) then Finished(o, s, t) else s
  }

  function Run<S, Op, R>(o: Objects<S, Op, R>, s: State<S, Op, R>, sched: Schedule<Op>): State<S, Op, R>
    decreases |sched|
  {
    if sched == [] then s else Run(o, Step(o, s, sched[0].0, sched[0].1), sched[1..])
  }

  // The object after the calls of a log, made one after another by a single caller.
  function Replay<S, Op, R>(o: Objects<S, Op, R>, s: S, log: seq<(Op, R)>): S
    decreases |log|
  {
    if log == [] then s else o.apply(Replay(o, s, log[..|log| - 1]), log[|log| - 1].0).0
  }

  ghost predicate Answered<S, Op, R>(o: Objects<S, Op, R>, s: S, log: seq<(Op, R)>, i: int)
    requires 0 <= i < |log|
  {
    log[i].1 == o.apply(Replay(o, s, log[..i]), log[i].0).1
  }

  // Every result in the log is what that single caller would have got.
  ghost predicate Sequential<S, Op, R>(o: Objects<S, Op, R>, s: S, log: seq<(Op, R)>) {
    forall i :: 0 <= i < |log| ==> Answered(o, s, log, i)
  }

  // The object after the first n calls.
  function After<S, Op, R>(o: Objects<S, Op, R>, s: S, log: seq<(Op, R)>, n: nat): S
    requires n <= |log|
  {
    Replay(o, s, log[..n])
  }

  lemma AfterStep<S, Op, R>(o: Objects<S, Op, R>, s: S, log: seq<(Op, R)>, n: nat)
    requires n < |log| && Sequential(o, s, log)
    ensures (After(o, s, log, n + 1), log[n].1) == o.apply(After(o, s, log, n), log[n].0)
  {
    assert log[..n + 1][..n] == log[..n];
    assert Answered(o, s, log, n);
  }

  // ---------------------------------------------------------------- every run is sequential

  // Only the innermost call of a thread can be waiting; the others hold their objects, each a
  // different one, as they are now.
  ghost predicate StackOk<S, Op, R>(o: Objects<S, Op, R>, s: State<S, Op, R>, t: Thread) {
    var stack := StackOf(s, t);
    && (forall i :: 0 <= i < |stack| - 1 ==> stack[i].Holding?)
    && (forall i :: 0 <= i < |stack| && stack[i].Holding? ==>
          stack[i].x in s.mutexes && s.mutexes[stack[i].x] == t && stack[i].seen == At(o, s, stack[i].x))
    && (forall i, j :: 0 <= i < j < |stack| && stack[i].Holding? && stack[j].Holding? ==> stack[i].x != stack[j].x)
  }

  ghost predicate Holds<S, Op, R>(s: State<S, Op, R>, t: Thread, x: Ref) {
    exists i :: 0 <= i < |StackOf(s, t)| && StackOf(s, t)[i].Holding? && StackOf(s, t)[i].x == x
  }

  ghost predicate LogOk<S, Op, R>(o: Objects<S, Op, R>, s: State<S, Op, R>, x: Ref) {
    At(o, s, x) == Replay(o, o.start(x), LogOf(s, x)) && Sequential(o, o.start(x), LogOf(s, x))
  }

  ghost predicate Inv<S, Op, R>(o: Objects<S, Op, R>, s: State<S, Op, R>) {
    && (forall x: Ref :: LogOk(o, s, x))
    && (forall t: Thread :: StackOk(o, s, t))
    && (forall x :: x in s.mutexes ==> Holds(s, s.mutexes[x], x))
  }

  // Who holds an object according to a stack holds its mutex.
  lemma HolderOwns<S, Op, R>(o: Objects<S, Op, R>, s: State<S, Op, R>, t: Thread, x: Ref)
    requires Inv(o, s) && Holds(s, t, x)
    ensures x in s.mutexes && s.mutexes[x] == t
  {
    assert StackOk(o, s, t);
  }

  lemma CallKeepsInv<S, Op, R>(o: Objects<S, Op, R>, s: State<S, Op, R>, t: Thread, x: Ref, op: Op)
    requires Inv(o, s) && MayCall(o, s, t)
    ensures Inv(o, Called(s, t, x, op))
  {
    var s' := Called(s, t, x, op);
    forall y: Ref ensures LogOk(o, s', y) { assert LogOk(o, s, y); }
    forall u: Thread ensures StackOk(o, s', u) { assert StackOk(o, s, u); }
    forall y | y in s'.mutexes ensures Holds(s', s'.mutexes[y], y) { StillHolds(o, s, s', y); }
  }

  // A stack that only gets longer, or loses or changes only its top, which did not hold x.
  lemma StillHolds<S, Op, R>(o: Objects<S, Op, R>, s: State<S, Op, R>, s': State<S, Op, R>, x: Ref)
    requires Inv(o, s) && x in s.mutexes
    requires var u := s.mutexes[x];
      || StackOf(s, u) <= StackOf(s', u)
      || (StackOf(s, u) != [] && Below(s, u) <= StackOf(s', u) && !(Top(s, u).Holding? && Top(s, u).x == x))
    ensures Holds(s', s.mutexes[x], x)
  {
    var u := s.mutexes[x];
    assert Holds(s, u, x);
    var i :| 0 <= i < |StackOf(s, u)| && StackOf(s, u)[i].Holding? && StackOf(s, u)[i].x == x;
    assert StackOf(s', u)[i] == StackOf(s, u)[i];
  }

  lemma EnterKeepsInv<S, Op, R>(o: Objects<S, Op, R>, s: State<S, Op, R>, t: Thread)
    requires Inv(o, s) && MayEnter(s, t)
    ensures Inv(o, Entered(o, s, t))
  {
    var s' := Entered(o, s, t);
    forall y: Ref ensures LogOk(o, s', y) { assert LogOk(o, s, y); }
    forall u: Thread ensures StackOk(o, s', u) { assert StackOk(o, s, u); }
    forall y | y in s'.mutexes ensures Holds(s', s'.mutexes[y], y) {
      if y in s.mutexes { StillHolds(o, s, s', y); } else { assert StackOf(s', t)[|StackOf(s, t)| - 1].x == y; }
    }
  }

  lemma FinishKeepsLogs<S, Op, R>(o: Objects<S, Op, R>, s: State<S, Op, R>, t: Thread, y: Ref)
    requires Inv(o, s) && MayFinish(s, t)
    ensures LogOk(o, Finished(o, s, t), y)
  {
    var s' := Finished(o, s, t);
    assert LogOk(o, s, y) && StackOk(o, s, t);
    if y == Top(s, t).x {
      var log, log' := LogOf(s, y), LogOf(s', y);
      assert log'[..|log|] == log;
      forall i | 0 <= i < |log'| ensures Answered(o, o.start(y), log', i) {
        assert log'[..i] == log[..i];
        if i < |log| { assert Answered(o, o.start(y), log, i); } else { assert log[..i] == log; }
      }
    }
  }

  // Nobody else holds what the finished call held.
  lemma FinishKeepsStacks<S, Op, R>(o: Objects<S, Op, R>, s: State<S, Op, R>, t: Thread, u: Thread)
    requires Inv(o, s) && MayFinish(s, t)
    ensures StackOk(o, Finished(o, s, t), u)
  {
    assert StackOk(o, s, u) && StackOk(o, s, t);
    var stack := StackOf(s, u);
    assert StackOf(Finished(o, s, t), u) == if u == t then Below(s, t) else stack;
    forall i | 0 <= i < |stack| && stack[i].Holding? && (u != t || i < |stack| - 1)
      ensures stack[i].x != Top(s, t).x
    {
      assert s.mutexes[stack[i].x] == u && s.mutexes[Top(s, t).x] == t;
    }
  }

  lemma FinishKeepsInv<S, Op, R>(o: Objects<S, Op, R>, s: State<S, Op, R>, t: Thread)
    requires Inv(o, s) && MayFinish(s, t)
    ensures Inv(o, Finished(o, s, t))
  {
    var s' := Finished(o, s, t);
    forall y: Ref ensures LogOk(o, s', y) { FinishKeepsLogs(o, s, t, y); }
    forall u: Thread ensures StackOk(o, s', u) { FinishKeepsStacks(o, s, t, u); }
    forall y | y in s'.mutexes ensures Holds(s', s'.mutexes[y], y) { StillHolds(o, s, s', y); }
  }

  lemma StepKeepsInv<S, Op, R>(o: Objects<S, Op, R>, s: State<S, Op, R>, t: Thread, a: Action<Op>)
    requires Inv(o, s)
    ensures Inv(o, Step(o, s, t, a))
  {
    match a {
      case Call(x, op) => if MayCall(o, s, t) { CallKeepsInv(o, s, t, x, op); }
      case Enter => if MayEnter(s, t) { EnterKeepsInv(o, s, t); }
      case Finish => if MayFinish(s, t) { FinishKeepsInv(o, s, t); }
    }
  }

  lemma {:induction false} RunKeepsInv<S, Op, R>(o: Objects<S, Op, R>, s: State<S, Op, R>, sched: Schedule<Op>)
    requires Inv(o, s)
    ensures Inv(o, Run(o, s, sched))
    decreases |sched|
  {
    if sched != [] {
      StepKeepsInv(o, s, sched[0].0, sched[0].1);
      RunKeepsInv(o, Step(o, s, sched[0].0, sched[0].1), sched[1..]);
    }
  }

  // Whatever the interleaving, the finished calls of an object in the order they returned are a
  // sequential history: each got the result, and together they left the object, as if run one by one.
  lemma EveryRunIsSequential<S, Op, R>(o: Objects<S, Op, R>, sched: Schedule<Op>, x: Ref)
    ensures var s := Run(o, Initial(), sched);
      Sequential(o, o.start(x), LogOf(s, x)) && At(o, s, x) == Replay(o, o.start(x), LogOf(s, x))
  {
    RunKeepsInv(o, Initial(), sched);
    assert LogOk(o, Run(o, Initial(), sched), x);
  }

  // Mutual exclusion: in every run at most one thread is inside an object, and a thread that is has
  // read what the object still holds.
  lemma OneInside<S, Op, R>(o: Objects<S, Op, R>, sched: Schedule<Op>, t: Thread, u: Thread, i: nat, j: nat)
    requires var s := Run(o, Initial(), sched);
      && i < |StackOf(s, t)| && j < |StackOf(s, u)|
      && StackOf(s, t)[i].Holding? && StackOf(s, u)[j].Holding? && StackOf(s, t)[i].x == StackOf(s, u)[j].x
    ensures t == u && i == j
    ensures var s := Run(o, Initial(), sched); StackOf(s, t)[i].seen == At(o, s, StackOf(s, t)[i].x)
  {
    RunKeepsInv(o, Initial(), sched);
    var s := Run(o, Initial(), sched);
    assert StackOk(o, s, t) && StackOk(o, s, u);
  }

  // ---------------------------------------------------------------- who waits for whom

  // The thread that holds the mutex t waits for.
  function Blocker<S, Op, R>(s: State<S, Op, R>, t: Thread): Option<Thread> {
    if StackOf(s, t) == [] || Top(s, t).Holding? || Top(s, t).x !in s.mutexes then None
    else Some(s.mutexes[Top(s, t).x])
  }

  // The n-th thread of the chain that starts at t: each waits for the next.
  function Chain<S, Op, R>(s: State<S, Op, R>, t: Thread, n: nat): Option<Thread> {
    if n == 0 then Some(t) else
    match Chain(s, t, n - 1)
    case None => None
    case Some(u) => Blocker(s, u)
  }

  ghost predicate RunsIntoCycle<S, Op, R>(s: State<S, Op, R>, t: Thread) {
    exists i: nat, j: nat :: i < j && Chain(s, t, i).Some? && Chain(s, t, i) == Chain(s, t, j)
  }

  // Threads that each wait for one of them.
  ghost predicate Deadlock<S, Op, R>(s: State<S, Op, R>, d: iset<Thread>) {
    forall t :: t in d ==> Blocker(s, t).Some? && Blocker(s, t).value in d
  }

  // The stacks of the other threads and the objects they hold are left alone.
  ghost predicate OthersKept<S, Op, R>(s: State<S, Op, R>, s': State<S, Op, R>, t: Thread) {
    && (forall u: Thread :: u != t ==> StackOf(s', u) == StackOf(s, u))
    && (forall x :: x in s.mutexes && s.mutexes[x] != t ==>
          x in s'.mutexes && s'.mutexes[x] == s.mutexes[x] && LogOf(s', x) == LogOf(s, x))
  }

  lemma FinishKeepsOthers<S, Op, R>(o: Objects<S, Op, R>, s: State<S, Op, R>, t: Thread)
    requires Inv(o, s) && MayFinish(s, t)
    ensures OthersKept(s, Finished(o, s, t), t)
  {
    var stack := StackOf(s, t);
    assert StackOk(o, s, t) && stack[|stack| - 1].Holding?;
    assert s.mutexes[Top(s, t).x] == t;
  }

  lemma OthersStay<S, Op, R>(o: Objects<S, Op, R>, s: State<S, Op, R>, t: Thread, a: Action<Op>)
    requires Inv(o, s)
    ensures OthersKept(s, Step(o, s, t, a), t)
  {
    if a.Finish? && MayFinish(s, t) { FinishKeepsOthers(o, s, t); }
  }

  // Nothing moves in a deadlock: no call of its threads is entered or ended, and no call returns from
  // an object that one of them holds.
  lemma DeadlockStays<S, Op, R>(o: Objects<S, Op, R>, s: State<S, Op, R>, d: iset<Thread>, t: Thread, a: Action<Op>)
    requires Inv(o, s) && Deadlock(s, d)
    ensures var s' := Step(o, s, t, a);
      && Deadlock(s', d)
      && (forall u :: u in d ==> StackOf(s', u) == StackOf(s, u))
      && (forall x :: x in s.mutexes && s.mutexes[x] in d ==>
            x in s'.mutexes && s'.mutexes[x] == s.mutexes[x] && LogOf(s', x) == LogOf(s, x))
  {
    if t in d {
      BlockedWaits(o, s, t, a);
    } else {
      OthersStay(o, s, t, a);
      var s' := Step(o, s, t, a);
      forall u | u in d ensures Blocker(s', u) == Blocker(s, u) { BlockerStays(s, s', u); }
    }
  }

  lemma BlockedWaits<S, Op, R>(o: Objects<S, Op, R>, s: State<S, Op, R>, t: Thread, a: Action<Op>)
    requires Blocker(s, t).Some?
    ensures Step(o, s, t, a) == s
  {}

  lemma BlockerStays<S, Op, R>(s: State<S, Op, R>, s': State<S, Op, R>, u: Thread)
    requires Blocker(s, u).Some? && StackOf(s', u) == StackOf(s, u)
    requires Top(s, u).x in s'.mutexes && s'.mutexes[Top(s, u).x] == s.mutexes[Top(s, u).x]
    ensures Blocker(s', u) == Blocker(s, u)
  {}

  lemma {:induction false} DeadlockForever<S, Op, R>(
      o: Objects<S, Op, R>, s: State<S, Op, R>, d: iset<Thread>, sched: Schedule<Op>)
    requires Inv(o, s) && Deadlock(s, d)
    ensures var s' := Run(o, s, sched);
      && (forall u :: u in d ==> StackOf(s', u) == StackOf(s, u))
      && (forall x :: x in s.mutexes && s.mutexes[x] in d ==> LogOf(s', x) == LogOf(s, x))
    decreases |sched|
  {
    if sched != [] {
      DeadlockStays(o, s, d, sched[0].0, sched[0].1);
      StepKeepsInv(o, s, sched[0].0, sched[0].1);
      DeadlockForever(o, Step(o, s, sched[0].0, sched[0].1), d, sched[1..]);
    }
  }

  lemma {:induction false} ChainStops<S, Op, R>(s: State<S, Op, R>, t: Thread, n: nat, k: nat)
    requires n <= k && Chain(s, t, k).Some?
    ensures Chain(s, t, n).Some?
  {
    if n < k { ChainStops(s, t, n, k - 1); }
  }

  // After a cycle the chain goes round.
  lemma {:induction false} ChainRepeats<S, Op, R>(s: State<S, Op, R>, t: Thread, i: nat, j: nat, m: nat)
    requires i <= j && Chain(s, t, i) == Chain(s, t, j)
    ensures Chain(s, t, i + m) == Chain(s, t, j + m)
    decreases m
  {
    if m > 0 { ChainRepeats(s, t, i, j, m - 1); }
  }

  lemma {:induction false} CycleGoesOn<S, Op, R>(s: State<S, Op, R>, t: Thread, i: nat, j: nat, k: nat)
    requires i < j && Chain(s, t, i).Some? && Chain(s, t, i) == Chain(s, t, j)
    ensures Chain(s, t, k).Some?
    decreases k
  {
    if k <= j {
      ChainStops(s, t, k, j);
    } else {
      CycleGoesOn(s, t, i, j, k - (j - i));
      ChainRepeats(s, t, i, j, k - j);
    }
  }

  lemma CycleIsDeadlock<S, Op, R>(s: State<S, Op, R>, t: Thread) returns (d: iset<Thread>)
    requires RunsIntoCycle(s, t)
    ensures Deadlock(s, d) && t in d
  {
    var i: nat, j: nat :| i < j && Chain(s, t, i).Some? && Chain(s, t, i) == Chain(s, t, j);
    d := iset u: Thread, k: nat | Chain(s, t, k) == Some(u) :: u;
    assert Chain(s, t, 0) == Some(t);
    forall u | u in d ensures Blocker(s, u).Some? && Blocker(s, u).value in d {
      var k: nat :| Chain(s, t, k) == Some(u);
      CycleGoesOn(s, t, i, j, k + 1);
      assert Chain(s, t, k + 1) == Blocker(s, u);
    }
  }

  // The first n threads of a chain that does not stop before.
  function Followed<S, Op, R>(s: State<S, Op, R>, t: Thread, n: nat): (p: seq<Thread>)
    requires forall k: nat :: k < n ==> Chain(s, t, k).Some?
    ensures |p| == n && forall k: nat :: k < n ==> p[k] == Chain(s, t, k).value
  {
    if n == 0 then [] else Followed(s, t, n - 1) + [Chain(s, t, n - 1).value]
  }

  // A chain without a cycle ends, for there are only so many threads inside a call.
  lemma ChainEnds<S, Op, R>(s: State<S, Op, R>, t: Thread) returns (n: nat)
    requires !RunsIntoCycle(s, t)
    ensures Chain(s, t, n).None?
  {
    n := |s.stacks| + 1;
    if Chain(s, t, n).Some? {
      forall k: nat | k < n ensures Chain(s, t, k).Some? && Chain(s, t, k).value in s.stacks {
        ChainStops(s, t, k + 1, n);
      }
      var p := Followed(s, t, n);
      forall i: nat, j: nat | i < j < n ensures p[i] != p[j] { assert Chain(s, t, i) != Chain(s, t, j); }
      DistinctCardinality(p);
      SubsetIsSmaller(Elements(p), s.stacks.Keys);
    }
  }

  lemma SubsetIsSmaller(a: set<Thread>, b: set<Thread>)
    requires a <= b
    ensures |a| <= |b|
  {
    if a != {} {
      var x :| x in a;
      SubsetIsSmaller(a - {x}, b - {x});
    }
  }

  // ---------------------------------------------------------------- which calls can return

  // Every stack is as it was, or all its calls have returned.
  ghost predicate OnlyReturns<S, Op, R>(s: State<S, Op, R>, s': State<S, Op, R>) {
    forall v: Thread :: StackOf(s', v) == StackOf(s, v) || StackOf(s', v) == []
  }

  lemma RunFirst<S, Op, R>(o: Objects<S, Op, R>, s: State<S, Op, R>, t: Thread, a: Action<Op>, rest: Schedule<Op>)
    ensures Run(o, s, [(t, a)] + rest) == Run(o, Step(o, s, t, a), rest)
  {
    assert ([(t, a)] + rest)[1..] == rest;
  }

  lemma {:induction false} RunAppend<S, Op, R>(
      o: Objects<S, Op, R>, s: State<S, Op, R>, a: Schedule<Op>, b: Schedule<Op>)
    ensures Run(o, s, a + b) == Run(o, Run(o, s, a), b)
    decreases |a|
  {
    if a == [] {
      assert a + b == b;
    } else {
      assert (a + b)[1..] == a[1..] + b;
      RunAppend(o, Step(o, s, a[0].0, a[0].1), a[1..], b);
    }
  }

  // A mutex is free once all calls of the thread that held it have returned and nobody entered one.
  lemma FreedAfter<S, Op, R>(o: Objects<S, Op, R>, s: State<S, Op, R>, s': State<S, Op, R>, x: Ref)
    requires Inv(o, s) && Inv(o, s') && OnlyReturns(s, s')
    requires x in s.mutexes && StackOf(s', s.mutexes[x]) == []
    ensures x !in s'.mutexes
  {
    if x in s'.mutexes {
      var v := s'.mutexes[x];
      assert Holds(s', v, x) && StackOf(s', v) == StackOf(s, v);
      HolderOwns(o, s, v, x);
    }
  }

  // All calls of t have returned, and nothing else happened than returns.
  ghost predicate AllReturned<S, Op, R>(o: Objects<S, Op, R>, s: State<S, Op, R>, s': State<S, Op, R>, t: Thread) {
    Inv(o, s') && OnlyReturns(s, s') && StackOf(s', t) == []
  }

  lemma UnblockedAfter<S, Op, R>(o: Objects<S, Op, R>, s: State<S, Op, R>, s': State<S, Op, R>, t: Thread)
    requires Inv(o, s) && Blocker(s, t).Some? && AllReturned(o, s, s', Blocker(s, t).value)
    ensures Inv(o, s') && Blocker(s', t).None?
  {
    FreedAfter(o, s, s', Top(s, t).x);
    assert StackOf(s', t) == StackOf(s, t) || StackOf(s', t) == [];
  }

  lemma ReturnsCompose<S, Op, R>(
      o: Objects<S, Op, R>, s: State<S, Op, R>, s': State<S, Op, R>, s'': State<S, Op, R>, u: Thread, t: Thread)
    requires AllReturned(o, s, s', u) && AllReturned(o, s', s'', t)
    ensures AllReturned(o, s, s'', t)
  {
    forall v: Thread ensures StackOf(s'', v) == StackOf(s, v) || StackOf(s'', v) == [] {
      assert StackOf(s', v) == StackOf(s, v) || StackOf(s', v) == [];
    }
  }

  // How much a thread that nobody blocks still has to do.
  function Left<S, Op, R>(s: State<S, Op, R>, t: Thread): nat {
    if StackOf(s, t) == [] then 0 else 2 * |StackOf(s, t)| + (if Top(s, t).Waiting? then 1 else 0)
  }

  // A thread at the end of its chain gets one step closer to having returned from everything.
  lemma OwnStep<S, Op, R>(o: Objects<S, Op, R>, s: State<S, Op, R>, t: Thread) returns (a: Action<Op>)
    requires Inv(o, s) && Blocker(s, t).None? && StackOf(s, t) != []
    ensures var s' := Step(o, s, t, a);
      && Inv(o, s') && Blocker(s', t).None? && Left(s', t) < Left(s, t)
      && (forall v: Thread :: v != t ==> StackOf(s', v) == StackOf(s, v))
  {
    assert StackOk(o, s, t);
    a := OwnStepGains(o, s, t);
    StepKeepsInv(o, s, t, a);
  }

  lemma OwnStepGains<S, Op, R>(o: Objects<S, Op, R>, s: State<S, Op, R>, t: Thread) returns (a: Action<Op>)
    requires StackOk(o, s, t) && Blocker(s, t).None? && StackOf(s, t) != []
    ensures var s' := Step(o, s, t, a);
      && Blocker(s', t).None? && Left(s', t) < Left(s, t)
      && (forall v: Thread :: v != t ==> StackOf(s', v) == StackOf(s, v))
  {
    a := if Top(s, t).Waiting? then Enter else Finish;
  }

  lemma OwnStepReturns<S, Op, R>(
      o: Objects<S, Op, R>, s: State<S, Op, R>, s1: State<S, Op, R>, s': State<S, Op, R>, t: Thread)
    requires AllReturned(o, s1, s', t) && forall v: Thread :: v != t ==> StackOf(s1, v) == StackOf(s, v)
    ensures AllReturned(o, s, s', t)
  {
    forall v: Thread ensures StackOf(s', v) == StackOf(s, v) || StackOf(s', v) == [] {
      assert StackOf(s', v) == StackOf(s1, v) || StackOf(s', v) == [];
    }
  }

  lemma {:induction false} ReturnsUnblocked<S, Op, R>(o: Objects<S, Op, R>, s: State<S, Op, R>, t: Thread)
      returns (sched: Schedule<Op>)
    requires Inv(o, s) && Blocker(s, t).None?
    ensures AllReturned(o, s, Run(o, s, sched), t)
    decreases Left(s, t)
  {
    if StackOf(s, t) == [] { return []; }
    var a := OwnStep(o, s, t);
    var s1 := Step(o, s, t, a);
    var rest := ReturnsUnblocked(o, s1, t);
    OwnStepReturns(o, s, s1, Run(o, s1, rest), t);
    sched := [(t, a)] + rest;
    RunFirst(o, s, t, a, rest);
  }

  // Once the thread t waits for has returned from everything, t can.
  lemma FreesNext<S, Op, R>(o: Objects<S, Op, R>, s: State<S, Op, R>, t: Thread, u: Thread, first: Schedule<Op>)
      returns (sched: Schedule<Op>)
    requires Inv(o, s) && Blocker(s, t) == Some(u) && AllReturned(o, s, Run(o, s, first), u)
    ensures AllReturned(o, s, Run(o, s, sched), t)
  {
    var s1 := Run(o, s, first);
    UnblockedAfter(o, s, s1, t);
    var rest := ReturnsUnblocked(o, s1, t);
    ReturnsCompose(o, s, s1, Run(o, s1, rest), u, t);
    sched := first + rest;
    RunAppend(o, s, first, rest);
  }

  // Where the chain from t ends, there is a way for all calls of t to return: the last of the chain
  // returns from everything, then the one before it can.
  lemma {:induction false} Frees<S, Op, R>(o: Objects<S, Op, R>, s: State<S, Op, R>, t: Thread, n: nat)
      returns (sched: Schedule<Op>)
    requires Inv(o, s) && Chain(s, t, n).None?
    ensures AllReturned(o, s, Run(o, s, sched), t)
    decreases n
  {
    if Blocker(s, t).None? {
      sched := ReturnsUnblocked(o, s, t);
    } else {
      var u := Blocker(s, t).value;
      ChainFromNext(s, t, u, n - 1);
      var first := Frees(o, s, u, n - 1);
      sched := FreesNext(o, s, t, u, first);
    }
  }

  lemma {:induction false} ChainFromNext<S, Op, R>(s: State<S, Op, R>, t: Thread, u: Thread, n: nat)
    requires Blocker(s, t) == Some(u)
    ensures Chain(s, t, n + 1) == Chain(s, u, n)
  {
    if n > 0 { ChainFromNext(s, t, u, n - 1); } else { assert Chain(s, t, 0) == Some(t); }
  }

  // A thread's calls can all return exactly when the chain of who waits for whom, from that thread,
  // does not run into a cycle.
  lemma CanReturnIffNoCycle<S, Op, R>(o: Objects<S, Op, R>, s: State<S, Op, R>, t: Thread)
    requires Inv(o, s)
    ensures (exists sched :: StackOf(Run(o, s, sched), t) == []) <==> !RunsIntoCycle(s, t)
  {
    if RunsIntoCycle(s, t) {
      var d := CycleIsDeadlock(s, t);
      forall sched ensures StackOf(Run(o, s, sched), t) != [] { DeadlockForever(o, s, d, sched); }
    } else {
      var n := ChainEnds(s, t);
      var sched := Frees(o, s, t, n);
      assert StackOf(Run(o, s, sched), t) == [];
    }
  }

  // The shortest cycle: the mutex is not re-entrant, so once a factory has called back into an object
  // its thread holds, no call of that thread and no call of that object ever returns again.
  lemma ReentryBlocksForever<S, Op, R>(o: Objects<S, Op, R>, s: State<S, Op, R>, t: Thread, sched: Schedule<Op>)
    requires Inv(o, s) && Blocker(s, t) == Some(t)
    ensures var s', x := Run(o, s, sched), Top(s, t).x;
      StackOf(s', t) == StackOf(s, t) && LogOf(s', x) == LogOf(s, x)
  {
    DeadlockForever(o, s, iset{t}, sched);
  }

  // The next: two objects whose factories call each other, on two threads that have each entered one.
  lemma CrossedCallsBlockForever<S, Op, R>(
      o: Objects<S, Op, R>, s: State<S, Op, R>, t: Thread, u: Thread, sched: Schedule<Op>)
    requires Inv(o, s) && Blocker(s, t) == Some(u) && Blocker(s, u) == Some(t)
    ensures var s' := Run(o, s, sched); StackOf(s', t) == StackOf(s, t) && StackOf(s', u) == StackOf(s, u)
  {
    DeadlockForever(o, s, iset{t, u}, sched);
  }

  // A thread that runs a factory calls back into its own object only where the operation has one.
  lemma ReentersIffCallsOut<S, Op, R>(o: Objects<S, Op, R>, s: State<S, Op, R>, t: Thread, inner: Op)
    requires Inv(o, s) && MayFinish(s, t)
    ensures Blocker(Step(o, s, t, Call(Top(s, t).x, inner)), t) == Some(t)
       <==> o.callsOut(At(o, s, Top(s, t).x), Top(s, t).op)
  {
    assert StackOk(o, s, t);
  }
}
