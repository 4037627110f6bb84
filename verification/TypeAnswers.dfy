// Which questions the interning protocol ever answers (assembly.go:2108-2168, 2230-2237): the walk
// through bases and dependencies has no memory of where it has been. What value-type fields resolve
// inside a build is taken to come back (module TypeBuilder says when it does).
module TypeAnswers {
  import opened Common
  import opened TypeInterning

  type Question = (Asm, Name)

  // ---------------------------------------------------------------- which questions get an answer

  ghost predicate Settled(cfg: Config, a: Asm, name: Name) { exists fuel :: ServerOf(cfg, a, name, fuel) != Unknown }

  ghost predicate Misses(cfg: Config, a: Asm, name: Name) { exists fuel :: ServerOf(cfg, a, name, fuel) == Nobody }

  // What the build of a type by `owner` asks first is in u.
  ghost predicate BaseInside(cfg: Config, u: iset<Question>, owner: Asm, name: Name) {
    cfg.BaseOf(owner, name).Some? && (owner, cfg.BaseOf(owner, name).value) in u
  }

  // The i-th dependency is asked, after others that all miss.
  ghost predicate DepInside(cfg: Config, u: iset<Question>, a: Asm, name: Name, i: nat) {
    && i < |cfg.DepsOf(a)| && (cfg.DepsOf(a)[i], name) in u
    && forall j :: 0 <= j < i ==> Misses(cfg, cfg.DepsOf(a)[j], name)
  }

  // All dependencies miss, and the build of the index's owner asks something in u.
  ghost predicate IndexInside(cfg: Config, u: iset<Question>, a: Asm, name: Name) {
    && (forall j :: 0 <= j < |cfg.DepsOf(a)| ==> Misses(cfg, cfg.DepsOf(a)[j], name))
    && Indexed(cfg, a, name).Some? && BaseInside(cfg, u, Indexed(cfg, a, name).value, name)
  }

  // A question that leads to another one in u before anything else can answer it.
  ghost predicate Encircled(cfg: Config, u: iset<Question>, a: Asm, name: Name) {
    && name !in cfg.native
    && if (a, name) in cfg.declared then BaseInside(cfg, u, a, name)
       else (exists i :: DepInside(cfg, u, a, name, i)) || IndexInside(cfg, u, a, name)
  }

  // Questions that each lead to another of them.
  ghost predicate Circle(cfg: Config, u: iset<Question>) {
    forall a, name {:trigger Encircled(cfg, u, a, name)} :: (a, name) in u ==> Encircled(cfg, u, a, name)
  }

  lemma MissesAt(cfg: Config, a: Asm, name: Name, fuel: nat)
    requires Misses(cfg, a, name)
    ensures ServerOf(cfg, a, name, fuel) == Nobody || ServerOf(cfg, a, name, fuel) == Unknown
  {
    var f: nat :| ServerOf(cfg, a, name, f) == Nobody;
    if f <= fuel { FuelSettles(cfg, a, name, f, fuel); }
    else if ServerOf(cfg, a, name, fuel) != Unknown { FuelSettles(cfg, a, name, fuel, f); }
  }

  // A walk over dependencies that reaches one not settled is not settled.
  lemma {:induction false} FirstDepUnknown(cfg: Config, deps: seq<Asm>, name: Name, fuel: nat, i: nat)
    requires i < |deps| && ServerOf(cfg, deps[i], name, fuel) == Unknown
    requires forall j :: 0 <= j < i ==> Misses(cfg, deps[j], name)
    ensures FirstDep(cfg, deps, name, fuel) == Unknown
    decreases i
  {
    if i > 0 {
      MissesAt(cfg, deps[0], name, fuel);
      forall j | 0 <= j < i - 1 ensures Misses(cfg, deps[1..][j], name) { assert deps[1..][j] == deps[j + 1]; }
      FirstDepUnknown(cfg, deps[1..], name, fuel, i - 1);
    }
  }

  // A walk over dependencies that all miss finds nobody, as far as it gets.
  lemma {:induction false} FirstDepMisses(cfg: Config, deps: seq<Asm>, name: Name, fuel: nat)
    requires forall j :: 0 <= j < |deps| ==> Misses(cfg, deps[j], name)
    ensures FirstDep(cfg, deps, name, fuel) == Nobody || FirstDep(cfg, deps, name, fuel) == Unknown
    decreases |deps|
  {
    if deps != [] {
      MissesAt(cfg, deps[0], name, fuel);
      forall j | 0 <= j < |deps| - 1 ensures Misses(cfg, deps[1..][j], name) { assert deps[1..][j] == deps[j + 1]; }
      FirstDepMisses(cfg, deps[1..], name, fuel);
    }
  }

  lemma {:induction false} CircleNeverSettles(cfg: Config, u: iset<Question>, a: Asm, name: Name, fuel: nat)
    requires Circle(cfg, u) && (a, name) in u
    ensures ServerOf(cfg, a, name, fuel) == Unknown
    decreases fuel
  {
    assert Encircled(cfg, u, a, name);
    if fuel > 0 {
      if (a, name) in cfg.declared {
        CircleNeverSettles(cfg, u, a, cfg.BaseOf(a, name).value, fuel - 1);
      } else if i: nat :| DepInside(cfg, u, a, name, i) {
        CircleNeverSettles(cfg, u, cfg.DepsOf(a)[i], name, fuel - 1);
        FirstDepUnknown(cfg, cfg.DepsOf(a), name, fuel - 1, i);
      } else {
        var owner := Indexed(cfg, a, name).value;
        CircleNeverSettles(cfg, u, owner, cfg.BaseOf(owner, name).value, fuel - 1);
        FirstDepMisses(cfg, cfg.DepsOf(a), name, fuel - 1);
        assert FromIndex(cfg, a, name, fuel - 1) == BuiltBy(cfg, owner, name, fuel - 1) == Unknown;
      }
    }
  }

  // A walk is settled if every dependency misses up to one that is settled, or up to the end.
  lemma {:induction false} FirstDepKnown(cfg: Config, deps: seq<Asm>, name: Name, i: nat) returns (fuel: nat)
    requires i <= |deps| && forall j :: 0 <= j < i ==> Misses(cfg, deps[j], name)
    requires i < |deps| ==> Settled(cfg, deps[i], name) && !Misses(cfg, deps[i], name)
    ensures FirstDep(cfg, deps, name, fuel) != Unknown
    decreases i
  {
    if deps == [] { return 0; }
    if i == 0 {
      fuel :| ServerOf(cfg, deps[0], name, fuel) != Unknown;
    } else {
      var f: nat :| ServerOf(cfg, deps[0], name, f) == Nobody;
      forall j | 0 <= j < i - 1 ensures Misses(cfg, deps[1..][j], name) { assert deps[1..][j] == deps[j + 1]; }
      var g := FirstDepKnown(cfg, deps[1..], name, i - 1);
      fuel := if f < g then g else f;
      FuelSettles(cfg, deps[0], name, f, fuel);
      FirstDepSettles(cfg, deps[1..], name, g, fuel);
    }
  }

  lemma {:induction false} FirstNotMissing(cfg: Config, deps: seq<Asm>, name: Name) returns (i: nat)
    ensures i <= |deps| && (forall j :: 0 <= j < i ==> Misses(cfg, deps[j], name))
    ensures i < |deps| ==> !Misses(cfg, deps[i], name)
  {
    i := 0;
    while i < |deps| && Misses(cfg, deps[i], name)
      invariant i <= |deps| && forall j :: 0 <= j < i ==> Misses(cfg, deps[j], name)
    {
      i := i + 1;
    }
  }

  // A build whose base settles, or that has none, settles.
  lemma BuildKnown(cfg: Config, owner: Asm, name: Name) returns (fuel: nat)
    requires cfg.BaseOf(owner, name).Some? ==> Settled(cfg, owner, cfg.BaseOf(owner, name).value)
    ensures BuiltBy(cfg, owner, name, fuel) == Owner(owner)
  {
    fuel := 0;
    if cfg.BaseOf(owner, name).Some? {
      fuel :| ServerOf(cfg, owner, cfg.BaseOf(owner, name).value, fuel) != Unknown;
    }
  }

  ghost function Unsettled(cfg: Config): iset<Question> {
    iset a: Asm, name: Name | !Settled(cfg, a, name) :: (a, name)
  }

  lemma DeclaredSettles(cfg: Config, a: Asm, name: Name)
    requires (a, name) in cfg.declared && !BaseInside(cfg, Unsettled(cfg), a, name)
    ensures Settled(cfg, a, name)
  {
    var fuel := BuildKnown(cfg, a, name);
    assert ServerOf(cfg, a, name, fuel + 1) != Unknown;
  }

  lemma WalkSettles(cfg: Config, a: Asm, name: Name, i: nat)
    requires (a, name) !in cfg.declared && !IndexInside(cfg, Unsettled(cfg), a, name)
    requires i <= |cfg.DepsOf(a)| && forall j :: 0 <= j < i ==> Misses(cfg, cfg.DepsOf(a)[j], name)
    requires i < |cfg.DepsOf(a)| ==> Settled(cfg, cfg.DepsOf(a)[i], name) && !Misses(cfg, cfg.DepsOf(a)[i], name)
    ensures Settled(cfg, a, name)
  {
    var deps := cfg.DepsOf(a);
    var f := FirstDepKnown(cfg, deps, name, i);
    var g := 0;
    if i == |deps| && Indexed(cfg, a, name).Some? { g := BuildKnown(cfg, Indexed(cfg, a, name).value, name); }
    var top := Max(f, g);
    FirstDepSettles(cfg, deps, name, f, top);
    if Indexed(cfg, a, name).Some? { BuildSettles(cfg, Indexed(cfg, a, name).value, name, g, top); }
    if i == |deps| {
      FirstDepMisses(cfg, deps, name, top);
    } else {
      FirstDepAnswers(cfg, deps, name, top, i);
    }
    assert ServerOf(cfg, a, name, top + 1) != Unknown;
  }

  // A walk that stops at a dependency which does not miss has found somebody.
  lemma {:induction false} FirstDepAnswers(cfg: Config, deps: seq<Asm>, name: Name, fuel: nat, i: nat)
    requires i < |deps| && !Misses(cfg, deps[i], name)
    ensures FirstDep(cfg, deps, name, fuel) != Nobody
    decreases i
  {
    if i > 0 { FirstDepAnswers(cfg, deps[1..], name, fuel, i - 1); }
  }

  // A question that is never settled leads to another such question.
  lemma UnsettledIsEncircled(cfg: Config, a: Asm, name: Name)
    requires !Settled(cfg, a, name)
    ensures Encircled(cfg, Unsettled(cfg), a, name)
  {
    assert ServerOf(cfg, a, name, 0) == Unknown;
    if (a, name) in cfg.declared {
      if !BaseInside(cfg, Unsettled(cfg), a, name) { DeclaredSettles(cfg, a, name); }
    } else if !IndexInside(cfg, Unsettled(cfg), a, name) {
      var i := FirstNotMissing(cfg, cfg.DepsOf(a), name);
      if i == |cfg.DepsOf(a)| || Settled(cfg, cfg.DepsOf(a)[i], name) { WalkSettles(cfg, a, name, i); }
      assert DepInside(cfg, Unsettled(cfg), a, name, i);
    }
  }

  // A question is never settled exactly when it belongs to such a circle.
  lemma NeverSettledIffInCircle(cfg: Config, a: Asm, name: Name)
    ensures !Settled(cfg, a, name) <==> exists u :: Circle(cfg, u) && (a, name) in u
  {
    if u :| Circle(cfg, u) && (a, name) in u {
      forall fuel ensures ServerOf(cfg, a, name, fuel) == Unknown { CircleNeverSettles(cfg, u, a, name, fuel); }
    }
    if !Settled(cfg, a, name) {
      var u := Unsettled(cfg);
      forall b, n | (b, n) in u ensures Encircled(cfg, u, b, n) { UnsettledIsEncircled(cfg, b, n); }
      assert Circle(cfg, u) && (a, name) in u;
    }
  }

  // ---------------------------------------------------------------- acyclic graphs settle

  // A rank that falls along everything a question can lead to.
  ghost predicate Falls(cfg: Config, rank: (Asm, Name) -> nat) {
    && (forall a, n :: cfg.BaseOf(a, n).Some? ==> rank(a, cfg.BaseOf(a, n).value) < rank(a, n))
    && (forall a: Asm, n, d :: d in cfg.DepsOf(a) && (a, n) !in cfg.declared ==> rank(d, n) < rank(a, n))
    && (forall a, n :: Indexed(cfg, a, n).Some? && cfg.BaseOf(Indexed(cfg, a, n).value, n).Some? ==>
          rank(Indexed(cfg, a, n).value, cfg.BaseOf(Indexed(cfg, a, n).value, n).value) < rank(a, n))
  }

  lemma {:induction false} RankedSettles(cfg: Config, rank: (Asm, Name) -> nat, a: Asm, name: Name, fuel: nat)
    requires Falls(cfg, rank) && rank(a, name) < fuel
    ensures ServerOf(cfg, a, name, fuel) != Unknown
    decreases fuel, 1, 0
  {
    if name !in cfg.native {
      if (a, name) in cfg.declared {
        RankedBuildSettles(cfg, rank, a, name, fuel - 1);
      } else {
        RankedDepsSettle(cfg, rank, cfg.DepsOf(a), name, fuel - 1);
        if Indexed(cfg, a, name).Some? { RankedBuildSettles(cfg, rank, Indexed(cfg, a, name).value, name, fuel - 1); }
      }
    }
  }

  lemma {:induction false} RankedBuildSettles(cfg: Config, rank: (Asm, Name) -> nat, owner: Asm, name: Name, fuel: nat)
    requires Falls(cfg, rank)
    requires cfg.BaseOf(owner, name).Some? ==> rank(owner, cfg.BaseOf(owner, name).value) < fuel
    ensures BuiltBy(cfg, owner, name, fuel) != Unknown
    decreases fuel, 2, 0
  {
    if cfg.BaseOf(owner, name).Some? { RankedSettles(cfg, rank, owner, cfg.BaseOf(owner, name).value, fuel); }
  }

  lemma {:induction false} RankedDepsSettle(
      cfg: Config, rank: (Asm, Name) -> nat, deps: seq<Asm>, name: Name, fuel: nat)
    requires Falls(cfg, rank) && forall d :: d in deps ==> rank(d, name) < fuel
    ensures FirstDep(cfg, deps, name, fuel) != Unknown
    decreases fuel, 2, |deps|
  {
    if deps != [] {
      RankedSettles(cfg, rank, deps[0], name, fuel);
      RankedDepsSettle(cfg, rank, deps[1..], name, fuel);
    }
  }

  // First by inheritance, then by dependency.
  function Ordered(level: Name -> nat, rank: Asm -> nat, bound: nat): (Asm, Name) -> nat {
    (a: Asm, name: Name) => level(name) * bound + rank(a)
  }

  lemma OrderedFalls(level: Name -> nat, rank: Asm -> nat, bound: nat, a: Asm, n: Name, b: Asm, m: Name)
    requires rank(b) < bound && (level(m) < level(n) || (m == n && rank(b) < rank(a)))
    ensures Ordered(level, rank, bound)(b, m) < Ordered(level, rank, bound)(a, n)
  {
    if level(m) < level(n) { assert (level(m) + 1) * bound <= level(n) * bound; }
  }

  // Acyclic dependencies and inheritance settle every question.
  lemma AcyclicSettles(cfg: Config, level: Name -> nat, rank: Asm -> nat, bound: nat, a: Asm, name: Name)
    requires forall x, n :: cfg.BaseOf(x, n).Some? ==> level(cfg.BaseOf(x, n).value) < level(n)
    requires forall x: Asm, d :: d in cfg.DepsOf(x) ==> rank(d) < rank(x)
    requires forall x: Asm :: rank(x) < bound
    ensures Settled(cfg, a, name)
  {
    var both := Ordered(level, rank, bound);
    assert Falls(cfg, both) by {
      forall x, n | cfg.BaseOf(x, n).Some? ensures both(x, cfg.BaseOf(x, n).value) < both(x, n) {
        OrderedFalls(level, rank, bound, x, n, x, cfg.BaseOf(x, n).value);
      }
      forall x: Asm, n, d | d in cfg.DepsOf(x) && (x, n) !in cfg.declared ensures both(d, n) < both(x, n) {
        OrderedFalls(level, rank, bound, x, n, d, n);
      }
      forall x, n | Indexed(cfg, x, n).Some? && cfg.BaseOf(Indexed(cfg, x, n).value, n).Some?
        ensures both(Indexed(cfg, x, n).value, cfg.BaseOf(Indexed(cfg, x, n).value, n).value) < both(x, n)
      {
        var owner := Indexed(cfg, x, n).value;
        OrderedFalls(level, rank, bound, x, n, owner, cfg.BaseOf(owner, n).value);
      }
    }
    RankedSettles(cfg, both, a, name, both(a, name) + 1);
  }

  // ---------------------------------------------------------------- settled questions are answered

  lemma {:induction false} RunAppend(cfg: Config, s: State, a: Schedule, b: Schedule)
    ensures Run(cfg, s, a + b) == Run(cfg, Run(cfg, s, a), b)
    decreases |a|
  {
    if a == [] {
      assert a + b == b;
    } else {
      assert (a + b)[1..] == a[1..] + b;
      RunAppend(cfg, Step(cfg, s, a[0].0, a[0].1), a[1..], b);
    }
  }

  lemma RunFirst(cfg: Config, s: State, t: Thread, a: Action, rest: Schedule)
    ensures Run(cfg, s, [(t, a)] + rest) == Run(cfg, Step(cfg, s, t, a), rest)
  {
    assert ([(t, a)] + rest)[1..] == rest;
  }

  lemma RunAround(cfg: Config, s: State, t: Thread, a: Action, inner: Schedule, b: Action, rest: Schedule)
    ensures Run(cfg, s, [(t, a)] + inner + ([(t, b)] + rest))
         == Run(cfg, Step(cfg, Run(cfg, Step(cfg, s, t, a), inner), t, b), rest)
  {
    RunAppend(cfg, s, [(t, a)] + inner, [(t, b)] + rest);
    RunFirst(cfg, s, t, a, inner);
    RunFirst(cfg, Run(cfg, Step(cfg, s, t, a), inner), t, b, rest);
  }

  // The activation on top of t's stack has its answer, for the question f asks.
  ghost predicate DoneOn(s: State, t: Thread, below: seq<Frame>, f: Frame) {
    var stack := StackOf(s, t);
    && |stack| == |below| + 1 && stack[..|below|] == below
    && stack[|below|].asm == f.asm && stack[|below|].name == f.name && stack[|below|].pc.Done?
  }

  // How far an activation is from its answer, what it asks others aside.
  function StepsLeft(cfg: Config, f: Frame): nat {
    var deps := |cfg.DepsOf(f.asm)|;
    match f.pc
    case Check => deps + 9
    case Lookup => deps + 8
    case Build(owner, _) => if owner == f.asm then deps + 7 else 3
    case TryDep(i, _) => 5 + (if i < deps then deps - i else 0)
    case Consult(_) => 4
    case Fields(_, _, _) => 2
    case Publish(_, _, _) => 1
    case Done(_, _) => 0
  }

  // The three things that happen to the activation f on top: it asks, it gets an answer, and it
  // moves on by itself.
  lemma Calls(cfg: Config, s: State, t: Thread, below: seq<Frame>, f: Frame)
    requires Inv(cfg, s) && StackOf(s, t) == below + [f] && Asks(cfg, f).Some?
    ensures var s' := Step(cfg, s, t, Advance);
      Inv(cfg, s') && StackOf(s', t) == below + [f] + [Frame(Asks(cfg, f).value.0, Asks(cfg, f).value.1, Check)]
  {
    StepKeepsInv(cfg, s, t, Advance);
  }

  lemma Resumes(cfg: Config, s: State, t: Thread, below: seq<Frame>, f: Frame, callee: Frame) returns (f': Frame)
    requires Inv(cfg, s) && DoneOn(s, t, below + [f], callee) && Asks(cfg, f).Some?
    ensures var s' := Step(cfg, s, t, Return);
      Inv(cfg, s') && StackOf(s', t) == below + [f']
    ensures f'.asm == f.asm && f'.name == f.name && StepsLeft(cfg, f') < StepsLeft(cfg, f)
  {
    StepKeepsInv(cfg, s, t, Return);
    var stack := StackOf(s, t);
    var done := stack[|below| + 1];
    assert stack[..|stack| - 1] == below + [f];
    f' := Resume(f, done);
    TopResumes(cfg, s, t, below, f, done);
    ResumeGetsOn(cfg, f, done);
  }

  lemma TopResumes(cfg: Config, s: State, t: Thread, below: seq<Frame>, f: Frame, done: Frame)
    requires StackOf(s, t) == below + [f] + [done] && done.pc.Done?
    ensures StackOf(Step(cfg, s, t, Return), t) == below + [f.(pc := Resume(f, done).pc)]
  {
    var stack := StackOf(s, t);
    assert stack[|stack| - 1] == done && stack[..|stack| - 1] == below + [f];
  }

  lemma ResumeGetsOn(cfg: Config, f: Frame, done: Frame)
    requires Asks(cfg, f).Some? && done.pc.Done?
    ensures StepsLeft(cfg, Resume(f, done)) < StepsLeft(cfg, f)
  {}

  lemma Moves(cfg: Config, s: State, t: Thread, below: seq<Frame>, f: Frame) returns (f': Frame)
    requires Inv(cfg, s) && StackOf(s, t) == below + [f] && !f.pc.Done? && Asks(cfg, f) == None
    ensures var s' := Step(cfg, s, t, Advance);
      Inv(cfg, s') && StackOf(s', t) == below + [f']
    ensures f'.asm == f.asm && f'.name == f.name && StepsLeft(cfg, f') < StepsLeft(cfg, f)
  {
    StepKeepsInv(cfg, s, t, Advance);
    TopOk(cfg, s, t, below, f);
    MoveGetsOn(cfg, s, f);
    TopMoves(cfg, s, t, below, f);
    f' := f.(pc := Move(cfg, s, f).1);
  }

  lemma MoveGetsOn(cfg: Config, s: State, f: Frame)
    requires FrameOk(cfg, s, f) && !f.pc.Done? && Asks(cfg, f) == None
    ensures StepsLeft(cfg, f.(pc := Move(cfg, s, f).1)) < StepsLeft(cfg, f)
  {}

  lemma TopMoves(cfg: Config, s: State, t: Thread, below: seq<Frame>, f: Frame)
    requires StackOf(s, t) == below + [f] && Asks(cfg, f) == None
    ensures StackOf(Step(cfg, s, t, Advance), t) == below + [f.(pc := Move(cfg, s, f).1)]
  {
    assert StackOf(s, t)[|below|] == f;
  }

  lemma TopOk(cfg: Config, s: State, t: Thread, below: seq<Frame>, f: Frame)
    requires Inv(cfg, s) && StackOf(s, t) == below + [f]
    ensures FrameOk(cfg, s, f)
  {
    assert StackOf(s, t)[|below|] == f;
  }

  // What an activation asks is settled if its own question is.
  lemma AskedSettled(cfg: Config, s: State, f: Frame, fuel: nat)
    requires FrameOk(cfg, s, f) && Asks(cfg, f).Some? && ServerOf(cfg, f.asm, f.name, fuel) != Unknown
    ensures fuel > 0 && ServerOf(cfg, Asks(cfg, f).value.0, Asks(cfg, f).value.1, fuel - 1) != Unknown
  {
    var deps := cfg.DepsOf(f.asm);
    if f.pc.TryDep? {
      if ServerOf(cfg, deps[f.pc.i], f.name, fuel - 1) == Unknown {
        FirstDepUnknown(cfg, deps, f.name, fuel - 1, f.pc.i);
      }
    } else if f.pc.owner != f.asm {
      FirstDepMisses(cfg, deps, f.name, fuel - 1);
      assert ServerOf(cfg, f.asm, f.name, fuel) == FromIndex(cfg, f.asm, f.name, fuel - 1)
          == BuiltBy(cfg, f.pc.owner, f.name, fuel - 1);
    }
  }

  // Alone, thread t gets the activation on top of its stack to an answer.
  lemma {:induction false} Completes(cfg: Config, s: State, t: Thread, below: seq<Frame>, f: Frame, fuel: nat)
      returns (sched: Schedule)
    requires Inv(cfg, s) && StackOf(s, t) == below + [f] && ServerOf(cfg, f.asm, f.name, fuel) != Unknown
    ensures Inv(cfg, Run(cfg, s, sched)) && DoneOn(Run(cfg, s, sched), t, below, f)
    decreases fuel, StepsLeft(cfg, f)
  {
    if f.pc.Done? { return []; }
    var s1 := Step(cfg, s, t, Advance);
    if Asks(cfg, f).Some? {
      var callee := Frame(Asks(cfg, f).value.0, Asks(cfg, f).value.1, Check);
      TopOk(cfg, s, t, below, f);
      AskedSettled(cfg, s, f, fuel);
      Calls(cfg, s, t, below, f);
      var inner := Completes(cfg, s1, t, below + [f], callee, fuel - 1);
      var s2 := Run(cfg, s1, inner);
      var f' := Resumes(cfg, s2, t, below, f, callee);
      var rest := Completes(cfg, Step(cfg, s2, t, Return), t, below, f', fuel);
      sched := [(t, Advance)] + inner + ([(t, Return)] + rest);
      RunAround(cfg, s, t, Advance, inner, Return, rest);
    } else {
      var f' := Moves(cfg, s, t, below, f);
      var rest := Completes(cfg, s1, t, below, f', fuel);
      sched := [(t, Advance)] + rest;
      RunFirst(cfg, s, t, Advance, rest);
    }
  }

  // The last resolution finished is one of this question.
  ghost predicate LastAnswers(s: State, a: Asm, name: Name) {
    s.log != [] && s.log[|s.log| - 1].asm == a && s.log[|s.log| - 1].name == name
  }

  // From every reachable state an idle thread can ask a settled question and get an answer.
  lemma SettledIsAnswered(cfg: Config, s: State, t: Thread, a: Asm, name: Name) returns (sched: Schedule)
    requires Inv(cfg, s) && StackOf(s, t) == [] && Settled(cfg, a, name)
    ensures LastAnswers(Run(cfg, s, sched), a, name)
  {
    var fuel: nat :| ServerOf(cfg, a, name, fuel) != Unknown;
    CallBegins(cfg, s, t, a, name);
    var s1 := Step(cfg, s, t, Call(a, name));
    var inner := CompletesLast(cfg, s1, t, Frame(a, name, Check), fuel);
    sched := [(t, Call(a, name))] + inner + ([(t, Return)] + []);
    RunAround(cfg, s, t, Call(a, name), inner, Return, []);
  }

  // The same for a thread's only activation, with the answer delivered.
  lemma CompletesLast(cfg: Config, s: State, t: Thread, f: Frame, fuel: nat) returns (inner: Schedule)
    requires Inv(cfg, s) && StackOf(s, t) == [] + [f] && ServerOf(cfg, f.asm, f.name, fuel) != Unknown
    ensures LastAnswers(Run(cfg, Step(cfg, Run(cfg, s, inner), t, Return), []), f.asm, f.name)
  {
    inner := Completes(cfg, s, t, [], f, fuel);
    var s' := Run(cfg, s, inner);
    AnswerLogged(cfg, s', t, f);
    RunNothing(cfg, Step(cfg, s', t, Return));
  }

  lemma CallBegins(cfg: Config, s: State, t: Thread, a: Asm, name: Name)
    requires Inv(cfg, s) && StackOf(s, t) == []
    ensures Inv(cfg, Step(cfg, s, t, Call(a, name)))
    ensures StackOf(Step(cfg, s, t, Call(a, name)), t) == [] + [Frame(a, name, Check)]
  {
    StepKeepsInv(cfg, s, t, Call(a, name));
  }

  lemma RunNothing(cfg: Config, s: State)
    ensures Run(cfg, s, []) == s
  {}

  lemma AnswerLogged(cfg: Config, s: State, t: Thread, f: Frame)
    requires DoneOn(s, t, [], f)
    ensures LastAnswers(Step(cfg, s, t, Return), f.asm, f.name)
  {}

  ghost predicate Answers(cfg: Config, sched: Schedule, a: Asm, name: Name) {
    var log := Run(cfg, INITIAL, sched).log;
    exists i :: 0 <= i < |log| && log[i].asm == a && log[i].name == name
  }

  // Some run answers a question exactly when the dependency walk settles it.
  lemma AnswerableIffSettled(cfg: Config, a: Asm, name: Name)
    ensures (exists sched :: Answers(cfg, sched, a, name)) <==> Settled(cfg, a, name)
  {
    if sched :| Answers(cfg, sched, a, name) {
      var log := Run(cfg, INITIAL, sched).log;
      var i :| 0 <= i < |log| && log[i].asm == a && log[i].name == name;
      RunKeepsInv(cfg, INITIAL, sched);
      assert AnswerOk(cfg, Run(cfg, INITIAL, sched).types, a, name, log[i].answer, log[i].height);
    }
    if Settled(cfg, a, name) {
      var sched := SettledIsAnswered(cfg, INITIAL, 0, a, name);
      var log := Run(cfg, INITIAL, sched).log;
      assert log[|log| - 1].asm == a;
      assert Answers(cfg, sched, a, name);
    }
  }

  // Cycles are not survived: a question is never answered in any run, not even with a miss, exactly
  // when it belongs to a circle of questions that lead to one another.
  lemma NeverAnsweredIffInCircle(cfg: Config, a: Asm, name: Name)
    ensures (forall sched :: !Answers(cfg, sched, a, name)) <==> exists u :: Circle(cfg, u) && (a, name) in u
  {
    AnswerableIffSettled(cfg, a, name);
    NeverSettledIffInCircle(cfg, a, name);
  }
}
