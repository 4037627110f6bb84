// What finished resolutions say of one another, in terms of the metadata and the lists of
// dependencies alone (assembly.go:2108-2168, 2230-2237): who is asked, in which order, and what is
// made of the answers.
module ResolutionOrder {
  import opened Common
  import opened TypeInterning

  // The dependencies an assembly lists, in order.
  function Listed(cfg: Config, a: Asm): seq<Asm> { if a in cfg.deps then cfg.deps[a] else [] }

  // Among the first n finished resolutions there is one of this question with this answer.
  ghost predicate Logged(log: seq<Event>, n: int, a: Asm, name: Name, answer: Answer) {
    exists m :: 0 <= m < n && m < |log| && log[m].asm == a && log[m].name == name && log[m].answer == answer
  }

  // The first i listed dependencies missed.
  ghost predicate MissedFirst(cfg: Config, log: seq<Event>, n: int, a: Asm, name: Name, i: int)
    requires i <= |Listed(cfg, a)|
  {
    forall j :: 0 <= j < i ==> Logged(log, n, Listed(cfg, a)[j], name, Miss)
  }

  // A dependency gave the answer, after those before it had missed.
  ghost predicate FromDependency(cfg: Config, log: seq<Event>, n: int, a: Asm, name: Name, answer: Answer) {
    exists i :: 0 <= i < |Listed(cfg, a)|
      && MissedFirst(cfg, log, n, a, name, i) && answer.Hit? && Logged(log, n, Listed(cfg, a)[i], name, answer)
  }

  // All dependencies missed, and the answer is the type of the assembly the index names, or a miss.
  ghost predicate FromIndexed(cfg: Config, log: seq<Event>, n: int, a: Asm, name: Name, answer: Answer) {
    && MissedFirst(cfg, log, n, a, name, |Listed(cfg, a)|)
    && if (a, name) in cfg.index && cfg.index[(a, name)] != a && (cfg.index[(a, name)], name) in cfg.declared
       then answer.Hit? && answer.server == Owner(cfg.index[(a, name)])
       else answer == Miss
  }

  // How a question is answered: by the library, else by the assembly itself, else by the first
  // dependency that hits, else by the index.
  ghost predicate Explained(cfg: Config, log: seq<Event>, n: int, a: Asm, name: Name, answer: Answer) {
    if name in cfg.native then answer == Hit(Native, Shared(name))
    else if (a, name) in cfg.declared then answer.Hit? && answer.server == Owner(a)
    else FromDependency(cfg, log, n, a, name, answer) || FromIndexed(cfg, log, n, a, name, answer)
  }

  // ---------------------------------------------------------------- what runs keep

  // What an activation has learnt so far was logged.
  ghost predicate Learnt(cfg: Config, log: seq<Event>, f: Frame) {
    match f.pc
    case TryDep(i, _) => i <= |Listed(cfg, f.asm)| && MissedFirst(cfg, log, |log|, f.asm, f.name, i)
    case Consult(_) => MissedFirst(cfg, log, |log|, f.asm, f.name, |Listed(cfg, f.asm)|)
    case Build(owner, _) => MissedForOwner(cfg, log, f, owner)
    case Fields(owner, _, parent) => MissedForOwner(cfg, log, f, owner) && BaseLogged(cfg, log, owner, f.name, parent)
    case Publish(owner, _, _) => MissedForOwner(cfg, log, f, owner)
    case Done(answer, _) => Explained(cfg, log, |log|, f.asm, f.name, answer)
    case _ => true
  }

  // Another assembly builds only what the index names, once all dependencies have missed.
  ghost predicate MissedForOwner(cfg: Config, log: seq<Event>, f: Frame, owner: Asm) {
    owner != f.asm ==>
      && MissedFirst(cfg, log, |log|, f.asm, f.name, |Listed(cfg, f.asm)|)
      && (f.asm, f.name) in cfg.index && cfg.index[(f.asm, f.name)] == owner
  }

  // The base a type names was resolved from the assembly that builds the type.
  ghost predicate BaseLogged(cfg: Config, log: seq<Event>, owner: Asm, name: Name, parent: Option<Event>) {
    && (owner, name) in cfg.declared
    && match cfg.declared[(owner, name)].base
       case None => parent == None
       case Some(base) => parent.Some? && parent.value in log && parent.value.asm == owner && parent.value.name == base
  }

  ghost predicate StackLearnt(cfg: Config, log: seq<Event>, stack: seq<Frame>) {
    forall k :: 0 <= k < |stack| ==> Learnt(cfg, log, stack[k])
  }

  ghost predicate LogExplained(cfg: Config, log: seq<Event>) {
    forall i :: 0 <= i < |log| ==> Explained(cfg, log, i, log[i].asm, log[i].name, log[i].answer)
  }

  ghost predicate HeapLogged(cfg: Config, s: State) {
    forall id :: 0 <= id < |s.heap| ==>
      BaseLogged(cfg, s.log, s.heap[id].asm, s.heap[id].name, s.heap[id].parent)
  }

  ghost predicate Ordered(cfg: Config, s: State) {
    && (forall t :: t in s.stacks ==> StackLearnt(cfg, s.log, s.stacks[t]))
    && LogExplained(cfg, s.log) && HeapLogged(cfg, s)
  }

  lemma LearntStable(cfg: Config, log: seq<Event>, log': seq<Event>, f: Frame)
    requires log <= log' && Learnt(cfg, log, f)
    ensures Learnt(cfg, log', f)
  {
    forall a, n, answer | Logged(log, |log|, a, n, answer) ensures Logged(log', |log'|, a, n, answer) {
      var m :| 0 <= m < |log| && log[m].asm == a && log[m].name == n && log[m].answer == answer;
      assert log'[m] == log[m];
    }
  }

  lemma ExplainedStable(cfg: Config, log: seq<Event>, log': seq<Event>, n: nat, a: Asm, name: Name, answer: Answer)
    requires log <= log' && n <= |log| && Explained(cfg, log, n, a, name, answer)
    ensures Explained(cfg, log', n, a, name, answer)
  {
    forall b, m, r | Logged(log, n, b, m, r) ensures Logged(log', n, b, m, r) {
      var k :| 0 <= k < n && log[k].asm == b && log[k].name == m && log[k].answer == r;
      assert log'[k] == log[k];
    }
  }

  // What an activation that asks nobody does next is covered by what it has learnt.
  lemma MoveLearns(cfg: Config, s: State, f: Frame)
    requires SharedOk(cfg, s) && FrameOk(cfg, s, f) && Asks(cfg, f) == None && Learnt(cfg, s.log, f)
    ensures Learnt(cfg, s.log, f.(pc := Move(cfg, s, f).1))
  {
    if f.pc.Check? && (f.asm, f.name) in s.types { assert ObjectOk(cfg, s, s.types[(f.asm, f.name)]); }
    if f.pc.Publish? { assert ObjectOk(cfg, s, f.pc.obj); }
  }

  lemma MoveLogsBase(cfg: Config, s: State, f: Frame)
    requires HeapLogged(cfg, s) && Learnt(cfg, s.log, f)
    ensures HeapLogged(cfg, Move(cfg, s, f).0)
  {}

  // An answer delivered is logged just before.
  lemma ResumeLearns(cfg: Config, log: seq<Event>, caller: Frame, done: Frame)
    requires done.pc.Done? && LinkOk(cfg, caller, done) && Learnt(cfg, log, caller)
    requires caller.pc.TryDep? ==> caller.name !in cfg.native && (caller.asm, caller.name) !in cfg.declared
    ensures Learnt(cfg, log + [Event(done.asm, done.name, done.pc.answer, done.pc.height)], Resume(caller, done))
  {
    var e := Event(done.asm, done.name, done.pc.answer, done.pc.height);
    var log' := log + [e];
    LearntStable(cfg, log, log', caller);
    assert log'[|log|] == e;
    if caller.pc.TryDep? {
      assert done.asm == Listed(cfg, caller.asm)[caller.pc.i];
      assert Logged(log', |log'|, done.asm, done.name, done.pc.answer);
    }
  }

  // Replacing one thread's stack, with the log and the heap only added to.
  lemma OneStackLearns(cfg: Config, s: State, s': State, t: Thread, stack: seq<Frame>)
    requires Ordered(cfg, s) && s.log <= s'.log && s'.stacks == s.stacks[t := stack]
    requires StackLearnt(cfg, s'.log, stack) && LogExplained(cfg, s'.log) && HeapLogged(cfg, s')
    ensures Ordered(cfg, s')
  {
    forall u | u in s'.stacks ensures StackLearnt(cfg, s'.log, s'.stacks[u]) {
      if u != t {
        forall k | 0 <= k < |s.stacks[u]| ensures Learnt(cfg, s'.log, s.stacks[u][k]) {
          LearntStable(cfg, s.log, s'.log, s.stacks[u][k]);
        }
      }
    }
  }

  lemma AdvanceLearns(cfg: Config, s: State, t: Thread)
    requires Inv(cfg, s) && Ordered(cfg, s) && StackOf(s, t) != []
    ensures var s' := AdvanceTop(cfg, s, t);
      StackLearnt(cfg, s.log, StackOf(s', t)) && HeapLogged(cfg, s') && s'.log == s.log
  {
    var stack := StackOf(s, t);
    var f := stack[|stack| - 1];
    assert FrameOk(cfg, s, f) && Learnt(cfg, s.log, f);
    if Asks(cfg, f) == None {
      MoveLearns(cfg, s, f);
      MoveLogsBase(cfg, s, f);
    }
  }

  lemma AdvanceOrdered(cfg: Config, s: State, t: Thread)
    requires Inv(cfg, s) && Ordered(cfg, s) && StackOf(s, t) != []
    ensures Ordered(cfg, Step(cfg, s, t, Advance))
  {
    AdvanceLearns(cfg, s, t);
    OneStackLearns(cfg, s, Step(cfg, s, t, Advance), t, StackOf(Step(cfg, s, t, Advance), t));
  }

  lemma LogGrows(cfg: Config, log: seq<Event>, e: Event)
    requires LogExplained(cfg, log) && Explained(cfg, log, |log|, e.asm, e.name, e.answer)
    ensures LogExplained(cfg, log + [e])
  {
    var log' := log + [e];
    forall i | 0 <= i < |log'| ensures Explained(cfg, log', i, log'[i].asm, log'[i].name, log'[i].answer) {
      assert i < |log| ==> log'[i] == log[i];
      ExplainedStable(cfg, log, log', i, log'[i].asm, log'[i].name, log'[i].answer);
    }
  }

  // What the callers know after an answer was delivered to the last of them.
  lemma CallersLearn(cfg: Config, log: seq<Event>, rest: seq<Frame>, done: Frame)
    requires done.pc.Done? && StackLearnt(cfg, log, rest)
    requires rest != [] ==>
      var caller := rest[|rest| - 1];
      && LinkOk(cfg, caller, done)
      && (caller.pc.TryDep? ==> caller.name !in cfg.native && (caller.asm, caller.name) !in cfg.declared)
    ensures StackLearnt(cfg, log + [Event(done.asm, done.name, done.pc.answer, done.pc.height)], Delivered(rest, done))
  {
    var log' := log + [Event(done.asm, done.name, done.pc.answer, done.pc.height)];
    forall k | 0 <= k < |rest| ensures Learnt(cfg, log', Delivered(rest, done)[k]) {
      if k == |rest| - 1 {
        ResumeLearns(cfg, log, rest[k], done);
      } else {
        LearntStable(cfg, log, log', rest[k]);
      }
    }
  }

  lemma ReturnOrdered(cfg: Config, s: State, t: Thread)
    requires Inv(cfg, s) && Ordered(cfg, s) && StackOf(s, t) != [] && StackOf(s, t)[|StackOf(s, t)| - 1].pc.Done?
    ensures Ordered(cfg, Step(cfg, s, t, Return))
  {
    var stack, s' := StackOf(s, t), Step(cfg, s, t, Return);
    var done, rest := stack[|stack| - 1], stack[..|stack| - 1];
    assert Learnt(cfg, s.log, done);
    LogGrows(cfg, s.log, Event(done.asm, done.name, done.pc.answer, done.pc.height));
    if rest != [] {
      assert FrameOk(cfg, s, stack[|rest| - 1]);
      assert LinkOk(cfg, stack[|rest| - 1], stack[|rest|]);
    }
    CallersLearn(cfg, s.log, rest, done);
    OneStackLearns(cfg, s, s', t, Delivered(rest, done));
  }

  lemma StepOrdered(cfg: Config, s: State, t: Thread, a: Action)
    requires Inv(cfg, s) && Ordered(cfg, s)
    ensures Ordered(cfg, Step(cfg, s, t, a))
  {
    var s' := Step(cfg, s, t, a);
    if s' != s {
      match a {
        case Advance => AdvanceOrdered(cfg, s, t);
        case Return => ReturnOrdered(cfg, s, t);
        case _ => OneStackLearns(cfg, s, s', t, StackOf(s', t));
      }
    }
  }

  lemma {:induction false} RunOrdered(cfg: Config, s: State, sched: Schedule)
    requires Inv(cfg, s) && Ordered(cfg, s)
    ensures Ordered(cfg, Run(cfg, s, sched))
    decreases |sched|
  {
    if sched != [] {
      StepKeepsInv(cfg, s, sched[0].0, sched[0].1);
      StepOrdered(cfg, s, sched[0].0, sched[0].1);
      RunOrdered(cfg, Step(cfg, s, sched[0].0, sched[0].1), sched[1..]);
    }
  }

  // ---------------------------------------------------------------- laws of the log

  // In every run each finished resolution is explained by those finished before it: the library's
  // type, the assembly's own, that of the first listed dependency that hits with all before it
  // asked and missing, or what the index names with all of them asked and missing.
  lemma AnswersAreExplained(cfg: Config, sched: Schedule, i: nat)
    requires i < |Run(cfg, INITIAL, sched).log|
    ensures var log := Run(cfg, INITIAL, sched).log;
      Explained(cfg, log, i, log[i].asm, log[i].name, log[i].answer)
  {
    RunOrdered(cfg, INITIAL, sched);
  }

  // If a dependency hit and all those before it missed, every resolution got that hit.
  lemma DependencyAnswers(cfg: Config, sched: Schedule, e: nat, d: nat, i: nat)
    requires var log := Run(cfg, INITIAL, sched).log;
      && e < |log| && d < |log| && log[e].asm in cfg.deps && i < |cfg.deps[log[e].asm]|
      && log[e].name !in cfg.native && (log[e].asm, log[e].name) !in cfg.declared
      && log[d].asm == cfg.deps[log[e].asm][i] && log[d].name == log[e].name && log[d].answer.Hit?
      && forall j :: 0 <= j < i ==> Logged(log, |log|, cfg.deps[log[e].asm][j], log[e].name, Miss)
    ensures var log := Run(cfg, INITIAL, sched).log; log[e].answer == log[d].answer
  {
    var log := Run(cfg, INITIAL, sched).log;
    var a, name, deps := log[e].asm, log[e].name, cfg.deps[log[e].asm];
    AnswersAreExplained(cfg, sched, e);
    if Logged(log, e, deps[i], name, Miss) {
      var m :| 0 <= m < e && m < |log| && log[m].asm == deps[i] && log[m].name == name && log[m].answer == Miss;
      SameQuestionSameAnswer(cfg, sched, m, d);
    }
    var h :| 0 <= h < |deps| && MissedFirst(cfg, log, e, a, name, h) && log[e].answer.Hit?
             && Logged(log, e, deps[h], name, log[e].answer);
    var m :| 0 <= m < e && m < |log| && log[m].asm == deps[h] && log[m].name == name && log[m].answer == log[e].answer;
    if h < i {
      var n :| 0 <= n < |log| && log[n].asm == deps[h] && log[n].name == name && log[n].answer == Miss;
      SameQuestionSameAnswer(cfg, sched, m, n);
    }
    SameQuestionSameAnswer(cfg, sched, m, d);
  }

  // If all of them missed, every resolution got what the index names, or a miss.
  lemma IndexAnswers(cfg: Config, sched: Schedule, e: nat)
    requires var log := Run(cfg, INITIAL, sched).log;
      && e < |log| && log[e].name !in cfg.native && (log[e].asm, log[e].name) !in cfg.declared
      && (log[e].asm in cfg.deps ==> forall j :: 0 <= j < |cfg.deps[log[e].asm]| ==>
            Logged(log, |log|, cfg.deps[log[e].asm][j], log[e].name, Miss))
    ensures var log := Run(cfg, INITIAL, sched).log;
      var key := (log[e].asm, log[e].name);
      if key in cfg.index && cfg.index[key] != key.0 && (cfg.index[key], key.1) in cfg.declared
      then log[e].answer.Hit? && log[e].answer.server == Owner(cfg.index[key])
      else log[e].answer == Miss
  {
    var log := Run(cfg, INITIAL, sched).log;
    var a, name := log[e].asm, log[e].name;
    AnswersAreExplained(cfg, sched, e);
    if FromDependency(cfg, log, e, a, name, log[e].answer) {
      var h :| 0 <= h < |Listed(cfg, a)| && MissedFirst(cfg, log, e, a, name, h) && log[e].answer.Hit?
               && Logged(log, e, Listed(cfg, a)[h], name, log[e].answer);
      var dep := Listed(cfg, a)[h];
      var m :| 0 <= m < e && m < |log| && log[m].asm == dep && log[m].name == name && log[m].answer == log[e].answer;
      assert Logged(log, |log|, dep, name, Miss);
      var n :| 0 <= n < |log| && log[n].asm == dep && log[n].name == name && log[n].answer == Miss;
      SameQuestionSameAnswer(cfg, sched, m, n);
    }
  }

  // What a built type has in front of its own fields, given the answer about its base.
  ghost predicate FieldsAfter(cfg: Config, heap: seq<TypeObject>, id: nat, answer: Answer, own: seq<string>)
    requires id < |heap|
  {
    match answer
    case Miss => heap[id].fields == own
    case Hit(_, Shared(name)) => name in cfg.native && heap[id].fields == cfg.native[name] + own
    case Hit(_, Built(base)) => base < id && heap[id].fields == heap[base].fields + own
  }

  lemma {:induction false} NativeOnly(cfg: Config, a: Asm, name: Name, fuel: nat)
    requires ServerOf(cfg, a, name, fuel) == Native
    ensures name in cfg.native
    decreases fuel, 1, 0
  {
    if name !in cfg.native && (a, name) !in cfg.declared {
      assert FromIndex(cfg, a, name, fuel - 1) != Native;
      NativeFromDep(cfg, cfg.DepsOf(a), name, fuel - 1);
    }
  }

  lemma {:induction false} NativeFromDep(cfg: Config, deps: seq<Asm>, name: Name, fuel: nat)
    requires FirstDep(cfg, deps, name, fuel) == Native
    ensures name in cfg.native
    decreases fuel, 2, |deps|
  {
    if ServerOf(cfg, deps[0], name, fuel) == Native {
      NativeOnly(cfg, deps[0], name, fuel);
    } else {
      NativeFromDep(cfg, deps[1..], name, fuel);
    }
  }

  lemma ObjectFollowsBase(cfg: Config, s: State, id: nat)
    requires SharedOk(cfg, s) && HeapLogged(cfg, s) && id < |s.heap|
    ensures var o := s.heap[id];
      && (o.asm, o.name) in cfg.declared
      && var own := cfg.declared[(o.asm, o.name)].fields;
         match cfg.declared[(o.asm, o.name)].base
         case None => o.fields == own
         case Some(base) =>
           && o.parent.Some? && o.parent.value in s.log
           && o.parent.value.asm == o.asm && o.parent.value.name == base
           && FieldsAfter(cfg, s.heap, id, o.parent.value.answer, own)
  {
    var o := s.heap[id];
    assert ObjectOk(cfg, s, id) && BaseLogged(cfg, s.log, o.asm, o.name, o.parent);
    if o.parent.Some? && o.parent.value.answer.Hit? && o.parent.value.answer.ref.Shared? {
      NativeOnly(cfg, o.asm, o.parent.value.name, o.parent.value.height);
    }
  }

  // A table entry's fields are its own after those that the resolution of the base it names, from the
  // assembly that declares it, was answered with; that resolution was finished before.
  lemma EntryFollowsBase(cfg: Config, sched: Schedule, k: (Asm, Name), base: Name, i: nat)
    requires var s := Run(cfg, INITIAL, sched);
      && k in s.types && k in cfg.declared && cfg.declared[k].base == Some(base)
      && i < |s.log| && s.log[i].asm == k.0 && s.log[i].name == base
    ensures var s := Run(cfg, INITIAL, sched);
      s.types[k] < |s.heap| && FieldsAfter(cfg, s.heap, s.types[k], s.log[i].answer, cfg.declared[k].fields)
  {
    RunKeepsInv(cfg, INITIAL, sched);
    RunOrdered(cfg, INITIAL, sched);
    var s := Run(cfg, INITIAL, sched);
    ObjectFollowsBase(cfg, s, s.types[k]);
    var p :| 0 <= p < |s.log| && s.log[p] == s.heap[s.types[k]].parent.value;
    SameQuestionSameAnswer(cfg, sched, i, p);
  }

  // Every entry's type is declared, has its own fields alone if it names no base, and otherwise has
  // had its base resolved.
  lemma EntryIsDeclared(cfg: Config, sched: Schedule, k: (Asm, Name))
    requires k in Run(cfg, INITIAL, sched).types
    ensures var s := Run(cfg, INITIAL, sched);
      && k in cfg.declared && s.types[k] < |s.heap|
      && match cfg.declared[k].base
         case None => s.heap[s.types[k]].fields == cfg.declared[k].fields
         case Some(base) => exists i :: 0 <= i < |s.log| && s.log[i].asm == k.0 && s.log[i].name == base
  {
    RunKeepsInv(cfg, INITIAL, sched);
    RunOrdered(cfg, INITIAL, sched);
    var s := Run(cfg, INITIAL, sched);
    ObjectFollowsBase(cfg, s, s.types[k]);
    if cfg.declared[k].base.Some? {
      var p :| 0 <= p < |s.log| && s.log[p] == s.heap[s.types[k]].parent.value;
    }
  }
}
