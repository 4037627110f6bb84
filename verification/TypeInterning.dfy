// The check-build-check-store protocol of resolveTypeByFullNameAt (assembly.go:2097-2176),
// as steps of any number of threads over the per-assembly type tables.
//
// A table is touched only inside a critical section, so one step is one critical section or
// one stretch of code between two of them. No lock is held while a type is built: a build first
// resolves its base to the end (assembly.go:2230-2237), then whatever value types its fields name,
// each time re-entering resolution, for the same name even. That is modelled by a stack of
// activations per thread.
module TypeInterning {
  import opened Common

  type Asm = nat
  type Name = string
  type Thread = nat

  // What buildType finds of a type: the base whose fields it inherits and its own field names.
  datatype Decl = Decl(base: Option<Name>, fields: seq<string>)

  // What does not change while threads run: dependency edges, the cross-package index, the types
  // the base library serves itself, with their fields, and those buildType succeeds on.
  datatype Config = Config(
    deps: map<Asm, seq<Asm>>,
    index: map<(Asm, Name), Asm>,
    native: map<Name, seq<string>>,
    declared: map<(Asm, Name), Decl>)
  {
    function DepsOf(a: Asm): seq<Asm> { if a in deps then deps[a] else [] }

    function BaseOf(a: Asm, name: Name): Option<Name> {
      if (a, name) in declared then declared[(a, name)].base else None
    }
  }

  // Who answers for a name asked of an assembly.
  datatype Server = Native | Owner(asm: Asm) | Nobody | Unknown

  // A *runtime.Type: the library's shared instance, or the n-th object allocated by a build.
  datatype TypeRef = Shared(name: Name) | Built(id: nat)

  datatype Answer = Hit(server: Server, ref: TypeRef) | Miss

  // A finished resolution. The numbers `height` are bookkeeping only: how deep it went.
  datatype Event = Event(asm: Asm, name: Name, answer: Answer, height: nat)

  // A built type object: the resolution of its base, if it has one, and all its fields.
  datatype TypeObject = TypeObject(
    asm: Asm, name: Name, parent: Option<Event>, fields: seq<string>, height: nat)

  // Where an activation stands. It builds from the metadata of `owner`: the asked assembly itself
  // or, once all dependencies missed, another one the index names.
  datatype Pc =
    | Check                                                        // before cachedType
    | Lookup                                                       // missed; before the native registries
    | Build(owner: Asm, height: nat)                               // inside buildType, before the base
    | Fields(owner: Asm, height: nat, parent: Option<Event>)       // the base is resolved
    | Publish(owner: Asm, height: nat, obj: nat)                   // built; before the final check-and-store
    | TryDep(i: nat, height: nat)                                  // no own type; dependencies before i missed
    | Consult(height: nat)                                         // all dependencies missed
    | Done(answer: Answer, height: nat)

  datatype Frame = Frame(asm: Asm, name: Name, pc: Pc)

  datatype State = State(
    types: map<(Asm, Name), nat>,          // every assembly's `types` table
    writes: seq<(Asm, Name)>,              // the table writes so far, in order
    heap: seq<TypeObject>,
    stacks: map<Thread, seq<Frame>>,
    log: seq<Event>)                       // every finished resolution, nested ones included

  const INITIAL := State(map[], [], [], map[], [])

  datatype Action =
    | Call(asm: Asm, name: Name)     // an idle thread resolves a name
    | Reenter(name: Name)            // buildType resolves the type of a field
    | Advance                        // the activation on top moves on
    | Return                         // a finished activation delivers its answer

  // Who serves `name` for `a`, looking at most `fuel` questions deep: bases of what is built and
  // dependencies asked. Unknown when that depth does not settle it (the walk need not end).
  function ServerOf(cfg: Config, a: Asm, name: Name, fuel: nat): Server
    decreases fuel, 1, 0
  {
    if name in cfg.native then Native
    else if fuel == 0 then Unknown
    else if (a, name) in cfg.declared then BuiltBy(cfg, a, name, fuel - 1)
    else
      var d := FirstDep(cfg, cfg.DepsOf(a), name, fuel - 1);
      if d != Nobody then d else FromIndex(cfg, a, name, fuel - 1)
  }

  function FirstDep(cfg: Config, deps: seq<Asm>, name: Name, fuel: nat): Server
    decreases fuel, 2, |deps|
  {
    if deps == [] then Nobody
    else
      var s := ServerOf(cfg, deps[0], name, fuel);
      if s != Nobody then s else FirstDep(cfg, deps[1..], name, fuel)
  }

  // A build goes on whatever the resolution of the base answers, as long as it answers.
  function BuiltBy(cfg: Config, owner: Asm, name: Name, fuel: nat): Server
    decreases fuel, 2, 0
  {
    var base := cfg.BaseOf(owner, name);
    if base.Some? && ServerOf(cfg, owner, base.value, fuel) == Unknown then Unknown else Owner(owner)
  }

  // The owner the index names for a type that `a` does not find otherwise.
  function Indexed(cfg: Config, a: Asm, name: Name): Option<Asm> {
    if (a, name) in cfg.index && cfg.index[(a, name)] != a then Some(cfg.index[(a, name)]) else None
  }

  function FromIndex(cfg: Config, a: Asm, name: Name, fuel: nat): Server
    decreases fuel, 3, 0
  {
    var owner := Indexed(cfg, a, name);
    if owner.Some? && (owner.value, name) in cfg.declared then BuiltBy(cfg, owner.value, name, fuel) else Nobody
  }

  // ---------------------------------------------------------------- steps

  function StackOf(s: State, t: Thread): seq<Frame> { if t in s.stacks then s.stacks[t] else [] }

  function WithTop(stack: seq<Frame>, pc: Pc): seq<Frame>
    requires stack != []
  {
    stack[..|stack| - 1] + [stack[|stack| - 1].(pc := pc)]
  }

  // The last critical section: an entry that appeared meanwhile wins, otherwise store.
  function CheckAndStore(s: State, key: (Asm, Name), obj: nat): State {
    if key in s.types then s else s.(types := s.types[key := obj], writes := s.writes + [key])
  }

  function FieldsOf(cfg: Config, heap: seq<TypeObject>, answer: Answer): seq<string> {
    match answer
    case Miss => []
    case Hit(_, Shared(name)) => if name in cfg.native then cfg.native[name] else []
    case Hit(_, Built(id)) => if id < |heap| then heap[id].fields else []
  }

  function Inherited(cfg: Config, heap: seq<TypeObject>, parent: Option<Event>): seq<string> {
    if parent.Some? then FieldsOf(cfg, heap, parent.value.answer) else []
  }

  function NewType(cfg: Config, heap: seq<TypeObject>, owner: Asm, name: Name, parent: Option<Event>, height: nat)
    : TypeObject
    requires (owner, name) in cfg.declared
  {
    TypeObject(owner, name, parent, Inherited(cfg, heap, parent) + cfg.declared[(owner, name)].fields, height)
  }

  // The question the activation puts to another resolution before it goes on: the base of what it
  // builds, or the same name to the next dependency.
  function Asks(cfg: Config, f: Frame): Option<(Asm, Name)> {
    match f.pc
    case Build(owner, _) =>
      var base := cfg.BaseOf(owner, f.name);
      if base.Some? then Some((owner, base.value)) else None
    case TryDep(i, _) => if i < |cfg.DepsOf(f.asm)| then Some((cfg.DepsOf(f.asm)[i], f.name)) else None
    case _ => None
  }

  // What the activation on top does next where it asks nobody: its effect on the shared state, and
  // where it then stands.
  function Move(cfg: Config, s: State, f: Frame): (State, Pc) {
    var key := (f.asm, f.name);
    match f.pc
    case Check =>
      (s, if key in s.types && s.types[key] < |s.heap|
          then Done(Hit(Owner(f.asm), Built(s.types[key])), s.heap[s.types[key]].height + 1) else Lookup)
    case Lookup => (s, if f.name in cfg.native then Done(Hit(Native, Shared(f.name)), 0) else Build(f.asm, 0))
    case Build(owner, h) =>
      (s, if (owner, f.name) in cfg.declared then Fields(owner, h, None)
          else if owner == f.asm then TryDep(0, 0)
          else Done(Miss, h + 1))
    case Fields(owner, h, parent) =>
      if (owner, f.name) in cfg.declared then
        (s.(heap := s.heap + [NewType(cfg, s.heap, owner, f.name, parent, h)]), Publish(owner, h, |s.heap|))
      else (s, f.pc)
    case Publish(owner, h, obj) =>
      var s' := CheckAndStore(s, (owner, f.name), obj);
      (s', Done(Hit(Owner(owner), Built(s'.types[(owner, f.name)])), h + 1))
    case TryDep(_, h) => (s, Consult(h))
    case Consult(h) =>
      (s, if Indexed(cfg, f.asm, f.name).Some? then Build(Indexed(cfg, f.asm, f.name).value, h) else Done(Miss, h + 1))
    case Done(_, _) => (s, f.pc)
  }

  function AdvanceTop(cfg: Config, s: State, t: Thread): State
    requires StackOf(s, t) != []
  {
    var stack := StackOf(s, t);
    var f := stack[|stack| - 1];
    match Asks(cfg, f)
    case Some((asm, name)) => s.(stacks := s.stacks[t := stack + [Frame(asm, name, Check)]])
    case None =>
      var (s', pc) := Move(cfg, s, f);
      s'.(stacks := s.stacks[t := WithTop(stack, pc)])
  }

  function Max(a: nat, b: nat): nat { if a < b then b else a }

  // The caller of a finished activation: a probe of a dependency uses the answer, a build goes on
  // with the base's fields whatever it was, or goes on to its next field.
  function Resume(caller: Frame, done: Frame): Frame
    requires done.pc.Done?
  {
    match caller.pc
    case TryDep(i, h) =>
      var top := Max(h, done.pc.height);
      caller.(pc := if done.pc.answer.Hit? then Done(done.pc.answer, top + 1) else TryDep(i + 1, top))
    case Build(owner, h) =>
      var e := Event(done.asm, done.name, done.pc.answer, done.pc.height);
      caller.(pc := Fields(owner, Max(h, done.pc.height), Some(e)))
    case _ => caller
  }

  // The stack below a finished activation, with its answer delivered.
  function Delivered(rest: seq<Frame>, done: Frame): seq<Frame>
    requires done.pc.Done?
  {
    if rest == [] then [] else WithTop(rest, Resume(rest[|rest| - 1], done).pc)
  }

  function Step(cfg: Config, s: State, t: Thread, a: Action): State {
    var stack := StackOf(s, t);
    match a
    case Call(asm, name) =>
      if stack == [] then s.(stacks := s.stacks[t := [Frame(asm, name, Check)]]) else s
    case Reenter(name) =>
      if stack != [] && stack[|stack| - 1].pc.Fields? then
        s.(stacks := s.stacks[t := stack + [Frame(stack[|stack| - 1].pc.owner, name, Check)]])
      else s
    case Advance =>
      if stack != [] then AdvanceTop(cfg, s, t) else s
    case Return =>
      if stack != [] && stack[|stack| - 1].pc.Done? then
        var f := stack[|stack| - 1];
        s.(log := s.log + [Event(f.asm, f.name, f.pc.answer, f.pc.height)],
           stacks := s.stacks[t := Delivered(stack[..|stack| - 1], f)])
      else s
  }

  // ---------------------------------------------------------------- the walk is a function

  lemma {:induction false} FuelSettles(cfg: Config, a: Asm, name: Name, fuel: nat, more: nat)
    requires fuel <= more && ServerOf(cfg, a, name, fuel) != Unknown
    ensures ServerOf(cfg, a, name, more) == ServerOf(cfg, a, name, fuel)
    decreases fuel, 1, 0
  {
    if name !in cfg.native {
      if (a, name) in cfg.declared {
        BuildSettles(cfg, a, name, fuel - 1, more - 1);
      } else {
        FirstDepSettles(cfg, cfg.DepsOf(a), name, fuel - 1, more - 1);
        if Indexed(cfg, a, name).Some? && FirstDep(cfg, cfg.DepsOf(a), name, fuel - 1) == Nobody {
          BuildSettles(cfg, Indexed(cfg, a, name).value, name, fuel - 1, more - 1);
        }
      }
    }
  }

  lemma {:induction false} BuildSettles(cfg: Config, owner: Asm, name: Name, fuel: nat, more: nat)
    requires fuel <= more
    ensures BuiltBy(cfg, owner, name, fuel) != Unknown ==> BuiltBy(cfg, owner, name, more) == Owner(owner)
    decreases fuel, 2, 0
  {
    var base := cfg.BaseOf(owner, name);
    if base.Some? && ServerOf(cfg, owner, base.value, fuel) != Unknown {
      FuelSettles(cfg, owner, base.value, fuel, more);
    }
  }

  lemma {:induction false} FirstDepSettles(cfg: Config, deps: seq<Asm>, name: Name, fuel: nat, more: nat)
    requires fuel <= more && FirstDep(cfg, deps, name, fuel) != Unknown
    ensures FirstDep(cfg, deps, name, more) == FirstDep(cfg, deps, name, fuel)
    decreases fuel, 2, |deps|
  {
    if deps != [] {
      FuelSettles(cfg, deps[0], name, fuel, more);
      if ServerOf(cfg, deps[0], name, fuel) == Nobody {
        FirstDepSettles(cfg, deps[1..], name, fuel, more);
      }
    }
  }

  // If every dependency before i misses, the walk goes on with those from i.
  lemma {:induction false} FirstDepSkips(cfg: Config, deps: seq<Asm>, name: Name, fuel: nat, i: nat)
    requires i <= |deps| && MissedBefore(cfg, deps, name, fuel, i)
    ensures FirstDep(cfg, deps, name, fuel) == FirstDep(cfg, deps[i..], name, fuel)
  {
    if i > 0 {
      assert ServerOf(cfg, deps[0], name, fuel) == Nobody;
      assert forall j :: 0 <= j < i - 1 ==> deps[1..][j] == deps[j + 1];
      FirstDepSkips(cfg, deps[1..], name, fuel, i - 1);
      assert deps[1..][i - 1..] == deps[i..];
    }
  }

  ghost predicate MissedBefore(cfg: Config, deps: seq<Asm>, name: Name, fuel: nat, i: nat)
    requires i <= |deps|
  {
    forall j :: 0 <= j < i ==> ServerOf(cfg, deps[j], name, fuel) == Nobody
  }

  // ---------------------------------------------------------------- invariant

  ghost predicate TableOk(cfg: Config, s: State) {
    && (forall k :: k in s.types ==>
          k.1 !in cfg.native && s.types[k] < |s.heap|
          && s.heap[s.types[k]].asm == k.0 && s.heap[s.types[k]].name == k.1)
    && Distinct(s.writes)
    && (forall k :: k in s.writes <==> k in s.types)
  }

  ghost predicate AnswerOk(cfg: Config, types: map<(Asm, Name), nat>, a: Asm, name: Name, ans: Answer, height: nat) {
    match ans
    case Miss => ServerOf(cfg, a, name, height) == Nobody
    case Hit(server, ref) =>
      && ServerOf(cfg, a, name, height) == server
      && match server
         case Native => ref == Shared(name)
         case Owner(owner) => (owner, name) in types && ref == Built(types[(owner, name)])
         case _ => false
  }

  // The base is resolved, if there is one, no deeper than `height`.
  ghost predicate ParentOk(
      cfg: Config, types: map<(Asm, Name), nat>, owner: Asm, name: Name, parent: Option<Event>, height: nat)
  {
    match parent
    case None => cfg.BaseOf(owner, name) == None
    case Some(e) =>
      && e.asm == owner && cfg.BaseOf(owner, name) == Some(e.name) && e.height <= height
      && AnswerOk(cfg, types, e.asm, e.name, e.answer, e.height)
  }

  // An object is laid out over the fields of the object its base's resolution answered, which was
  // there before.
  ghost predicate ObjectOk(cfg: Config, s: State, id: nat)
    requires id < |s.heap|
  {
    var o := s.heap[id];
    && (o.asm, o.name) in cfg.declared
    && ParentOk(cfg, s.types, o.asm, o.name, o.parent, o.height)
    && o.fields == Inherited(cfg, s.heap, o.parent) + cfg.declared[(o.asm, o.name)].fields
    && (o.parent.Some? && o.parent.value.answer.Hit? && o.parent.value.answer.ref.Built? ==>
          o.parent.value.answer.ref.id < id)
  }

  ghost predicate HeapOk(cfg: Config, s: State) { forall id :: 0 <= id < |s.heap| ==> ObjectOk(cfg, s, id) }

  // `owner` is the asked assembly, or the index names it and everybody else missed.
  ghost predicate Via(cfg: Config, f: Frame, owner: Asm, height: nat) {
    owner != f.asm ==>
      && (f.asm, f.name) !in cfg.declared
      && MissedBefore(cfg, cfg.DepsOf(f.asm), f.name, height, |cfg.DepsOf(f.asm)|)
      && Indexed(cfg, f.asm, f.name) == Some(owner)
  }

  ghost predicate FrameOk(cfg: Config, s: State, f: Frame) {
    var deps := cfg.DepsOf(f.asm);
    match f.pc
    case Check => true
    case Lookup => true
    case Build(owner, h) => f.name !in cfg.native && Via(cfg, f, owner, h)
    case Fields(owner, h, parent) =>
      && f.name !in cfg.native && Via(cfg, f, owner, h)
      && (owner, f.name) in cfg.declared && ParentOk(cfg, s.types, owner, f.name, parent, h)
    case Publish(owner, h, obj) =>
      && f.name !in cfg.native && Via(cfg, f, owner, h)
      && obj < |s.heap| && s.heap[obj].asm == owner && s.heap[obj].name == f.name && s.heap[obj].height == h
    case TryDep(i, h) =>
      && f.name !in cfg.native && (f.asm, f.name) !in cfg.declared
      && i <= |deps| && MissedBefore(cfg, deps, f.name, h, i)
    case Consult(h) =>
      && f.name !in cfg.native && (f.asm, f.name) !in cfg.declared
      && MissedBefore(cfg, deps, f.name, h, |deps|)
    case Done(ans, h) => AnswerOk(cfg, s.types, f.asm, f.name, ans, h)
  }

  // A suspended activation waits for what it asked, or builds and has asked for a field's type.
  ghost predicate LinkOk(cfg: Config, f: Frame, callee: Frame) {
    f.pc.Fields? || Asks(cfg, f) == Some((callee.asm, callee.name))
  }

  ghost predicate StackOk(cfg: Config, s: State, stack: seq<Frame>) {
    && (forall k :: 0 <= k < |stack| ==> FrameOk(cfg, s, stack[k]))
    && (forall k :: 0 <= k < |stack| - 1 ==> LinkOk(cfg, stack[k], stack[k + 1]))
  }

  ghost predicate LogOk(cfg: Config, s: State) {
    forall k :: 0 <= k < |s.log| ==>
      AnswerOk(cfg, s.types, s.log[k].asm, s.log[k].name, s.log[k].answer, s.log[k].height)
  }

  // Tables and objects, which threads share.
  ghost predicate SharedOk(cfg: Config, s: State) { TableOk(cfg, s) && HeapOk(cfg, s) }

  ghost predicate Inv(cfg: Config, s: State) {
    && SharedOk(cfg, s)
    && (forall t :: t in s.stacks ==> StackOk(cfg, s, s.stacks[t]))
    && LogOk(cfg, s)
  }

  // s' has everything s has, unchanged: table entries, objects and finished answers.
  ghost predicate Extends(s: State, s': State) {
    && (forall k :: k in s.types ==> k in s'.types && s'.types[k] == s.types[k])
    && s.heap <= s'.heap && s.writes <= s'.writes && s.log <= s'.log
  }

  lemma FrameStable(cfg: Config, s: State, s': State, f: Frame)
    requires FrameOk(cfg, s, f) && Extends(s, s')
    ensures FrameOk(cfg, s', f)
  {}

  lemma StackStable(cfg: Config, s: State, s': State, stack: seq<Frame>)
    requires StackOk(cfg, s, stack) && Extends(s, s')
    ensures StackOk(cfg, s', stack)
  {
    forall k | 0 <= k < |stack| ensures FrameOk(cfg, s', stack[k]) {
      FrameStable(cfg, s, s', stack[k]);
    }
  }

  // Changing the top activation keeps the stack in order if the new top is.
  lemma TopChanged(cfg: Config, s: State, s': State, stack: seq<Frame>, pc: Pc)
    requires stack != [] && StackOk(cfg, s, stack) && Extends(s, s')
    requires FrameOk(cfg, s', stack[|stack| - 1].(pc := pc))
    ensures StackOk(cfg, s', WithTop(stack, pc))
  {
    StackStable(cfg, s, s', stack);
    var r := WithTop(stack, pc);
    forall k | 0 <= k < |r| - 1 ensures LinkOk(cfg, r[k], r[k + 1]) {
      assert LinkOk(cfg, stack[k], stack[k + 1]);
    }
  }

  lemma Pushed(cfg: Config, s: State, s': State, stack: seq<Frame>, callee: Frame)
    requires stack != [] && StackOk(cfg, s, stack) && Extends(s, s')
    requires callee.pc.Check? && LinkOk(cfg, stack[|stack| - 1], callee)
    ensures StackOk(cfg, s', stack + [callee])
  {
    StackStable(cfg, s, s', stack);
    var r := stack + [callee];
    forall k | 0 <= k < |r| - 1 ensures LinkOk(cfg, r[k], r[k + 1]) {
      if k < |stack| - 1 { assert LinkOk(cfg, stack[k], stack[k + 1]); }
    }
  }

  // A walk over dependencies that all missed ends in the index.
  lemma AllMissed(cfg: Config, a: Asm, name: Name, h: nat)
    requires name !in cfg.native && (a, name) !in cfg.declared
    requires MissedBefore(cfg, cfg.DepsOf(a), name, h, |cfg.DepsOf(a)|)
    ensures ServerOf(cfg, a, name, h + 1) == FromIndex(cfg, a, name, h)
  {
    FirstDepSkips(cfg, cfg.DepsOf(a), name, h, |cfg.DepsOf(a)|);
  }

  // Misses stay misses at any greater depth.
  lemma MissedDeeper(cfg: Config, deps: seq<Asm>, name: Name, h: nat, more: nat, i: nat)
    requires i <= |deps| && h <= more && MissedBefore(cfg, deps, name, h, i)
    ensures MissedBefore(cfg, deps, name, more, i)
  {
    forall j | 0 <= j < i ensures ServerOf(cfg, deps[j], name, more) == Nobody {
      FuelSettles(cfg, deps[j], name, h, more);
    }
  }

  // What is asked of a dependency, answered.
  lemma ProbeOk(cfg: Config, s: State, caller: Frame, done: Frame)
    requires FrameOk(cfg, s, caller) && FrameOk(cfg, s, done) && done.pc.Done?
    requires caller.pc.TryDep? && Asks(cfg, caller) == Some((done.asm, done.name))
    ensures FrameOk(cfg, s, Resume(caller, done))
  {
    var i, deps, h := caller.pc.i, cfg.DepsOf(caller.asm), done.pc.height;
    var top := Max(caller.pc.height, h);
    MissedDeeper(cfg, deps, caller.name, caller.pc.height, top, i);
    FuelSettles(cfg, deps[i], caller.name, h, top);
    FirstDepSkips(cfg, deps, caller.name, top, i);
    assert deps[i..][0] == deps[i];
  }

  // What a build asks about its base, answered.
  lemma BaseOk(cfg: Config, s: State, caller: Frame, done: Frame)
    requires FrameOk(cfg, s, caller) && FrameOk(cfg, s, done) && done.pc.Done?
    requires caller.pc.Build? && Asks(cfg, caller) == Some((done.asm, done.name))
    ensures FrameOk(cfg, s, Resume(caller, done))
  {
    var h := caller.pc.height;
    if caller.pc.owner != caller.asm {
      var deps := cfg.DepsOf(caller.asm);
      MissedDeeper(cfg, deps, caller.name, h, Max(h, done.pc.height), |deps|);
    }
  }

  lemma ResumeOk(cfg: Config, s: State, caller: Frame, done: Frame)
    requires FrameOk(cfg, s, caller) && FrameOk(cfg, s, done) && done.pc.Done? && LinkOk(cfg, caller, done)
    ensures FrameOk(cfg, s, Resume(caller, done))
  {
    if caller.pc.TryDep? { ProbeOk(cfg, s, caller, done); }
    if caller.pc.Build? { BaseOk(cfg, s, caller, done); }
  }

  // ---------------------------------------------------------------- steps that share

  lemma ObjectStable(cfg: Config, s: State, s': State, id: nat)
    requires id < |s.heap| && ObjectOk(cfg, s, id) && Extends(s, s')
    ensures ObjectOk(cfg, s', id)
  {
    var o := s.heap[id];
    assert s'.heap[id] == o;
    if o.parent.Some? && o.parent.value.answer.Hit? && o.parent.value.answer.ref.Built? {
      assert s'.heap[o.parent.value.answer.ref.id] == s.heap[o.parent.value.answer.ref.id];
    }
  }

  // A build allocates its object.
  lemma AllocateOk(cfg: Config, s: State, f: Frame)
    requires SharedOk(cfg, s) && FrameOk(cfg, s, f) && f.pc.Fields?
    ensures var (s', pc) := Move(cfg, s, f);
      Extends(s, s') && SharedOk(cfg, s') && FrameOk(cfg, s', f.(pc := pc)) && s'.log == s.log
  {
    var (s', _) := Move(cfg, s, f);
    forall id | 0 <= id < |s.heap| ensures ObjectOk(cfg, s', id) { ObjectStable(cfg, s, s', id); }
    var e := f.pc.parent;
    if e.Some? && e.value.answer.Hit? && e.value.answer.ref.Built? {
      assert s'.heap[e.value.answer.ref.id] == s.heap[e.value.answer.ref.id];
    }
    assert ObjectOk(cfg, s', |s.heap|);
  }

  lemma StoreOk(cfg: Config, s: State, key: (Asm, Name), obj: nat)
    requires SharedOk(cfg, s) && key.1 !in cfg.native
    requires obj < |s.heap| && s.heap[obj].asm == key.0 && s.heap[obj].name == key.1
    ensures var s' := CheckAndStore(s, key, obj);
      SharedOk(cfg, s') && Extends(s, s') && s'.heap == s.heap && s'.log == s.log && key in s'.types
  {
    var s' := CheckAndStore(s, key, obj);
    assert TableOk(cfg, s');
    forall id | 0 <= id < |s.heap| ensures ObjectOk(cfg, s', id) { ObjectStable(cfg, s, s', id); }
  }

  // An object's own height is enough to build its type.
  lemma ObjectServed(cfg: Config, s: State, id: nat)
    requires id < |s.heap| && ObjectOk(cfg, s, id)
    ensures BuiltBy(cfg, s.heap[id].asm, s.heap[id].name, s.heap[id].height) == Owner(s.heap[id].asm)
  {
    var o := s.heap[id];
    if o.parent.Some? { FuelSettles(cfg, o.asm, o.parent.value.name, o.parent.value.height, o.height); }
  }

  // After the last critical section the owner's entry is the answer.
  lemma PublishedOk(cfg: Config, s: State, f: Frame)
    requires SharedOk(cfg, s) && FrameOk(cfg, s, f) && f.pc.Publish?
    ensures var (s', pc) := Move(cfg, s, f);
      Extends(s, s') && SharedOk(cfg, s') && FrameOk(cfg, s', f.(pc := pc)) && s'.log == s.log
  {
    var owner, h, obj := f.pc.owner, f.pc.height, f.pc.obj;
    StoreOk(cfg, s, (owner, f.name), obj);
    assert ObjectOk(cfg, s, obj);
    ObjectServed(cfg, s, obj);
    if owner != f.asm { AllMissed(cfg, f.asm, f.name, h); }
  }

  // A hit in the table.
  lemma CachedOk(cfg: Config, s: State, f: Frame)
    requires SharedOk(cfg, s) && f.pc.Check?
    ensures FrameOk(cfg, s, f.(pc := Move(cfg, s, f).1))
  {
    if (f.asm, f.name) in s.types {
      assert ObjectOk(cfg, s, s.types[(f.asm, f.name)]);
      ObjectServed(cfg, s, s.types[(f.asm, f.name)]);
    }
  }

  // The steps after all dependencies missed.
  lemma LateMoveOk(cfg: Config, s: State, f: Frame)
    requires FrameOk(cfg, s, f) && Asks(cfg, f) == None
    requires f.pc.Consult? || (f.pc.Build? && f.pc.owner != f.asm)
    ensures FrameOk(cfg, s, f.(pc := Move(cfg, s, f).1))
  {
    AllMissed(cfg, f.asm, f.name, f.pc.height);
  }

  lemma MoveOk(cfg: Config, s: State, f: Frame)
    requires SharedOk(cfg, s) && FrameOk(cfg, s, f) && Asks(cfg, f) == None
    ensures var (s', pc) := Move(cfg, s, f);
      Extends(s, s') && SharedOk(cfg, s') && FrameOk(cfg, s', f.(pc := pc)) && s'.log == s.log
  {
    match f.pc {
      case Check => CachedOk(cfg, s, f);
      case Fields(_, _, _) => AllocateOk(cfg, s, f);
      case Publish(_, _, _) => PublishedOk(cfg, s, f);
      case Consult(_) => LateMoveOk(cfg, s, f);
      case Build(owner, _) => if owner != f.asm { LateMoveOk(cfg, s, f); }
      case _ =>
    }
  }

  // Replacing one thread's stack by one in order keeps the invariant.
  lemma OneStackChanged(cfg: Config, s: State, s': State, t: Thread, stack: seq<Frame>)
    requires Inv(cfg, s) && Extends(s, s') && SharedOk(cfg, s') && LogOk(cfg, s')
    requires s'.stacks == s.stacks[t := stack] && StackOk(cfg, s', stack)
    ensures Inv(cfg, s')
  {
    forall u | u in s'.stacks ensures StackOk(cfg, s', s'.stacks[u]) {
      if u != t { StackStable(cfg, s, s', s.stacks[u]); }
    }
  }

  // A change of stacks and log alone.
  lemma SharedStable(cfg: Config, s: State, s': State)
    requires SharedOk(cfg, s) && s'.types == s.types && s'.heap == s.heap && s'.writes == s.writes
    ensures SharedOk(cfg, s')
  {
    forall id | 0 <= id < |s'.heap| ensures ObjectOk(cfg, s', id) { assert ObjectOk(cfg, s, id); }
  }

  lemma AdvanceKeepsInv(cfg: Config, s: State, t: Thread)
    requires Inv(cfg, s) && StackOf(s, t) != []
    ensures Inv(cfg, AdvanceTop(cfg, s, t)) && Extends(s, AdvanceTop(cfg, s, t))
  {
    var stack := StackOf(s, t);
    var f := stack[|stack| - 1];
    var s' := AdvanceTop(cfg, s, t);
    assert FrameOk(cfg, s, f);
    match Asks(cfg, f) {
      case Some((asm, name)) =>
        SharedStable(cfg, s, s');
        Pushed(cfg, s, s', stack, Frame(asm, name, Check));
      case None =>
        MoveOk(cfg, s, f);
        var (moved, pc) := Move(cfg, s, f);
        SharedStable(cfg, moved, s');
        FrameStable(cfg, moved, s', f.(pc := pc));
        TopChanged(cfg, s, s', stack, pc);
        LogStable(cfg, s, s');
    }
    OneStackChanged(cfg, s, s', t, StackOf(s', t));
  }

  lemma ReturnKeepsInv(cfg: Config, s: State, t: Thread)
    requires Inv(cfg, s) && StackOf(s, t) != [] && StackOf(s, t)[|StackOf(s, t)| - 1].pc.Done?
    ensures Inv(cfg, Step(cfg, s, t, Return)) && Extends(s, Step(cfg, s, t, Return))
  {
    var stack := StackOf(s, t);
    var f, rest := stack[|stack| - 1], stack[..|stack| - 1];
    var s' := Step(cfg, s, t, Return);
    assert FrameOk(cfg, s, f);
    SharedStable(cfg, s, s');
    LogStable(cfg, s, s');
    if rest != [] {
      var caller := rest[|rest| - 1];
      assert LinkOk(cfg, stack[|rest| - 1], stack[|rest|]);
      assert StackOk(cfg, s, rest);
      ResumeOk(cfg, s, caller, f);
      FrameStable(cfg, s, s', caller.(pc := Resume(caller, f).pc));
      TopChanged(cfg, s, s', rest, Resume(caller, f).pc);
    }
    OneStackChanged(cfg, s, s', t, Delivered(rest, f));
  }

  // Every step of every thread keeps the invariant and only adds to the shared state.
  lemma StepKeepsInv(cfg: Config, s: State, t: Thread, a: Action)
    requires Inv(cfg, s)
    ensures Inv(cfg, Step(cfg, s, t, a))
    ensures Extends(s, Step(cfg, s, t, a))
  {
    var s' := Step(cfg, s, t, a);
    var stack := StackOf(s, t);
    if s' != s {
      match a {
        case Call(asm, name) =>
          SharedStable(cfg, s, s');
          OneStackChanged(cfg, s, s', t, [Frame(asm, name, Check)]);
        case Reenter(name) =>
          var callee := Frame(stack[|stack| - 1].pc.owner, name, Check);
          SharedStable(cfg, s, s');
          Pushed(cfg, s, s', stack, callee);
          OneStackChanged(cfg, s, s', t, stack + [callee]);
        case Advance => AdvanceKeepsInv(cfg, s, t);
        case Return => ReturnKeepsInv(cfg, s, t);
      }
    }
  }

  lemma LogStable(cfg: Config, s: State, s': State)
    requires LogOk(cfg, s) && Extends(s, s')
    requires forall k :: |s.log| <= k < |s'.log| ==>
      AnswerOk(cfg, s'.types, s'.log[k].asm, s'.log[k].name, s'.log[k].answer, s'.log[k].height)
    ensures LogOk(cfg, s')
  {
    forall k | 0 <= k < |s.log|
      ensures AnswerOk(cfg, s'.types, s'.log[k].asm, s'.log[k].name, s'.log[k].answer, s'.log[k].height)
    {
      assert s'.log[k] == s.log[k];
    }
  }

  // ---------------------------------------------------------------- runs

  type Schedule = seq<(Thread, Action)>

  function Run(cfg: Config, s: State, sched: Schedule): State
    decreases |sched|
  {
    if sched == [] then s else Run(cfg, Step(cfg, s, sched[0].0, sched[0].1), sched[1..])
  }

  lemma {:induction false} RunKeepsInv(cfg: Config, s: State, sched: Schedule)
    requires Inv(cfg, s)
    ensures Inv(cfg, Run(cfg, s, sched))
    ensures Extends(s, Run(cfg, s, sched))
    decreases |sched|
  {
    if sched != [] {
      StepKeepsInv(cfg, s, sched[0].0, sched[0].1);
      RunKeepsInv(cfg, Step(cfg, s, sched[0].0, sched[0].1), sched[1..]);
    }
  }

  // In every interleaving each (assembly, name) entry is written at most once, and once
  // written it never changes, however the run goes on.
  lemma EntriesWrittenOnce(cfg: Config, before: Schedule, after: Schedule)
    ensures var s := Run(cfg, INITIAL, before);
      var s' := Run(cfg, s, after);
      && Distinct(s'.writes)
      && (forall k :: k in s'.writes <==> k in s'.types)
      && (forall k :: k in s.types ==> k in s'.types && s'.types[k] == s.types[k])
  {
    RunKeepsInv(cfg, INITIAL, before);
    RunKeepsInv(cfg, Run(cfg, INITIAL, before), after);
  }

  // Two finished resolutions of the same name from the same assembly gave the same answer,
  // whichever threads ran them, nested or not, and whatever happened in between.
  lemma SameQuestionSameAnswer(cfg: Config, sched: Schedule, i: nat, j: nat)
    requires var log := Run(cfg, INITIAL, sched).log;
      i < |log| && j < |log| && log[i].asm == log[j].asm && log[i].name == log[j].name
    ensures var log := Run(cfg, INITIAL, sched).log; log[i].answer == log[j].answer
  {
    RunKeepsInv(cfg, INITIAL, sched);
    var s := Run(cfg, INITIAL, sched);
    var x, y := s.log[i], s.log[j];
    var top := if x.height < y.height then y.height else x.height;
    assert AnswerOk(cfg, s.types, x.asm, x.name, x.answer, x.height);
    assert AnswerOk(cfg, s.types, y.asm, y.name, y.answer, y.height);
    FuelSettles(cfg, x.asm, x.name, x.height, top);
    FuelSettles(cfg, y.asm, y.name, y.height, top);
  }

  // One Type object per (serving assembly, name): answers share an object exactly when they
  // name the same type of the same server, even when asked through different assemblies.
  lemma OneObjectPerOwnedType(cfg: Config, sched: Schedule, i: nat, j: nat)
    requires var log := Run(cfg, INITIAL, sched).log;
      i < |log| && j < |log| && log[i].answer.Hit? && log[j].answer.Hit?
    ensures var log := Run(cfg, INITIAL, sched).log;
      (log[i].answer.ref == log[j].answer.ref
       <==> log[i].answer.server == log[j].answer.server && log[i].name == log[j].name)
  {
    RunKeepsInv(cfg, INITIAL, sched);
    var s := Run(cfg, INITIAL, sched);
    assert AnswerOk(cfg, s.types, s.log[i].asm, s.log[i].name, s.log[i].answer, s.log[i].height);
    assert AnswerOk(cfg, s.types, s.log[j].asm, s.log[j].name, s.log[j].answer, s.log[j].height);
  }

  // The server an answer names is the one the fixed dependency graph and index determine: the
  // library, else the asked assembly, else the first dependency that can serve, else the index.
  lemma AnswersFollowTheGraph(cfg: Config, sched: Schedule, i: nat)
    requires i < |Run(cfg, INITIAL, sched).log|
    ensures var e := Run(cfg, INITIAL, sched).log[i];
      exists fuel :: ServerOf(cfg, e.asm, e.name, fuel) == (if e.answer.Hit? then e.answer.server else Nobody)
  {
    RunKeepsInv(cfg, INITIAL, sched);
    var s := Run(cfg, INITIAL, sched);
    assert AnswerOk(cfg, s.types, s.log[i].asm, s.log[i].name, s.log[i].answer, s.log[i].height);
  }
}
