// What the scores and the filters of overload resolution prefer and refuse, without the numbers
// (assembly.go:352-549, 629-774, 890-1139).
module OverloadPreferences {
  import opened Common
  import opened OverloadResolution

  // ---------------------------------------------------------------- kinds

  const INTEGERS: set<SigKind> := {SigBoolean, SigChar, SigI1, SigU1, SigI2, SigU2, SigI4, SigU4}

  // The parameter kinds an argument is best passed to.
  predicate Own(k: Kind, p: SigKind) {
    match k
    case KindI4 => p == SigI4
    case KindI8 => p == SigI8 || p == SigU8
    case KindR4 => p == SigR4
    case KindR8 => p == SigR8
    case KindString => p == SigString
    case KindArray => p == SigSZArray
    case KindBytes => p == SigSZArray
    case KindRef => p == SigByRef
    case KindObject => p == SigClass || p == SigObject || p == SigGenericInst
    case KindFunc => p == SigClass || p == SigObject || p == SigGenericInst
    case KindStruct => p == SigValueType || p == SigGenericInst
    case KindNull => p == SigClass || p == SigString || p == SigSZArray || p == SigGenericInst
  }

  // How far a parameter kind is from an argument: 0 for its own, then what it can be widened or
  // otherwise converted to, 4 for object, which takes anything, and 5 for what is unrelated.
  function Distance(k: Kind, p: SigKind): nat {
    if Own(k, p) then 0
    else match k
      case KindI4 =>
        if p in INTEGERS then 1
        else if p in {SigI8, SigU8, SigR4, SigR8} then 2
        else if p == SigValueType then 3
        else if p == SigObject then 4 else 5
      case KindI8 => if p in {SigR4, SigR8} then 2 else if p == SigObject then 4 else 5
      case KindR4 => if p == SigR8 then 2 else if p == SigObject then 4 else 5
      case KindR8 => if p == SigR4 then 2 else if p == SigObject then 4 else 5
      case KindString => if p == SigObject || p == SigClass then 4 else 5
      case KindArray => if p == SigObject then 4 else 5
      case KindBytes => if p == SigObject then 4 else 5
      case KindNull => if p == SigObject then 4 else 5
      case _ => 5
  }

  // The score falls with the distance, strictly, and depends on nothing else.
  lemma CloserScoresHigher(k: Kind, p: SigKind, q: SigKind)
    ensures ScoreParamMatch(p, k) > ScoreParamMatch(q, k) <==> Distance(k, p) < Distance(k, q)
  {
    ScoreAtDistance(k, p);
    ScoreAtDistance(k, q);
    ScoreFalls(k, Distance(k, p), Distance(k, q));
  }

  // The score at each distance that occurs.
  function ScoreAt(k: Kind, distance: nat): int {
    match distance
    case 0 => if k in {KindNull, KindObject, KindFunc, KindStruct} then 5 else 10
    case 1 => 8
    case 2 => if k == KindR4 then 8 else if k == KindR8 then 6 else 5
    case 3 => 4
    case 4 => if k in {KindString, KindNull} then 3 else 2
    case _ => if k in {KindRef, KindObject, KindFunc, KindStruct} then 1 else 0
  }

  lemma ScoreAtDistance(k: Kind, p: SigKind)
    ensures ScoreParamMatch(p, k) == ScoreAt(k, Distance(k, p))
    ensures Distance(k, p) <= 5 && (Distance(k, p) in {1, 3} ==> k == KindI4)
    ensures Distance(k, p) == 2 ==> k in {KindI4, KindI8, KindR4, KindR8}
    ensures Distance(k, p) == 4 ==> k !in {KindRef, KindObject, KindFunc, KindStruct}
  {
    if Numeric(k) { NumberAtDistance(k, p); } else { OtherAtDistance(k, p); }
  }

  lemma NumberAtDistance(k: Kind, p: SigKind)
    requires Numeric(k)
    ensures ScoreParamMatch(p, k) == ScoreAt(k, Distance(k, p))
    ensures Distance(k, p) <= 5 && (Distance(k, p) in {1, 3} ==> k == KindI4)
  {}

  lemma OtherAtDistance(k: Kind, p: SigKind)
    requires !Numeric(k)
    ensures ScoreParamMatch(p, k) == ScoreAt(k, Distance(k, p))
    ensures Distance(k, p) in {0, 4, 5}
    ensures Distance(k, p) == 4 ==> k !in {KindRef, KindObject, KindFunc, KindStruct}
  {}

  lemma ScoreFalls(k: Kind, d: nat, e: nat)
    requires d <= 5 && (d in {1, 3} ==> k == KindI4) && (d == 2 ==> k in {KindI4, KindI8, KindR4, KindR8})
    requires d == 4 ==> k !in {KindRef, KindObject, KindFunc, KindStruct}
    requires e <= 5 && (e in {1, 3} ==> k == KindI4) && (e == 2 ==> k in {KindI4, KindI8, KindR4, KindR8})
    requires e == 4 ==> k !in {KindRef, KindObject, KindFunc, KindStruct}
    ensures ScoreAt(k, d) > ScoreAt(k, e) <==> d < e
  {}

  // ---------------------------------------------------------------- names

  // The type the call site names beats the argument's own type, which beats a base or an interface of
  // it, which beats an unrelated type, whatever the kinds of the parameters.
  lemma NamesScore(
      p: seq<Param>, q: seq<Param>, args: seq<Arg>, names: seq<string>, j: nat, actual: string)
    requires |p| == |q| == |args| && j < |args| && RuntimeTypeName(args[j]) == Some(actual)
    requires ParamTypeName(p[j]).Some? && ParamTypeName(q[j]).Some?
    ensures ExactAt(p, names, j) && !ExactAt(q, names, j) ==>
      PositionScore(p, args, names, j) > PositionScore(q, args, names, j)
    ensures !ExactAt(p, names, j) && !ExactAt(q, names, j) && ParamTypeName(q[j]) != Some(actual) ==>
      && (ParamTypeName(p[j]) == Some(actual) ==>
            PositionScore(p, args, names, j) > PositionScore(q, args, names, j))
      && (args[j].kind == KindObject && ParamTypeName(p[j]).value in args[j].ancestors
            && ParamTypeName(q[j]).value !in args[j].ancestors ==>
            PositionScore(p, args, names, j) > PositionScore(q, args, names, j))
  {}

  // What a name adds to the score of the kinds.
  lemma NameBonus(params: seq<Param>, args: seq<Arg>, names: seq<string>, j: nat)
    requires |params| == |args| && j < |params|
    ensures var p, a := params[j], args[j];
      var bonus := PositionScore(params, args, names, j) - ScoreParamMatch(p.kind, a.kind);
      if ExactAt(params, names, j) then bonus == 1000
      else match (ParamTypeName(p), RuntimeTypeName(a))
        case (Some(name), Some(actual)) =>
          (name == actual ==> bonus == 50)
          && (name != actual && AssignableTo(a, name) ==> bonus == 20)
          && (name != actual && !AssignableTo(a, name) ==> bonus == -3)
        case (Some(_), None) => bonus == 0
        case (None, _) => bonus == if |names| == |params| && names[j] == "" then 6 else 0
  {}

  // A null goes to the parameter without a name where the call site has none, such as object, before
  // a class.
  lemma NullPrefersUnnamed(p: seq<Param>, q: seq<Param>, args: seq<Arg>, names: seq<string>, j: nat)
    requires |p| == |q| == |args| == |names| && j < |args| && args[j].kind == KindNull && names[j] == ""
    requires p[j].kind == SigObject && q[j].kind == SigClass && q[j].typeName.Some?
    ensures PositionScore(p, args, names, j) > PositionScore(q, args, names, j)
  {}

  // Which parameters have a name to compare: those of named types by it, characters and truth values by
  // the library's, no others.
  lemma NamedParameters(p: Param)
    ensures p.kind in {SigClass, SigValueType, SigGenericInst} ==> ParamTypeName(p) == p.typeName
    ensures ParamTypeName(p) == Some("System.Char") <==>
      p.kind == SigChar || (p.kind in {SigClass, SigValueType, SigGenericInst} && p.typeName == Some("System.Char"))
    ensures ParamTypeName(p) == Some("System.Boolean") <==>
      p.kind == SigBoolean ||
      (p.kind in {SigClass, SigValueType, SigGenericInst} && p.typeName == Some("System.Boolean"))
    ensures p.kind !in {SigClass, SigValueType, SigGenericInst, SigChar, SigBoolean} ==> ParamTypeName(p).None?
  {}

  // A pointer is named by what it points to; a library value by the library, others by themselves.
  lemma NamedArguments(a: Arg, b: Arg)
    ensures a.kind == KindRef && a.pointee == Some(b.kind) && b.kind != KindRef && a.typeName == b.typeName ==>
      RuntimeTypeName(a) == RuntimeTypeName(b)
    ensures a.kind in {KindObject, KindStruct, KindFunc} ==> RuntimeTypeName(a) == a.typeName
    ensures a.kind in {KindNull, KindArray, KindBytes} ==> RuntimeTypeName(a).None?
    ensures a.kind == KindObject ==> forall name :: AssignableTo(a, name) <==> name in a.ancestors
    ensures a.kind !in {KindObject, KindRef} ==> forall name :: !AssignableTo(a, name)
    ensures a.kind == KindString ==> RuntimeTypeName(a) == Some("System.String")
    ensures a.kind == KindI4 ==> RuntimeTypeName(a) == Some("System.Int32")
    ensures a.kind == KindI8 ==> RuntimeTypeName(a) == Some("System.Int64")
    ensures a.kind == KindR4 ==> RuntimeTypeName(a) == Some("System.Single")
    ensures a.kind == KindR8 ==> RuntimeTypeName(a) == Some("System.Double")
  {}

  // ---------------------------------------------------------------- what is refused

  // An object is refused by value types, the primitive ones included, and by arrays; a number by
  // classes and strings; an array by delegates; nothing else is refused.
  lemma RefusedPairs(p: Param, a: Arg)
    ensures a.kind == KindObject ==>
      (PairMismatch(p, a) <==> p.kind in INTEGERS + {SigI8, SigU8, SigR4, SigR8, SigI, SigU, SigValueType, SigSZArray})
    ensures a.kind in {KindI4, KindI8, KindR4, KindR8} ==> (PairMismatch(p, a) <==> p.kind in {SigClass, SigString})
    ensures a.kind == KindArray ==> (PairMismatch(p, a) <==> p.kind == SigClass && p.typeName.Some? && p.isDelegate)
    ensures a.kind in {KindNull, KindString, KindBytes, KindRef, KindStruct, KindFunc} ==> !PairMismatch(p, a)
  {}

  // An argument is never refused by a parameter of its own kind, other than an array's delegate.
  lemma OwnKindIsNotRefused(p: Param, a: Arg)
    requires Own(a.kind, p.kind)
    ensures !PairMismatch(p, a)
  {}

  // Two arguments of different kinds are refused exactly for one and the same type parameter.
  lemma RefusedForOneTypeParameter(p: Param, q: Param, a: Arg, b: Arg)
    requires !PairMismatch(p, a) && !PairMismatch(q, b) && a.kind != b.kind
    ensures HardShapeMismatch([p, q], [a, b]) <==>
      && p.kind == SigGenericParam && q.kind == SigGenericParam
      && (p.genericIndex, p.genericOfMethod) == (q.genericIndex, q.genericOfMethod)
  {
    var params, args := [p, q], [a, b];
    assert forall i :: 0 <= i < 2 ==> !PairMismatch(params[i], args[i]);
    if SameGenericParam(p, q) { assert SameGenericParam(params[0], params[1]) && args[0].kind != args[1].kind; }
  }

  // The receiver is not one of the declared arguments.
  lemma ReceiverIsNotDeclared(sig: MethodSig, receiver: Arg, args: seq<Arg>)
    ensures Declared(sig, [receiver] + args) == if sig.hasThis then args else [receiver] + args
    ensures Declared(sig, []) == []
  {
    assert ([receiver] + args)[1..] == args;
  }

  // Among several candidates one is eligible that parses, has as many type parameters as the call gives
  // type arguments and as many parameters as it passes arguments, the receiver aside, and is not refused.
  lemma EligibleIff(c: Candidate, args: seq<Arg>, genericArgs: nat)
    ensures Eligible(c, args, genericArgs) <==>
      && c.Some? && c.value.genericParams == genericArgs
      && |c.value.params| == (if c.value.hasThis && args != [] then |args| - 1 else |args|)
      && !HardShapeMismatch(c.value.params, if c.value.hasThis && args != [] then args[1..] else args)
  {}

  // ---------------------------------------------------------------- the choice

  function Sum(xs: seq<int>, k: nat): int
    requires k <= |xs|
  {
    if k == 0 then 0 else Sum(xs, k - 1) + xs[k - 1]
  }

  lemma {:induction false} SumsDiffer(xs: seq<int>, ys: seq<int>, pos: nat, k: nat)
    requires |xs| == |ys| && pos < |xs| && k <= |xs|
    requires forall j :: 0 <= j < |xs| && j != pos ==> xs[j] == ys[j]
    ensures Sum(xs, k) - Sum(ys, k) == if pos < k then xs[pos] - ys[pos] else 0
  {
    if k > 0 { SumsDiffer(xs, ys, pos, k - 1); }
  }

  // The scores of the first k positions.
  function Positions(params: seq<Param>, args: seq<Arg>, names: seq<string>, k: nat): (xs: seq<int>)
    requires |params| == |args| && k <= |params|
    ensures |xs| == k
  {
    if k == 0 then [] else Positions(params, args, names, k - 1) + [PositionScore(params, args, names, k - 1)]
  }

  lemma {:induction false} PositionsAt(params: seq<Param>, args: seq<Arg>, names: seq<string>, k: nat, j: nat)
    requires |params| == |args| && j < k <= |params|
    ensures Positions(params, args, names, k)[j] == PositionScore(params, args, names, j)
  {
    if j < k - 1 { PositionsAt(params, args, names, k - 1, j); }
  }

  lemma {:induction false} ScoreIsSum(params: seq<Param>, args: seq<Arg>, names: seq<string>, k: nat)
    requires |params| == |args| && k <= |params|
    ensures ScoreUpTo(params, args, names, k) == Sum(Positions(params, args, names, k), k)
  {
    if k > 0 {
      ScoreIsSum(params, args, names, k - 1);
      SumOfInit(Positions(params, args, names, k - 1), PositionScore(params, args, names, k - 1), k - 1);
    }
  }

  lemma {:induction false} SumOfInit(xs: seq<int>, x: int, k: nat)
    requires k <= |xs|
    ensures Sum(xs + [x], k) == Sum(xs, k)
  {
    if k > 0 { SumOfInit(xs, x, k - 1); }
  }

  lemma SamePosition(p: seq<Param>, q: seq<Param>, args: seq<Arg>, names: seq<string>, j: nat)
    requires |p| == |q| == |args| && j < |args| && p[j] == q[j]
    ensures PositionScore(p, args, names, j) == PositionScore(q, args, names, j)
  {}

  // Lists that differ at one position differ in score by what they differ in there.
  lemma ScoresDiffer(p: seq<Param>, q: seq<Param>, args: seq<Arg>, names: seq<string>, pos: nat)
    requires |p| == |q| == |args| && pos < |args|
    requires forall j :: 0 <= j < |args| && j != pos ==> p[j] == q[j]
    ensures Score(p, args, names) - Score(q, args, names)
         == PositionScore(p, args, names, pos) - PositionScore(q, args, names, pos)
  {
    var xs, ys := Positions(p, args, names, |p|), Positions(q, args, names, |q|);
    ScoreIsSum(p, args, names, |p|);
    ScoreIsSum(q, args, names, |q|);
    forall j | 0 <= j < |args| && j != pos ensures xs[j] == ys[j] {
      PositionsAt(p, args, names, |p|, j);
      PositionsAt(q, args, names, |q|, j);
      SamePosition(p, q, args, names, j);
    }
    PositionsAt(p, args, names, |p|, pos);
    PositionsAt(q, args, names, |q|, pos);
    SumsDiffer(xs, ys, pos, |p|);
  }

  // Two candidates that could be the same call but for one position.
  ghost predicate DifferAt(c: Candidate, d: Candidate, args: seq<Arg>, pos: nat)
    requires ArityMatches(c, args) && ArityMatches(d, args)
  {
    && c.value.hasThis == d.value.hasThis && pos < |c.value.params|
    && forall j :: 0 <= j < |c.value.params| && j != pos ==> c.value.params[j] == d.value.params[j]
  }

  // The i-th candidate was chosen though the j-th was eligible too, and they differ at one position only.
  ghost predicate ChosenOver(
      cs: seq<Candidate>, args: seq<Arg>, names: seq<string>, genericArgs: nat, i: nat, j: nat, pos: nat)
  {
    && |cs| > 1 && i < |cs| && j < |cs|
    && IsPick(cs, args, names, genericArgs, Picked(i))
    && Eligible(cs[i], args, genericArgs) && Eligible(cs[j], args, genericArgs)
    && DifferAt(cs[i], cs[j], args, pos)
  }

  // Then it does not score lower there.
  lemma PickIsBestWhereTheyDiffer(
      cs: seq<Candidate>, args: seq<Arg>, names: seq<string>, genericArgs: nat, i: nat, j: nat, pos: nat)
    ensures ChosenOver(cs, args, names, genericArgs, i, j, pos) ==>
      var p, q, declared := cs[i].value.params, cs[j].value.params, Declared(cs[i].value, args);
      PositionScore(p, declared, names, pos) >= PositionScore(q, declared, names, pos)
  {
    if ChosenOver(cs, args, names, genericArgs, i, j, pos) {
      ScoresDiffer(cs[i].value.params, cs[j].value.params, Declared(cs[i].value, args), names, pos);
      assert FirstBest(Scores(cs, args, names, genericArgs), i, |cs|);
      ScoreOfEach(cs, args, names, genericArgs, i);
      ScoreOfEach(cs, args, names, genericArgs, j);
      assert Scores(cs, args, names, genericArgs)[j].Some?;
    }
  }

  lemma NamelessScores(p: seq<Param>, q: seq<Param>, args: seq<Arg>, names: seq<string>, j: nat)
    requires |p| == |q| == |args| && j < |args| && ParamTypeName(p[j]).None? && ParamTypeName(q[j]).None?
    ensures PositionScore(p, args, names, j) - PositionScore(q, args, names, j)
         == ScoreParamMatch(p[j].kind, args[j].kind) - ScoreParamMatch(q[j].kind, args[j].kind)
  {}

  // So where neither has a name at that position, the choice takes the argument at its own kind if the
  // other does.
  lemma PickTakesOwnKind(
      cs: seq<Candidate>, args: seq<Arg>, names: seq<string>, genericArgs: nat, i: nat, j: nat, pos: nat)
    ensures ChosenOver(cs, args, names, genericArgs, i, j, pos) ==>
      var p, q, k := cs[i].value.params[pos], cs[j].value.params[pos], Declared(cs[i].value, args)[pos].kind;
      ParamTypeName(p).None? && ParamTypeName(q).None? && Own(k, q.kind) ==> Own(k, p.kind)
  {
    if ChosenOver(cs, args, names, genericArgs, i, j, pos) {
      var p, q, declared := cs[i].value.params, cs[j].value.params, Declared(cs[i].value, args);
      if ParamTypeName(p[pos]).None? && ParamTypeName(q[pos]).None? {
        PickIsBestWhereTheyDiffer(cs, args, names, genericArgs, i, j, pos);
        NamelessScores(p, q, declared, names, pos);
        CloserScoresHigher(declared[pos].kind, q[pos].kind, p[pos].kind);
      }
    }
  }

  // And where both have names other than the call site's, it takes the argument at its own type if the
  // other does.
  lemma PickTakesOwnType(
      cs: seq<Candidate>, args: seq<Arg>, names: seq<string>, genericArgs: nat, i: nat, j: nat, pos: nat)
    ensures ChosenOver(cs, args, names, genericArgs, i, j, pos) ==>
      var p, q, actual := cs[i].value.params, cs[j].value.params, RuntimeTypeName(Declared(cs[i].value, args)[pos]);
      !ExactAt(p, names, pos) && !ExactAt(q, names, pos) && ParamTypeName(p[pos]).Some? && actual.Some? ==>
        (ParamTypeName(q[pos]) == actual ==> ParamTypeName(p[pos]) == actual)
  {
    if ChosenOver(cs, args, names, genericArgs, i, j, pos) {
      var p, q, declared := cs[i].value.params, cs[j].value.params, Declared(cs[i].value, args);
      var actual := RuntimeTypeName(declared[pos]);
      if ParamTypeName(p[pos]).Some? && actual.Some? && ParamTypeName(q[pos]) == actual {
        PickIsBestWhereTheyDiffer(cs, args, names, genericArgs, i, j, pos);
        NamesScore(q, p, declared, names, pos, actual.value);
      }
    }
  }

  // For one: called with a float, a method with a float parameter is taken over one with a double.
  lemma FloatOverDouble(d: Param, f: Param, rest: Arg, r: Pick)
    requires d.kind == SigR8 && f.kind == SigR4 && rest.kind == KindR4
    requires IsPick([Some(MethodSig(false, 0, [d])), Some(MethodSig(false, 0, [f]))], [rest], [""], 0, r)
    ensures r == Picked(1)
  {
    var cs := [Some(MethodSig(false, 0, [d])), Some(MethodSig(false, 0, [f]))];
    assert Eligible(cs[0], [rest], 0) && Eligible(cs[1], [rest], 0);
    if r == Picked(0) {
      assert DifferAt(cs[0], cs[1], [rest], 0);
      PickTakesOwnKind(cs, [rest], [""], 0, 0, 1, 0);
    }
  }
}
