// pickMethodOverload and what it scores with (assembly.go:304-810, 890-1139). Names of types are
// resolved by the metadata reader; here a parameter and an argument carry the resolved name.
module OverloadResolution {
  import opened Common

  datatype SigKind =
    | SigVoid | SigBoolean | SigChar | SigI1 | SigU1 | SigI2 | SigU2 | SigI4 | SigU4 | SigI8 | SigU8
    | SigR4 | SigR8 | SigI | SigU | SigString | SigObject | SigClass | SigValueType | SigSZArray
    | SigGenericInst | SigPointer | SigByRef | SigGenericParam | SigUnknown

  datatype Kind =
    | KindNull | KindI4 | KindI8 | KindR4 | KindR8 | KindString | KindBytes | KindObject | KindArray
    | KindRef | KindStruct | KindFunc

  datatype Param = Param(
    kind: SigKind,
    typeName: Option<string>,     // of a class, value type or generic instance, when it resolves
    isDelegate: bool,             // the named type derives directly from System.MulticastDelegate
    genericIndex: nat,
    genericOfMethod: bool)

  datatype Arg = Arg(
    kind: Kind,
    pointee: Option<Kind>,        // of a managed pointer
    typeName: Option<string>,     // of an object, struct or delegate, when it is known
    ancestors: set<string>)       // names an object's type, its bases and interfaces answer to

  datatype MethodSig = MethodSig(hasThis: bool, genericParams: nat, params: seq<Param>)

  // A row of the method table, with its signature if that parses.
  type Candidate = Option<MethodSig>

  datatype Pick = Picked(index: nat) | NotFound

  // The largest compressed unsigned integer (section II.23.2 of ECMA-335), which bounds the
  // parameter count of any signature.
  const MAX_PARAMS: nat := 0x1FFF_FFFF
  const MIN_INT: int := -0x8000_0000_0000_0000

  // ---------------------------------------------------------------- shape

  predicate Numeric(k: Kind) { k in {KindI4, KindI8, KindR4, KindR8} }

  predicate PrimitiveSig(k: SigKind) {
    k in {SigBoolean, SigChar, SigI1, SigU1, SigI2, SigU2, SigI4, SigU4, SigI, SigU, SigI8, SigU8, SigR4, SigR8}
  }

  predicate PairMismatch(p: Param, a: Arg) {
    || (a.kind == KindObject && (p.kind == SigValueType || PrimitiveSig(p.kind) || p.kind == SigSZArray))
    || (Numeric(a.kind) && (p.kind == SigClass || p.kind == SigString))
    || (a.kind == KindArray && p.kind == SigClass && ParamTypeName(p).Some? && p.isDelegate)
  }

  predicate SameGenericParam(p: Param, q: Param) {
    && p.kind == SigGenericParam && q.kind == SigGenericParam
    && p.genericIndex == q.genericIndex && p.genericOfMethod == q.genericOfMethod
  }

  // Some pair cannot be a real call, or one open type parameter meets two kinds of value.
  ghost predicate HardShapeMismatch(params: seq<Param>, args: seq<Arg>)
    requires |params| == |args|
  {
    || (exists i :: 0 <= i < |params| && PairMismatch(params[i], args[i]))
    || (exists i, j :: 0 <= i < j < |params| && SameGenericParam(params[i], params[j]) && args[i].kind != args[j].kind)
  }

  method HasHardShapeMismatch(params: seq<Param>, args: seq<Arg>) returns (b: bool)
    requires |params| == |args|
    ensures b <==> HardShapeMismatch(params, args)
  {
    for i := 0 to |params|
      invariant forall k :: 0 <= k < i ==> !PairMismatch(params[k], args[k])
    {
      if PairMismatch(params[i], args[i]) { return true; }
    }
    for i := 0 to |params|
      invariant forall k, j :: 0 <= k < i && k < j < |params| && SameGenericParam(params[k], params[j])
                  ==> args[k].kind == args[j].kind
    {
      for j := i + 1 to |params|
        invariant forall m :: i < m < j && SameGenericParam(params[i], params[m]) ==> args[i].kind == args[m].kind
      {
        if SameGenericParam(params[i], params[j]) && args[i].kind != args[j].kind { return true; }
      }
    }
    return false;
  }

  // ---------------------------------------------------------------- scores

  function ParamTypeName(p: Param): Option<string> {
    match p.kind
    case SigClass => p.typeName
    case SigValueType => p.typeName
    case SigGenericInst => p.typeName
    case SigChar => Some("System.Char")
    case SigBoolean => Some("System.Boolean")
    case _ => None
  }

  function Target(a: Arg): Kind { if a.kind == KindRef && a.pointee.Some? then a.pointee.value else a.kind }

  function RuntimeTypeName(a: Arg): Option<string> {
    match Target(a)
    case KindString => Some("System.String")
    case KindI4 => Some("System.Int32")
    case KindI8 => Some("System.Int64")
    case KindR4 => Some("System.Single")
    case KindR8 => Some("System.Double")
    case KindFunc => a.typeName
    case KindStruct => a.typeName
    case KindObject => a.typeName
    case _ => None
  }

  predicate AssignableTo(a: Arg, name: string) { Target(a) == KindObject && name in a.ancestors }

  function ScoreParamMatch(p: SigKind, a: Kind): int {
    match a
    case KindI4 =>
      if p == SigI4 then 10
      else if p in {SigBoolean, SigChar, SigI1, SigU1, SigI2, SigU2, SigU4} then 8
      else if p in {SigI8, SigU8, SigR4, SigR8} then 5
      else if p == SigValueType then 4
      else if p == SigObject then 2 else 0
    case KindI8 =>
      if p in {SigI8, SigU8} then 10 else if p in {SigR4, SigR8} then 5 else if p == SigObject then 2 else 0
    case KindR4 => if p == SigR4 then 10 else if p == SigR8 then 8 else if p == SigObject then 2 else 0
    case KindR8 => if p == SigR8 then 10 else if p == SigR4 then 6 else if p == SigObject then 2 else 0
    case KindString => if p == SigString then 10 else if p in {SigObject, SigClass} then 3 else 0
    case KindNull =>
      if p in {SigClass, SigString, SigSZArray, SigGenericInst} then 5 else if p == SigObject then 3 else 0
    case KindRef => if p == SigByRef then 10 else 1
    case KindObject => if p in {SigClass, SigObject, SigGenericInst} then 5 else 1
    case KindFunc => if p in {SigClass, SigObject, SigGenericInst} then 5 else 1
    case KindStruct => if p in {SigValueType, SigGenericInst} then 5 else 1
    case KindArray => if p == SigSZArray then 10 else if p == SigObject then 2 else 0
    case KindBytes => if p == SigSZArray then 10 else if p == SigObject then 2 else 0
  }

  // The call site names position j, and this candidate's parameter there has that name.
  predicate ExactAt(params: seq<Param>, names: seq<string>, j: nat)
    requires j < |params|
  {
    |params| == |names| && names[j] != "" && ParamTypeName(params[j]) == Some(names[j])
  }

  function Refinement(p: Param, a: Arg, unnamedAtCall: bool): int {
    match ParamTypeName(p)
    case Some(name) =>
      (match RuntimeTypeName(a)
       case Some(actual) => if actual == name then 50 else if AssignableTo(a, name) then 20 else -3
       case None => 0)
    case None => if unnamedAtCall then 6 else 0
  }

  function PositionScore(params: seq<Param>, args: seq<Arg>, names: seq<string>, j: nat): int
    requires |params| == |args| && j < |params|
  {
    ScoreParamMatch(params[j].kind, args[j].kind) +
    (if ExactAt(params, names, j) then 1000
     else Refinement(params[j], args[j], |params| == |names| && names[j] == ""))
  }

  function ScoreUpTo(params: seq<Param>, args: seq<Arg>, names: seq<string>, k: nat): int
    requires |params| == |args| && k <= |params|
  {
    if k == 0 then 0 else ScoreUpTo(params, args, names, k - 1) + PositionScore(params, args, names, k - 1)
  }

  function Score(params: seq<Param>, args: seq<Arg>, names: seq<string>): int
    requires |params| == |args|
  {
    ScoreUpTo(params, args, names, |params|)
  }

  function ExactUpTo(params: seq<Param>, names: seq<string>, k: nat): nat
    requires k <= |params|
  {
    if k == 0 then 0 else ExactUpTo(params, names, k - 1) + (if ExactAt(params, names, k - 1) then 1 else 0)
  }

  // How many parameters the call site names exactly.
  function Exact(params: seq<Param>, names: seq<string>): nat { ExactUpTo(params, names, |params|) }

  // ---------------------------------------------------------------- the choice

  function Declared(sig: MethodSig, args: seq<Arg>): seq<Arg> {
    if sig.hasThis && args != [] then args[1..] else args
  }

  predicate ArityMatches(c: Candidate, args: seq<Arg>) {
    c.Some? && |Declared(c.value, args)| == |c.value.params|
  }

  // Reached the shape check among several candidates.
  predicate Considered(c: Candidate, args: seq<Arg>, genericArgs: nat) {
    ArityMatches(c, args) && c.value.genericParams == genericArgs
  }

  ghost predicate Mismatched(c: Candidate, args: seq<Arg>)
    requires ArityMatches(c, args)
  {
    HardShapeMismatch(c.value.params, Declared(c.value, args))
  }

  ghost predicate Eligible(c: Candidate, args: seq<Arg>, genericArgs: nat) {
    Considered(c, args, genericArgs) && !Mismatched(c, args)
  }

  function CandidateScore(c: Candidate, args: seq<Arg>, names: seq<string>): int
    requires ArityMatches(c, args)
  {
    Score(c.value.params, Declared(c.value, args), names)
  }

  ghost function Rating(c: Candidate, args: seq<Arg>, names: seq<string>, genericArgs: nat): Option<int> {
    if Eligible(c, args, genericArgs) then Some(CandidateScore(c, args, names)) else None
  }

  // Each candidate's score, if it is eligible.
  ghost function Scores(cs: seq<Candidate>, args: seq<Arg>, names: seq<string>, genericArgs: nat): (r: seq<Option<int>>)
    ensures |r| == |cs|
  {
    if cs == [] then []
    else Scores(cs[..|cs| - 1], args, names, genericArgs) + [Rating(cs[|cs| - 1], args, names, genericArgs)]
  }

  lemma {:induction false} ScoreOfEach(cs: seq<Candidate>, args: seq<Arg>, names: seq<string>, genericArgs: nat, i: nat)
    requires i < |cs|
    ensures Scores(cs, args, names, genericArgs)[i] == Rating(cs[i], args, names, genericArgs)
  {
    if i < |cs| - 1 { ScoreOfEach(cs[..|cs| - 1], args, names, genericArgs, i); }
  }

  // Among the first n, none scores higher than i, and none before i as high.
  ghost predicate FirstBest(scores: seq<Option<int>>, i: nat, n: nat)
    requires i < n <= |scores|
  {
    && scores[i].Some?
    && forall j :: 0 <= j < n && scores[j].Some? ==>
         scores[j].value <= scores[i].value && (j < i ==> scores[j].value < scores[i].value)
  }

  // A lone candidate is checked for arity and shape only. Among several: the first of the best
  // eligible ones; if there is none, an error when some candidate was rejected for its shape, and
  // the first row otherwise.
  ghost predicate IsPick(cs: seq<Candidate>, args: seq<Arg>, names: seq<string>, genericArgs: nat, r: Pick)
    requires cs != []
  {
    if |cs| == 1 then
      r == (if ArityMatches(cs[0], args) && !Mismatched(cs[0], args) then Picked(0) else NotFound)
    else if exists i :: 0 <= i < |cs| && Eligible(cs[i], args, genericArgs) then
      r.Picked? && r.index < |cs| && FirstBest(Scores(cs, args, names, genericArgs), r.index, |cs|)
    else
      r == (if exists i :: 0 <= i < |cs| && Considered(cs[i], args, genericArgs) then NotFound else Picked(0))
  }

  // The loop's best candidate among the first n; -1 and the smallest integer if there is none.
  ghost predicate BestSoFar(scores: seq<Option<int>>, n: nat, bestIdx: int, bestScore: int)
    requires n <= |scores|
  {
    if bestIdx < 0 then bestIdx == -1 && bestScore == MIN_INT && forall j :: 0 <= j < n ==> scores[j].None?
    else bestIdx < n && FirstBest(scores, bestIdx, n) && scores[bestIdx] == Some(bestScore)
  }

  ghost predicate Rejected(c: Candidate, args: seq<Arg>, genericArgs: nat) {
    Considered(c, args, genericArgs) && Mismatched(c, args)
  }

  // Which candidates reached the shape check and failed it.
  ghost function Rejections(cs: seq<Candidate>, args: seq<Arg>, genericArgs: nat): (r: seq<bool>)
    ensures |r| == |cs|
  {
    if cs == [] then []
    else Rejections(cs[..|cs| - 1], args, genericArgs) + [Rejected(cs[|cs| - 1], args, genericArgs)]
  }

  lemma {:induction false} RejectionOfEach(cs: seq<Candidate>, args: seq<Arg>, genericArgs: nat, i: nat)
    requires i < |cs|
    ensures Rejections(cs, args, genericArgs)[i] == Rejected(cs[i], args, genericArgs)
  {
    if i < |cs| - 1 { RejectionOfEach(cs[..|cs| - 1], args, genericArgs, i); }
  }

  method ScoreOf(params: seq<Param>, args: seq<Arg>, names: seq<string>) returns (score: int)
    requires |params| == |args| <= MAX_PARAMS
    ensures score == Score(params, args, names) && score > MIN_INT
  {
    score := 0;
    for j := 0 to |params|
      invariant score == ScoreUpTo(params, args, names, j)
    {
      score := score + PositionScore(params, args, names, j);
    }
    ScoreRange(params, args, names, |params|);
  }

  // The body of the loop: filters, the shape check, then the score.
  method Rate(c: Candidate, args: seq<Arg>, names: seq<string>, genericArgs: nat)
    returns (score: Option<int>, rejected: bool)
    requires c.Some? ==> |c.value.params| <= MAX_PARAMS
    ensures score == Rating(c, args, names, genericArgs) && rejected == Rejected(c, args, genericArgs)
    ensures score.Some? ==> score.value > MIN_INT
  {
    if !Considered(c, args, genericArgs) { return None, false; }
    var params, declared := c.value.params, Declared(c.value, args);
    var mismatch := HasHardShapeMismatch(params, declared);
    if mismatch { return None, true; }
    var total := ScoreOf(params, declared, names);
    return Some(total), false;
  }

  // The same, in the terms of the whole list of candidates.
  method RateAt(cs: seq<Candidate>, args: seq<Arg>, names: seq<string>, genericArgs: nat, i: nat)
    returns (score: Option<int>, rejected: bool)
    requires i < |cs| && (cs[i].Some? ==> |cs[i].value.params| <= MAX_PARAMS)
    ensures score == Scores(cs, args, names, genericArgs)[i] && rejected == Rejections(cs, args, genericArgs)[i]
    ensures score.Some? ==> score.value > MIN_INT
  {
    score, rejected := Rate(cs[i], args, names, genericArgs);
    ScoreOfEach(cs, args, names, genericArgs, i);
    RejectionOfEach(cs, args, genericArgs, i);
  }

  method BestOf(cs: seq<Candidate>, args: seq<Arg>, names: seq<string>, genericArgs: nat)
    returns (bestIdx: int, confirmedWrong: bool)
    requires forall i :: 0 <= i < |cs| && cs[i].Some? ==> |cs[i].value.params| <= MAX_PARAMS
    ensures exists bestScore :: BestSoFar(Scores(cs, args, names, genericArgs), |cs|, bestIdx, bestScore)
    ensures confirmedWrong <==> true in Rejections(cs, args, genericArgs)
  {
    ghost var scores, rejections := Scores(cs, args, names, genericArgs), Rejections(cs, args, genericArgs);
    var bestScore := MIN_INT;
    bestIdx, confirmedWrong := -1, false;
    for i := 0 to |cs|
      invariant BestSoFar(scores, i, bestIdx, bestScore)
      invariant confirmedWrong <==> true in rejections[..i]
    {
      var score, rejected := RateAt(cs, args, names, genericArgs, i);
      assert rejections[..i + 1] == rejections[..i] + [rejected];
      if rejected { confirmedWrong := true; }
      if score.Some? && score.value > bestScore {
        bestScore, bestIdx := score.value, i;
      }
    }
  }

  method PickMethodOverload(cs: seq<Candidate>, args: seq<Arg>, names: seq<string>, genericArgs: nat) returns (r: Pick)
    requires cs != []
    requires forall i :: 0 <= i < |cs| && cs[i].Some? ==> |cs[i].value.params| <= MAX_PARAMS
    ensures IsPick(cs, args, names, genericArgs, r)
  {
    if |cs| == 1 {
      if !ArityMatches(cs[0], args) { return NotFound; }
      var mismatch := HasHardShapeMismatch(cs[0].value.params, Declared(cs[0].value, args));
      return if mismatch then NotFound else Picked(0);
    }
    var bestIdx, confirmedWrong := BestOf(cs, args, names, genericArgs);
    ghost var scores, rejections := Scores(cs, args, names, genericArgs), Rejections(cs, args, genericArgs);
    forall i | 0 <= i < |cs|
      ensures scores[i].Some? <==> Eligible(cs[i], args, genericArgs)
      ensures Considered(cs[i], args, genericArgs) <==> scores[i].Some? || rejections[i]
    {
      ScoreOfEach(cs, args, names, genericArgs, i);
      RejectionOfEach(cs, args, genericArgs, i);
    }
    if bestIdx < 0 {
      return if confirmedWrong then NotFound else Picked(0);
    }
    return Picked(bestIdx);
  }

  // ---------------------------------------------------------------- exact names dominate

  lemma PositionRange(params: seq<Param>, args: seq<Arg>, names: seq<string>, j: nat)
    requires |params| == |args| && j < |params|
    ensures var s := PositionScore(params, args, names, j);
      if ExactAt(params, names, j) then 1000 <= s <= 1008 else -3 <= s <= 55
  {}

  lemma {:induction false} ScoreRange(params: seq<Param>, args: seq<Arg>, names: seq<string>, k: nat)
    requires |params| == |args| && k <= |params|
    ensures var e := ExactUpTo(params, names, k);
      e <= k && 1000 * e - 3 * (k - e) <= ScoreUpTo(params, args, names, k) <= 1008 * e + 55 * (k - e)
  {
    if k > 0 {
      ScoreRange(params, args, names, k - 1);
      PositionRange(params, args, names, k - 1);
    }
  }

  // Up to 17 parameters, more exact names always means a higher score, whatever else matches.
  lemma ExactNamesDominate(p: seq<Param>, a: seq<Arg>, q: seq<Param>, b: seq<Arg>, names: seq<string>)
    requires |p| == |a| <= 17 && |q| == |b| <= 17
    requires Exact(p, names) > Exact(q, names)
    ensures Score(p, a, names) > Score(q, b, names)
  {
    ScoreRange(p, a, names, |p|);
    ScoreRange(q, b, names, |q|);
  }

  // So the choice never has fewer exact names than another eligible candidate.
  lemma PickHasMostExactNames(
      cs: seq<Candidate>, args: seq<Arg>, names: seq<string>, genericArgs: nat, i: nat, j: nat)
    requires |cs| > 1 && IsPick(cs, args, names, genericArgs, Picked(i))
    requires j < |cs| && Eligible(cs[j], args, genericArgs)
    requires forall k :: 0 <= k < |cs| && cs[k].Some? ==> |cs[k].value.params| <= 17
    ensures i < |cs| && Eligible(cs[i], args, genericArgs)
    ensures Exact(cs[j].value.params, names) <= Exact(cs[i].value.params, names)
  {
    var scores := Scores(cs, args, names, genericArgs);
    assert FirstBest(scores, i, |cs|);
    ScoreOfEach(cs, args, names, genericArgs, i);
    ScoreOfEach(cs, args, names, genericArgs, j);
    assert scores[j].Some?;
    var p, q := cs[i].value.params, cs[j].value.params;
    if Exact(p, names) < Exact(q, names) {
      ExactNamesDominate(q, Declared(cs[j].value, args), p, Declared(cs[i].value, args), names);
    }
  }

  // Both parameter lists could be bound to the same arguments of one call.
  ghost predicate Rivals(p: seq<Param>, q: seq<Param>, args: seq<Arg>) {
    |p| == |q| == |args| && !HardShapeMismatch(p, args) && !HardShapeMismatch(q, args)
  }

  ghost predicate DominanceAt(arity: nat) {
    forall p, q, args, names :: Rivals(p, q, args) && |args| == arity && Exact(p, names) > Exact(q, names)
      ==> Score(p, args, names) > Score(q, args, names)
  }

  function Named(kind: SigKind, name: string): Param { Param(kind, Some(name), false, 0, false) }

  // A call that names its first parameter's type and none of the others': it passes an object of a
  // class derived from the one named, and structs. One candidate has that exact name and only poor
  // matches besides; the other has no exact name but the arguments' own types throughout.
  function Arguments(n: nat): seq<Arg> {
    seq(n, j => if j == 0 then Arg(KindObject, None, Some("Derived"), {"Derived", "Asked"})
                else Arg(KindStruct, None, Some("Actual"), {}))
  }

  function AskedNames(n: nat): seq<string> { seq(n, j => if j == 0 then "Asked" else "") }

  function Exactly(n: nat): seq<Param> {
    seq(n, j => if j == 0 then Named(SigClass, "Asked") else Named(SigClass, "Unrelated"))
  }

  function Actual(n: nat): seq<Param> {
    seq(n, j => if j == 0 then Named(SigClass, "Derived") else Named(SigValueType, "Actual"))
  }

  lemma RivalPositions(n: nat, j: nat)
    requires j < n
    ensures ExactAt(Exactly(n), AskedNames(n), j) <==> j == 0
    ensures !ExactAt(Actual(n), AskedNames(n), j)
    ensures PositionScore(Exactly(n), Arguments(n), AskedNames(n), j) == if j == 0 then 1005 else -2
    ensures PositionScore(Actual(n), Arguments(n), AskedNames(n), j) == 55
    ensures !PairMismatch(Exactly(n)[j], Arguments(n)[j]) && Exactly(n)[j].kind != SigGenericParam
    ensures !PairMismatch(Actual(n)[j], Arguments(n)[j]) && Actual(n)[j].kind != SigGenericParam
  {
    assert Exactly(n)[j] == if j == 0 then Named(SigClass, "Asked") else Named(SigClass, "Unrelated");
    assert Actual(n)[j] == if j == 0 then Named(SigClass, "Derived") else Named(SigValueType, "Actual");
  }

  lemma {:induction false} RivalScores(n: nat, k: nat)
    requires 0 < n && k <= n
    ensures ScoreUpTo(Exactly(n), Arguments(n), AskedNames(n), k) == (if k == 0 then 0 else 1005 - 2 * (k - 1))
    ensures ScoreUpTo(Actual(n), Arguments(n), AskedNames(n), k) == 55 * k
    ensures ExactUpTo(Exactly(n), AskedNames(n), k) == (if k == 0 then 0 else 1)
    ensures ExactUpTo(Actual(n), AskedNames(n), k) == 0
  {
    if k > 0 {
      RivalScores(n, k - 1);
      RivalPositions(n, k - 1);
    }
  }

  // The bonus is claimed to be beyond what other matches can reach; it is exactly up to 17
  // parameters, and for every larger arity two rival candidates show the opposite.
  lemma DominanceIffAtMost17(arity: nat)
    ensures DominanceAt(arity) <==> arity <= 17
  {
    if arity <= 17 {
      forall p, q, args, names | Rivals(p, q, args) && |args| == arity && Exact(p, names) > Exact(q, names)
        ensures Score(p, args, names) > Score(q, args, names)
      {
        ExactNamesDominate(p, args, q, args, names);
      }
    } else {
      var p, q, args, names := Exactly(arity), Actual(arity), Arguments(arity), AskedNames(arity);
      RivalScores(arity, arity);
      forall j | 0 <= j < arity
        ensures !PairMismatch(p[j], args[j]) && p[j].kind != SigGenericParam
        ensures !PairMismatch(q[j], args[j]) && q[j].kind != SigGenericParam
      {
        RivalPositions(arity, j);
      }
      assert Rivals(p, q, args);
      assert Exact(p, names) > Exact(q, names) && Score(p, args, names) < Score(q, args, names);
    }
  }
}
