// Cancellation sources and the tokens linked from them
// (internal/bcl/system_cancellationtoken.go:49-72, 134-215).
module Cancellation {
  class CancelState {
    var cancelled: bool
    const linked: seq<CancelState>
    ghost const rank: nat             // later than every state it is linked to

    constructor (linked: seq<CancelState>, cancelled: bool)
      requires forall l :: l in linked ==> l.Ranked()
      ensures Ranked() && this.linked == linked && this.cancelled == cancelled
    {
      this.linked, this.cancelled := linked, cancelled;
      rank := RankAbove(linked);
      new;
      RanksBelow(linked);
    }

    // Links lead to earlier states only.
    ghost predicate Ranked()
      decreases rank
    {
      forall l :: l in linked ==> l.rank < rank && l.Ranked()
    }

    // This state and everything its links lead to.
    ghost function Sources(): (r: set<CancelState>)
      requires Ranked()
      ensures this in r
      decreases rank
    {
      {this} + set l, x | l in linked && x in l.Sources() :: x
    }

    // isRequested: this flag, or a walk over the links.
    predicate Requested()
      requires Ranked()
      reads Sources()
      decreases rank
    {
      cancelled || exists l :: l in linked && l.Requested()
    }

    // Sets one flag: of all states, exactly those that lead here become requested, and none that
    // was requested stops being so.
    method Cancel(ghost all: set<CancelState>)
      requires Ranked() && forall s :: s in all ==> s.Ranked()
      modifies this
      ensures cancelled
      ensures forall s :: s in all ==> (s.Requested() <==> old(s.Requested()) || this in s.Sources())
    {
      forall s | s in all ensures s.Requested() <==> exists x :: x in s.Sources() && x.cancelled {
        RequestedIffSourceCancelled(s);
      }
      cancelled := true;
      forall s | s in all ensures s.Requested() <==> old(s.Requested()) || this in s.Sources() {
        RequestedIffSourceCancelled(s);
        assert forall x :: x in s.Sources() && x != this ==> x.cancelled == old(x.cancelled);
      }
    }
  }

  ghost function RankAbove(linked: seq<CancelState>): nat {
    if linked == [] then 0
    else
      var rest := RankAbove(linked[1..]);
      if linked[0].rank < rest then rest else linked[0].rank + 1
  }

  lemma {:induction false} RanksBelow(linked: seq<CancelState>)
    ensures forall l :: l in linked ==> l.rank < RankAbove(linked)
  {
    if linked != [] {
      RanksBelow(linked[1..]);
      assert linked == [linked[0]] + linked[1..];
    }
  }

  // A token reads the state behind it; one without a state is never requested.
  method TokenIsRequested(state: CancelState?) returns (b: bool)
    requires state != null ==> state.Ranked()
    ensures b <==> state != null && state.Requested()
  {
    if state == null { return false; }
    b := state.Requested();
  }

  // The states behind tokens that have one, in order.
  function Behind(tokens: seq<CancelState?>): seq<CancelState> {
    if tokens == [] then []
    else if tokens[0] == null then Behind(tokens[1..])
    else [tokens[0]] + Behind(tokens[1..])
  }

  lemma {:induction false} BehindKeepsStates(tokens: seq<CancelState?>, s: CancelState)
    ensures s in Behind(tokens) <==> s in tokens
  {
    if tokens != [] {
      BehindKeepsStates(tokens[1..], s);
      assert tokens == [tokens[0]] + tokens[1..];
    }
  }

  lemma BehindNext(tokens: seq<CancelState?>, i: nat, linked: seq<CancelState>)
    requires i < |tokens|
    ensures var next := if tokens[i] == null then linked else linked + [tokens[i]];
      next + Behind(tokens[i + 1..]) == linked + Behind(tokens[i..])
  {
    assert tokens[i..][1..] == tokens[i + 1..];
  }

  // A linked source is requested from the start exactly when one of the tokens is.
  method CreateLinkedTokenSource(tokens: seq<CancelState?>) returns (s: CancelState)
    requires forall t :: t in tokens && t != null ==> t.Ranked()
    ensures fresh(s) && s.Ranked() && s.linked == Behind(tokens) && !s.cancelled
    ensures s.Requested() <==> exists t :: t in tokens && t != null && t.Requested()
  {
    var linked: seq<CancelState> := [];
    for i := 0 to |tokens|
      invariant linked + Behind(tokens[i..]) == Behind(tokens)
    {
      BehindNext(tokens, i, linked);
      if tokens[i] != null { linked := linked + [tokens[i]]; }
    }
    assert linked == Behind(tokens);
    forall t: CancelState ensures t in linked <==> t in tokens { BehindKeepsStates(tokens, t); }
    s := new CancelState(linked, false);
  }

  // Requested means that some state reachable over links was cancelled.
  lemma {:induction false} RequestedIffSourceCancelled(s: CancelState)
    requires s.Ranked()
    ensures s.Requested() <==> exists x :: x in s.Sources() && x.cancelled
    decreases s.rank
  {
    forall l | l in s.linked ensures l.Requested() <==> exists x :: x in l.Sources() && x.cancelled {
      RequestedIffSourceCancelled(l);
    }
    if l :| l in s.linked && l.Requested() {
      var x :| x in l.Sources() && x.cancelled;
      assert x in s.Sources();
    }
  }

  ghost predicate LinkPath(p: seq<CancelState>) {
    p != [] && forall i :: 0 <= i < |p| - 1 ==> p[i + 1] in p[i].linked
  }

  // A path of links leads to a source only, and every source has a path leading to it.
  lemma {:induction false} PathStaysInSources(p: seq<CancelState>)
    requires LinkPath(p) && p[0].Ranked()
    ensures p[|p| - 1] in p[0].Sources()
  {
    if |p| > 1 {
      assert p[1] in p[0].linked;
      assert LinkPath(p[1..]) by {
        assert forall i :: 0 <= i < |p| - 2 ==> p[1..][i] == p[i + 1] && p[i + 2] in p[i + 1].linked;
      }
      PathStaysInSources(p[1..]);
    }
  }

  lemma {:induction false} SourceHasPath(s: CancelState, x: CancelState) returns (p: seq<CancelState>)
    requires s.Ranked() && x in s.Sources()
    ensures LinkPath(p) && p[0] == s && p[|p| - 1] == x
    decreases s.rank
  {
    if x == s { return [s]; }
    var l :| l in s.linked && x in l.Sources();
    var rest := SourceHasPath(l, x);
    p := [s] + rest;
    assert forall i :: 0 < i < |p| - 1 ==> p[i] == rest[i - 1] && rest[i] in rest[i - 1].linked;
  }

  // Upstream states never have a state derived from them among their sources, so cancelling a
  // source does not touch what it was derived from.
  lemma {:induction false} SourcesAreEarlier(s: CancelState, x: CancelState)
    requires s.Ranked() && x in s.Sources()
    ensures x.Ranked() && x.rank <= s.rank && (x != s ==> x.rank < s.rank && s !in x.Sources())
    decreases s.rank
  {
    if x != s {
      var l :| l in s.linked && x in l.Sources();
      SourcesAreEarlier(l, x);
      if s in x.Sources() { SourcesAreEarlier(x, s); }
    }
  }
}
