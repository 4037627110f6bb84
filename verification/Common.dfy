// Small datatypes shared by the other modules.
module Common {
  datatype Option<+T> = None | Some(value: T)

  datatype Result<+T, +E> = Ok(value: T) | Err(error: E)

  // No element occurs twice.
  ghost predicate Distinct<T>(s: seq<T>) {
    forall i, j :: 0 <= i < j < |s| ==> s[i] != s[j]
  }

  ghost function Elements<T>(s: seq<T>): set<T> {
    set x | x in s
  }

  // The sequence without the element at index i.
  function WithoutIndex<T>(s: seq<T>, i: nat): seq<T>
    requires i < |s|
  {
    s[..i] + s[i + 1..]
  }

  // The sequence with x inserted before index i.
  function WithInserted<T>(s: seq<T>, i: nat, x: T): seq<T>
    requires i <= |s|
  {
    s[..i] + [x] + s[i..]
  }

  lemma DistinctCardinality<T>(s: seq<T>)
    requires Distinct(s)
    ensures |Elements(s)| == |s|
  {
    if s == [] {
      assert Elements(s) == {};
    } else {
      var init, last := s[..|s| - 1], s[|s| - 1];
      assert Elements(s) == Elements(init) + {last};
      assert last !in init;
      DistinctCardinality(init);
    }
  }

  lemma WithoutIndexElements<T>(s: seq<T>, i: nat)
    requires i < |s| && Distinct(s)
    ensures Distinct(WithoutIndex(s, i))
    ensures Elements(WithoutIndex(s, i)) == Elements(s) - {s[i]}
  {
    var r := WithoutIndex(s, i);
    forall x ensures x in r <==> x in s && x != s[i] {
      if x in s && x != s[i] {
        var k :| 0 <= k < |s| && s[k] == x;
        if k < i { assert r[k] == x; } else { assert r[k - 1] == x; }
      }
    }
  }

  lemma WithInsertedElements<T>(s: seq<T>, i: nat, x: T)
    requires i <= |s| && Distinct(s) && x !in s
    ensures Distinct(WithInserted(s, i, x))
    ensures Elements(WithInserted(s, i, x)) == Elements(s) + {x}
  {
    var r := WithInserted(s, i, x);
    assert r[i] == x;
    forall y ensures y in r <==> y in s || y == x {
      if y in s {
        var k :| 0 <= k < |s| && s[k] == y;
        if k < i { assert r[k] == y; } else { assert r[k + 1] == y; }
      }
    }
  }

  lemma ConcatAssociates<T>(a: seq<T>, b: seq<T>, c: seq<T>)
    ensures (a + b) + c == a + (b + c)
  {}

  lemma SliceSplits<T>(s: seq<T>, p: nat, q: nat)
    requires p <= q <= |s|
    ensures s[p..] == s[p..q] + s[q..]
  {}

  // A suffix taken after a known first part.
  lemma AfterFirstPart<T>(s: seq<T>, p: nat, a: seq<T>, b: seq<T>)
    requires p <= |s| && s[p..] == a + b
    ensures p + |a| <= |s| && s[p..p + |a|] == a && s[p + |a|..] == b
  {
    assert s[p..p + |a|] == s[p..][..|a|];
    assert s[p + |a|..] == s[p..][|a|..];
  }

  lemma NoElements<T>(s: seq<T>)
    ensures Elements(s) == {} <==> s == []
  {
    if s != [] { assert s[0] in Elements(s); }
  }

  lemma SeparatorFound<T>(a: seq<T>, x: seq<T>, b: seq<T>, y: seq<T>, sep: T)
    requires a + [sep] + x == b + [sep] + y && |a| < |b|
    ensures sep in b
  {
    assert (a + [sep] + x)[|a|] == (b + [sep] + y)[|a|] == b[|a|];
  }

  // Where a separator is in neither of two first parts, it splits a sequence in one way only.
  lemma SplitUnique<T>(a: seq<T>, x: seq<T>, b: seq<T>, y: seq<T>, sep: T)
    requires a + [sep] + x == b + [sep] + y && sep !in a && sep !in b
    ensures a == b && x == y
  {
    if |a| < |b| { SeparatorFound(a, x, b, y, sep); }
    if |b| < |a| { SeparatorFound(b, y, a, x, sep); }
    var s, t := a + [sep] + x, b + [sep] + y;
    assert a == s[..|a|] && b == t[..|b|];
    assert x == s[|a| + 1..] && y == t[|b| + 1..];
  }
}
