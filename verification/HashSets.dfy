// HashSet<T> and SortedSet<T> over one list with linear search (internal/bcl/system_hashset.go).
module HashSets {
  import opened Common
  import opened Values

  predicate Member(items: seq<Value>, v: Value) { exists i :: 0 <= i < |items| && ValuesEqual(items[i], v) }

  // No two elements are equal.
  ghost predicate NoDuplicates(items: seq<Value>) {
    forall i, j :: 0 <= i < j < |items| ==> !ValuesEqual(items[i], items[j])
  }

  ghost predicate Ascending(items: seq<Value>) {
    forall i, j :: 0 <= i < j < |items| ==> Compare(items[i], items[j]) < 0
  }

  predicate Numeric(v: Value) { v.I4? || v.I8? || v.R4? || v.R8? }

  // Two values one element type can have: of one kind, or null beside anything but a number.
  predicate Together(x: Value, v: Value) {
    SameKind(x, v) || ((x.Null? || v.Null?) && !Numeric(x) && !Numeric(v))
  }

  ghost predicate OfType(items: seq<Value>, v: Value) { forall x :: x in items ==> Together(x, v) }

  // Where a sorted set inserts: before the first element greater than v.
  function Slot(items: seq<Value>, v: Value): (i: nat)
    ensures i <= |items|
  {
    if items == [] || Compare(v, items[0]) < 0 then 0 else 1 + Slot(items[1..], v)
  }

  function Added(items: seq<Value>, v: Value, sorted: bool): seq<Value> {
    if Member(items, v) then items
    else if sorted then WithInserted(items, Slot(items, v), v)
    else items + [v]
  }

  // The first equal element, or the length.
  function Find(items: seq<Value>, v: Value): (i: nat)
    ensures i <= |items|
  {
    if items == [] || ValuesEqual(items[0], v) then 0 else 1 + Find(items[1..], v)
  }

  function Removed(items: seq<Value>, v: Value): seq<Value> {
    if Find(items, v) < |items| then WithoutIndex(items, Find(items, v)) else items
  }

  lemma {:induction false} FindIsFirst(items: seq<Value>, v: Value, i: nat)
    requires i <= |items| && forall k :: 0 <= k < i ==> !ValuesEqual(items[k], v)
    requires i < |items| ==> ValuesEqual(items[i], v)
    ensures Find(items, v) == i
  {
    if i > 0 { FindIsFirst(items[1..], v, i - 1); }
  }

  lemma {:induction false} FindSpec(items: seq<Value>, v: Value)
    ensures var i := Find(items, v);
      (forall k :: 0 <= k < i ==> !ValuesEqual(items[k], v)) && (i < |items| ==> ValuesEqual(items[i], v))
  {
    if items != [] && !ValuesEqual(items[0], v) { FindSpec(items[1..], v); }
  }

  lemma {:induction false} SlotIsFirst(items: seq<Value>, v: Value, i: nat)
    requires i <= |items| && forall k :: 0 <= k < i ==> Compare(v, items[k]) >= 0
    requires i < |items| ==> Compare(v, items[i]) < 0
    ensures Slot(items, v) == i
  {
    if i > 0 { SlotIsFirst(items[1..], v, i - 1); }
  }

  lemma {:induction false} SlotSpec(items: seq<Value>, v: Value)
    ensures var i := Slot(items, v);
      (forall k :: 0 <= k < i ==> Compare(v, items[k]) >= 0) && (i < |items| ==> Compare(v, items[i]) < 0)
  {
    if items != [] && Compare(v, items[0]) >= 0 { SlotSpec(items[1..], v); }
  }

  class NativeHashSet {
    var items: seq<Value>
    const sorted: bool

    constructor (sorted: bool)
      ensures items == [] && this.sorted == sorted
    {
      items, this.sorted := [], sorted;
    }

    method Add(v: Value) returns (added: bool)
      modifies this
      ensures added <==> !Member(old(items), v)
      ensures items == Added(old(items), v, sorted)
    {
      for k := 0 to |items|
        invariant items == old(items) && forall j :: 0 <= j < k ==> !ValuesEqual(items[j], v)
      {
        if ValuesEqual(items[k], v) { return false; }
      }
      if sorted {
        var i := 0;
        while i < |items|
          invariant 0 <= i <= |items| && items == old(items)
          invariant forall j :: 0 <= j < i ==> Compare(v, items[j]) >= 0
        {
          if Compare(v, items[i]) < 0 { break; }
          i := i + 1;
        }
        SlotIsFirst(items, v, i);
        items := WithInserted(items, i, v);
      } else {
        items := items + [v];
      }
      return true;
    }

    method Contains(v: Value) returns (found: bool)
      ensures found <==> Member(items, v)
    {
      for k := 0 to |items|
        invariant forall j :: 0 <= j < k ==> !ValuesEqual(items[j], v)
      {
        if ValuesEqual(items[k], v) { return true; }
      }
      return false;
    }

    method Remove(v: Value) returns (removed: bool)
      modifies this
      ensures removed <==> Member(old(items), v)
      ensures items == Removed(old(items), v)
    {
      for k := 0 to |items|
        invariant items == old(items) && forall j :: 0 <= j < k ==> !ValuesEqual(items[j], v)
      {
        if ValuesEqual(items[k], v) {
          FindIsFirst(items, v, k);
          items := WithoutIndex(items, k);
          return true;
        }
      }
      FindIsFirst(items, v, |items|);
      return false;
    }

    method Clear()
      modifies this
      ensures items == []
    {
      items := [];
    }

    // The first and the last element, least and greatest if the set ascends; Null on an empty one.
    method Min() returns (v: Value)
      ensures items == [] ==> v == Null
      ensures items != [] ==> [v] <= items
      ensures items != [] && Ascending(items) ==> forall x :: x in items ==> x == v || Compare(v, x) < 0
    {
      return if |items| == 0 then Null else items[0];
    }

    method Max() returns (v: Value)
      ensures items == [] ==> v == Null
      ensures items != [] ==> items == items[..|items| - 1] + [v]
      ensures items != [] && Ascending(items) ==> forall x :: x in items ==> x == v || Compare(x, v) < 0
    {
      return if |items| == 0 then Null else items[|items| - 1];
    }
  }

  // ---------------------------------------------------------------- what runs keep

  datatype Op = Add(v: Value) | Remove(v: Value) | Clear

  function Apply(items: seq<Value>, op: Op, sorted: bool): seq<Value> {
    match op
    case Add(v) => Added(items, v, sorted)
    case Remove(v) => Removed(items, v)
    case Clear => []
  }

  function Run(ops: seq<Op>, sorted: bool): seq<Value> {
    if ops == [] then [] else Apply(Run(ops[..|ops| - 1], sorted), ops[|ops| - 1], sorted)
  }

  // The set an equivalent run over mathematical sets holds; only comparable values can be found.
  function Model(ops: seq<Op>): set<Value> {
    if ops == [] then {}
    else
      var before := Model(ops[..|ops| - 1]);
      match ops[|ops| - 1]
      case Add(v) => before + {v}
      case Remove(v) => if Comparable(v) then before - {v} else before
      case Clear => {}
  }

  lemma AddKeepsDistinct(items: seq<Value>, v: Value, sorted: bool)
    requires NoDuplicates(items)
    ensures NoDuplicates(Added(items, v, sorted))
  {
    if !Member(items, v) {
      InsertKeepsDistinct(items, if sorted then Slot(items, v) else |items|, v);
      assert items + [v] == WithInserted(items, |items|, v);
    }
  }

  lemma InsertKeepsDistinct(items: seq<Value>, i: nat, v: Value)
    requires NoDuplicates(items) && i <= |items| && !Member(items, v)
    ensures NoDuplicates(WithInserted(items, i, v))
  {
    var r := WithInserted(items, i, v);
    forall k | 0 <= k < |items| ensures !ValuesEqual(items[k], v) && !ValuesEqual(v, items[k]) {
      EqualIsSymmetric(items[k], v);
    }
    assert forall k :: 0 <= k < |r| ==> r[k] == if k < i then items[k] else if k == i then v else items[k - 1];
  }

  lemma AddedElements(items: seq<Value>, v: Value, sorted: bool)
    ensures Elements(Added(items, v, sorted)) == Elements(items) + {v}
  {
    var r := Added(items, v, sorted);
    if Member(items, v) {
      var i :| 0 <= i < |items| && ValuesEqual(items[i], v);
      EqualIffSameComparable(items[i], v);
      assert v in items;
    } else if sorted {
      var i := Slot(items, v);
      assert r == items[..i] + [v] + items[i..] && items == items[..i] + items[i..];
    }
  }

  lemma RemovedElements(items: seq<Value>, v: Value)
    requires NoDuplicates(items)
    ensures NoDuplicates(Removed(items, v))
    ensures Elements(Removed(items, v)) == if Comparable(v) then Elements(items) - {v} else Elements(items)
  {
    FindSpec(items, v);
    var i, r := Find(items, v), Removed(items, v);
    forall x ensures ValuesEqual(x, v) <==> x == v && Comparable(v) { EqualIffSameComparable(x, v); }
    if i < |items| {
      RemovedAt(items, i);
    }
  }

  // An element equal to itself stands once in a list without duplicates.
  lemma RemovedAt(items: seq<Value>, i: nat)
    requires NoDuplicates(items) && i < |items| && Comparable(items[i])
    ensures NoDuplicates(WithoutIndex(items, i))
    ensures Elements(WithoutIndex(items, i)) == Elements(items) - {items[i]}
  {
    var v := items[i];
    assert items == items[..i] + [v] + items[i + 1..];
    forall k | 0 <= k < |items| && k != i ensures items[k] != v {
      EqualIffSameComparable(items[i], items[k]);
      EqualIffSameComparable(items[k], items[i]);
    }
    assert v !in items[..i] && v !in items[i + 1..];
  }

  // Any run of a hash set or a sorted set holds exactly the elements of the mathematical set and,
  // as long as those are comparable, each of them once.
  lemma {:induction false} RunRefinesSet(ops: seq<Op>, sorted: bool)
    ensures NoDuplicates(Run(ops, sorted)) && Elements(Run(ops, sorted)) == Model(ops)
    ensures (forall v :: v in Model(ops) ==> Comparable(v)) ==> Distinct(Run(ops, sorted))
  {
    if ops != [] {
      var rest, last := ops[..|ops| - 1], ops[|ops| - 1];
      RunRefinesSet(rest, sorted);
      var items := Run(rest, sorted);
      match last {
        case Add(v) => AddKeepsDistinct(items, v, sorted); AddedElements(items, v, sorted);
        case Remove(v) => RemovedElements(items, v);
        case Clear =>
      }
    }
    var items := Run(ops, sorted);
    forall i, j | 0 <= i < j < |items| && Comparable(items[i]) ensures items[i] != items[j] {
      EqualIffSameComparable(items[i], items[j]);
    }
    assert forall i :: 0 <= i < |items| ==> items[i] in Elements(items);
  }

  // An element just added is found exactly when it is comparable: a NaN, a delegate or a struct
  // holding one is stored again on every Add and never found.
  lemma AddedIsFoundIffComparable(items: seq<Value>, v: Value, sorted: bool)
    ensures Member(Added(items, v, sorted), v) <==> Comparable(v)
    ensures !Comparable(v) ==> |Added(items, v, sorted)| == |items| + 1
  {
    forall x ensures ValuesEqual(x, v) <==> x == v && Comparable(v) { EqualIffSameComparable(x, v); }
    if !Member(items, v) {
      var i := if sorted then Slot(items, v) else |items|;
      assert Added(items, v, sorted)[i] == v;
    }
  }

  // Adding keeps a sorted set strictly ascending exactly when it is the first element, changes
  // nothing, or meets ordered values only: a set of structs, with a NaN or with a null is not.
  lemma AddKeepsAscendingIffOrdered(items: seq<Value>, v: Value)
    requires Ascending(items) && OfType(items, v)
    ensures Ascending(Added(items, v, true))
       <==> items == [] || Member(items, v) || (Ordered(v) && forall x :: x in items ==> Ordered(x))
  {
    if items != [] && !Member(items, v) {
      SlotSpec(items, v);
      var i, r := Slot(items, v), Added(items, v, true);
      assert forall k :: 0 <= k < |items| ==> items[k] in items && !ValuesEqual(items[k], v);
      if Ordered(v) && forall x :: x in items ==> Ordered(x) {
        AscendingAroundSlot(items, v, i);
      } else {
        var k := 0;
        if Ordered(v) { k :| 0 <= k < |items| && !Ordered(items[k]); }
        NotAscending(items, v, i, k);
      }
    }
  }

  lemma AscendingAroundSlot(items: seq<Value>, v: Value, i: nat)
    requires Ascending(items) && Ordered(v) && i <= |items|
    requires forall k :: 0 <= k < |items| ==> Ordered(items[k]) && !ValuesEqual(items[k], v) && SameKind(items[k], v)
    requires forall k :: 0 <= k < i ==> Compare(v, items[k]) >= 0
    requires i < |items| ==> Compare(v, items[i]) < 0
    ensures Ascending(WithInserted(items, i, v))
  {
    forall k | 0 <= k < i ensures Compare(items[k], v) < 0 { NotAboveIsBelow(items[k], v); }
    forall k | i <= k < |items| ensures Compare(v, items[k]) < 0 { if k > i { BelowBoth(v, items[i], items[k]); } }
    InsertAscending(items, v, i);
  }

  lemma NotAboveIsBelow(x: Value, v: Value)
    requires SameKind(x, v) && Ordered(x) && Ordered(v) && !ValuesEqual(x, v) && Compare(v, x) >= 0
    ensures Compare(x, v) < 0
  {
    CompareIsTotalOrder(x, v, v);
  }

  lemma BelowBoth(v: Value, x: Value, y: Value)
    requires SameKind(x, v) && SameKind(y, v) && Ordered(v) && Ordered(x) && Ordered(y)
    requires Compare(v, x) < 0 && Compare(x, y) < 0
    ensures Compare(v, y) < 0
  {
    CompareIsTotalOrder(v, x, y);
  }

  lemma InsertAscending(items: seq<Value>, v: Value, i: nat)
    requires Ascending(items) && i <= |items|
    requires forall k :: 0 <= k < |items| ==> if k < i then Compare(items[k], v) < 0 else Compare(v, items[k]) < 0
    ensures Ascending(WithInserted(items, i, v))
  {
    var r := WithInserted(items, i, v);
    assert forall k :: 0 <= k < |r| ==> r[k] == if k < i then items[k] else if k == i then v else items[k - 1];
  }

  lemma NotAscending(items: seq<Value>, v: Value, i: nat, k: nat)
    requires i <= |items| && k < |items| && Together(items[k], v)
    requires !ValuesEqual(items[k], v) && !(Ordered(v) && Ordered(items[k]))
    ensures !Ascending(WithInserted(items, i, v))
  {
    NeverLess(v, items[k]);
    var r := WithInserted(items, i, v);
    if k < i {
      assert r[k] == items[k] && r[i] == v;
    } else {
      assert r[i] == v && r[k + 1] == items[k];
    }
  }

  lemma NeverLess(v: Value, x: Value)
    requires Together(x, v) && !ValuesEqual(x, v) && !(Ordered(v) && Ordered(x))
    ensures Compare(v, x) >= 0 && Compare(x, v) >= 0
  {
    if SameKind(x, v) {
      EqualIsSymmetric(v, x);
      DistinguishesIffOrdered(v, x);
      DistinguishesIffOrdered(x, v);
    }
  }

  lemma RemoveKeepsAscending(items: seq<Value>, v: Value)
    requires Ascending(items)
    ensures Ascending(Removed(items, v))
  {}

  ghost predicate AllOrdered(items: seq<Value>, kind: Value) {
    forall x :: x in items ==> Ordered(x) && SameKind(x, kind)
  }

  lemma SortedAdd(items: seq<Value>, v: Value, kind: Value)
    requires Ascending(items) && AllOrdered(items, kind) && Ordered(v) && SameKind(v, kind)
    ensures Ascending(Added(items, v, true)) && AllOrdered(Added(items, v, true), kind)
  {
    forall x | x in items ensures Together(x, v) { OneKind(x, v, kind); }
    AddKeepsAscendingIffOrdered(items, v);
    AddedIn(items, v);
  }

  lemma OneKind(x: Value, v: Value, kind: Value)
    requires SameKind(x, kind) && SameKind(v, kind)
    ensures SameKind(x, v)
  {}

  lemma AddedIn(items: seq<Value>, v: Value)
    ensures forall x :: x in Added(items, v, true) ==> x in items || x == v
  {
    AddedElements(items, v, true);
    assert forall x :: x in Added(items, v, true) ==> x in Elements(items) + {v};
  }

  lemma SortedRemove(items: seq<Value>, v: Value, kind: Value)
    requires Ascending(items) && AllOrdered(items, kind)
    ensures Ascending(Removed(items, v)) && AllOrdered(Removed(items, v), kind)
  {
    RemoveKeepsAscending(items, v);
  }

  // In any run over one ordered kind a sorted set stays strictly ascending, so its list is the one
  // ascending list of the mathematical set's elements.
  lemma {:induction false} SortedRunAscends(ops: seq<Op>, kind: Value)
    requires forall i :: 0 <= i < |ops| && ops[i].Add? ==> Ordered(ops[i].v) && SameKind(ops[i].v, kind)
    ensures Ascending(Run(ops, true)) && AllOrdered(Run(ops, true), kind)
  {
    if ops != [] {
      var rest, last := ops[..|ops| - 1], ops[|ops| - 1];
      SortedRunAscends(rest, kind);
      match last {
        case Add(v) =>
          assert ops[|ops| - 1].Add?;
          SortedAdd(Run(rest, true), v, kind);
        case Remove(v) => SortedRemove(Run(rest, true), v, kind);
        case Clear =>
      }
    }
  }

  lemma {:induction false} AscendingIsCanonical(a: seq<Value>, b: seq<Value>, kind: Value)
    requires Ascending(a) && Ascending(b) && Elements(a) == Elements(b)
    requires AllOrdered(a, kind)
    ensures a == b
  {
    if a == [] {
      NoElements(b);
    } else {
      assert a[0] in Elements(b);
      var j :| 0 <= j < |b| && b[j] == a[0];
      assert b[0] in Elements(a);
      var i :| 0 <= i < |a| && a[i] == b[0];
      CompareIsTotalOrder(a[0], b[0], b[0]);
      assert a[0] == b[0] by { EqualIffSameComparable(a[0], b[0]); }
      TailElements(a);
      TailElements(b);
      assert Elements(a[1..]) == Elements(b[1..]);
      AscendingIsCanonical(a[1..], b[1..], kind);
    }
  }

  lemma TailElements(a: seq<Value>)
    requires Ascending(a) && a != []
    ensures Ascending(a[1..]) && Elements(a[1..]) == Elements(a) - {a[0]}
  {
    assert a == [a[0]] + a[1..];
    CompareSelf(a[0]);
    assert forall k :: 1 <= k < |a| ==> Compare(a[0], a[k]) < 0;
  }

  // A sorted set of integers lists them from the smallest up, one of strings in lexicographic order.
  lemma SortedListsUpwards(items: seq<Value>, i: nat, j: nat)
    requires Ascending(items) && i < j < |items|
    ensures items[i].I4? && items[j].I4? ==> items[i].i < items[j].i
    ensures items[i].I8? && items[j].I8? ==> items[i].l < items[j].l
    ensures items[i].Str? && items[j].Str? ==> StringLess(items[i].s, items[j].s)
  {
    if SameKind(items[i], items[j]) { CompareDirection(items[i], items[j]); }
  }

  // A hash set lists its elements in the order they were added; removing closes the gap.
  lemma HashSetKeepsOrder(items: seq<Value>, v: Value)
    ensures items <= Added(items, v, false)
    ensures Removed(items, v) == items ||
      exists i :: 0 <= i < |items| && ValuesEqual(items[i], v) && Removed(items, v) == items[..i] + items[i + 1..]
  {
    FindSpec(items, v);
  }
}
