// LinkedList<T>: a doubly linked chain with node identity (internal/bcl/system_linkedlist.go).
module LinkedLists {
  import opened Common
  import opened Values

  class Node {
    const value: Value
    var list: LinkedList?
    var prev: Node?
    var next: Node?

    constructor (value: Value, list: LinkedList, prev: Node?, next: Node?)
      ensures this.value == value && this.list == list && this.prev == prev && this.next == next
    {
      this.value, this.list, this.prev, this.next := value, list, prev, next;
    }
  }

  ghost function ValuesOf(nodes: seq<Node>): seq<Value> {
    seq(|nodes|, i requires 0 <= i < |nodes| => nodes[i].value)
  }

  // The first node with an equal value, or the length.
  ghost function FirstWith(nodes: seq<Node>, v: Value): (i: nat)
    ensures i <= |nodes|
  {
    if nodes == [] || ValuesEqual(nodes[0].value, v) then 0 else 1 + FirstWith(nodes[1..], v)
  }

  lemma {:induction false} FirstWithIs(nodes: seq<Node>, v: Value, i: nat)
    requires i <= |nodes| && (forall j :: 0 <= j < i ==> !ValuesEqual(nodes[j].value, v))
    requires i < |nodes| ==> ValuesEqual(nodes[i].value, v)
    ensures FirstWith(nodes, v) == i
  {
    if i > 0 { FirstWithIs(nodes[1..], v, i - 1); }
  }

  lemma {:induction false} FirstWithSpec(nodes: seq<Node>, v: Value)
    ensures var i := FirstWith(nodes, v);
      && (forall j :: 0 <= j < i ==> !ValuesEqual(nodes[j].value, v))
      && (i < |nodes| ==> ValuesEqual(nodes[i].value, v))
  {
    if nodes != [] && !ValuesEqual(nodes[0].value, v) { FirstWithSpec(nodes[1..], v); }
  }

  // The node at a position, null off the ends.
  ghost function At(nodes: seq<Node>, i: int): Node? { if 0 <= i < |nodes| then nodes[i] else null }

  ghost predicate LinkAt(list: LinkedList, nodes: seq<Node>, i: int)
    requires 0 <= i < |nodes|
    reads nodes[i]
  {
    nodes[i].list == list && nodes[i].next == At(nodes, i + 1) && nodes[i].prev == At(nodes, i - 1)
  }

  // The links around a spliced-out position: its neighbours point past it.
  ghost predicate LinkPast(list: LinkedList, nodes: seq<Node>, at: int, j: int)
    requires 0 <= j < |nodes| && j != at
    reads nodes[j]
  {
    && nodes[j].list == list
    && nodes[j].next == At(nodes, if j + 1 == at then j + 2 else j + 1)
    && nodes[j].prev == At(nodes, if j - 1 == at then j - 2 else j - 1)
  }

  // A member whose links skip the one at `at` where they led to it.
  lemma PassedBy(list: LinkedList, nodes: seq<Node>, at: nat, j: nat)
    requires Distinct(nodes) && at < |nodes| && j < |nodes| && j != at && nodes[j].list == list
    requires nodes[j].next == if nodes[j] == At(nodes, at - 1) then At(nodes, at + 1) else At(nodes, j + 1)
    requires nodes[j].prev == if nodes[j] == At(nodes, at + 1) then At(nodes, at - 1) else At(nodes, j - 1)
    ensures LinkPast(list, nodes, at, j)
  {
    assert j != at - 1 && 0 <= at - 1 ==> nodes[j] != nodes[at - 1];
    assert j != at + 1 && at + 1 < |nodes| ==> nodes[j] != nodes[at + 1];
  }

  lemma Relinked(list: LinkedList, nodes: seq<Node>, at: nat, i: nat)
    requires at < |nodes| && i < |nodes| - 1
    requires LinkPast(list, nodes, at, if i < at then i else i + 1)
    ensures LinkAt(list, WithoutIndex(nodes, at), i)
  {}

  // The list is in order again without a member that everything passes by.
  lemma MemberGone(list: LinkedList, nodes: seq<Node>, at: nat)
    requires Distinct(nodes) && at < |nodes| && forall j :: 0 <= j < |nodes| && j != at ==> LinkPast(list, nodes, at, j)
    ensures Distinct(WithoutIndex(nodes, at))
    ensures forall d :: d in WithoutIndex(nodes, at) ==> d in nodes
    ensures forall i :: 0 <= i < |nodes| - 1 ==> LinkAt(list, WithoutIndex(nodes, at), i)
    ensures At(WithoutIndex(nodes, at), 0) == if at == 0 then At(nodes, 1) else At(nodes, 0)
    ensures At(WithoutIndex(nodes, at), |nodes| - 2)
         == if at == |nodes| - 1 then At(nodes, |nodes| - 2) else At(nodes, |nodes| - 1)
  {
    WithoutIndexElements(nodes, at);
    forall i | 0 <= i < |nodes| - 1 ensures LinkAt(list, WithoutIndex(nodes, at), i) { Relinked(list, nodes, at, i); }
    assert forall d :: d in WithoutIndex(nodes, at) ==> d in Elements(WithoutIndex(nodes, at));
  }

  // A dropped node still names the list, and only other dropped nodes.
  ghost predicate StaleLinks(list: LinkedList, dropped: set<Node>, d: Node)
    reads d
  {
    d.list == list && (d.prev == null || d.prev in dropped) && (d.next == null || d.next in dropped)
  }

  class LinkedList {
    var head: Node?
    var tail: Node?
    var count: int
    ghost var nodes: seq<Node>        // the chain, front to back
    ghost var dropped: set<Node>      // nodes a Clear let go of, still naming this list

    ghost predicate Chained()
      reads this, nodes
    {
      && Distinct(nodes)
      && head == At(nodes, 0) && tail == At(nodes, |nodes| - 1)
      && forall i :: 0 <= i < |nodes| ==> LinkAt(this, nodes, i)
    }

    ghost predicate Valid()
      reads this, nodes, dropped
    {
      && Chained()
      && count == |nodes|
      && (forall d :: d in dropped ==> d !in nodes && StaleLinks(this, dropped, d))
    }

    // The nodes that name this list are its members and the dropped ones.
    ghost predicate Claims(n: Node)
      reads this, n
    {
      n.list == this ==> n in nodes || n in dropped
    }

    constructor ()
      ensures Valid() && nodes == [] && dropped == {}
    {
      head, tail, count, nodes, dropped := null, null, 0, [], {};
    }

    method AddLast(v: Value) returns (n: Node)
      requires Valid()
      modifies this, nodes
      ensures Valid() && fresh(n) && n.value == v
      ensures nodes == old(nodes) + [n] && dropped == old(dropped)
    {
      assert nodes != [] ==> LinkAt(this, nodes, |nodes| - 1);
      n := new Node(v, this, tail, null);
      if tail != null {
        tail.next := n;
      } else {
        head := n;
      }
      tail := n;
      count := count + 1;
      nodes := nodes + [n];
      forall i | 0 <= i < |nodes| ensures LinkAt(this, nodes, i) {
        assert i < |old(nodes)| ==> old(LinkAt(this, nodes, i)) && nodes[i] == old(nodes)[i];
      }
      assert forall d :: d in dropped ==> old(StaleLinks(this, dropped, d));
    }

    method AddFirst(v: Value) returns (n: Node)
      requires Valid()
      modifies this, nodes
      ensures Valid() && fresh(n) && n.value == v
      ensures nodes == [n] + old(nodes) && dropped == old(dropped)
    {
      assert nodes != [] ==> LinkAt(this, nodes, 0);
      n := new Node(v, this, null, head);
      if head != null {
        head.prev := n;
      } else {
        tail := n;
      }
      head := n;
      count := count + 1;
      nodes := [n] + nodes;
      forall i | 0 <= i < |nodes| ensures LinkAt(this, nodes, i) {
        assert i > 0 ==> old(LinkAt(this, nodes, i - 1)) && nodes[i] == old(nodes)[i - 1];
      }
      assert forall d :: d in dropped ==> old(StaleLinks(this, dropped, d));
    }

    // Whether removing a dropped node leaves head and tail where they are.
    ghost predicate Harmless(n: Node)
      reads this, n
    {
      (n.prev != null && n.next != null) || (n.prev == null && n.next == null && nodes == [])
    }

    // Whatever stood beside n passes it by, or else head and tail do, and n names nothing.
    twostate predicate Bypassed(n: Node)
      reads this, nodes, dropped, n
    {
      && n.list == null && n.prev == null && n.next == null
      && head == (if old(n.prev) == null then old(n.next) else old(head))
      && tail == (if old(n.next) == null then old(n.prev) else old(tail))
      && (forall i :: 0 <= i < |nodes| && nodes[i] in old(nodes) && nodes[i] != n ==> Passes(nodes[i], n))
      && (forall d :: d in dropped && d in old(dropped) && d != n ==> Passes(d, n))
    }

    twostate predicate Passes(d: Node, n: Node)
      reads d
    {
      && d.list == old(d.list)
      && d.next == (if d == old(n.prev) then old(n.next) else old(d.next))
      && d.prev == (if d == old(n.next) then old(n.prev) else old(d.prev))
    }

    // The pointer changes alone.
    method Splice(n: Node)
      requires n in nodes || n in dropped
      requires n.prev != null ==> n.prev in nodes || n.prev in dropped
      requires n.next != null ==> n.next in nodes || n.next in dropped
      modifies this, nodes, dropped
      ensures nodes == old(nodes) && dropped == old(dropped) && count == old(count) - 1 && Bypassed(n)
    {
      if n.prev != null {
        n.prev.next := n.next;
      } else {
        head := n.next;
      }
      if n.next != null {
        n.next.prev := n.prev;
      } else {
        tail := n.prev;
      }
      n.prev, n.next, n.list := null, null, null;
      count := count - 1;
    }

    // Takes a member out wherever it stands; every other node keeps its identity and order. On a
    // node dropped by an earlier Clear the same code always makes the count wrong, and it leaves the
    // chain of members whole exactly if the node stood between two others when it was dropped, or
    // has none beside it and the list is empty.
    method Unlink(n: Node) returns (ghost at: nat)
      requires Valid() && (n in nodes || n in dropped)
      modifies this, nodes, dropped
      ensures dropped == old(dropped) && n.list == null && n.prev == null && n.next == null
      ensures n in old(nodes) ==>
        Valid() && at < |old(nodes)| && old(nodes)[at] == n && nodes == WithoutIndex(old(nodes), at)
      ensures n !in old(nodes) ==>
        nodes == old(nodes) && count == |nodes| - 1 && Bypassed(n) && (Chained() <==> old(Harmless(n)))
    {
      at := if n in nodes then var i :| 0 <= i < |nodes| && nodes[i] == n; i else 0;
      assert if n in nodes then LinkAt(this, nodes, at) else StaleLinks(this, dropped, n);
      Splice(n);
      if n in nodes {
        forall j | 0 <= j < |nodes| && j != at ensures LinkPast(this, nodes, at, j) {
          assert old(LinkAt(this, nodes, j)) && Passes(nodes[j], n);
          PassedBy(this, nodes, at, j);
        }
        assert forall d :: d in dropped ==> old(StaleLinks(this, dropped, d));
        Forget(at);
      } else {
        forall i | 0 <= i < |nodes| ensures LinkAt(this, nodes, i) {
          assert old(LinkAt(this, nodes, i)) && Passes(nodes[i], n);
        }
        StillChained(old(n.prev), old(n.next));
      }
    }

    // A member that everything passes by is no member any more.
    ghost method Forget(at: nat)
      requires Distinct(nodes) && at < |nodes| && count == |nodes| - 1
      requires forall j :: 0 <= j < |nodes| && j != at ==> LinkPast(this, nodes, at, j)
      requires head == if at == 0 then At(nodes, 1) else At(nodes, 0)
      requires tail == if at == |nodes| - 1 then At(nodes, |nodes| - 2) else At(nodes, |nodes| - 1)
      requires forall d :: d in dropped ==> d !in nodes && StaleLinks(this, dropped, d)
      modifies this`nodes
      ensures Valid() && nodes == WithoutIndex(old(nodes), at)
    {
      MemberGone(this, nodes, at);
      nodes := WithoutIndex(nodes, at);
    }

    // With only head and tail changed, the members are still chained if those are.
    lemma StillChained(p: Node?, q: Node?)
      requires Distinct(nodes) && forall i :: 0 <= i < |nodes| ==> LinkAt(this, nodes, i)
      requires (p != null ==> p !in nodes) && (q != null ==> q !in nodes)
      requires head == if p == null then q else At(nodes, 0)
      requires tail == if q == null then p else At(nodes, |nodes| - 1)
      ensures Chained() <==> (p != null && q != null) || (p == null && q == null && nodes == [])
    {}

    // Remove(node) and Remove(value), told apart as the source does: by whether the argument is a
    // node of this list. The list stays in order unless the node was dropped by an earlier Clear.
    method Remove(node: Node?, v: Value) returns (found: Option<bool>, ghost at: nat)
      requires Valid() && (node != null ==> Claims(node))
      modifies this, nodes, dropped
      ensures dropped == old(dropped)
      ensures node != null && old(node.list) == this ==>
        && found == None && node.list == null && (Valid() <==> node in old(nodes))
        && (Valid() ==> at < |old(nodes)| && old(nodes)[at] == node && nodes == WithoutIndex(old(nodes), at))
        && (!Valid() ==>
              nodes == old(nodes) && count == |nodes| - 1 && Bypassed(node) && (Chained() <==> old(Harmless(node))))
      ensures node == null || old(node.list) != this ==>
        && Valid() && at == old(FirstWith(nodes, v)) && found == Some(at < |old(nodes)|)
        && nodes == if at < |old(nodes)| then WithoutIndex(old(nodes), at) else old(nodes)
    {
      if node != null && node.list == this {
        at := Unlink(node);
        return None, at;
      }
      var b;
      b, at := RemoveValue(v);
      return Some(b), at;
    }

    // The walk both Remove(value) and Contains make.
    method FindNode(v: Value) returns (n: Node?, ghost at: nat)
      requires Valid()
      ensures at == FirstWith(nodes, v) && n == At(nodes, at)
    {
      n, at := head, 0;
      while n != null
        invariant at <= |nodes| && n == At(nodes, at)
        invariant forall j :: 0 <= j < at ==> !ValuesEqual(nodes[j].value, v)
        decreases |nodes| - at
      {
        assert nodes[at] == n && LinkAt(this, nodes, at);
        if ValuesEqual(n.value, v) { break; }
        n, at := n.next, at + 1;
      }
      FirstWithIs(nodes, v, at);
    }

    method RemoveValue(v: Value) returns (found: bool, ghost at: nat)
      requires Valid()
      modifies this, nodes, dropped
      ensures Valid() && dropped == old(dropped)
      ensures at == old(FirstWith(nodes, v)) && found == (at < |old(nodes)|)
      ensures nodes == if found then WithoutIndex(old(nodes), at) else old(nodes)
    {
      var n: Node?;
      n, at := FindNode(v);
      found := n != null;
      if found {
        ghost var i := Unlink(n);
        assert old(nodes)[i] == old(nodes)[at];
      }
    }

    method RemoveFirst()
      requires Valid()
      modifies this, nodes, dropped
      ensures Valid() && dropped == old(dropped)
      ensures nodes == if old(nodes) == [] then [] else old(nodes)[1..]
    {
      if head != null { ghost var _ := Unlink(head); }
    }

    method RemoveLast()
      requires Valid()
      modifies this, nodes, dropped
      ensures Valid() && dropped == old(dropped)
      ensures nodes == if old(nodes) == [] then [] else old(nodes)[..|old(nodes)| - 1]
    {
      if tail != null { ghost var _ := Unlink(tail); }
    }

    // Empties the list but leaves the nodes as they are.
    method Clear()
      requires Valid()
      modifies this
      ensures Valid() && nodes == [] && dropped == old(dropped) + Elements(old(nodes))
    {
      ghost var was := dropped;
      dropped := dropped + Elements(nodes);
      forall d | d in dropped ensures StaleLinks(this, dropped, d) {
        if d in was {
          assert StaleLinks(this, was, d);
        } else {
          var i :| 0 <= i < |nodes| && nodes[i] == d;
          assert LinkAt(this, nodes, i);
        }
      }
      head, tail, count, nodes := null, null, 0, [];
    }

    method Contains(v: Value) returns (found: bool)
      requires Valid()
      ensures found <==> exists i :: 0 <= i < |nodes| && ValuesEqual(nodes[i].value, v)
    {
      var n, at := FindNode(v);
      FirstWithSpec(nodes, v);
      found := n != null;
    }

    // What an enumeration runs over: the values of whatever chain leads on from the head.
    method Enumerate(ghost chain: seq<Node>) returns (items: seq<Value>)
      requires head == At(chain, 0) && forall i :: 0 <= i < |chain| ==> chain[i].next == At(chain, i + 1)
      ensures items == ValuesOf(chain)
    {
      items := [];
      var n, i := head, 0;
      while n != null
        invariant 0 <= i <= |chain| && n == At(chain, i)
        invariant |items| == i && forall j :: 0 <= j < i ==> items[j] == chain[j].value
        decreases |chain| - i
      {
        items := items + [n.value];
        n, i := n.next, i + 1;
      }
    }

    // On a list in order, the values of its members, in order.
    method Snapshot() returns (items: seq<Value>)
      requires Valid()
      ensures items == ValuesOf(nodes)
    {
      forall i | 0 <= i < |nodes| ensures nodes[i].next == At(nodes, i + 1) { assert LinkAt(this, nodes, i); }
      items := Enumerate(nodes);
    }

    // Walking from First by Next, and from Last by Previous, meets the same nodes in opposite order.
    method WalkForward() returns (met: seq<Node>)
      requires Valid()
      ensures met == nodes && |met| == count
    {
      met := [];
      var n, i := head, 0;
      while n != null
        invariant 0 <= i <= |nodes| && n == At(nodes, i) && met == nodes[..i]
        decreases |nodes| - i
      {
        assert nodes[i] == n && LinkAt(this, nodes, i);
        met := met + [n];
        n, i := n.next, i + 1;
      }
    }

    method WalkBackward() returns (met: seq<Node>)
      requires Valid()
      ensures |met| == |nodes| && forall i :: 0 <= i < |met| ==> met[i] == nodes[|nodes| - 1 - i]
    {
      met := [];
      var n := tail;
      ghost var i := |nodes|;
      while n != null
        invariant 0 <= i <= |nodes| && n == At(nodes, i - 1)
        invariant |met| == |nodes| - i && forall j :: 0 <= j < |met| ==> met[j] == nodes[|nodes| - 1 - j]
        decreases i
      {
        assert nodes[i - 1] == n && LinkAt(this, nodes, i - 1);
        met := met + [n];
        n, i := n.prev, i - 1;
      }
    }
  }

  // A node kept across Clear and then removed leaves an empty list that counts minus one.
  method StaleNodeAfterClear(v: Value) returns (count: int)
    ensures count == -1
  {
    var list := new LinkedList();
    var n := list.AddLast(v);
    assert list.nodes[0] == n;
    list.Clear();
    var _, _ := list.Remove(n, Null);
    return list.count;
  }

  // If there were others then, and something was added since, the list comes to enumerate the
  // others instead: u and v are cleared, w is added, and removing u's node brings v back for w.
  method StaleNodeLosesMembers(u: Value, v: Value, w: Value) returns (items: seq<Value>, count: int)
    ensures items == [v] && count == 0
  {
    var list := new LinkedList();
    var a := list.AddLast(u);
    var b := list.AddLast(v);
    assert list.nodes == [a, b];
    assert LinkAt(list, list.nodes, 0) && LinkAt(list, list.nodes, 1);
    list.Clear();
    assert a.prev == null && a.next == b && b.next == null;
    var c := list.AddLast(w);
    assert a.prev == null && a.next == b && b.next == null;
    var _, _ := list.Remove(a, Null);
    assert list.head == b && b.next == null;
    items := list.Enumerate([b]);
    count := list.count;
  }
}
