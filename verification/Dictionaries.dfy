// nativeDict: a map and an order list kept in step, the operations of Dictionary<K,V> and
// SortedDictionary<K,V> over it, and its enumerator
// (internal/bcl/system_collections.go:63-111, 509-567, 1062-1245).
module Dictionaries {
  import opened Common
  import opened Values
  import opened KeyEncoding

  datatype Entry = Entry(key: Value, value: Value)

  // The two redundant fields, as one value.
  datatype Dict = Dict(m: map<string, Entry>, order: seq<string>)

  const EMPTY := Dict(map[], [])

  // The order list holds every key of the map once and nothing else.
  ghost predicate InStep(d: Dict) {
    Distinct(d.order) && forall k :: k in d.order <==> k in d.m
  }

  // Where a sorted dictionary puts a new key: before the first greater one.
  function Slot(m: map<string, Entry>, order: seq<string>, key: Value): (i: nat)
    requires forall k :: k in order ==> k in m
    ensures i <= |order|
  {
    if order == [] || Compare(key, m[order[0]].key) < 0 then 0 else 1 + Slot(m, order[1..], key)
  }

  function Put(d: Dict, k: string, e: Entry, sorted: bool): Dict
    requires forall x :: x in d.order ==> x in d.m
  {
    Dict(d.m[k := e],
         if k in d.m then d.order
         else if sorted then WithInserted(d.order, Slot(d.m, d.order, e.key), k)
         else d.order + [k])
  }

  function IndexOf(order: seq<string>, k: string): (i: nat)
    ensures i <= |order| && (i < |order| ==> order[i] == k)
    ensures i == |order| <==> k !in order
  {
    if order == [] || order[0] == k then 0 else 1 + IndexOf(order[1..], k)
  }

  function Delete(d: Dict, k: string): Dict {
    if k !in d.m then d
    else
      var i := IndexOf(d.order, k);
      Dict(d.m - {k}, if i < |d.order| then WithoutIndex(d.order, i) else d.order)
  }

  lemma {:induction false} SlotIsFirst(m: map<string, Entry>, order: seq<string>, key: Value, i: nat)
    requires (forall k :: k in order ==> k in m) && i <= |order|
    requires forall j :: 0 <= j < i ==> Compare(key, m[order[j]].key) >= 0
    requires i < |order| ==> Compare(key, m[order[i]].key) < 0
    ensures Slot(m, order, key) == i
  {
    if i > 0 { SlotIsFirst(m, order[1..], key, i - 1); }
  }

  lemma {:induction false} SlotSpec(m: map<string, Entry>, order: seq<string>, key: Value)
    requires forall k :: k in order ==> k in m
    ensures var i := Slot(m, order, key);
      && (forall j :: 0 <= j < i ==> Compare(key, m[order[j]].key) >= 0)
      && (i < |order| ==> Compare(key, m[order[i]].key) < 0)
  {
    if order != [] && Compare(key, m[order[0]].key) >= 0 { SlotSpec(m, order[1..], key); }
  }

  lemma {:induction false} IndexOfIsFirst(order: seq<string>, k: string, i: nat)
    requires i <= |order| && k !in order[..i] && (i < |order| ==> order[i] == k)
    ensures IndexOf(order, k) == i
  {
    if i > 0 {
      assert order[0] in order[..i] && order[1..][..i - 1] == order[..i][1..];
      IndexOfIsFirst(order[1..], k, i - 1);
    }
  }

  // ---------------------------------------------------------------- the class

  class NativeDict {
    const env: Env
    const sorted: bool
    var m: map<string, Entry>
    var order: seq<string>

    ghost function State(): Dict
      reads this
    {
      Dict(m, order)
    }

    ghost predicate Valid()
      reads this
    {
      InStep(State())
    }

    constructor (env: Env, sorted: bool)
      ensures Valid() && State() == EMPTY && this.env == env && this.sorted == sorted
    {
      this.env, this.sorted := env, sorted;
      m, order := map[], [];
    }

    method PutEntry(k: string, e: Entry)
      requires Valid()
      modifies this
      ensures Valid() && State() == Put(old(State()), k, e, sorted)
    {
      PutKeepsStep(State(), k, e, sorted);
      if k !in m {
        if sorted {
          var i := 0;
          while i < |order|
            invariant 0 <= i <= |order| && m == old(m) && order == old(order)
            invariant forall j :: 0 <= j < i ==> Compare(e.key, m[order[j]].key) >= 0
          {
            if Compare(e.key, m[order[i]].key) < 0 { break; }
            i := i + 1;
          }
          SlotIsFirst(m, order, e.key, i);
          order := WithInserted(order, i, k);
        } else {
          order := order + [k];
        }
      }
      m := m[k := e];
    }

    method DeleteKey(k: string) returns (existed: bool)
      requires Valid()
      modifies this
      ensures Valid() && State() == Delete(old(State()), k) && existed == (k in old(m))
    {
      if k !in m { return false; }
      DeleteKeepsStep(State(), k);
      m := m - {k};
      var i := 0;
      while i < |order|
        invariant 0 <= i <= |order| && order == old(order) && m == old(m) - {k} && k !in order[..i]
      {
        if order[i] == k {
          IndexOfIsFirst(order, k, i);
          order := WithoutIndex(order, i);
          break;
        }
        i := i + 1;
      }
      return true;
    }

    // Add refuses a key that is already there; the indexer replaces its entry in place.
    method Add(key: Value, value: Value) returns (ok: bool)
      requires Valid()
      modifies this
      ensures Valid()
      ensures var k := EncodeKey(env, key);
        && ok == (k.Ok? && k.value !in old(m))
        && State() == if ok then Put(old(State()), k.value, Entry(key, value), sorted) else old(State())
    {
      var k := EncodeKey(env, key);
      if k.Err? || k.value in m { return false; }
      PutEntry(k.value, Entry(key, value));
      return true;
    }

    method SetItem(key: Value, value: Value) returns (ok: bool)
      requires Valid()
      modifies this
      ensures Valid()
      ensures var k := EncodeKey(env, key);
        && ok == k.Ok?
        && State() == if ok then Put(old(State()), k.value, Entry(key, value), sorted) else old(State())
    {
      var k := EncodeKey(env, key);
      if k.Err? { return false; }
      PutEntry(k.value, Entry(key, value));
      return true;
    }

    method GetItem(key: Value) returns (r: Option<Value>)
      requires Valid()
      ensures r == Lookup(env, State(), key)
    {
      var k := EncodeKey(env, key);
      return if k.Ok? && k.value in m then Some(m[k.value].value) else None;
    }

    method Remove(key: Value) returns (r: Result<bool, ()>)
      requires Valid()
      modifies this
      ensures Valid()
      ensures var k := EncodeKey(env, key);
        && r == (if k.Ok? then Ok(k.value in old(m)) else Err(()))
        && State() == if k.Ok? then Delete(old(State()), k.value) else old(State())
    {
      var k := EncodeKey(env, key);
      if k.Err? { return Err(()); }
      var existed := DeleteKey(k.value);
      return Ok(existed);
    }

    method Clear()
      requires Valid()
      modifies this
      ensures Valid() && State() == EMPTY
    {
      m, order := map[], [];
    }

    method Count() returns (n: nat)
      requires Valid()
      ensures n == |m| == |order|
    {
      CountsAgree(State());
      return |m|;
    }

    // Keys and values line up, entry by entry, in order.
    method GetKeys() returns (keys: seq<Value>)
      requires Valid()
      ensures keys == Keys(State())
    {
      keys := [];
      for i := 0 to |order|
        invariant |keys| == i && forall j :: 0 <= j < i ==> keys[j] == m[order[j]].key
      {
        keys := keys + [m[order[i]].key];
      }
    }

    method GetValues() returns (values: seq<Value>)
      requires Valid()
      ensures values == ItemValues(State())
    {
      values := [];
      for i := 0 to |order|
        invariant |values| == i && forall j :: 0 <= j < i ==> values[j] == m[order[j]].value
      {
        values := values + [m[order[i]].value];
      }
    }
  }

  function Keys(d: Dict): seq<Value>
    requires forall k :: k in d.order ==> k in d.m
  {
    seq(|d.order|, i requires 0 <= i < |d.order| => d.m[d.order[i]].key)
  }

  function ItemValues(d: Dict): seq<Value>
    requires forall k :: k in d.order ==> k in d.m
  {
    seq(|d.order|, i requires 0 <= i < |d.order| => d.m[d.order[i]].value)
  }

  // ---------------------------------------------------------------- the fields stay in step

  lemma PutKeepsStep(d: Dict, k: string, e: Entry, sorted: bool)
    requires InStep(d)
    ensures InStep(Put(d, k, e, sorted))
  {
    if k !in d.m {
      var i := if sorted then Slot(d.m, d.order, e.key) else |d.order|;
      WithInsertedElements(d.order, i, k);
      var r := Put(d, k, e, sorted);
      assert r.order == WithInserted(d.order, i, k);
      assert forall x :: x in r.order <==> x in Elements(r.order);
      assert forall x :: x in d.order <==> x in Elements(d.order);
    }
  }

  lemma DeleteKeepsStep(d: Dict, k: string)
    requires InStep(d)
    ensures InStep(Delete(d, k))
  {
    if k in d.m {
      var i := IndexOf(d.order, k);
      WithoutIndexElements(d.order, i);
      var r := Delete(d, k);
      assert forall x :: x in r.order <==> x in Elements(r.order);
      assert forall x :: x in d.order <==> x in Elements(d.order);
    }
  }

  lemma CountsAgree(d: Dict)
    requires InStep(d)
    ensures |d.m| == |d.order|
  {
    DistinctCardinality(d.order);
    assert d.m.Keys == Elements(d.order);
  }

  // What the indexer reads: the value that stands in the key's place.
  function Lookup(env: Env, d: Dict, key: Value): Option<Value>
    requires forall k :: k in d.order ==> k in d.m
  {
    match EncodeKey(env, key)
    case Err(_) => None
    case Ok(k) => if k in d.order then Some(ItemValues(d)[IndexOf(d.order, k)]) else None
  }

  lemma LookupIs(env: Env, d: Dict, key: Value)
    requires InStep(d)
    ensures Lookup(env, d, key) == match EncodeKey(env, key)
      case Err(_) => None
      case Ok(k) => if k in d.m then Some(d.m[k].value) else None
  {}

  // A write is read back under every key of the same encoding, and under no other.
  lemma LookupAfterPut(env: Env, d: Dict, k: string, e: Entry, sorted: bool, other: Value)
    requires InStep(d)
    ensures InStep(Put(d, k, e, sorted))
    ensures Lookup(env, Put(d, k, e, sorted), other)
         == if EncodeKey(env, other) == Ok(k) then Some(e.value) else Lookup(env, d, other)
  {
    PutKeepsStep(d, k, e, sorted);
    LookupIs(env, d, other);
    LookupIs(env, Put(d, k, e, sorted), other);
  }

  lemma LookupAfterDelete(env: Env, d: Dict, k: string, other: Value)
    requires InStep(d)
    ensures InStep(Delete(d, k))
    ensures Lookup(env, Delete(d, k), other) == if EncodeKey(env, other) == Ok(k) then None else Lookup(env, d, other)
  {
    DeleteKeepsStep(d, k);
    LookupIs(env, d, other);
    LookupIs(env, Delete(d, k), other);
  }

  // ---------------------------------------------------------------- one ordered list of pairs

  type Pairs = seq<(string, Entry)>

  // What the two fields stand for.
  function PairsOf(d: Dict): Pairs
    requires forall k :: k in d.order ==> k in d.m
  {
    seq(|d.order|, i requires 0 <= i < |d.order| => (d.order[i], d.m[d.order[i]]))
  }

  function PairIndex(ps: Pairs, k: string): (i: nat)
    ensures i <= |ps|
  {
    if ps == [] || ps[0].0 == k then 0 else 1 + PairIndex(ps[1..], k)
  }

  // Insertion-ordered: overwriting keeps a key's place, a new key goes last, removal closes the gap.
  function PutPair(ps: Pairs, k: string, e: Entry): Pairs {
    var i := PairIndex(ps, k);
    if i < |ps| then ps[i := (k, e)] else ps + [(k, e)]
  }

  function DeletePair(ps: Pairs, k: string): Pairs {
    var i := PairIndex(ps, k);
    if i < |ps| then WithoutIndex(ps, i) else ps
  }

  lemma {:induction false} PairIndexFinds(ps: Pairs, k: string, i: nat)
    requires i <= |ps| && (forall j :: 0 <= j < i ==> ps[j].0 != k) && (i < |ps| ==> ps[i].0 == k)
    ensures PairIndex(ps, k) == i
  {
    if i > 0 { PairIndexFinds(ps[1..], k, i - 1); }
  }

  lemma PairIndexIsIndex(d: Dict, k: string)
    requires InStep(d)
    ensures PairIndex(PairsOf(d), k) == IndexOf(d.order, k)
  {
    PairIndexFinds(PairsOf(d), k, IndexOf(d.order, k));
  }

  lemma PutRefinesPairs(d: Dict, k: string, e: Entry)
    requires InStep(d)
    ensures InStep(Put(d, k, e, false)) && PairsOf(Put(d, k, e, false)) == PutPair(PairsOf(d), k, e)
  {
    PutKeepsStep(d, k, e, false);
    PairIndexIsIndex(d, k);
  }

  lemma DeleteRefinesPairs(d: Dict, k: string)
    requires InStep(d)
    ensures InStep(Delete(d, k)) && PairsOf(Delete(d, k)) == DeletePair(PairsOf(d), k)
  {
    DeleteKeepsStep(d, k);
    PairIndexIsIndex(d, k);
    if k in d.m { PairsWithout(d.m, d.order, IndexOf(d.order, k)); }
  }

  lemma PairsWithout(m: map<string, Entry>, order: seq<string>, i: nat)
    requires i < |order| && (forall x :: x in order ==> x in m)
    requires forall x :: x in WithoutIndex(order, i) ==> x in m - {order[i]}
    ensures PairsOf(Dict(m - {order[i]}, WithoutIndex(order, i))) == WithoutIndex(PairsOf(Dict(m, order)), i)
  {
    var rest := WithoutIndex(order, i);
    assert forall j :: 0 <= j < |rest| ==> rest[j] == order[if j < i then j else j + 1];
  }

  // Keys and values line up with the pairs, place by place; the key at a place is filed there, and
  // looking it up gives the value listed beside it.
  lemma KeysAndValuesAlign(env: Env, d: Dict, i: nat)
    requires Filed(env, d) && i < |d.order|
    ensures |Keys(d)| == |ItemValues(d)| == |PairsOf(d)| == |d.order|
    ensures Keys(d)[i] == PairsOf(d)[i].1.key && ItemValues(d)[i] == PairsOf(d)[i].1.value
    ensures EncodeKey(env, Keys(d)[i]) == Ok(d.order[i])
    ensures Lookup(env, d, Keys(d)[i]) == Some(ItemValues(d)[i])
  {
    IndexOfIsFirst(d.order, d.order[i], i);
  }

  // A new key goes last and everything listed stays.
  lemma NewKeyGoesLast(d: Dict, k: string, e: Entry)
    requires InStep(d) && k !in d.m
    ensures InStep(Put(d, k, e, false))
    ensures Keys(Put(d, k, e, false)) == Keys(d) + [e.key]
    ensures ItemValues(Put(d, k, e, false)) == ItemValues(d) + [e.value]
  {
    PutKeepsStep(d, k, e, false);
  }

  // An overwritten entry keeps its place, and the others theirs.
  lemma OverwriteKeepsPlace(d: Dict, e: Entry, i: nat)
    requires InStep(d) && i < |d.order|
    ensures InStep(Put(d, d.order[i], e, false))
    ensures Keys(Put(d, d.order[i], e, false)) == Keys(d)[i := e.key]
    ensures ItemValues(Put(d, d.order[i], e, false)) == ItemValues(d)[i := e.value]
  {
    PutKeepsStep(d, d.order[i], e, false);
  }

  // A removed one leaves no gap.
  lemma RemovalLeavesNoGap(d: Dict, i: nat)
    requires InStep(d) && i < |d.order|
    ensures InStep(Delete(d, d.order[i]))
    ensures Keys(Delete(d, d.order[i])) == WithoutIndex(Keys(d), i)
    ensures ItemValues(Delete(d, d.order[i])) == WithoutIndex(ItemValues(d), i)
  {
    DeleteKeepsStep(d, d.order[i]);
    IndexOfIsFirst(d.order, d.order[i], i);
    ListedWithout(d.m, d.order, i);
  }

  lemma ListedWithout(m: map<string, Entry>, order: seq<string>, i: nat)
    requires i < |order| && (forall x :: x in order ==> x in m)
    requires forall x :: x in WithoutIndex(order, i) ==> x in m - {order[i]}
    ensures Keys(Dict(m - {order[i]}, WithoutIndex(order, i))) == WithoutIndex(Keys(Dict(m, order)), i)
    ensures ItemValues(Dict(m - {order[i]}, WithoutIndex(order, i))) == WithoutIndex(ItemValues(Dict(m, order)), i)
  {
    var rest := WithoutIndex(order, i);
    assert forall j :: 0 <= j < |rest| ==> rest[j] == order[if j < i then j else j + 1];
  }

  // ---------------------------------------------------------------- runs

  datatype Op = Add(key: Value, value: Value) | SetItem(key: Value, value: Value) | Remove(key: Value) | Clear

  ghost function Apply(env: Env, sorted: bool, d: Dict, op: Op): (r: Dict)
    requires InStep(d)
    ensures InStep(r)
  {
    if op.Clear? then EMPTY
    else match EncodeKey(env, op.key)
      case Err(_) => d
      case Ok(k) =>
        if op.Remove? then
          DeleteKeepsStep(d, k);
          Delete(d, k)
        else if op.Add? && k in d.m then d
        else
          PutKeepsStep(d, k, Entry(op.key, op.value), sorted);
          Put(d, k, Entry(op.key, op.value), sorted)
  }

  ghost function Run(env: Env, sorted: bool, d: Dict, ops: seq<Op>): (r: Dict)
    requires InStep(d)
    ensures InStep(r)
    decreases |ops|
  {
    if ops == [] then d else Run(env, sorted, Apply(env, sorted, d, ops[0]), ops[1..])
  }

  // Entries are filed under the encoding of the key they carry.
  ghost predicate Filed(env: Env, d: Dict) {
    InStep(d) && forall k :: k in d.m ==> EncodeKey(env, d.m[k].key) == Ok(k)
  }

  lemma ApplyKeepsFiled(env: Env, sorted: bool, d: Dict, op: Op)
    requires Filed(env, d)
    ensures Filed(env, Apply(env, sorted, d, op))
  {}

  lemma {:induction false} RunKeepsFiled(env: Env, sorted: bool, d: Dict, ops: seq<Op>)
    requires Filed(env, d)
    ensures Filed(env, Run(env, sorted, d, ops))
    decreases |ops|
  {
    if ops != [] {
      ApplyKeepsFiled(env, sorted, d, ops[0]);
      RunKeepsFiled(env, sorted, Apply(env, sorted, d, ops[0]), ops[1..]);
    }
  }

  // Keys that have encodings, each another one.
  ghost predicate EncodedApart(env: Env, entries: seq<Entry>) {
    && (forall i :: 0 <= i < |entries| ==> EncodeKey(env, entries[i].key).Ok?)
    && (forall i, j :: 0 <= i < j < |entries| ==> EncodeKey(env, entries[i].key) != EncodeKey(env, entries[j].key))
  }

  // Such keys, added one after another, are listed in the order they were added.
  lemma AddedInOrder(env: Env, entries: seq<Entry>)
    requires EncodedApart(env, entries)
    ensures Lists(env, Run(env, false, EMPTY, Adds(entries)), entries)
  {
    AddedAfter(env, EMPTY, [], entries);
    assert [] + entries == entries;
  }

  lemma {:induction false} AddedAfter(env: Env, d: Dict, done: seq<Entry>, rest: seq<Entry>)
    requires Lists(env, d, done) && EncodedApart(env, done + rest)
    ensures Lists(env, Run(env, false, d, Adds(rest)), done + rest)
    decreases |rest|
  {
    if rest == [] {
      assert done + rest == done;
    } else {
      assert (done + rest)[|done|] == rest[0];
      forall i | 0 <= i < |done| ensures EncodeKey(env, done[i].key) != EncodeKey(env, rest[0].key) {
        assert (done + rest)[i] == done[i];
      }
      AddLists(env, d, done, rest[0]);
      assert Adds(rest)[1..] == Adds(rest[1..]);
      var d', done' := Apply(env, false, d, Add(rest[0].key, rest[0].value)), done + [rest[0]];
      assert done + rest == done' + rest[1..];
      AddedAfter(env, d', done', rest[1..]);
      assert Run(env, false, d, Adds(rest)) == Run(env, false, d', Adds(rest[1..]));
    }
  }

  // d lists these entries, in this order.
  ghost predicate Lists(env: Env, d: Dict, entries: seq<Entry>) {
    && InStep(d) && |d.order| == |Keys(d)| == |ItemValues(d)| == |entries|
    && forall i :: 0 <= i < |entries| ==>
         && Keys(d)[i] == entries[i].key && ItemValues(d)[i] == entries[i].value
         && EncodeKey(env, entries[i].key) == Ok(d.order[i])
  }

  lemma AddLists(env: Env, d: Dict, entries: seq<Entry>, e: Entry)
    requires Lists(env, d, entries) && EncodeKey(env, e.key).Ok?
    requires forall i :: 0 <= i < |entries| ==> EncodeKey(env, entries[i].key) != EncodeKey(env, e.key)
    ensures Lists(env, Apply(env, false, d, Add(e.key, e.value)), entries + [e])
  {
    var k := EncodeKey(env, e.key).value;
    assert k !in d.order;
    NewKeyGoesLast(d, k, e);
  }

  function Adds(entries: seq<Entry>): (ops: seq<Op>)
    ensures |ops| == |entries|
  {
    seq(|entries|, i requires 0 <= i < |entries| => Add(entries[i].key, entries[i].value))
  }

  // The same run over a mathematical map from keys to values.
  function ModelStep(m: map<Value, Value>, op: Op): map<Value, Value> {
    match op
    case Add(key, value) => if key in m then m else m[key := value]
    case SetItem(key, value) => m[key := value]
    case Remove(key) => m - {key}
    case Clear => map[]
  }

  function Model(m: map<Value, Value>, ops: seq<Op>): map<Value, Value>
    decreases |ops|
  {
    if ops == [] then m else Model(ModelStep(m, ops[0]), ops[1..])
  }

  // d holds exactly the bindings of m.
  ghost predicate Represents(env: Env, d: Dict, m: map<Value, Value>) {
    && Filed(env, d)
    && (forall k :: k in d.m ==> d.m[k].key in m && m[d.m[k].key] == d.m[k].value)
    && (forall key :: key in m ==> EncodeKey(env, key).Ok? && EncodeKey(env, key).value in d.m)
  }

  // All keys of one dictionary type: scalars, any string among them, or structs of the same shape
  // with scalar leaves, whose strings are comma-free.
  ghost predicate KeyType(env: Env, sample: Value, key: Value) {
    if sample.Struct? then PlainKey(env, key) && SameShape(key, sample) else Scalar(env, key)
  }

  lemma {:induction false} ShapesCompose(a: Value, b: Value, c: Value)
    requires SameShape(a, c) && SameShape(b, c)
    ensures SameShape(a, b)
  {
    if a.Struct? {
      forall i | 0 <= i < |a.fields| ensures SameShape(a.fields[i], b.fields[i]) {
        ShapesCompose(a.fields[i], b.fields[i], c.fields[i]);
      }
    }
  }

  lemma TypedKeysInjective(env: Env, sample: Value, x: Value, y: Value)
    requires KeyType(env, sample, x) && KeyType(env, sample, y)
    ensures EncodeKey(env, x).Ok? && EncodeKey(env, y).Ok?
    ensures EncodeKey(env, x) == EncodeKey(env, y) ==> x == y
  {
    if sample.Struct? {
      PlainKeysEncode(env, x);
      PlainKeysEncode(env, y);
      ShapesCompose(x, y, sample);
      if EncodeKey(env, x) == EncodeKey(env, y) { PlainKeysInjective(env, x, y); }
    } else if EncodeKey(env, x) == EncodeKey(env, y) {
      ScalarKeysInjective(env, x, y);
    }
  }

  // No other key of the map has the encoding k of `key`.
  ghost predicate Apart(env: Env, m: map<Value, Value>, key: Value, k: string) {
    EncodeKey(env, key) == Ok(k) && forall x :: x in m && EncodeKey(env, x) == Ok(k) ==> x == key
  }

  lemma PresentIffBound(env: Env, d: Dict, m: map<Value, Value>, key: Value, k: string)
    requires Represents(env, d, m) && Apart(env, m, key, k)
    ensures k in d.m <==> key in m
  {}

  lemma PutRepresents(env: Env, sorted: bool, d: Dict, m: map<Value, Value>, key: Value, value: Value, k: string)
    requires Represents(env, d, m) && Apart(env, m, key, k)
    ensures Represents(env, Put(d, k, Entry(key, value), sorted), m[key := value])
  {
    PutKeepsStep(d, k, Entry(key, value), sorted);
    var r := Put(d, k, Entry(key, value), sorted);
    forall x | x in r.m ensures r.m[x].key in m[key := value] && m[key := value][r.m[x].key] == r.m[x].value {
      assert x in d.m && x != k ==> EncodeKey(env, d.m[x].key) == Ok(x) != Ok(k);
    }
  }

  lemma DeleteRepresents(env: Env, d: Dict, m: map<Value, Value>, key: Value, k: string)
    requires Represents(env, d, m) && Apart(env, m, key, k)
    ensures Represents(env, Delete(d, k), m - {key})
  {
    DeleteKeepsStep(d, k);
  }

  lemma TypedKeysApart(env: Env, m: map<Value, Value>, key: Value, sample: Value)
    requires KeyType(env, sample, key) && forall x :: x in m ==> KeyType(env, sample, x)
    ensures EncodeKey(env, key).Ok? && Apart(env, m, key, EncodeKey(env, key).value)
  {
    TypedKeysInjective(env, sample, key, key);
    forall x | x in m && EncodeKey(env, x) == EncodeKey(env, key) ensures x == key {
      TypedKeysInjective(env, sample, x, key);
    }
  }

  // Reading a key answers what the map binds it to, and nothing exactly for keys it does not bind.
  lemma LookupReadsMap(env: Env, d: Dict, m: map<Value, Value>, key: Value, sample: Value)
    requires Represents(env, d, m) && KeyType(env, sample, key) && forall x :: x in m ==> KeyType(env, sample, x)
    ensures Lookup(env, d, key) == if key in m then Some(m[key]) else None
  {
    TypedKeysApart(env, m, key, sample);
    var k := EncodeKey(env, key).value;
    assert k in d.m ==> EncodeKey(env, d.m[k].key) == Ok(k);
  }

  lemma ApplyRepresents(env: Env, sorted: bool, d: Dict, m: map<Value, Value>, op: Op, sample: Value)
    requires Represents(env, d, m) && (forall key :: key in m ==> KeyType(env, sample, key))
    requires !op.Clear? ==> KeyType(env, sample, op.key)
    ensures Represents(env, Apply(env, sorted, d, op), ModelStep(m, op))
  {
    if !op.Clear? {
      TypedKeysApart(env, m, op.key, sample);
      var k := EncodeKey(env, op.key).value;
      if op.Remove? {
        DeleteRepresents(env, d, m, op.key, k);
      } else {
        PresentIffBound(env, d, m, op.key, k);
        PutRepresents(env, sorted, d, m, op.key, op.value, k);
      }
    }
  }

  // Any run over keys of one type is a run over the mathematical map, whatever it does.
  lemma {:induction false} RunRefinesMap(
      env: Env, sorted: bool, d: Dict, m: map<Value, Value>, ops: seq<Op>, sample: Value)
    requires Represents(env, d, m) && (forall key :: key in m ==> KeyType(env, sample, key))
    requires forall i :: 0 <= i < |ops| && !ops[i].Clear? ==> KeyType(env, sample, ops[i].key)
    ensures Represents(env, Run(env, sorted, d, ops), Model(m, ops))
    decreases |ops|
  {
    if ops != [] {
      ApplyRepresents(env, sorted, d, m, ops[0], sample);
      RunRefinesMap(env, sorted, Apply(env, sorted, d, ops[0]), ModelStep(m, ops[0]), ops[1..], sample);
    }
  }

  // ---------------------------------------------------------------- sorted dictionaries

  // Keys that are encoded apart exactly when they compare apart.
  predicate SortKey(kind: Value, key: Value) { SameKind(key, kind) && (key.I4? || key.I8? || key.Str?) }

  ghost predicate Ascends(m: map<string, Entry>, order: seq<string>)
    requires forall k :: k in order ==> k in m
  {
    forall i, j :: 0 <= i < j < |order| ==> Compare(m[order[i]].key, m[order[j]].key) < 0
  }

  ghost predicate KeysAscend(d: Dict, kind: Value) {
    InStep(d) && (forall k :: k in d.m ==> SortKey(kind, d.m[k].key)) && Ascends(d.m, d.order)
  }

  // A key on one side of everything before the slot and on the other side of everything after.
  lemma AroundSlot(env: Env, d: Dict, key: Value, k: string, kind: Value, j: nat)
    requires Filed(env, d) && KeysAscend(d, kind) && SortKey(kind, key)
    requires EncodeKey(env, key) == Ok(k) && k !in d.m && j < |d.order|
    ensures var other := d.m[d.order[j]].key;
      if j < Slot(d.m, d.order, key) then Compare(other, key) < 0 else Compare(key, other) < 0
  {
    if j < Slot(d.m, d.order, key) {
      SlotSpec(d.m, d.order, key);
      OtherKeyComparesApart(env, d, key, k, kind, j);
    } else {
      PastSlot(d, key, kind, j);
    }
  }

  lemma PastSlot(d: Dict, key: Value, kind: Value, j: nat)
    requires KeysAscend(d, kind) && SortKey(kind, key) && Slot(d.m, d.order, key) <= j < |d.order|
    ensures Compare(key, d.m[d.order[j]].key) < 0
  {
    SlotSpec(d.m, d.order, key);
    var i := Slot(d.m, d.order, key);
    if j > i { CompareIsTotalOrder(key, d.m[d.order[i]].key, d.m[d.order[j]].key); }
  }

  lemma OtherKeyComparesApart(env: Env, d: Dict, key: Value, k: string, kind: Value, j: nat)
    requires Filed(env, d) && KeysAscend(d, kind) && SortKey(kind, key)
    requires EncodeKey(env, key) == Ok(k) && k !in d.m && j < |d.order|
    ensures var other := d.m[d.order[j]].key; Compare(other, key) < 0 || Compare(key, other) < 0
  {
    var other := d.m[d.order[j]].key;
    assert EncodeKey(env, other) == Ok(d.order[j]) != Ok(k);
    CompareIsTotalOrder(other, key, key);
    EqualIffSameComparable(other, key);
  }

  lemma InsertAscends(m: map<string, Entry>, order: seq<string>, i: nat, k: string, e: Entry)
    requires (forall x :: x in order ==> x in m) && Ascends(m, order) && i <= |order| && k !in order
    requires forall j :: 0 <= j < |order| ==>
      if j < i then Compare(m[order[j]].key, e.key) < 0 else Compare(e.key, m[order[j]].key) < 0
    ensures forall x :: x in WithInserted(order, i, k) ==> x in m[k := e]
    ensures Ascends(m[k := e], WithInserted(order, i, k))
  {
    var r := WithInserted(order, i, k);
    assert forall j :: 0 <= j < |r| ==> r[j] == if j < i then order[j] else if j == i then k else order[j - 1];
  }

  lemma RemoveAscends(m: map<string, Entry>, order: seq<string>, i: nat)
    requires (forall x :: x in order ==> x in m) && Ascends(m, order) && i < |order|
    requires forall x :: x in WithoutIndex(order, i) ==> x in m - {order[i]}
    ensures Ascends(m - {order[i]}, WithoutIndex(order, i))
  {
    var r := WithoutIndex(order, i);
    assert forall j :: 0 <= j < |r| ==> r[j] == if j < i then order[j] else order[j + 1];
  }

  lemma NewKeyAscends(env: Env, d: Dict, e: Entry, k: string, kind: Value)
    requires Filed(env, d) && KeysAscend(d, kind) && SortKey(kind, e.key)
    requires EncodeKey(env, e.key) == Ok(k) && k !in d.m
    ensures KeysAscend(Put(d, k, e, true), kind)
  {
    PutKeepsStep(d, k, e, true);
    var i := Slot(d.m, d.order, e.key);
    forall j | 0 <= j < |d.order|
      ensures if j < i then Compare(d.m[d.order[j]].key, e.key) < 0 else Compare(e.key, d.m[d.order[j]].key) < 0
    {
      AroundSlot(env, d, e.key, k, kind, j);
    }
    InsertAscends(d.m, d.order, i, k, e);
  }

  lemma OverwriteAscends(env: Env, d: Dict, e: Entry, k: string, kind: Value)
    requires Filed(env, d) && KeysAscend(d, kind) && SortKey(kind, e.key)
    requires EncodeKey(env, e.key) == Ok(k) && k in d.m
    ensures KeysAscend(Put(d, k, e, true), kind)
  {
    ScalarKeysInjective(env, e.key, d.m[k].key);
    PutKeepsStep(d, k, e, true);
  }

  lemma DeleteKeepsAscending(d: Dict, k: string, kind: Value)
    requires KeysAscend(d, kind)
    ensures KeysAscend(Delete(d, k), kind)
  {
    DeleteKeepsStep(d, k);
    if k in d.m { RemoveAscends(d.m, d.order, IndexOf(d.order, k)); }
  }

  lemma SortedStep(env: Env, d: Dict, op: Op, kind: Value)
    requires Filed(env, d) && KeysAscend(d, kind) && (!op.Clear? ==> SortKey(kind, op.key))
    ensures KeysAscend(Apply(env, true, d, op), kind)
  {
    if !op.Clear? {
      var k := EncodeKey(env, op.key).value;
      if op.Remove? {
        DeleteKeepsAscending(d, k, kind);
      } else if k !in d.m {
        NewKeyAscends(env, d, Entry(op.key, op.value), k, kind);
      } else if op.SetItem? {
        OverwriteAscends(env, d, Entry(op.key, op.value), k, kind);
      }
    }
  }

  // In any run over integer or string keys of one kind, a sorted dictionary lists its keys in
  // strictly ascending order.
  lemma {:induction false} SortedRunAscends(env: Env, d: Dict, ops: seq<Op>, kind: Value)
    requires Filed(env, d) && KeysAscend(d, kind)
    requires forall i :: 0 <= i < |ops| && !ops[i].Clear? ==> SortKey(kind, ops[i].key)
    ensures KeysAscend(Run(env, true, d, ops), kind)
    decreases |ops|
  {
    if ops != [] {
      ApplyKeepsFiled(env, true, d, ops[0]);
      SortedStep(env, d, ops[0], kind);
      SortedRunAscends(env, Apply(env, true, d, ops[0]), ops[1..], kind);
    }
  }

  // And the keys it lists go upwards: integers by size, strings lexicographically.
  lemma SortedKeysGoUpwards(d: Dict, kind: Value, i: nat, j: nat)
    requires KeysAscend(d, kind) && i < j < |d.order|
    ensures |Keys(d)| == |d.order|
    ensures Keys(d)[i].I4? && Keys(d)[j].I4? ==> Keys(d)[i].i < Keys(d)[j].i
    ensures Keys(d)[i].I8? && Keys(d)[j].I8? ==> Keys(d)[i].l < Keys(d)[j].l
    ensures Keys(d)[i].Str? && Keys(d)[j].Str? ==> StringLess(Keys(d)[i].s, Keys(d)[j].s)
  {
    var a, b := Keys(d)[i], Keys(d)[j];
    if SameKind(a, b) { CompareDirection(a, b); }
  }
}
