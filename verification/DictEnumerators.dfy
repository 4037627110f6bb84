// Enumerating a dictionary while it changes: the enumerator holds a snapshot of the encoded keys
// and looks each one up when it is read (internal/bcl/system_collections.go:509-567).
module DictEnumerators {
  import opened Common
  import opened Values
  import opened KeyEncoding
  import opened Dictionaries

  // What Current answers at a position of the snapshot: a default pair off its ends, and an error
  // for a key that is no longer there.
  function Look(d: Dict, keys: seq<string>, index: int): Result<Entry, ()> {
    if index < 0 || index >= |keys| then Ok(Entry(Null, Null))
    else if keys[index] in d.m then Ok(d.m[keys[index]])
    else Err(())
  }

  class DictEnumerator {
    const dict: NativeDict
    const keys: seq<string>
    var index: int

    constructor (dict: NativeDict)
      ensures this.dict == dict && keys == dict.order && index == -1
    {
      this.dict, keys, index := dict, dict.order, -1;
    }

    method MoveNext() returns (more: bool)
      modifies this
      ensures index == old(index) + 1 && more == (index < |keys|)
    {
      index := index + 1;
      more := index < |keys|;
    }

    method Current() returns (r: Result<Entry, ()>)
      ensures r == Look(dict.State(), keys, index)
    {
      if index < 0 || index >= |keys| { return Ok(Entry(Null, Null)); }
      if keys[index] !in dict.m { return Err(()); }
      return Ok(dict.m[keys[index]]);
    }
  }

  // What a loop from position i reads, when the dictionary is changed before each read by the next
  // batch of operations.
  ghost function Reads(env: Env, sorted: bool, d: Dict, keys: seq<string>, i: nat, script: seq<seq<Op>>)
    : seq<Result<Entry, ()>>
    requires InStep(d) && Filed(env, d) && i <= |keys| <= i + |script|
    decreases |keys| - i
  {
    if i == |keys| then []
    else
      RunKeepsFiled(env, sorted, d, script[0]);
      var d' := Run(env, sorted, d, script[0]);
      [Look(d', keys, i)] + Reads(env, sorted, d', keys, i + 1, script[1..])
  }

  // The operation takes key k out.
  predicate Takes(env: Env, op: Op, k: string) {
    op.Clear? || (op.Remove? && EncodeKey(env, op.key) == Ok(k))
  }

  lemma {:induction false} UntouchedKeyStays(env: Env, sorted: bool, d: Dict, ops: seq<Op>, k: string)
    requires Filed(env, d) && k in d.m && forall op :: op in ops ==> !Takes(env, op, k)
    ensures k in Run(env, sorted, d, ops).m
    decreases |ops|
  {
    if ops != [] {
      assert ops[0] in ops;
      ApplyKeepsFiled(env, sorted, d, ops[0]);
      UntouchedKeyStays(env, sorted, Apply(env, sorted, d, ops[0]), ops[1..], k);
    }
  }

  // The first read, and what the later ones are made of.
  lemma ReadsStep(env: Env, sorted: bool, d: Dict, keys: seq<string>, i: nat, script: seq<seq<Op>>)
    requires Filed(env, d) && i < |keys| <= i + |script|
    ensures var d' := Run(env, sorted, d, script[0]);
      && Filed(env, d')
      && Reads(env, sorted, d, keys, i, script) ==
         [Look(d', keys, i)] + Reads(env, sorted, d', keys, i + 1, script[1..])
  {
    RunKeepsFiled(env, sorted, d, script[0]);
  }

  lemma {:induction false} ReadsFollowSnapshot(
      env: Env, sorted: bool, d: Dict, keys: seq<string>, i: nat, script: seq<seq<Op>>, j: nat)
    requires Filed(env, d) && i <= j < |keys| <= i + |script|
    requires keys[j] in d.m
    requires forall batch, op :: batch in script && op in batch ==> !Takes(env, op, keys[j])
    ensures var rs := Reads(env, sorted, d, keys, i, script);
      |rs| == |keys| - i && rs[j - i].Ok? && EncodeKey(env, rs[j - i].value.key) == Ok(keys[j])
    decreases j - i
  {
    assert script[0] in script;
    UntouchedKeyStays(env, sorted, d, script[0], keys[j]);
    ReadsStep(env, sorted, d, keys, i, script);
    var d' := Run(env, sorted, d, script[0]);
    if j > i {
      assert forall batch :: batch in script[1..] ==> batch in script;
      ReadsFollowSnapshot(env, sorted, d', keys, i + 1, script[1..], j);
    } else {
      ReadsLength(env, sorted, d', keys, i + 1, script[1..]);
    }
  }

  lemma {:induction false} ReadsLength(env: Env, sorted: bool, d: Dict, keys: seq<string>, i: nat, script: seq<seq<Op>>)
    requires Filed(env, d) && i <= |keys| <= i + |script|
    ensures |Reads(env, sorted, d, keys, i, script)| == |keys| - i
    decreases |keys| - i
  {
    if i < |keys| {
      RunKeepsFiled(env, sorted, d, script[0]);
      ReadsLength(env, sorted, Run(env, sorted, d, script[0]), keys, i + 1, script[1..]);
    }
  }

  // The dictionary when the j-th read is made.
  ghost function DictAt(env: Env, sorted: bool, d: Dict, script: seq<seq<Op>>, j: nat): (r: Dict)
    requires Filed(env, d) && j < |script|
    ensures Filed(env, r)
  {
    var before := if j == 0 then d else DictAt(env, sorted, d, script, j - 1);
    RunKeepsFiled(env, sorted, before, script[j]);
    Run(env, sorted, before, script[j])
  }

  // Every read answers the entry that is filed under the snapshot's key at that moment, changed or not,
  // and an error exactly for a key that is gone.
  lemma {:induction false} ReadsAnswerPresent(
      env: Env, sorted: bool, d: Dict, keys: seq<string>, i: nat, script: seq<seq<Op>>, j: nat)
    requires Filed(env, d) && i + j < |keys| <= i + |script|
    ensures var rs, now := Reads(env, sorted, d, keys, i, script), DictAt(env, sorted, d, script, j);
      |rs| == |keys| - i && rs[j] == if keys[i + j] in now.m then Ok(now.m[keys[i + j]]) else Err(())
    decreases j
  {
    ReadsLength(env, sorted, d, keys, i, script);
    ReadsStep(env, sorted, d, keys, i, script);
    if j > 0 {
      var d' := Run(env, sorted, d, script[0]);
      ReadsAnswerPresent(env, sorted, d', keys, i + 1, script[1..], j - 1);
      DictAtLater(env, sorted, d, script, j);
    }
  }

  lemma {:induction false} DictAtLater(env: Env, sorted: bool, d: Dict, script: seq<seq<Op>>, j: nat)
    requires Filed(env, d) && 0 < j < |script|
    ensures Filed(env, Run(env, sorted, d, script[0]))
    ensures DictAt(env, sorted, d, script, j) == DictAt(env, sorted, Run(env, sorted, d, script[0]), script[1..], j - 1)
    decreases j
  {
    RunKeepsFiled(env, sorted, d, script[0]);
    if j > 1 { DictAtLater(env, sorted, d, script, j - 1); }
  }

  // An enumeration reads the entries of exactly the keys present when it was started, each once
  // and in their order then, whatever is inserted or overwritten on the way, as long as none of
  // those keys is removed.
  lemma EnumerationIsSnapshot(env: Env, sorted: bool, d: Dict, script: seq<seq<Op>>)
    requires Filed(env, d) && |script| == |d.order|
    requires forall k, batch, op :: k in d.m && batch in script && op in batch ==> !Takes(env, op, k)
    ensures var rs := Reads(env, sorted, d, d.order, 0, script);
      && |rs| == |d.order| && Distinct(d.order)
      && forall j :: 0 <= j < |rs| ==> rs[j].Ok? && EncodeKey(env, rs[j].value.key) == Ok(d.order[j])
  {
    ReadsLength(env, sorted, d, d.order, 0, script);
    forall j | 0 <= j < |d.order|
      ensures var r := Reads(env, sorted, d, d.order, 0, script)[j];
        r.Ok? && EncodeKey(env, r.value.key) == Ok(d.order[j])
    {
      assert d.order[j] in d.m;
      ReadsFollowSnapshot(env, sorted, d, d.order, 0, script, j);
    }
  }
}
