// Values of the interpreter as the collections see them, valuesEqual
// (internal/bcl/system_object.go:466-503) and compareValuesNatural
// (internal/bcl/system_sorted_compare.go:23-66).
module Values {
  type Int32 = x: int | -0x8000_0000 <= x < 0x8000_0000
  type Int64 = x: int | -0x8000_0000_0000_0000 <= x < 0x8000_0000_0000_0000

  // A floating-point number: what comparison sees of one. Negative zero compares as zero.
  datatype Float = NaN | NegInf | PosInf | Num(r: real)

  // Objects, arrays, delegates, byte buffers and managed pointers are identities.
  datatype Value =
    | Null
    | I4(i: Int32)
    | I8(l: Int64)
    | R4(f: Float)
    | R8(d: Float)
    | Str(s: string)
    | Obj(obj: nat)
    | Arr(arr: nat)
    | Struct(typ: nat, fields: seq<Value>)
    | Func(func: nat)
    | Bytes(bytes: nat)
    | Ref(ref: nat)

  predicate FloatsEqual(a: Float, b: Float) { !a.NaN? && a == b }

  predicate ValuesEqual(a: Value, b: Value) {
    match (a, b)
    case (Null, Null) => true
    case (I4(x), I4(y)) => x == y
    case (I8(x), I8(y)) => x == y
    case (R4(x), R4(y)) => FloatsEqual(x, y)
    case (R8(x), R8(y)) => FloatsEqual(x, y)
    case (Str(x), Str(y)) => x == y
    case (Obj(x), Obj(y)) => x == y
    case (Arr(x), Arr(y)) => x == y
    case (Struct(t, xs), Struct(u, ys)) =>
      t == u && |xs| == |ys| && forall i :: 0 <= i < |xs| ==> ValuesEqual(xs[i], ys[i])
    case _ => false
  }

  // Has no NaN and no delegate, byte buffer or pointer in it.
  predicate Comparable(v: Value) {
    match v
    case R4(x) => !x.NaN?
    case R8(x) => !x.NaN?
    case Struct(_, xs) => forall i :: 0 <= i < |xs| ==> Comparable(xs[i])
    case Func(_) => false
    case Bytes(_) => false
    case Ref(_) => false
    case _ => true
  }

  // valuesEqual is identity on comparable values, and finds nothing equal to any other value, not
  // even the value itself.
  lemma {:induction false} EqualIffSameComparable(a: Value, b: Value)
    ensures ValuesEqual(a, b) <==> a == b && Comparable(a)
  {
    if a.Struct? && b.Struct? && |a.fields| == |b.fields| {
      forall i | 0 <= i < |a.fields|
        ensures ValuesEqual(a.fields[i], b.fields[i]) <==> a.fields[i] == b.fields[i] && Comparable(a.fields[i])
      {
        EqualIffSameComparable(a.fields[i], b.fields[i]);
      }
      assert a == b <==> a.typ == b.typ && a.fields == b.fields;
    }
  }

  // Which single values equal themselves: all but NaN, delegates, byte buffers and pointers.
  lemma WhatEqualsItself(v: Value)
    ensures v.Null? || v.I4? || v.I8? || v.Str? || v.Obj? || v.Arr? ==> ValuesEqual(v, v)
    ensures v.Func? || v.Bytes? || v.Ref? || v == R4(NaN) || v == R8(NaN) ==> !ValuesEqual(v, v)
    ensures (v.R4? && v.f != NaN) || (v.R8? && v.d != NaN) ==> ValuesEqual(v, v)
    ensures v.Struct? ==> (ValuesEqual(v, v) <==>
                           forall i :: 0 <= i < |v.fields| ==> ValuesEqual(v.fields[i], v.fields[i]))
  {
  }

  lemma EqualIsSymmetric(a: Value, b: Value)
    ensures ValuesEqual(a, b) <==> ValuesEqual(b, a)
  {
    EqualIffSameComparable(a, b);
    EqualIffSameComparable(b, a);
  }

  // ---------------------------------------------------------------- order

  function Sign(less: bool, greater: bool): int { if less then -1 else if greater then 1 else 0 }

  predicate FloatLess(a: Float, b: Float) {
    match (a, b)
    case (NegInf, PosInf) => true
    case (NegInf, Num(_)) => true
    case (Num(_), PosInf) => true
    case (Num(x), Num(y)) => x < y
    case _ => false
  }

  predicate StringLess(a: string, b: string) {
    if b == "" then false
    else if a == "" then true
    else a[0] < b[0] || (a[0] == b[0] && StringLess(a[1..], b[1..]))
  }

  // Only the first argument's kind is looked at; of another kind, the second counts as that kind's
  // zero value.
  function Compare(a: Value, b: Value): int {
    match a
    case I4(x) => var y: int := if b.I4? then b.i else 0; Sign(x < y, x > y)
    case I8(x) => var y: int := if b.I8? then b.l else 0; Sign(x < y, x > y)
    case R4(x) => var y := if b.R4? then b.f else Num(0.0); Sign(FloatLess(x, y), FloatLess(y, x))
    case R8(x) => var y := if b.R8? then b.d else Num(0.0); Sign(FloatLess(x, y), FloatLess(y, x))
    case Str(x) => var y := if b.Str? then b.s else ""; Sign(StringLess(x, y), StringLess(y, x))
    case _ => 0
  }

  predicate SameKind(a: Value, b: Value) {
    match (a, b)
    case (Null, Null) => true
    case (I4(_), I4(_)) => true
    case (I8(_), I8(_)) => true
    case (R4(_), R4(_)) => true
    case (R8(_), R8(_)) => true
    case (Str(_), Str(_)) => true
    case (Obj(_), Obj(_)) => true
    case (Arr(_), Arr(_)) => true
    case (Struct(_, _), Struct(_, _)) => true
    case (Func(_), Func(_)) => true
    case (Bytes(_), Bytes(_)) => true
    case (Ref(_), Ref(_)) => true
    case _ => false
  }

  // Integers, strings and floating-point numbers other than NaN.
  predicate Ordered(v: Value) {
    v.I4? || v.I8? || v.Str? || (v.R4? && !v.f.NaN?) || (v.R8? && !v.d.NaN?)
  }

  lemma {:induction false} StringOrder(a: string, b: string)
    ensures !(StringLess(a, b) && StringLess(b, a))
    ensures StringLess(a, b) || StringLess(b, a) || a == b
    ensures a == b ==> !StringLess(a, b)
  {
    if a != "" && b != "" {
      StringOrder(a[1..], b[1..]);
      if a[0] == b[0] && a[1..] == b[1..] { assert a == [a[0]] + a[1..] == b; }
    }
  }

  lemma {:induction false} StringLessTransitive(a: string, b: string, c: string)
    requires StringLess(a, b) && StringLess(b, c)
    ensures StringLess(a, c)
  {
    if a != "" && a[0] == b[0] == c[0] { StringLessTransitive(a[1..], b[1..], c[1..]); }
  }

  // On ordered values of one kind, comparison is a total order whose zero is valuesEqual.
  lemma CompareIsTotalOrder(a: Value, b: Value, c: Value)
    requires SameKind(a, b) && SameKind(b, c) && Ordered(a) && Ordered(b) && Ordered(c)
    ensures Compare(a, b) == -Compare(b, a)
    ensures Compare(a, b) == 0 <==> ValuesEqual(a, b)
    ensures Compare(a, b) < 0 && Compare(b, c) < 0 ==> Compare(a, c) < 0
  {
    if a.Str? {
      StringOrder(a.s, b.s);
      StringOrder(a.s, c.s);
      if StringLess(a.s, b.s) && StringLess(b.s, c.s) { StringLessTransitive(a.s, b.s, c.s); }
    }
  }

  lemma CompareSelf(a: Value)
    ensures Compare(a, a) == 0
  {
    if a.Str? { StringOrder(a.s, a.s); }
  }

  // And it tells two different values of one kind apart exactly when both are ordered.
  lemma DistinguishesIffOrdered(a: Value, b: Value)
    requires SameKind(a, b) && !ValuesEqual(a, b)
    ensures Compare(a, b) != 0 <==> Ordered(a) && Ordered(b)
  {
    if Ordered(a) && Ordered(b) { CompareIsTotalOrder(a, b, b); }
  }

  // Which way it goes: numbers by size, infinities outermost, and strings by the first character in
  // which they differ, a prefix before what it begins.
  lemma {:induction false} StringLessIsLexicographic(a: string, b: string)
    ensures StringLess(a, b) <==>
      exists n :: 0 <= n <= |a| && n < |b| && a[..n] == b[..n] && (n == |a| || a[n] < b[n])
  {
    if a != "" && b != "" && a[0] == b[0] {
      StringLessIsLexicographic(a[1..], b[1..]);
      if n: nat :| n <= |a[1..]| && n < |b[1..]| && a[1..][..n] == b[1..][..n]
                   && (n == |a[1..]| || a[1..][n] < b[1..][n]) {
        assert a[..n + 1] == [a[0]] + a[1..][..n] && b[..n + 1] == [b[0]] + b[1..][..n];
      }
      if n: nat :| n <= |a| && n < |b| && a[..n] == b[..n] && (n == |a| || a[n] < b[n]) {
        assert n > 0;
        assert a[1..][..n - 1] == a[..n][1..] && b[1..][..n - 1] == b[..n][1..];
      }
    } else if StringLess(a, b) {
      assert a[..0] == b[..0];
    } else if a != "" && b != "" {
      forall n | 0 < n <= |a| && n < |b| ensures a[..n] != b[..n] { assert a[..n][0] == a[0] && b[..n][0] == b[0]; }
    }
  }

  // Beside a value of another kind, the first one is compared with zero or the empty string.
  lemma OtherKindsCountAsZero(a: Value, b: Value)
    requires !SameKind(a, b)
    ensures a.I4? ==> Compare(a, b) == Compare(a, I4(0))
    ensures a.I8? ==> Compare(a, b) == Compare(a, I8(0))
    ensures a.R4? ==> Compare(a, b) == Compare(a, R4(Num(0.0)))
    ensures a.R8? ==> Compare(a, b) == Compare(a, R8(Num(0.0)))
    ensures a.Str? ==> Compare(a, b) == Compare(a, Str(""))
    ensures !(a.I4? || a.I8? || a.R4? || a.R8? || a.Str?) ==> Compare(a, b) == 0
  {}

  lemma CompareDirection(a: Value, b: Value)
    requires SameKind(a, b)
    ensures a.I4? ==> (Compare(a, b) < 0 <==> a.i < b.i)
    ensures a.I8? ==> (Compare(a, b) < 0 <==> a.l < b.l)
    ensures a.R8? && a.d.Num? && b.d.Num? ==> (Compare(a, b) < 0 <==> a.d.r < b.d.r)
    ensures a.R4? && a.f.Num? && b.f.Num? ==> (Compare(a, b) < 0 <==> a.f.r < b.f.r)
    ensures a.R8? && !a.d.NaN? && !b.d.NaN? && a != b && (a.d.NegInf? || b.d.PosInf?) ==> Compare(a, b) < 0
    ensures a.R4? && !a.f.NaN? && !b.f.NaN? && a != b && (a.f.NegInf? || b.f.PosInf?) ==> Compare(a, b) < 0
    ensures a.Str? ==> (Compare(a, b) < 0 <==>
      exists n :: 0 <= n <= |a.s| && n < |b.s| && a.s[..n] == b.s[..n] && (n == |a.s| || a.s[n] < b.s[n]))
  {
    if a.Str? { StringLessIsLexicographic(a.s, b.s); }
  }
}
