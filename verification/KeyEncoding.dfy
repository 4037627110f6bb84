// encodeDictKey (internal/bcl/system_collections.go:890-995): dictionary keys as strings.
module KeyEncoding {
  import opened Common
  import opened Values

  // What the encoding needs from outside: float formatting, the URI of objects that are URIs, and
  // the joined encodings of the elements of arrays that have one.
  datatype Env = Env(floatText: Float -> string, uris: map<nat, string>, arrays: map<nat, string>)

  // ---------------------------------------------------------------- numbers

  datatype Base = Ten | Sixteen {
    function Size(): nat { if Ten? then 10 else 16 }
    function Quotient(n: nat): nat { if Ten? then n / 10 else n / 16 }
    function Remainder(n: nat): (r: nat) ensures r < Size() { if Ten? then n % 10 else n % 16 }
  }

  predicate IsDigit(c: char) { '0' <= c <= '9' || 'a' <= c <= 'f' }

  function Digit(d: nat): (c: char)
    requires d < 16
    ensures IsDigit(c)
  {
    if d < 10 then '0' + d as char else 'a' + (d - 10) as char
  }

  function Digits(n: nat, base: Base): (s: string)
    ensures s != "" && forall i :: 0 <= i < |s| ==> IsDigit(s[i])
    decreases n
  {
    if n < base.Size() then [Digit(n)] else Digits(base.Quotient(n), base) + [Digit(base.Remainder(n))]
  }

  function Decimal(n: int): string { if n < 0 then "-" + Digits(-n, Ten) else Digits(n, Ten) }

  lemma {:induction false} DigitsInjective(m: nat, n: nat, base: Base)
    requires Digits(m, base) == Digits(n, base)
    ensures m == n
    decreases m
  {
    var s, t := Digits(m, base), Digits(n, base);
    if m >= base.Size() && n >= base.Size() {
      assert s[|s| - 1] == Digit(base.Remainder(m)) && t[|t| - 1] == Digit(base.Remainder(n));
      assert s[..|s| - 1] == Digits(base.Quotient(m), base) && t[..|t| - 1] == Digits(base.Quotient(n), base);
      DigitsInjective(base.Quotient(m), base.Quotient(n), base);
    } else {
      assert m < base.Size() ==> s == [Digit(m)];
      assert n < base.Size() ==> t == [Digit(n)];
    }
  }

  lemma DecimalInjective(m: int, n: int)
    requires Decimal(m) == Decimal(n)
    ensures m == n
  {
    var s, t := Decimal(m), Decimal(n);
    assert m >= 0 ==> IsDigit(s[0]);
    assert n >= 0 ==> IsDigit(t[0]);
    if m < 0 && n < 0 {
      assert s[1..] == Digits(-m, Ten) && t[1..] == Digits(-n, Ten);
      DigitsInjective(-m, -n, Ten);
    } else if m >= 0 && n >= 0 {
      DigitsInjective(m, n, Ten);
    }
  }

  // ---------------------------------------------------------------- the encoding

  function EncodeKey(env: Env, v: Value): Result<string, ()>
    decreases v, 1
  {
    match v
    case Str(s) => Ok("s:" + s)
    case I4(i) => Ok("i:" + Decimal(i))
    case I8(l) => Ok("l:" + Decimal(l))
    case R4(f) => Ok("f:" + env.floatText(f))
    case R8(d) => Ok("d:" + env.floatText(d))
    case Obj(o) => if o in env.uris then Ok("u:" + env.uris[o]) else Ok("o:0x" + Digits(o, Sixteen))
    case Null => Ok("n:")
    case Arr(a) => if a in env.arrays then Ok("a:" + env.arrays[a]) else Err(())
    case Struct(_, fields) =>
      (match EncodeFields(env, fields)
       case Ok(s) => Ok("t:" + s)
       case Err(e) => Err(e))
    case _ => Err(())
  }

  function EncodeFields(env: Env, fields: seq<Value>): Result<string, ()>
    decreases fields, 0
  {
    if fields == [] then Ok("")
    else match EncodeKey(env, fields[0])
      case Err(e) => Err(e)
      case Ok(first) =>
        if |fields| == 1 then Ok(first)
        else match EncodeFields(env, fields[1..])
          case Err(e) => Err(e)
          case Ok(rest) => Ok(first + "," + rest)
  }

  // Strings, 32- and 64-bit integers, null and objects known by identity.
  predicate Scalar(env: Env, v: Value) {
    v.Str? || v.I4? || v.I8? || v.Null? || (v.Obj? && v.obj !in env.uris)
  }

  predicate CommaFree(v: Value) { v.Str? ==> ',' !in v.s }

  lemma ScalarKeysInjective(env: Env, v: Value, w: Value)
    requires Scalar(env, v) && Scalar(env, w) && EncodeKey(env, v) == EncodeKey(env, w)
    ensures v == w
  {
    var s, t := EncodeKey(env, v).value, EncodeKey(env, w).value;
    assert s[0] == t[0];
    match v {
      case Str(x) => assert s[2..] == x && t[2..] == w.s;
      case I4(x) => assert s[2..] == Decimal(x) && t[2..] == Decimal(w.i); DecimalInjective(x, w.i);
      case I8(x) => assert s[2..] == Decimal(x) && t[2..] == Decimal(w.l); DecimalInjective(x, w.l);
      case Obj(x) =>
        assert s[4..] == Digits(x, Sixteen) && t[4..] == Digits(w.obj, Sixteen);
        DigitsInjective(x, w.obj, Sixteen);
      case _ =>
    }
  }

  // No two kinds of value share an encoding.
  lemma KindsEncodeApart(env: Env, v: Value, w: Value)
    requires EncodeKey(env, v).Ok? && EncodeKey(env, v) == EncodeKey(env, w)
    ensures SameKind(v, w)
  {
    var s, t := EncodeKey(env, v).value, EncodeKey(env, w).value;
    assert s[0] == t[0];
  }

  // Floats, URIs and arrays encode alike exactly if the library gives them the same text.
  lemma LibraryTextsDecide(env: Env, v: Value, w: Value)
    ensures v.R4? && w.R4? ==> (EncodeKey(env, v) == EncodeKey(env, w) <==> env.floatText(v.f) == env.floatText(w.f))
    ensures v.R8? && w.R8? ==> (EncodeKey(env, v) == EncodeKey(env, w) <==> env.floatText(v.d) == env.floatText(w.d))
    ensures v.Arr? && w.Arr? && v.arr in env.arrays && w.arr in env.arrays ==>
      (EncodeKey(env, v) == EncodeKey(env, w) <==> env.arrays[v.arr] == env.arrays[w.arr])
    ensures v.Obj? && w.Obj? && v.obj in env.uris && w.obj in env.uris ==>
      (EncodeKey(env, v) == EncodeKey(env, w) <==> env.uris[v.obj] == env.uris[w.obj])
  {
    if EncodeKey(env, v).Ok? && EncodeKey(env, v) == EncodeKey(env, w) {
      assert EncodeKey(env, v).value[2..] == EncodeKey(env, w).value[2..];
    }
  }

  // Which keys have an encoding: no delegate, byte buffer or pointer, no array without a text, and a
  // struct exactly if all its fields have one.
  lemma {:induction false} EncodesIff(env: Env, v: Value)
    ensures v.Struct? ==>
      (EncodeKey(env, v).Ok? <==> forall i :: 0 <= i < |v.fields| ==> EncodeKey(env, v.fields[i]).Ok?)
    ensures !v.Struct? ==>
      (EncodeKey(env, v).Err? <==> v.Func? || v.Bytes? || v.Ref? || (v.Arr? && v.arr !in env.arrays))
  {
    if v.Struct? { FieldsEncodeIff(env, v.fields); }
  }

  lemma {:induction false} FieldsEncodeIff(env: Env, fields: seq<Value>)
    ensures EncodeFields(env, fields).Ok? <==> forall i :: 0 <= i < |fields| ==> EncodeKey(env, fields[i]).Ok?
  {
    if |fields| > 1 {
      FieldsEncodeIff(env, fields[1..]);
      assert forall i :: 1 <= i < |fields| ==> fields[i] == fields[1..][i - 1];
    }
  }

  lemma ScalarHasNoComma(env: Env, v: Value)
    requires Scalar(env, v) && CommaFree(v)
    ensures EncodeKey(env, v).Ok? && ',' !in EncodeKey(env, v).value
  {}

  // Trees of structs whose leaves are scalars with comma-free strings.
  predicate PlainKey(env: Env, v: Value) {
    match v
    case Struct(_, fields) => forall f :: f in fields ==> PlainKey(env, f)
    case _ => Scalar(env, v) && CommaFree(v)
  }

  // The same struct types at the same places; leaves may differ in kind.
  predicate SameShape(v: Value, w: Value) {
    match (v, w)
    case (Struct(t, fs), Struct(u, gs)) =>
      t == u && |fs| == |gs| && forall i :: 0 <= i < |fs| ==> SameShape(fs[i], gs[i])
    case _ => !v.Struct? && !w.Struct?
  }

  predicate Continues(rest: string) { rest == "" || rest[0] == ',' }

  lemma CommaFollows(e: string, r: string, f: string)
    requires e + r == f && Continues(r) && r != ""
    ensures ',' in f
  {
    assert (e + r)[|e|] == ',';
  }

  lemma LeafPrefix(e: string, r: string, f: string, s: string)
    requires ',' !in e && ',' !in f && Continues(r) && Continues(s) && e + r == f + s
    ensures e == f && r == s
  {
    assert e + "" == e && f + "" == f;
    if r != "" && s != "" {
      assert e + r == e + [','] + r[1..] && f + s == f + [','] + s[1..];
      SplitUnique(e, r[1..], f, s[1..], ',');
    } else if r != "" {
      CommaFollows(e, r, f);
    } else if s != "" {
      CommaFollows(f, s, e);
    }
  }

  // An encoded key of a known shape can be read off the front of a text.
  lemma {:induction false} KeyPrefix(env: Env, v: Value, w: Value, r: string, s: string)
    requires SameShape(v, w) && PlainKey(env, v) && PlainKey(env, w) && Continues(r) && Continues(s)
    requires EncodeKey(env, v).Ok? && EncodeKey(env, w).Ok?
    requires EncodeKey(env, v).value + r == EncodeKey(env, w).value + s
    ensures v == w && r == s
    decreases v, 1
  {
    if v.Struct? {
      var ev, ew := EncodeFields(env, v.fields).value, EncodeFields(env, w.fields).value;
      assert ("t:" + ev + r)[2..] == ev + r && ("t:" + ew + s)[2..] == ew + s;
      FieldsPrefix(env, v.fields, w.fields, r, s);
    } else {
      ScalarHasNoComma(env, v);
      ScalarHasNoComma(env, w);
      LeafPrefix(EncodeKey(env, v).value, r, EncodeKey(env, w).value, s);
      ScalarKeysInjective(env, v, w);
    }
  }

  // What follows the first field's text, up to the end.
  function AfterFirst(env: Env, fs: seq<Value>, r: string): string
    requires fs != [] && EncodeFields(env, fs).Ok?
  {
    if |fs| == 1 then r else "," + (EncodeFields(env, fs[1..]).value + r)
  }

  lemma FirstThenRest(env: Env, fs: seq<Value>, r: string)
    requires fs != [] && EncodeFields(env, fs).Ok? && Continues(r)
    ensures EncodeKey(env, fs[0]).Ok? && Continues(AfterFirst(env, fs, r))
    ensures EncodeFields(env, fs).value + r == EncodeKey(env, fs[0]).value + AfterFirst(env, fs, r)
  {
    if |fs| > 1 {
      var e, x := EncodeKey(env, fs[0]).value, EncodeFields(env, fs[1..]).value;
      ConcatAssociates(e + ",", x, r);
      ConcatAssociates(e, ",", x + r);
    }
  }

  lemma {:induction false} FieldsPrefix(
      env: Env, fs: seq<Value>, gs: seq<Value>, r: string, s: string)
    requires |fs| == |gs| && forall i :: 0 <= i < |fs| ==> SameShape(fs[i], gs[i])
    requires (forall f :: f in fs ==> PlainKey(env, f)) && (forall g :: g in gs ==> PlainKey(env, g))
    requires Continues(r) && Continues(s)
    requires EncodeFields(env, fs).Ok? && EncodeFields(env, gs).Ok?
    requires EncodeFields(env, fs).value + r == EncodeFields(env, gs).value + s
    ensures fs == gs && r == s
    decreases fs, 0
  {
    assert "" + r == r && "" + s == s;
    if fs != [] {
      FirstThenRest(env, fs, r);
      FirstThenRest(env, gs, s);
      var r', s' := AfterFirst(env, fs, r), AfterFirst(env, gs, s);
      KeyPrefix(env, fs[0], gs[0], r', s');
      if |fs| > 1 {
        assert r'[1..] == EncodeFields(env, fs[1..]).value + r && s'[1..] == EncodeFields(env, gs[1..]).value + s;
        FieldsPrefix(env, fs[1..], gs[1..], r, s);
      }
      assert fs == [fs[0]] + fs[1..] && gs == [gs[0]] + gs[1..];
    }
  }

  // Two keys of one type, scalars or structs of any nesting, encode alike only if they are equal.
  lemma PlainKeysInjective(env: Env, v: Value, w: Value)
    requires SameShape(v, w) && PlainKey(env, v) && PlainKey(env, w)
    requires EncodeKey(env, v).Ok? && EncodeKey(env, v) == EncodeKey(env, w)
    ensures v == w
  {
    assert EncodeKey(env, v).value + "" == EncodeKey(env, w).value + "";
    KeyPrefix(env, v, w, "", "");
  }

  lemma {:induction false} PlainKeysEncode(env: Env, v: Value)
    requires PlainKey(env, v)
    ensures EncodeKey(env, v).Ok?
    decreases v, 1
  {
    if v.Struct? { PlainFieldsEncode(env, v.fields); }
  }

  lemma {:induction false} PlainFieldsEncode(env: Env, fs: seq<Value>)
    requires forall f :: f in fs ==> PlainKey(env, f)
    ensures EncodeFields(env, fs).Ok?
    decreases fs, 0
  {
    if fs != [] {
      PlainKeysEncode(env, fs[0]);
      PlainFieldsEncode(env, fs[1..]);
    }
  }

  // ---------------------------------------------------------------- where it stops being injective

  const SEPARATOR: string := ",s:"

  predicate SeparatorAt(s: string, i: int) { 0 <= i <= |s| - 3 && s[i..i + 3] == SEPARATOR }

  ghost predicate Contains(s: string) { exists i :: SeparatorAt(s, i) }

  function Pair(a: string, b: string): Value { Struct(0, [Str(a), Str(b)]) }

  lemma PairText(env: Env, a: string, b: string)
    ensures EncodeKey(env, Pair(a, b)) == Ok("t:s:" + (a + SEPARATOR + b))
  {
    var v := Pair(a, b);
    assert v.fields[1..] == [Str(b)];
    assert EncodeFields(env, [Str(b)]) == Ok("s:" + b);
    assert EncodeFields(env, v.fields) == Ok("s:" + a + "," + ("s:" + b));
    assert "t:" + ("s:" + a + "," + ("s:" + b)) == "t:s:" + (a + SEPARATOR + b);
  }

  // A separator cannot overlap another one, so a second way to split shows it inside a part.
  lemma OtherSplit(a: string, b: string, c: string, d: string)
    requires a + SEPARATOR + b == c + SEPARATOR + d && |c| < |a|
    ensures Contains(a) && Contains(d)
  {
    var s := a + SEPARATOR + b;
    assert s[|c|] == ',' && s[|c| + 1] == 's' && s[|c| + 2] == ':' by {
      assert s == c + SEPARATOR + d;
    }
    assert s[|a|] == ',' && s[|a| + 1] == 's' && s[|a| + 2] == ':';
    assert |c| + 3 <= |a|;
    assert SeparatorAt(a, |c|);
    assert s == c + SEPARATOR + d;
    var k := |a| - |c| - 3;
    assert d[k] == s[|a|] && d[k + 1] == s[|a| + 1] && d[k + 2] == s[|a| + 2];
    assert SeparatorAt(d, k);
  }

  // Another pair of strings with the same text, cut at a separator inside one of the two.
  ghost function Recut(a: string, b: string): (r: (string, string))
    requires Contains(a) || Contains(b)
    ensures r.0 + SEPARATOR + r.1 == a + SEPARATOR + b && |r.0| != |a|
  {
    if Contains(a) then
      var i :| SeparatorAt(a, i);
      var left, right := a[..i], a[i + 3..];
      assert a == left + SEPARATOR + right;
      assert left + SEPARATOR + (right + SEPARATOR + b) == a + SEPARATOR + b;
      (left, right + SEPARATOR + b)
    else
      var i :| SeparatorAt(b, i);
      var left, right := b[..i], b[i + 3..];
      assert b == left + SEPARATOR + right;
      assert (a + SEPARATOR + left) + SEPARATOR + right == a + SEPARATOR + b;
      (a + SEPARATOR + left, right)
  }

  lemma OnlySplit(a: string, b: string, c: string, d: string)
    requires a + SEPARATOR + b == c + SEPARATOR + d && !Contains(a) && !Contains(b)
    ensures a == c && b == d
  {
    if |c| < |a| { OtherSplit(a, b, c, d); }
    if |a| < |c| { OtherSplit(c, d, a, b); }
    var s, t := a + SEPARATOR + b, c + SEPARATOR + d;
    assert s[..|a|] == a && t[..|c|] == c && s[|a| + 3..] == b && t[|c| + 3..] == d;
  }

  // A struct of two strings shares its key with no other such struct exactly when neither string
  // contains the text that joins them.
  lemma PairKeyIsOwnIff(env: Env, a: string, b: string)
    ensures (forall c, d :: EncodeKey(env, Pair(c, d)) == EncodeKey(env, Pair(a, b)) ==> c == a && d == b)
       <==> !Contains(a) && !Contains(b)
  {
    PairText(env, a, b);
    if Contains(a) || Contains(b) {
      var (c, d) := Recut(a, b);
      PairText(env, c, d);
      assert EncodeKey(env, Pair(c, d)) == EncodeKey(env, Pair(a, b)) && c != a;
    } else {
      forall c, d | EncodeKey(env, Pair(c, d)) == EncodeKey(env, Pair(a, b)) ensures c == a && d == b {
        PairText(env, c, d);
        var s, t := a + SEPARATOR + b, c + SEPARATOR + d;
        assert ("t:s:" + s)[4..] == s && ("t:s:" + t)[4..] == t;
        OnlySplit(a, b, c, d);
      }
    }
  }

  lemma OneField(env: Env, x: Value, e: string)
    requires EncodeKey(env, x) == Ok(e)
    ensures EncodeFields(env, [x]) == Ok(e)
  {}

  lemma FieldAndRest(env: Env, x: Value, rest: seq<Value>, e: string, r: string)
    requires rest != [] && EncodeKey(env, x) == Ok(e) && EncodeFields(env, rest) == Ok(r)
    ensures EncodeFields(env, [x] + rest) == Ok(e + "," + r)
  {
    assert ([x] + rest)[1..] == rest;
  }

  lemma TwoFields(env: Env, x: Value, y: Value, e: string, f: string)
    requires EncodeKey(env, x) == Ok(e) && EncodeKey(env, y) == Ok(f)
    ensures EncodeFields(env, [x, y]) == Ok(e + "," + f)
  {
    OneField(env, y, f);
    FieldAndRest(env, x, [y], e, f);
    assert [x] + [y] == [x, y];
  }

  lemma SameText(a: string, b: string, c: string)
    ensures "t:" + (a + "," + b) + "," + c == "t:" + a + "," + (b + "," + c)
  {}

  // Nesting leaves no trace in the text: structs of different shapes can share a key.
  lemma ShapesCollide(env: Env, a: Value, b: Value, c: Value)
    requires EncodeKey(env, a).Ok? && EncodeKey(env, b).Ok? && EncodeKey(env, c).Ok?
    ensures EncodeKey(env, Struct(0, [Struct(1, [a, b]), c])) == EncodeKey(env, Struct(0, [Struct(1, [a]), b, c]))
  {
    var ea, eb, ec := EncodeKey(env, a).value, EncodeKey(env, b).value, EncodeKey(env, c).value;
    var ab, a1 := Struct(1, [a, b]), Struct(1, [a]);
    TwoFields(env, a, b, ea, eb);
    TwoFields(env, ab, c, "t:" + (ea + "," + eb), ec);
    OneField(env, a, ea);
    TwoFields(env, b, c, eb, ec);
    FieldAndRest(env, a1, [b, c], "t:" + ea, eb + "," + ec);
    assert [a1] + [b, c] == [a1, b, c];
    SameText(ea, eb, ec);
  }
}
