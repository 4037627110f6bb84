// StringReader: characters and lines from a fixed text (internal/bcl/system_io_stringreader.go).
module StringReaders {
  import opened Common

  predicate IsBreak(c: char) { c == '\r' || c == '\n' }

  predicate NoBreaks(s: string) { forall i :: 0 <= i < |s| ==> !IsBreak(s[i]) }

  // The end of the line that starts at p.
  function LineEnd(text: string, p: nat): (e: nat)
    requires p <= |text|
    ensures p <= e <= |text|
    decreases |text| - p
  {
    if p == |text| || IsBreak(text[p]) then p else LineEnd(text, p + 1)
  }

  // Where the next line starts: past a line feed, a carriage return, or both in that order.
  function NextStart(text: string, p: nat): (q: nat)
    requires p <= |text|
    ensures p <= q <= |text| && (p < |text| ==> p < q)
  {
    var e := LineEnd(text, p);
    if e == |text| then e
    else if text[e] == '\r' && e + 1 < |text| && text[e + 1] == '\n' then e + 2
    else e + 1
  }

  lemma {:induction false} LineEndIs(text: string, p: nat, e: nat)
    requires p <= e <= |text| && NoBreaks(text[p..e]) && (e < |text| ==> IsBreak(text[e]))
    ensures LineEnd(text, p) == e
    decreases e - p
  {
    if p < e {
      assert text[p] == text[p..e][0];
      assert text[p + 1..e] == text[p..e][1..];
      LineEndIs(text, p + 1, e);
    }
  }

  lemma {:induction false} LineEndStops(text: string, p: nat)
    requires p <= |text|
    ensures var e := LineEnd(text, p); NoBreaks(text[p..e]) && (e < |text| ==> IsBreak(text[e]))
    decreases |text| - p
  {
    if p < |text| && !IsBreak(text[p]) {
      LineEndStops(text, p + 1);
      var e := LineEnd(text, p);
      assert text[p..e] == [text[p]] + text[p + 1..e];
    }
  }

  datatype Line = Line(chars: string, terminator: string) {
    function Text(): string { chars + terminator }
  }

  function LineAt(text: string, p: nat): Line
    requires p <= |text|
  {
    Line(text[p..LineEnd(text, p)], text[LineEnd(text, p)..NextStart(text, p)])
  }

  lemma LineAtText(text: string, p: nat)
    requires p <= |text|
    ensures LineAt(text, p).Text() == text[p..NextStart(text, p)]
    ensures |LineAt(text, p).Text()| == NextStart(text, p) - p
  {}

  class StringReader {
    const runes: string
    var pos: nat

    ghost predicate Valid()
      reads this
    {
      pos <= |runes|
    }

    constructor (text: string)
      ensures Valid() && runes == text && pos == 0
    {
      runes, pos := text, 0;
    }

    // None at the end of the text, an empty line otherwise when a terminator comes first.
    method ReadLine() returns (line: Option<string>)
      requires Valid()
      modifies this
      ensures Valid()
      ensures old(pos) == |runes| ==> line == None && pos == old(pos)
      ensures old(pos) < |runes| ==>
        line == Some(LineAt(runes, old(pos)).chars) && pos == NextStart(runes, old(pos))
    {
      if pos >= |runes| { return None; }
      var start := pos;
      while pos < |runes|
        invariant start <= pos <= |runes| && NoBreaks(runes[start..pos])
      {
        var c := runes[pos];
        if IsBreak(c) {
          LineEndIs(runes, start, pos);
          line := Some(runes[start..pos]);
          pos := pos + 1;
          if c == '\r' && pos < |runes| && runes[pos] == '\n' { pos := pos + 1; }
          return;
        }
        assert runes[start..pos + 1] == runes[start..pos] + [c];
        pos := pos + 1;
      }
      LineEndIs(runes, start, pos);
      assert runes[start..] == runes[start..pos];
      return Some(runes[start..]);
    }

    method Read() returns (c: Option<char>)
      requires Valid()
      modifies this
      ensures Valid()
      ensures old(pos) == |runes| ==> c == None && pos == old(pos)
      ensures old(pos) < |runes| ==> c == Some(runes[old(pos)]) && pos == old(pos) + 1
    {
      if pos >= |runes| { return None; }
      c := Some(runes[pos]);
      pos := pos + 1;
    }

    // Fills dest from index on; None when an element it would write does not exist.
    method ReadInto(dest: array<char>, index: int, count: int) returns (r: Option<nat>)
      requires Valid()
      modifies this, dest
      ensures Valid()
      ensures var n := Taken(runes, old(pos), count);
        && r == (if n == 0 || (0 <= index && index + n <= dest.Length) then Some(n) else None)
        && (r.Some? ==> pos == old(pos) + n)
        && (r.Some? ==> forall k :: 0 <= k < dest.Length ==>
              dest[k] == if index <= k < index + n then runes[old(pos) + (k - index)] else old(dest[k]))
    {
      var n := 0;
      while n < count && pos < |runes|
        invariant 0 <= n <= Taken(runes, old(pos), count) && pos == old(pos) + n && Valid()
        invariant n > 0 ==> 0 <= index && index + n <= dest.Length
        invariant forall k :: 0 <= k < dest.Length ==>
          dest[k] == if index <= k < index + n then runes[old(pos) + (k - index)] else old(dest[k])
        decreases |runes| - pos
      {
        if index + n < 0 || index + n >= dest.Length { return None; }
        dest[index + n] := runes[pos];
        pos := pos + 1;
        n := n + 1;
      }
      return Some(n);
    }

    method Peek() returns (c: Option<char>)
      requires Valid()
      ensures c == if pos < |runes| then Some(runes[pos]) else None
    {
      return if pos >= |runes| then None else Some(runes[pos]);
    }

    method ReadToEnd() returns (rest: string)
      requires Valid()
      modifies this
      ensures Valid() && rest == runes[old(pos)..] && pos == |runes|
    {
      rest := runes[pos..];
      pos := |runes|;
    }

    // Reading lines until there are none.
    method ReadAllLines() returns (lines: seq<string>)
      requires Valid()
      modifies this
      ensures Valid() && pos == |runes|
      ensures lines == CharsOf(Lines(runes, old(pos)))
    {
      lines := [];
      while true
        invariant Valid() && lines + CharsOf(Lines(runes, pos)) == CharsOf(Lines(runes, old(pos)))
        decreases |runes| - pos
      {
        ghost var from := pos;
        var line := ReadLine();
        if line.None? { break; }
        LinesUnfold(runes, from);
        lines := lines + [line.value];
      }
    }
  }

  // How many characters a read of `count` gets.
  function Taken(text: string, p: nat, count: int): (n: nat)
    requires p <= |text|
    ensures p + n <= |text|
  {
    if count <= 0 then 0 else if count < |text| - p then count else |text| - p
  }

  // As many as asked for, as far as there are.
  lemma TakesWhatIsThere(text: string, p: nat, count: int)
    requires p <= |text|
    ensures count > 0 && p + count <= |text| ==> Taken(text, p, count) == count
    ensures count > 0 && p + count > |text| ==> p + Taken(text, p, count) == |text|
    ensures count <= 0 ==> Taken(text, p, count) == 0
  {}

  // ---------------------------------------------------------------- all the lines

  function Lines(text: string, p: nat): seq<Line>
    requires p <= |text|
    decreases |text| - p
  {
    if p == |text| then [] else [LineAt(text, p)] + Lines(text, NextStart(text, p))
  }

  function CharsOf(ls: seq<Line>): seq<string> { if ls == [] then [] else [ls[0].chars] + CharsOf(ls[1..]) }

  lemma LinesUnfold(text: string, p: nat)
    requires p < |text|
    ensures CharsOf(Lines(text, p)) == [LineAt(text, p).chars] + CharsOf(Lines(text, NextStart(text, p)))
  {
    assert Lines(text, p)[1..] == Lines(text, NextStart(text, p));
  }

  function Rejoined(ls: seq<Line>): string { if ls == [] then "" else ls[0].Text() + Rejoined(ls[1..]) }

  // A text cut at every line break and nowhere else: lines hold no break, only the last may lack a
  // terminator (and is then not empty), and a carriage return is not parted from a line feed.
  ghost predicate Splitting(ls: seq<Line>) {
    forall i {:trigger ls[i]} :: 0 <= i < |ls| ==>
      && NoBreaks(ls[i].chars) && ls[i].terminator in {"", "\n", "\r", "\r\n"}
      && (ls[i].terminator == "" ==> i == |ls| - 1 && ls[i].chars != "")
      && (ls[i].terminator == "\r" ==> !StartsWithLineFeed(ls, i + 1))
  }

  predicate StartsWithLineFeed(ls: seq<Line>, i: nat) { i < |ls| && ls[i].Text() != "" && ls[i].Text()[0] == '\n' }

  lemma RejoinedCons(l: Line, rest: seq<Line>)
    ensures Rejoined([l] + rest) == l.Text() + Rejoined(rest)
  {
    assert ([l] + rest)[1..] == rest;
  }

  // Reading lines to the end loses nothing: with their terminators they are the text.
  lemma {:induction false} LinesRebuildText(text: string, p: nat)
    requires p <= |text|
    ensures Rejoined(Lines(text, p)) == text[p..]
    decreases |text| - p
  {
    if p < |text| {
      var q := NextStart(text, p);
      LinesRebuildText(text, q);
      LineAtText(text, p);
      RejoinedCons(LineAt(text, p), Lines(text, q));
      SliceSplits(text, p, q);
    }
  }

  // One more line in front of a text cut properly.
  lemma SplittingCons(l: Line, rest: seq<Line>)
    requires Splitting(rest) && NoBreaks(l.chars) && l.terminator in {"", "\n", "\r", "\r\n"}
    requires l.terminator == "" ==> rest == [] && l.chars != ""
    requires l.terminator == "\r" ==> !StartsWithLineFeed(rest, 0)
    ensures Splitting([l] + rest)
  {
    var ls := [l] + rest;
    forall i | 0 < i < |ls| ensures ls[i] == rest[i - 1] {}
  }

  lemma LineAtIsLine(text: string, p: nat)
    requires p < |text|
    ensures var l, q := LineAt(text, p), NextStart(text, p);
      && NoBreaks(l.chars) && l.terminator in {"", "\n", "\r", "\r\n"}
      && (l.terminator == "" ==> q == |text| && l.chars != "")
      && (l.terminator == "\r" && q < |text| ==> text[q] != '\n')
  {
    LineEndStops(text, p);
    var e, t := LineEnd(text, p), LineAt(text, p).terminator;
    assert e == |text| ==> t == "";
    assert e < |text| ==> t == if |t| == 2 then "\r\n" else if text[e] == '\r' then "\r" else "\n";
  }

  lemma {:induction false} LinesSplit(text: string, p: nat)
    requires p <= |text|
    ensures Splitting(Lines(text, p))
    decreases |text| - p
  {
    if p < |text| {
      var q := NextStart(text, p);
      LineAtIsLine(text, p);
      LinesSplit(text, q);
      if q < |text| { LineAtText(text, q); }
      SplittingCons(LineAt(text, p), Lines(text, q));
    }
  }

  lemma CharactersOf(text: string, e: nat, tail: string)
    requires e <= |text| && text[e..] == tail
    ensures |text| == e + |tail|
    ensures |tail| > 0 ==> text[e] == tail[0]
    ensures |tail| > 1 ==> text[e + 1] == tail[1]
  {
    assert |tail| > 0 ==> text[e] == text[e..][0];
    assert |tail| > 1 ==> text[e + 1] == text[e..][1];
  }

  // The next line of a text that starts with a given line.
  lemma FirstBreak(text: string, p: nat, l: Line, rest: string)
    requires p <= |text| && text[p..] == l.Text() + rest
    requires NoBreaks(l.chars) && l.terminator in {"", "\n", "\r", "\r\n"}
    requires l.terminator == "" ==> rest == ""
    requires l.terminator == "\r" ==> rest == "" || rest[0] != '\n'
    ensures LineAt(text, p) == l
  {
    var e, tail := p + |l.chars|, l.terminator + rest;
    ConcatAssociates(l.chars, l.terminator, rest);
    AfterFirstPart(text, p, l.chars, tail);
    AfterFirstPart(text, e, l.terminator, rest);
    BreakAt(text, e, l.terminator, rest);
    assert text[p..e] == l.chars;
    LineEndIs(text, p, e);
    assert NextStart(text, p) == e + |l.terminator|;
    assert text[e..e + |l.terminator|] == l.terminator;
  }

  // The terminator that stands at a position decides where the next line starts.
  lemma BreakAt(text: string, e: nat, terminator: string, rest: string)
    requires e <= |text| && text[e..] == terminator + rest && terminator in {"", "\n", "\r", "\r\n"}
    requires terminator == "" ==> rest == ""
    requires terminator == "\r" ==> rest == "" || rest[0] != '\n'
    ensures |text| == e + |terminator| + |rest| && (e < |text| <==> terminator != "")
    ensures e < |text| ==> IsBreak(text[e])
    ensures e < |text| ==>
      |terminator| == if text[e] == '\r' && e + 1 < |text| && text[e + 1] == '\n' then 2 else 1
  {
    CharactersOf(text, e, terminator + rest);
  }

  // And it is the only way to cut the text like that.
  lemma {:induction false} SplittingIsUnique(ls: seq<Line>, text: string, p: nat)
    requires p <= |text| && Splitting(ls) && Rejoined(ls) == text[p..]
    ensures Lines(text, p) == ls
    decreases |ls|
  {
    if ls != [] {
      var l, rest := ls[0], Rejoined(ls[1..]);
      SplittingTail(ls);
      FirstBreak(text, p, l, rest);
      LineAtText(text, p);
      var q := NextStart(text, p);
      AfterFirstPart(text, p, l.Text(), rest);
      SplittingIsUnique(ls[1..], text, q);
      assert ls == [l] + ls[1..];
    }
  }

  lemma SplittingTail(ls: seq<Line>)
    requires Splitting(ls) && ls != []
    ensures Splitting(ls[1..]) && ls[0].Text() != ""
    ensures ls[0].terminator == "" ==> Rejoined(ls[1..]) == ""
    ensures ls[0].terminator == "\r" ==> Rejoined(ls[1..]) == "" || Rejoined(ls[1..])[0] != '\n'
  {
    forall i | 0 <= i < |ls[1..]| ensures ls[1..][i] == ls[i + 1] {}
    if |ls| > 1 {
      assert ls[1].Text() != "";
      assert Rejoined(ls[1..])[0] == ls[1].Text()[0];
    }
  }

  // Reading lines cuts the text in the one way there is.
  lemma LinesAreTheSplitting(ls: seq<Line>, text: string, p: nat)
    requires p <= |text|
    ensures ls == Lines(text, p) <==> Splitting(ls) && Rejoined(ls) == text[p..]
  {
    LinesSplit(text, p);
    LinesRebuildText(text, p);
    if Splitting(ls) && Rejoined(ls) == text[p..] { SplittingIsUnique(ls, text, p); }
  }

  // ---------------------------------------------------------------- any mix of reads

  datatype Op = ReadLineOp | ReadOp | ReadIntoOp(count: int) | PeekOp | ReadToEndOp

  // The position after an operation.
  function Next(text: string, p: nat, op: Op): (q: nat)
    requires p <= |text|
    ensures p <= q <= |text|
  {
    match op
    case ReadLineOp => NextStart(text, p)
    case ReadOp => if p < |text| then p + 1 else p
    case ReadIntoOp(count) => p + Taken(text, p, count)
    case PeekOp => p
    case ReadToEndOp => |text|
  }

  // What an operation takes out of the text, the terminator of a line included.
  function Takes(text: string, p: nat, op: Op): string
    requires p <= |text|
  {
    match op
    case ReadLineOp => LineAt(text, p).Text()
    case ReadOp => if p < |text| then [text[p]] else ""
    case ReadIntoOp(count) => text[p..p + Taken(text, p, count)]
    case PeekOp => ""
    case ReadToEndOp => text[p..]
  }

  function EndOf(text: string, p: nat, ops: seq<Op>): (q: nat)
    requires p <= |text|
    ensures p <= q <= |text|
    decreases |ops|
  {
    if ops == [] then p else EndOf(text, Next(text, p, ops[0]), ops[1..])
  }

  function TakenBy(text: string, p: nat, ops: seq<Op>): string
    requires p <= |text|
    decreases |ops|
  {
    if ops == [] then "" else Takes(text, p, ops[0]) + TakenBy(text, Next(text, p, ops[0]), ops[1..])
  }

  lemma TakesSlice(text: string, p: nat, op: Op)
    requires p <= |text|
    ensures Takes(text, p, op) == text[p..Next(text, p, op)]
  {
    LineAtText(text, p);
  }

  // Whatever the mix, what the operations took and what is left are always the whole text.
  lemma {:induction false} NothingIsLost(text: string, p: nat, ops: seq<Op>)
    requires p <= |text|
    ensures TakenBy(text, p, ops) + text[EndOf(text, p, ops)..] == text[p..]
    decreases |ops|
  {
    if ops != [] {
      var q := Next(text, p, ops[0]);
      NothingIsLost(text, q, ops[1..]);
      TakesSlice(text, p, ops[0]);
      SliceSplits(text, p, q);
      ConcatAssociates(text[p..q], TakenBy(text, q, ops[1..]), text[EndOf(text, p, ops)..]);
    }
  }
}
