// MemoryStream over a byte buffer and a position (internal/bcl/system_io.go:25-57, 184-396).
// A Go run-time panic (an index or slice out of range) is an outcome of its own here.
module MemoryStreams {
  import opened Common

  type Byte = b: int | 0 <= b < 256

  const MAX_INT64: int := 0x7FFF_FFFF_FFFF_FFFF

  // A Go int or int64 sum of two such numbers.
  function Wrap(n: int): int {
    if n > MAX_INT64 then n - 0x1_0000_0000_0000_0000
    else if n < -MAX_INT64 - 1 then n + 0x1_0000_0000_0000_0000 else n
  }

  datatype Outcome<T> = Done(value: T) | Thrown | Panic

  datatype Stream = Stream(buf: seq<Byte>, pos: int)

  function Zeros(n: nat): seq<Byte> { seq(n, _ => 0) }

  // The buffer, lengthened with zeros to at least n.
  function Padded(buf: seq<Byte>, n: int): seq<Byte> {
    if n > |buf| then buf + Zeros(n - |buf|) else buf
  }

  // The buffer with `data` laid over it from position p.
  function Overlay(buf: seq<Byte>, p: nat, data: seq<Byte>): seq<Byte> {
    var grown := Padded(buf, p + |data|);
    grown[..p] + data + grown[p + |data|..]
  }

  // writeAt works exactly from positions the buffer can reach.
  predicate Writable(s: Stream, n: nat) { 0 <= s.pos && s.pos + n <= MAX_INT64 }

  function Written(s: Stream, data: seq<Byte>): Stream
    requires s.pos >= 0
  {
    Stream(Overlay(s.buf, s.pos, data), s.pos + |data|)
  }

  // How many bytes a read of `count` gets: far enough before the start the difference wraps, and it
  // gets none.
  function Available(s: Stream, count: int): (n: nat) {
    var left := Wrap(|s.buf| - s.pos);
    var avail := if left < 0 then 0 else left;
    var n := if count > avail then avail else count;
    if n < 0 then 0 else n
  }

  function Resized(s: Stream, length: int): Stream {
    var n := if length < 0 then 0 else length;
    Stream(if n <= |s.buf| then s.buf[..n] else Padded(s.buf, n), if s.pos > n then n else s.pos)
  }

  function SeekTarget(s: Stream, offset: int, origin: int): int {
    Wrap((if origin == 1 then s.pos else if origin == 2 then |s.buf| else 0) + offset)
  }

  class MemoryStream {
    var buf: seq<Byte>
    var pos: int

    ghost function State(): Stream
      reads this
    {
      Stream(buf, pos)
    }

    constructor (data: seq<Byte>)
      ensures State() == Stream(data, 0)
    {
      buf, pos := data, 0;
    }

    method WriteAt(data: seq<Byte>) returns (r: Outcome<()>)
      requires pos <= MAX_INT64 && |buf| <= MAX_INT64 && |data| <= MAX_INT64
      modifies this
      ensures r == if Writable(old(State()), |data|) then Done(()) else Panic
      ensures r.Done? ==> State() == Written(old(State()), data)
      ensures r.Panic? ==> pos == old(pos)
    {
      var end := Wrap(pos + |data|);
      if end > |buf| { buf := Padded(buf, end); }
      if pos < 0 || end < pos { return Panic; }
      buf := buf[..pos] + data + buf[end..];
      pos := end;
      return Done(());
    }

    method Write(data: seq<Byte>, offset: int, count: int) returns (r: Outcome<()>)
      requires pos <= MAX_INT64 && |buf| <= MAX_INT64 && |data| <= MAX_INT64
      modifies this
      ensures r == if offset < 0 || count < 0 || offset + count > |data| then Thrown
                   else if Writable(old(State()), count) then Done(()) else Panic
      ensures r.Done? ==> State() == Written(old(State()), data[offset..offset + count])
      ensures r.Thrown? ==> State() == old(State())
    {
      if offset < 0 || count < 0 || offset + count > |data| { return Thrown; }
      r := WriteAt(data[offset..offset + count]);
    }

    // Fills dest[offset..] in place; a destination too short is found out while writing to it.
    method Read(dest: array<Byte>, offset: int, count: int) returns (r: Outcome<nat>)
      requires -MAX_INT64 - 1 <= pos <= MAX_INT64 && |buf| <= MAX_INT64
      modifies this, dest
      ensures var n := Available(old(State()), count);
        && r == (if n == 0 || (old(pos) >= 0 && offset >= 0 && offset + n <= dest.Length) then Done(n) else Panic)
        && buf == old(buf)
        && (r.Done? ==> pos == old(pos) + n)
        && (r.Done? && n > 0 ==>
              dest[..] == old(dest[..offset]) + old(buf[pos..pos + n]) + old(dest[offset + n..]))
        && (n == 0 ==> dest[..] == old(dest[..]))
    {
      var avail := Wrap(|buf| - pos);
      if avail < 0 { avail := 0; }
      var n := count;
      if n > avail { n := avail; }
      if n < 0 { n := 0; }
      if n > 0 {
        if pos < 0 { return Panic; }
        for i := 0 to n
          invariant buf == old(buf) && pos == old(pos)
          invariant i > 0 ==> 0 <= offset && offset + i <= dest.Length
          invariant forall k :: 0 <= k < dest.Length ==>
            dest[k] == if offset <= k < offset + i then buf[pos + (k - offset)] else old(dest[k])
        {
          if offset + i < 0 || offset + i >= dest.Length { return Panic; }
          dest[offset + i] := buf[pos + i];
        }
        pos := pos + n;
      }
      return Done(n);
    }

    method ReadByte() returns (r: Outcome<int>)
      modifies this
      ensures buf == old(buf)
      ensures old(pos) >= |buf| ==> r == Done(-1)
      ensures 0 <= old(pos) < |buf| ==> r == Done(buf[old(pos)] as int)
      ensures old(pos) < 0 ==> r == Panic
      ensures pos == if r.Done? && r.value >= 0 then old(pos) + 1 else old(pos)
    {
      if pos >= |buf| { return Done(-1); }
      if pos < 0 { return Panic; }
      r := Done(buf[pos] as int);
      pos := pos + 1;
    }

    method Seek(offset: int, origin: int) returns (r: Outcome<int>)
      modifies this
      ensures var p := SeekTarget(old(State()), offset, origin);
        && r == (if p < 0 then Thrown else Done(p))
        && State() == if p < 0 then old(State()) else Stream(old(buf), p)
    {
      var base := if origin == 1 then pos else if origin == 2 then |buf| else 0;
      var p := Wrap(base + offset);
      if p < 0 { return Thrown; }
      pos := p;
      return Done(p);
    }

    method SetLength(length: int)
      modifies this
      ensures State() == Resized(old(State()), length)
    {
      var n := length;
      if n < 0 { n := 0; }
      buf := if n <= |buf| then buf[..n] else Padded(buf, n);
      if pos > n { pos := n; }
    }

    // Any position is taken, a negative one too.
    method SetPosition(p: int)
      modifies this
      ensures State() == Stream(old(buf), p)
    {
      pos := p;
    }

    // Works from a position within the buffer only; past the end it panics. The destination may be
    // this very stream.
    method CopyTo(dest: MemoryStream) returns (r: Outcome<()>)
      requires pos <= MAX_INT64 && |buf| <= MAX_INT64 && dest.pos <= MAX_INT64 && |dest.buf| <= MAX_INT64
      modifies this, dest
      ensures r.Done? <==> 0 <= old(pos) <= old(|buf|) && Writable(old(dest.State()), old(|buf| - pos))
      ensures r.Done? && dest != this ==>
        && dest.State() == Written(old(dest.State()), old(buf[pos..]))
        && State() == Stream(old(buf), old(|buf|))
      ensures r.Done? && dest == this ==> State() == Stream(old(buf), old(|buf|))
      ensures !r.Done? ==> r == Panic
    {
      if pos < 0 || pos > |buf| { return Panic; }
      var rest := buf[pos..];
      r := dest.WriteAt(rest);
      if r.Panic? { return Panic; }
      pos := |buf|;
    }
  }

  // ---------------------------------------------------------------- what the bytes are

  // Positions past the end read as zero.
  function ByteAt(buf: seq<Byte>, i: nat): Byte { if i < |buf| then buf[i] else 0 }

  // A write changes exactly its range; a gap before it is filled with zeros.
  lemma WriteReplacesItsRange(s: Stream, data: seq<Byte>, i: nat)
    requires s.pos >= 0
    ensures var r := Written(s, data);
      && |r.buf| == (if s.pos + |data| > |s.buf| then s.pos + |data| else |s.buf|)
      && ByteAt(r.buf, i) == if s.pos <= i < s.pos + |data| then data[i - s.pos] else ByteAt(s.buf, i)
  {}

  // Writing, seeking back and reading gives the bytes back, and leaves the position after them.
  lemma WriteSeekReadBack(s: Stream, data: seq<Byte>)
    requires Writable(s, |data|) && |s.buf| <= MAX_INT64
    ensures var w := Written(s, data);
      && SeekTarget(w, s.pos, 0) == s.pos
      && SeekTarget(w, -|data|, 1) == s.pos
      && Available(Stream(w.buf, s.pos), |data|) == |data|
      && w.buf[s.pos..s.pos + |data|] == data
  {}

  // A read gets what was asked for as far as there are bytes, and none from the end on.
  lemma ReadsWhatIsThere(s: Stream, count: int)
    requires 0 <= s.pos <= MAX_INT64 && |s.buf| <= MAX_INT64
    ensures Available(s, count) <= |s.buf| && (s.pos >= |s.buf| || count <= 0 ==> Available(s, count) == 0)
    ensures s.pos < |s.buf| && count > 0 ==>
      Available(s, count) == if s.pos + count <= |s.buf| then count else |s.buf| - s.pos
  {}

  // A write leaves the position after what was written, a shortening at most at the new end, a seek at
  // its distance from the start, the position or the end.
  lemma PositionsMove(s: Stream, data: seq<Byte>, length: nat, offset: int)
    requires 0 <= s.pos <= MAX_INT64 && |s.buf| <= MAX_INT64
    ensures Written(s, data).pos == s.pos + |data|
    ensures |Resized(s, length).buf| == length
    ensures Resized(s, length).pos <= length && (s.pos <= length ==> Resized(s, length).pos == s.pos)
    ensures s.pos >= length ==> Resized(s, length).pos == length
    ensures -MAX_INT64 - 1 <= offset <= 0 ==>
      && SeekTarget(s, offset, 0) == offset
      && SeekTarget(s, offset, 1) == s.pos + offset && SeekTarget(s, offset, 2) == |s.buf| + offset
    ensures 0 <= offset && s.pos + offset <= MAX_INT64 ==> SeekTarget(s, offset, 1) == s.pos + offset
    ensures 0 <= offset && |s.buf| + offset <= MAX_INT64 ==> SeekTarget(s, offset, 2) == |s.buf| + offset
    ensures 0 <= offset <= MAX_INT64 ==> SeekTarget(s, offset, 0) == offset
  {}

  // Two writes in a row are one write of both.
  lemma WritesCompose(s: Stream, a: seq<Byte>, b: seq<Byte>)
    requires s.pos >= 0
    ensures Written(Written(s, a), b) == Written(s, a + b)
  {
    var once, twice := Written(s, a + b).buf, Written(Written(s, a), b).buf;
    assert |once| == |twice|;
    forall i | 0 <= i < |once| ensures once[i] == twice[i] {
      WriteReplacesItsRange(s, a + b, i);
      WriteReplacesItsRange(s, a, i);
      WriteReplacesItsRange(Written(s, a), b, i);
      assert ByteAt(once, i) == once[i] && ByteAt(twice, i) == twice[i];
    }
  }

  // Cutting a stream short forgets the bytes for good: lengthened again it has zeros there.
  lemma TruncatedBytesAreGone(s: Stream, n: nat, m: nat, i: nat)
    requires s.pos >= 0 && n <= |s.buf|
    ensures ByteAt(Resized(Resized(s, n), m).buf, i) == if i < n && i < m then s.buf[i] else 0
    ensures |Resized(Resized(s, n), m).buf| == m
  {}

  // ---------------------------------------------------------------- runs

  datatype Op = WriteBytes(data: seq<Byte>) | ReadBytes(count: int) | SeekTo(offset: int, origin: int)
              | ResizeTo(length: int) | MoveTo(position: int)

  predicate InRange(s: Stream) { 0 <= s.pos <= MAX_INT64 && |s.buf| <= MAX_INT64 }

  // The state after an operation, None if it panics.
  function Apply(s: Stream, op: Op): Option<Stream> {
    match op
    case WriteBytes(data) => if Writable(s, |data|) then Some(Written(s, data)) else None
    case ReadBytes(count) =>
      var n := Available(s, count);
      if n > 0 && s.pos < 0 then None else Some(Stream(s.buf, s.pos + n))
    case SeekTo(offset, origin) =>
      var p := SeekTarget(s, offset, origin);
      Some(if p < 0 then s else Stream(s.buf, p))
    case ResizeTo(length) => Some(Resized(s, length))
    case MoveTo(p) => Some(Stream(s.buf, p))
  }

  function Run(s: Stream, ops: seq<Op>): Option<Stream>
    decreases |ops|
  {
    if ops == [] then Some(s)
    else match Apply(s, ops[0])
      case None => None
      case Some(s') => Run(s', ops[1..])
  }

  // The arguments are 64-bit numbers and lengths.
  predicate Fits(op: Op) {
    match op
    case WriteBytes(data) => true
    case ReadBytes(count) => true
    case SeekTo(offset, _) => -MAX_INT64 - 1 <= offset <= MAX_INT64
    case ResizeTo(length) => length <= MAX_INT64
    case MoveTo(p) => -MAX_INT64 - 1 <= p <= MAX_INT64
  }

  lemma ApplyStaysInRange(s: Stream, op: Op)
    requires InRange(s) && Fits(op)
    ensures Apply(s, op).Some? && !(op.MoveTo? && op.position < 0) ==> InRange(Apply(s, op).value)
    ensures Apply(s, op).None? ==> op.WriteBytes? && s.pos + |op.data| > MAX_INT64
  {}

  // The operation at index i is a write that would end past the largest length there is.
  predicate Overflows(s: Stream, ops: seq<Op>, i: nat)
    requires i < |ops|
  {
    var before := Run(s, ops[..i]);
    before.Some? && ops[i].WriteBytes? && before.value.pos + |ops[i].data| > MAX_INT64
  }

  // Set_Position to a negative number is the one way to leave the range: without it no run ends in
  // a panic, other than by a write past the largest length.
  lemma {:induction false} RunStaysInRange(s: Stream, ops: seq<Op>)
    requires InRange(s) && forall i :: 0 <= i < |ops| ==> Fits(ops[i]) && !(ops[i].MoveTo? && ops[i].position < 0)
    ensures Run(s, ops).Some? ==> InRange(Run(s, ops).value)
    ensures Run(s, ops).None? ==> exists i :: 0 <= i < |ops| && Overflows(s, ops, i)
    decreases |ops|
  {
    if ops != [] {
      ApplyStaysInRange(s, ops[0]);
      if Apply(s, ops[0]).Some? {
        var s', rest := Apply(s, ops[0]).value, ops[1..];
        RunStaysInRange(s', rest);
        if Run(s, ops).None? {
          var i :| 0 <= i < |rest| && Overflows(s', rest, i);
          assert ops[..i + 1][0] == ops[0] && ops[..i + 1][1..] == rest[..i];
          assert Overflows(s, ops, i + 1);
        }
      } else {
        assert Overflows(s, ops, 0);
      }
    }
  }

  // And a negative position makes every write panic, and every read that asks for bytes, except
  // where the distance to the end of the buffer does not fit 64 bits: then it reads none.
  lemma NegativePositionPanics(s: Stream, data: seq<Byte>, count: int)
    requires -MAX_INT64 - 1 <= s.pos < 0 && |s.buf| <= MAX_INT64
    ensures Apply(s, WriteBytes(data)) == None
    ensures Apply(s, ReadBytes(count)) == None <==> count > 0 && |s.buf| - s.pos <= MAX_INT64
  {}
}
