// DateTime and DateTimeOffset as 64-bit tick counts, converted through Unix time
// (internal/bcl/system_datetime.go:47-58, 218-235, 442-477, system_datetimeoffset.go:31-133).
module Ticks {
  const TWO63: int := 0x8000_0000_0000_0000
  const TWO64: int := 0x1_0000_0000_0000_0000

  type Int64 = n: int | -TWO63 <= n < TWO63

  // Two's complement: the 64-bit number congruent to n.
  function Wrap(n: int): Int64 { (n + TWO63) % TWO64 - TWO63 }

  // Go's integer division rounds toward zero, and the remainder has the dividend's sign.
  function GoDiv(a: int, b: nat): int
    requires b > 0
  {
    if a >= 0 then a / b else -((-a) / b)
  }

  function GoRem(a: int, b: nat): int
    requires b > 0
  {
    a - GoDiv(a, b) * b
  }

  const TICKS_PER_SECOND: nat := 10_000_000
  const UNIX_EPOCH_TICKS: int := 621_355_968_000_000_000
  const MAX_TICKS: int := 3_155_378_975_999_999_999
  const BILLION: nat := 1_000_000_000

  // An instant: seconds since 1970 and nanoseconds within the second.
  datatype Time = Time(sec: int, nsec: int)

  predicate Normal(t: Time) { 0 <= t.nsec < BILLION }

  // time.Unix: whole seconds are carried out of the nanoseconds, which end up non-negative.
  function Unix(sec: Int64, nsec: Int64): Time {
    if 0 <= nsec < BILLION then Time(sec, nsec)
    else
      var n := GoDiv(nsec, BILLION);
      var rest := nsec - n * BILLION;
      if rest < 0 then Time(sec + n - 1, rest + BILLION) else Time(sec + n, rest)
  }

  function TicksToTime(ticks: Int64): Time {
    var rel := Wrap(ticks - UNIX_EPOCH_TICKS);
    Unix(GoDiv(rel, TICKS_PER_SECOND), GoRem(rel, TICKS_PER_SECOND) * 100)
  }

  function TimeToTicks(t: Time): Int64 {
    Wrap(Wrap(UNIX_EPOCH_TICKS + Wrap(t.sec * TICKS_PER_SECOND)) + GoDiv(t.nsec, 100))
  }

  // ---------------------------------------------------------------- the calendar

  predicate IsLeap(year: nat) { year % 4 == 0 && (year % 100 != 0 || year % 400 == 0) }

  // Days of the Gregorian calendar from the start of year 1 to the start of a year.
  function DaysBefore(year: nat): nat
    requires year >= 1
  {
    365 * (year - 1) + (year - 1) / 4 - (year - 1) / 100 + (year - 1) / 400
  }

  lemma DaysOfYear(year: nat)
    requires year >= 1
    ensures DaysBefore(1) == 0
    ensures DaysBefore(year + 1) == DaysBefore(year) + (if IsLeap(year) then 366 else 365)
  {
    FoursUpTo(year);
    HundredsUpTo(year);
    FourHundredsUpTo(year);
  }

  lemma FoursUpTo(year: nat)
    requires year >= 1
    ensures year / 4 == (year - 1) / 4 + (if year % 4 == 0 then 1 else 0)
  {}

  lemma HundredsUpTo(year: nat)
    requires year >= 1
    ensures year / 100 == (year - 1) / 100 + (if year % 100 == 0 then 1 else 0)
    ensures year % 100 == 0 ==> year % 4 == 0
  {
    var q, r := year / 100, year % 100;
    assert year - 1 == if r == 0 then 100 * (q - 1) + 99 else 100 * q + (r - 1);
    assert r == 0 ==> year == 4 * (25 * q);
  }

  lemma FourHundredsUpTo(year: nat)
    requires year >= 1
    ensures year / 400 == (year - 1) / 400 + (if year % 400 == 0 then 1 else 0)
    ensures year % 400 == 0 ==> year % 100 == 0
  {
    var q, r := year / 400, year % 400;
    assert year - 1 == if r == 0 then 400 * (q - 1) + 399 else 400 * q + (r - 1);
    assert r == 0 ==> year == 100 * (4 * q);
  }

  // The constants are those of the calendar: 1970 starts at the epoch's ticks, the last tick is the one
  // before year 10000, and a tick is 100 nanoseconds.
  lemma CalendarConstants()
    ensures UNIX_EPOCH_TICKS == DaysBefore(1970) * 24 * 60 * 60 * TICKS_PER_SECOND
    ensures MAX_TICKS + 1 == DaysBefore(10_000) * 24 * 60 * 60 * TICKS_PER_SECOND
    ensures TICKS_PER_SECOND * 100 == BILLION
  {}

  // ---------------------------------------------------------------- conversions

  // Wrapping forgets only multiples of two to the 64th.
  lemma WrapIsCongruent(n: int)
    ensures exists k: int :: n == Wrap(n) + k * TWO64
  {
    assert n == Wrap(n) + ((n + TWO63) / TWO64) * TWO64;
  }

  lemma WrapUnique(n: int, m: Int64, k: int)
    requires n == m + k * TWO64
    ensures Wrap(n) == m
  {
    assert (n + TWO63) % TWO64 == m + TWO63 by {
      assert n + TWO63 == (m + TWO63) + k * TWO64;
    }
  }

  lemma WrapOfWrap(a: int, b: int)
    ensures Wrap(Wrap(a) + b) == Wrap(a + b)
  {
    WrapIsCongruent(a);
    WrapIsCongruent(a + b);
    var k: int :| a == Wrap(a) + k * TWO64;
    var j: int :| a + b == Wrap(a + b) + j * TWO64;
    assert Wrap(a) + b == Wrap(a + b) + (j - k) * TWO64;
    WrapUnique(Wrap(a) + b, Wrap(a + b), j - k);
  }

  // Truncated division followed by normalisation comes to flooring, before 1970 as after.
  lemma TimeOfTicks(ticks: Int64)
    ensures var rel, t := Wrap(ticks - UNIX_EPOCH_TICKS), TicksToTime(ticks);
      && Normal(t) && t.sec * TICKS_PER_SECOND + t.nsec / 100 == rel && t.nsec % 100 == 0
  {}

  // Every 64-bit tick count survives the way to a time and back, the ones outside the calendar's
  // range included: what overflows on the way wraps around twice.
  lemma TicksSurvive(ticks: Int64)
    ensures TimeToTicks(TicksToTime(ticks)) == ticks
  {
    TimeOfTicks(ticks);
    var rel, t := Wrap(ticks - UNIX_EPOCH_TICKS), TicksToTime(ticks);
    var s, n := t.sec * TICKS_PER_SECOND, t.nsec / 100;
    WrapOfWrap(UNIX_EPOCH_TICKS + Wrap(s), n);
    WrapOfWrap(s, UNIX_EPOCH_TICKS + n);
    WrapOfWrap(ticks - UNIX_EPOCH_TICKS, UNIX_EPOCH_TICKS);
    assert Wrap(s) + UNIX_EPOCH_TICKS + n == UNIX_EPOCH_TICKS + Wrap(s) + n;
    WrapUnique(ticks, ticks, 0);
  }

  // Within years 1 to 9999 nothing overflows.
  lemma NoOverflowInCalendar(ticks: Int64)
    requires 0 <= ticks <= MAX_TICKS
    ensures var rel, t := ticks - UNIX_EPOCH_TICKS, TicksToTime(ticks);
      && Wrap(rel) == rel
      && t == Time(rel / TICKS_PER_SECOND, rel % TICKS_PER_SECOND * 100)
      && Wrap(t.sec * TICKS_PER_SECOND) == t.sec * TICKS_PER_SECOND
      && 0 <= UNIX_EPOCH_TICKS + t.sec * TICKS_PER_SECOND <= ticks
  {
    WrapUnique(ticks - UNIX_EPOCH_TICKS, ticks - UNIX_EPOCH_TICKS, 0);
    TimeOfTicks(ticks);
    var t := TicksToTime(ticks);
    WrapUnique(t.sec * TICKS_PER_SECOND, t.sec * TICKS_PER_SECOND, 0);
  }

  // A time within the calendar comes back floored to 100 nanoseconds.
  lemma TimeFloorsToTick(t: Time)
    requires Normal(t) && 0 <= t.sec * TICKS_PER_SECOND + UNIX_EPOCH_TICKS <= MAX_TICKS
    ensures TicksToTime(TimeToTicks(t)) == Time(t.sec, t.nsec - t.nsec % 100)
  {
    var s, n := t.sec * TICKS_PER_SECOND, t.nsec / 100;
    WrapUnique(s, s, 0);
    WrapUnique(UNIX_EPOCH_TICKS + s, UNIX_EPOCH_TICKS + s, 0);
    WrapUnique(UNIX_EPOCH_TICKS + s + n, UNIX_EPOCH_TICKS + s + n, 0);
    var ticks := TimeToTicks(t);
    assert ticks == UNIX_EPOCH_TICKS + s + n;
    WrapUnique(ticks - UNIX_EPOCH_TICKS, s + n, 0);
    TimeOfTicks(ticks);
  }

  // ---------------------------------------------------------------- DateTime

  predicate Before(a: Time, b: Time) { a.sec < b.sec || (a.sec == b.sec && a.nsec < b.nsec) }

  function CompareTo(a: Int64, b: Int64): int {
    var x, y := TicksToTime(a), TicksToTime(b);
    if Before(x, y) then -1 else if Before(y, x) then 1 else 0
  }

  predicate Equals(a: Int64, b: Int64) { TicksToTime(a) == TicksToTime(b) }

  function Subtract(a: Int64, b: Int64): Int64 { Wrap(TimeToTicks(TicksToTime(a)) - TimeToTicks(TicksToTime(b))) }

  function Order(a: int, b: int): int { if a < b then -1 else if a > b then 1 else 0 }

  // The tick counts whose distance from 1970 does not fit 64 bits.
  predicate TooEarly(ticks: Int64) { ticks < UNIX_EPOCH_TICKS - TWO63 }

  lemma RelativeTicks(ticks: Int64)
    ensures Wrap(ticks - UNIX_EPOCH_TICKS) == ticks - UNIX_EPOCH_TICKS + (if TooEarly(ticks) then TWO64 else 0)
  {
    if TooEarly(ticks) {
      WrapUnique(ticks - UNIX_EPOCH_TICKS, ticks - UNIX_EPOCH_TICKS + TWO64, -1);
    } else {
      WrapUnique(ticks - UNIX_EPOCH_TICKS, ticks - UNIX_EPOCH_TICKS, 0);
    }
  }

  lemma TimesCompareLikeRelativeTicks(a: Int64, b: Int64)
    ensures CompareTo(a, b) == Order(Wrap(a - UNIX_EPOCH_TICKS), Wrap(b - UNIX_EPOCH_TICKS))
  {
    TimeOfTicks(a);
    TimeOfTicks(b);
  }

  // Comparison is tick order exactly when both counts, or neither, are too early; in particular
  // for all dates of the calendar.
  lemma ComparesLikeTicksIff(a: Int64, b: Int64)
    ensures CompareTo(a, b) == Order(a, b) <==> TooEarly(a) == TooEarly(b)
    ensures 0 <= a && 0 <= b ==> CompareTo(a, b) == Order(a, b)
  {
    TimesCompareLikeRelativeTicks(a, b);
    RelativeTicks(a);
    RelativeTicks(b);
  }

  // Equality is equality of ticks for every two counts, and the difference of two dates of the
  // calendar is the difference of their ticks.
  lemma EqualAndSubtractLikeTicks(a: Int64, b: Int64)
    ensures Equals(a, b) <==> a == b
    ensures Subtract(a, b) == Wrap(a - b)
    ensures 0 <= a && 0 <= b ==> Subtract(a, b) == a - b
  {
    TicksSurvive(a);
    TicksSurvive(b);
    if 0 <= a && 0 <= b { WrapUnique(a - b, a - b, 0); }
  }

  // ---------------------------------------------------------------- DateTimeOffset

  // The UTC instant and the offset it was given with.
  datatype Offset = Offset(ticks: Int64, offsetTicks: Int64)

  function FromLocal(localTicks: Int64, offsetTicks: Int64): Offset {
    Offset(Wrap(localTicks - offsetTicks), offsetTicks)
  }

  function GetUtcDateTime(o: Offset): Int64 { TimeToTicks(TicksToTime(o.ticks)) }

  function GetDateTime(o: Offset): Int64 { TimeToTicks(TicksToTime(Wrap(o.ticks + o.offsetTicks))) }

  lemma WrapCancels(a: Int64, b: Int64)
    ensures Wrap(Wrap(a - b) + b) == a
  {
    WrapOfWrap(a - b, b);
    WrapUnique(a, a, 0);
  }

  // For every local time and offset the readers give back what was put in; the UTC reader gives
  // the local time less the offset.
  lemma OffsetGivesBackLocal(localTicks: Int64, offsetTicks: Int64)
    ensures var o := FromLocal(localTicks, offsetTicks);
      && GetDateTime(o) == localTicks && o.offsetTicks == offsetTicks
      && GetUtcDateTime(o) == Wrap(localTicks - offsetTicks)
  {
    var utc := Wrap(localTicks - offsetTicks);
    WrapCancels(localTicks, offsetTicks);
    assert GetDateTime(Offset(utc, offsetTicks)) == TimeToTicks(TicksToTime(localTicks));
    TicksSurvive(localTicks);
    TicksSurvive(utc);
  }
}
