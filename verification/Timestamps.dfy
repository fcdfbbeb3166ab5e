/** Conversion between timestamps and dates, in exact arithmetic.  A date is its interval in seconds since
    the 2001 reference date; a timestamp counts seconds and nanoseconds since 1970, both of one sign. */
module Timestamps {
  const INT64_MAX: int := 0x7fff_ffff_ffff_ffff
  const INT64_MIN: int := -0x8000_0000_0000_0000

  newtype int64 = x: int | -0x8000_0000_0000_0000 <= x <= 0x7fff_ffff_ffff_ffff
  newtype int32 = x: int | -0x8000_0000 <= x <= 0x7fff_ffff

  /** `NSTimeIntervalSince1970`: seconds from 1970 to the reference date. */
  const EPOCH: int := 978_307_200
  const BILLION: int := 1_000_000_000

  datatype Timestamp = NullTimestamp | Timestamp(seconds: int, nanoseconds: int)

  datatype Date = Nil | NotANumber | Interval(t: real)

  /** What the `Timestamp` constructor asserts. */
  predicate WellFormed(ts: Timestamp) {
    ts.Timestamp? ==>
      && INT64_MIN <= ts.seconds <= INT64_MAX
      && -BILLION < ts.nanoseconds < BILLION
      && ((ts.seconds >= 0 && ts.nanoseconds >= 0) || (ts.seconds <= 0 && ts.nanoseconds <= 0))
  }

  predicate AtMost(a: Timestamp, b: Timestamp)
    requires a.Timestamp? && b.Timestamp?
  {
    a.seconds < b.seconds || (a.seconds == b.seconds && a.nanoseconds <= b.nanoseconds)
  }

  function Total(ts: Timestamp): int
    requires ts.Timestamp?
  {
    ts.seconds * BILLION + ts.nanoseconds
  }

  /** Rounding toward zero: a cast from floating point to an integer. */
  function Trunc(x: real): int {
    if x >= 0.0 then x.Floor else -((-x).Floor)
  }

  /** The one well-formed split of a nanosecond count. */
  function Split(total: int): Timestamp {
    if total >= 0 then Timestamp(total / BILLION, total % BILLION)
    else Timestamp(-((-total) / BILLION), -((-total) % BILLION))
  }

  /** `RLMTimestampToNSDate` */
  function ToDate(ts: Timestamp): Date {
    if ts.NullTimestamp? then Nil
    else Interval(ts.seconds as real - EPOCH as real + ts.nanoseconds as real / BILLION as real)
  }

  predicate ClampedHigh(t: real) {
    t >= INT64_MAX as real - EPOCH as real
  }

  predicate ClampedLow(t: real) {
    t - EPOCH as real < INT64_MIN as real
  }

  const HIGHEST := Timestamp(INT64_MAX, BILLION - 1)
  const LOWEST := Timestamp(INT64_MIN, -BILLION + 1)

  /** What the conversion means: the date's nanoseconds since the reference date, rounded toward it,
      shifted to 1970 and split; except where it clamps. */
  function FromDate(d: Date): Timestamp {
    match d
    case Nil => NullTimestamp
    case NotANumber => Timestamp(0, 0)
    case Interval(t) =>
      if ClampedHigh(t) then HIGHEST
      else if ClampedLow(t) then LOWEST
      else Split(Trunc(t * BILLION as real) + EPOCH * BILLION)
  }

  lemma FloorShift(x: real, n: int)
    ensures (x + n as real).Floor == x.Floor + n
  {
  }

  /** Truncating the seconds first and the rest of the nanoseconds after loses nothing. */
  lemma TruncInTwoSteps(t: real)
    ensures var s := Trunc(t);
            var rest := (t - s as real) * BILLION as real;
            && Trunc(t * BILLION as real) == s * BILLION + Trunc(rest)
            && (t >= 0.0 ==> 0 <= Trunc(rest) < BILLION && s >= 0)
            && (t <= 0.0 ==> -BILLION < Trunc(rest) <= 0 && s <= 0)
  {
    var s := Trunc(t);
    var b := BILLION as real;
    if t >= 0.0 {
      var frac := t - s as real;
      assert 0.0 <= frac < 1.0;
      assert t * b == frac * b + (s * BILLION) as real;
      FloorShift(frac * b, s * BILLION);
      assert 0.0 <= frac * b < b;
    } else {
      var u := -t;
      var frac := u - u.Floor as real;
      assert 0.0 <= frac < 1.0 && s == -u.Floor;
      assert u * b == frac * b + (u.Floor * BILLION) as real;
      FloorShift(frac * b, u.Floor * BILLION);
      assert 0.0 <= frac * b < b;
      assert (t - s as real) * b == -(frac * b);
    }
  }

  /** A well-formed timestamp is the split of its total. */
  lemma SplitTotal(ts: Timestamp)
    requires ts.Timestamp? && -BILLION < ts.nanoseconds < BILLION
    requires (ts.seconds >= 0 && ts.nanoseconds >= 0) || (ts.seconds <= 0 && ts.nanoseconds <= 0)
    ensures Split(Total(ts)) == ts
  {
    var total := Total(ts);
    if total >= 0 {
      DivMod(total, ts.seconds, ts.nanoseconds);
    } else {
      DivMod(-total, -ts.seconds, -ts.nanoseconds);
    }
  }

  lemma DivMod(n: int, q: int, r: int)
    requires n == q * BILLION + r && 0 <= r < BILLION
    ensures n / BILLION == q && n % BILLION == r
  {
  }

  /** `RLMTimestampForNSDate`, on fixed-width integers: no step overflows. */
  method TimestampForDate(d: Date) returns (ts: Timestamp)
    ensures ts == FromDate(d)
  {
    if d.Nil? {
      return NullTimestamp;
    }
    if d.NotANumber? {
      return Timestamp(0, 0);
    }
    var t := d.t;
    if t >= INT64_MAX as real - EPOCH as real {
      return HIGHEST;
    }
    if t - EPOCH as real < INT64_MIN as real {
      return LOWEST;
    }
    TruncInTwoSteps(t);
    var seconds := Trunc(t) as int64;
    var nanoseconds := Trunc((t - seconds as real) * BILLION as real) as int32;
    ghost var total := Trunc(t * BILLION as real) + EPOCH * BILLION;
    seconds := seconds + EPOCH as int64;
    if nanoseconds < 0 && seconds > 0 {
      nanoseconds := nanoseconds + BILLION as int32;
      seconds := seconds - 1;
    }
    ts := Timestamp(seconds as int, nanoseconds as int);
    assert Total(ts) == total;
    SplitTotal(ts);
  }

  /** Every date but a missing one converts to a pair of one sign, in range. */
  lemma FromDateWellFormed(d: Date)
    ensures WellFormed(FromDate(d)) && (FromDate(d).NullTimestamp? <==> d.Nil?)
  {
    if d.Interval? && !ClampedHigh(d.t) && !ClampedLow(d.t) {
      var total := Trunc(d.t * BILLION as real) + EPOCH * BILLION;
      TruncInTwoSteps(d.t);
      SplitBounds(total);
    }
  }

  lemma SplitBounds(total: int)
    requires INT64_MIN * BILLION <= total < INT64_MAX * BILLION
    ensures WellFormed(Split(total)) && Total(Split(total)) == total
  {
  }

  lemma TruncMonotone(x: real, y: real)
    requires x <= y
    ensures Trunc(x) <= Trunc(y)
  {
  }

  lemma SplitMonotone(m: int, n: int)
    requires m <= n
    ensures AtMost(Split(m), Split(n))
  {
  }

  /** Later dates never convert to earlier timestamps, across both clamps. */
  lemma FromDateMonotone(x: real, y: real)
    requires x <= y
    ensures AtMost(FromDate(Interval(x)), FromDate(Interval(y)))
  {
    FromDateWellFormed(Interval(x));
    FromDateWellFormed(Interval(y));
    if !ClampedLow(x) && !ClampedHigh(y) {
      assert x * BILLION as real <= y * BILLION as real;
      TruncMonotone(x * BILLION as real, y * BILLION as real);
      SplitMonotone(Trunc(x * BILLION as real) + EPOCH * BILLION, Trunc(y * BILLION as real) + EPOCH * BILLION);
    }
  }

  /** Away from the clamps, converting back gives the date rounded to nanoseconds toward the reference date. */
  lemma DateRoundTrip(t: real)
    requires !ClampedHigh(t) && !ClampedLow(t)
    ensures ToDate(FromDate(Interval(t))) == Interval(Trunc(t * BILLION as real) as real / BILLION as real)
  {
    var k := Trunc(t * BILLION as real);
    TruncInTwoSteps(t);
    SplitBounds(k + EPOCH * BILLION);
    var ts := Split(k + EPOCH * BILLION);
    assert ts.seconds as real - EPOCH as real + ts.nanoseconds as real / BILLION as real ==
           ((ts.seconds * BILLION + ts.nanoseconds - EPOCH * BILLION) as real) / BILLION as real;
  }

  /** Converting a well-formed timestamp to a date and back is the identity exactly when its seconds lie
      below the maximum and at or above twice the epoch offset over the minimum, or it is an extreme
      itself.  The lower bound is the code's: it subtracts the epoch offset where it would have to add it,
      so timestamps it could represent are clamped. */
  lemma TimestampRoundTrip(ts: Timestamp)
    requires WellFormed(ts)
    ensures FromDate(ToDate(ts)) == ts <==>
            || ts.NullTimestamp?
            || ts == HIGHEST || ts == LOWEST
            || (ts.seconds < INT64_MAX && Total(ts) >= (INT64_MIN + 2 * EPOCH) * BILLION)
  {
    if ts.Timestamp? {
      var t := ToDate(ts).t;
      var b := BILLION as real;
      var n := ts.nanoseconds as real / b;
      assert -1.0 < n < 1.0;
      var k := Total(ts) - EPOCH * BILLION;
      assert t * b == k as real;
      assert Trunc(t * b) == k;
      SplitTotal(ts);
      assert ClampedHigh(t) <==> Total(ts) >= INT64_MAX * BILLION;
      assert ClampedLow(t) <==> Total(ts) < (INT64_MIN + 2 * EPOCH) * BILLION;
    }
  }

  /** The conversions in numbers: the reference date is 31 years, 8 of them leap years, after 1970; a missing date is
      no timestamp, one that is not a number is 1970; the ends of the range are those of 64-bit seconds. */
  lemma Landmarks(t: real, seconds: int, nanoseconds: int)
    ensures ToDate(Timestamp((31 * 365 + 8) * 86_400, 0)) == Interval(0.0)
    ensures FromDate(Interval(0.0)) == Timestamp((31 * 365 + 8) * 86_400, 0)
    ensures ToDate(NullTimestamp) == Nil && FromDate(Nil) == NullTimestamp && FromDate(NotANumber) == Timestamp(0, 0)
    ensures ToDate(Timestamp(seconds, nanoseconds)) ==
            Interval(seconds as real + nanoseconds as real / 1_000_000_000.0 - 978_307_200.0)
    ensures t + 978_307_200.0 >= 9_223_372_036_854_775_807.0 ==>
              FromDate(Interval(t)) == Timestamp(9_223_372_036_854_775_807, 999_999_999)
    ensures t - 978_307_200.0 < -9_223_372_036_854_775_808.0 ==>
              FromDate(Interval(t)) == Timestamp(-9_223_372_036_854_775_808, -999_999_999)
  {
    assert Trunc(0.0) == 0;
  }
}
