/**
 * Integer date encodings: the two-byte DateOnly day count, the one-minute
 * DateTimeAsInt encoding, TimeSpan rounding and the Easter computus. A DateTime is
 * its tick count (100 ns units since 0001-01-01); calendar construction from
 * year, month and day is left to the calendar and not modelled.
 */
module DateUtils {
  import opened Wrappers
  import opened Clr
  import ClrText

  type UShort = x: int | 0 <= x < 0x1_0000

  /** The exceptions these operations raise. */
  datatype DateError =
    | ArgumentOutOfRange  // ArgumentOutOfRangeException
    | Overflow            // OverflowException from a checked cast
    | DivideByZero        // DivideByZeroException

  const TicksPerMinute: int := 600_000_000
  const TicksPerDay: int := 864_000_000_000
  /** DateTime.MaxValue.Ticks. */
  const DateTimeMax: int := 3_155_378_975_999_999_999
  /** The ticks of 1899-12-31, day 0 of DateOnly. */
  const Epoch: int := 599_265_216_000_000_000

  /** A DateTime: a tick count within DateTime's range. */
  type Ticks = t: int | 0 <= t <= DateTimeMax

  // ---------------------------------------------------------------------------
  // DateOnly: a ushort count of days since 1899-12-31

  datatype DateOnly = DateOnly(days: UShort)

  /** default(DateOnly), which stands for "no date". */
  const NoDate: DateOnly := DateOnly(0)
  const MinValue: DateOnly := DateOnly(1)
  const MaxValue: DateOnly := DateOnly(0xFFFF)

  /** The day count `x` saturated to the ushort range. */
  function Clamp(x: int): UShort
  {
    if x < 0 then 0 else if x > 0xFFFF then 0xFFFF else x
  }

  /**
   * `unchecked((ushort)((uint)n <= ushort.MaxValue ? n : ~(n >> 31)))`: out of
   * range, `n >> 31` is all ones for a negative n and zero otherwise, so its
   * complement truncated to 16 bits is 0 or 0xFFFF.
   */
  function Saturate16(n: Int32): (r: UShort)
    ensures r == Clamp(n)
  {
    if AsUInt32(n) <= 0xFFFF then n
    else
      var signs := if n < 0 then -1 else 0;
      (-signs - 1) % 0x1_0000
  }

  /**
   * `operator +(DateOnly, int)` as written: the sum is formed in int32, so it wraps
   * before it is saturated.
   */
  function AddAsWritten(d: DateOnly, n: Int32): DateOnly
  {
    DateOnly(Saturate16(Wrap32(n + d.days)))
  }

  /** `operator +(DateOnly, int)` as intended: the day count plus `n`, saturated. */
  function Add(d: DateOnly, n: int): (r: DateOnly)
    ensures 0 <= d.days + n <= 0xFFFF ==> r.days == d.days + n
    ensures d.days + n < 0 ==> r == NoDate
    ensures 0xFFFF < d.days + n ==> r == MaxValue
  {
    DateOnly(Clamp(d.days + n))
  }

  /** Wherever the int32 sum does not overflow, the operator is the saturating sum. */
  lemma AddAsWrittenSaturates(d: DateOnly, n: Int32)
    requires d.days + n <= Int32Max
    ensures AddAsWritten(d, n) == Add(d, n)
  {
  }

  /**
   * The overflow the int32 sum lets through: MaxValue + int.MaxValue wraps to a
   * negative count and saturates to NO_DATE instead of MaxValue.
   */
  lemma AddAsWrittenWraps()
    ensures AddAsWritten(MaxValue, Int32Max) == NoDate
    ensures Add(MaxValue, Int32Max) == MaxValue
  {
    assert Wrap32(Int32Max + 0xFFFF) == Int32Min + 0xFFFE;
  }

  /** The two saturation points the rest of the code relies on. */
  lemma AddStopsAtTheEnds()
    ensures Add(NoDate, -1) == NoDate && AddAsWritten(NoDate, -1) == NoDate
    ensures Add(MaxValue, 1) == MaxValue && AddAsWritten(MaxValue, 1) == MaxValue
  {
  }

  /** Adding is monotonic in the number of days. */
  lemma AddMonotonic(d: DateOnly, m: int, n: int)
    requires m <= n
    ensures Add(d, m).days <= Add(d, n).days
  {
  }

  /** Two steps that stay in range add up. */
  lemma AddAssociates(d: DateOnly, m: int, n: int)
    requires 0 <= d.days + m <= 0xFFFF
    ensures Add(Add(d, m), n) == Add(d, m + n)
  {
  }

  // ---------------------------------------------------------------------------
  // DateOnly <-> DateTime

  /**
   * BinaryValue(DateTime): whole days since 1899-12-31, truncated toward zero in
   * int, then saturated to the ushort range.
   */
  function BinaryValue(ticks: Ticks): (r: UShort)
    ensures ticks < Epoch + TicksPerDay ==> r == 0
    ensures Epoch <= ticks ==> r == Clamp((ticks - Epoch) / TicksPerDay)
  {
    var n := TruncDiv(ticks - Epoch, TicksPerDay);
    assert Int32Min <= n <= Int32Max;
    Saturate16(n)
  }

  /** The days from 0001-01-01 to 1899-12-31, day 0 of DateOnly. */
  const EpochDay: int := 693594

  /**
   * `new DateOnly(new DateTime(year, month, day))`: the days of the calendar
   * date since 1899-12-31, saturated; the same value `BinaryValue` gives for
   * the start of that day.
   */
  function OfDate(d: ClrText.Date): (r: DateOnly)
    requires ClrText.IsValidDate(d)
    ensures ClrText.DayNumber(d) * TicksPerDay <= DateTimeMax ==> r.days == BinaryValue(ClrText.DayNumber(d) * TicksPerDay)
  {
    var n := ClrText.DayNumber(d);
    assert Epoch == EpochDay * TicksPerDay;
    assert n * TicksPerDay - Epoch == (n - EpochDay) * TicksPerDay;
    DateOnly(Clamp(n - EpochDay))
  }

  /** The Date getter: NO_DATE (DateTime.MinValue) for day 0, else the start of that day. */
  function DateTicks(d: DateOnly): (r: Ticks)
    ensures d.days != 0 ==> (r - Epoch) % TicksPerDay == 0
  {
    if d.days == 0 then 0 else d.days * TicksPerDay + Epoch
  }

  /** Converting a DateOnly to a DateTime and back gives the same day. */
  lemma BinaryValueOfDate(d: DateOnly)
    ensures BinaryValue(DateTicks(d)) == d.days
  {
    if d.days != 0 {
      assert (DateTicks(d) - Epoch) / TicksPerDay == d.days;
    }
  }

  /** Within DateOnly's range, BinaryValue drops the time of day: the date starts at or before the instant, less than a day earlier. */
  lemma BinaryValueDropsTimeOfDay(ticks: Ticks)
    requires Epoch + TicksPerDay <= ticks < Epoch + 0x1_0000 * TicksPerDay
    ensures var d := DateOnly(BinaryValue(ticks));
            d != NoDate && DateTicks(d) <= ticks < DateTicks(d) + TicksPerDay
  {
  }

  // ---------------------------------------------------------------------------
  // Weekends and weekday indexes

  /** `((m_days + 1) % 7) < 2`: Saturday or Sunday. NO_DATE, 1899-12-31, was a Sunday. */
  predicate IsWeekend(d: DateOnly)
  {
    (d.days + 1) % 7 < 2
  }

  /** The .NET DayOfWeek of a day count (0 = Sunday ... 6 = Saturday): day 0 was a Sunday. */
  function DayOfWeek(d: DateOnly): (r: int)
    ensures 0 <= r < 7
  {
    d.days % 7
  }

  /** IsWeekend holds exactly on Saturdays and Sundays. */
  lemma IsWeekendOnSaturdayAndSunday(d: DateOnly)
    ensures IsWeekend(d) <==> DayOfWeek(d) == 6 || DayOfWeek(d) == 0
  {
  }

  /** The largest weekday index, that of MaxValue (a Monday). */
  const MaxWeekdayIndex: int := 46811

  /** The weekdays (Monday to Friday) among days 1..n: the reference count for WeekdayIndex. */
  function WeekdaysThrough(n: UShort): (r: nat)
    ensures r <= n
  {
    if n == 0 then 0 else WeekdaysThrough(n - 1) + (if IsWeekend(DateOnly(n)) then 0 else 1)
  }

  /**
   * WeekdayIndex as written: with a = m_days - 1, div = a / 7 truncated and
   * rem_4 = a % 7 - 4 in [-5, 2], it is m_days - 2 * div - (rem_4 & ~(rem_4 >> 8)),
   * where `rem_4 & ~(rem_4 >> 8)` keeps rem_4 when it is non-negative and is 0 otherwise.
   */
  function WeekdayIndex(d: DateOnly): (r: int)
    ensures 0 <= r <= MaxWeekdayIndex
  {
    var a := d.days - 1;
    var div := TruncDiv(a, 7);
    var rem4 := a + div - (div * 8 + 4);
    assert -5 <= rem4 <= 2;
    var kept := if rem4 < 0 then 0 else rem4;
    d.days - div * 2 - kept
  }

  /** The next day's index is one higher on a weekday and the same on a weekend day. */
  lemma WeekdayIndexStep(n: UShort)
    requires n < 0xFFFF
    ensures WeekdayIndex(DateOnly(n + 1)) == WeekdayIndex(DateOnly(n)) + (if IsWeekend(DateOnly(n + 1)) then 0 else 1)
  {
    WeekdayIndexClosed(n + 1);
    if n > 0 {
      WeekdayIndexClosed(n);
      var q, r := (n - 1) / 7, (n - 1) % 7;
      DivModSeven(n - 1, q, r);
      if r < 6 {
        DivModSeven(n, q, r + 1);
      } else {
        DivModSeven(n, q + 1, 0);
      }
      if r < 4 {
        DivModSeven(n + 2, q, r + 3);
      } else {
        DivModSeven(n + 2, q + 1, r - 4);
      }
    }
  }

  /** WeekdayIndex of a positive day, with the truncated division of the source replaced by its value. */
  lemma WeekdayIndexClosed(n: UShort)
    requires n > 0
    ensures WeekdayIndex(DateOnly(n)) == n - 2 * ((n - 1) / 7) - (if (n - 1) % 7 >= 4 then (n - 1) % 7 - 4 else 0)
  {
    assert TruncDiv(n - 1, 7) == (n - 1) / 7;
  }

  /** Division by seven is determined by any quotient and remainder that fit. */
  lemma DivModSeven(a: int, q: int, r: int)
    requires a == 7 * q + r && 0 <= r < 7
    ensures a / 7 == q && a % 7 == r
  {
  }

  /** WeekdayIndex counts the weekdays from 1900-01-01 up to and including the date. */
  lemma {:induction false} WeekdayIndexCountsWeekdays(n: UShort)
    ensures WeekdayIndex(DateOnly(n)) == WeekdaysThrough(n)
  {
    if n > 0 {
      var m: UShort := n - 1;
      WeekdayIndexCountsWeekdays(m);
      WeekdayIndexStep(m);
      assert DateOnly(m + 1) == DateOnly(n);
    }
  }

  /** The first weekday whose index is p: Monday to Friday of week (p - 1) / 5. */
  function TargetDay(p: int): (r: int)
    requires 1 <= p <= MaxWeekdayIndex
    ensures 1 <= r <= 0xFFFF
  {
    7 * ((p - 1) / 5) + (p - 1) % 5 + 1
  }

  /** FromWeekdayIndex's first estimate, ((p << 3) + 2 - p) / 5, without overflow. */
  function Estimate(p: int): int
    requires 1 <= p
  {
    (7 * p + 2) / 5
  }

  /**
   * The target day is a weekday with index p, and the estimate lies at most two
   * days after it; when it is two days after, it falls on a weekend day.
   */
  lemma TargetDayFacts(p: int)
    requires 1 <= p <= MaxWeekdayIndex
    ensures !IsWeekend(DateOnly(TargetDay(p))) && WeekdayIndex(DateOnly(TargetDay(p))) == p
    ensures TargetDay(p) <= Estimate(p) <= TargetDay(p) + 2 && Estimate(p) <= 0xFFFF
    ensures Estimate(p) == TargetDay(p) + 2 ==> IsWeekend(DateOnly(Estimate(p)))
  {
    var q, r := (p - 1) / 5, (p - 1) % 5;
    var t := TargetDay(p);
    assert t - 1 == 7 * q + r;
    assert TruncDiv(t - 1, 7) == q;
    assert 7 * p + 2 == 35 * q + 7 * r + 9;
  }

  /**
   * FromWeekdayIndex(p): NO_DATE for p <= 0; otherwise the weekday whose index is p.
   * The estimate is moved back off a weekend and then stepped one day at a time
   * until its index is p. An index beyond MaxValue's fails with the OverflowException
   * of the checked ushort cast.
   */
  method FromWeekdayIndex(p: Int32) returns (r: Result<DateOnly, DateError>)
    ensures p <= 0 ==> r == Ok(NoDate)
    ensures MaxWeekdayIndex < p ==> r == Err(Overflow)
    ensures 0 < p <= MaxWeekdayIndex ==> r.Ok? && WeekdayIndex(r.value) == p && !IsWeekend(r.value)
  {
    if p <= 0 {
      return Ok(NoDate);
    }
    if MaxWeekdayIndex < p {
      return Err(Overflow);
    }
    TargetDayFacts(p);
    var target := TargetDay(p);
    var day := (p * 8 + 2 - p) / 5;
    while (day + 1) % 7 < 2
      invariant target <= day <= Estimate(p)
      decreases day
    {
      day := day - 1;
    }
    var result := DateOnly(day);
    if day == target + 1 {
      WeekdayIndexStep(target);
      assert result == DateOnly(target + 1);
    }
    while WeekdayIndex(result) != p
      invariant result.days == target || (result.days == target + 1 && WeekdayIndex(result) == p + 1)
      decreases result.days - target
    {
      var w := WeekdayIndex(result);
      result := Add(result, if w < p then 1 else -1);
    }
    return Ok(result);
  }

  /**
   * FromWeekdayIndex's first estimate as written: `(p << 3) + 2 - p` is formed in
   * int32, so it wraps for p >= 2^28 before the division by 5 (truncating).
   */
  function EstimateAsWritten(p: Int32): int
  {
    TruncDiv(Wrap32(Wrap32(Wrap32(p * 8) + 2) - p), 5)
  }

  /** For the indexes that can be reached, the estimate as written is the exact one. */
  lemma EstimateAsWrittenInRange(p: Int32)
    requires 1 <= p <= MaxWeekdayIndex
    ensures EstimateAsWritten(p) == Estimate(p)
  {
  }

  /**
   * An index that never returns: for p = 613566757 the wrapped estimate is day 1, a
   * Monday, so the checked cast passes; no date has that index, every date's index
   * is below it, so the loop keeps adding one day and stays at MaxValue forever.
   */
  lemma FromWeekdayIndexAsWrittenHangs()
    ensures EstimateAsWritten(613566757) == 1 && !IsWeekend(DateOnly(1))
    ensures forall d: DateOnly :: WeekdayIndex(d) < 613566757
    ensures Add(MaxValue, 1) == MaxValue
  {
    assert Wrap32(613566757 * 8) == 613566760;
  }

  // ---------------------------------------------------------------------------
  // DateOnly(int)

  /** Where DateOnly(int) takes its day from. */
  datatype IntDate =
    | Days(days: UShort)                          // 0..65535: the day count itself
    | UnixSeconds(seconds: Int32)                 // negative or above 20491231: seconds since 1970
    | Calendar(year: int, month: int, day: int)   // yyyymmdd or yymmdd, for the calendar to validate

  /**
   * DateOnly(int): 0..65535 verbatim; negative values and values above 20491231 as
   * Unix time; 19000101..20491231 as yyyymmdd; 070101..991231 as yymmdd, in 1900 above
   * 491231 and in 2000 otherwise; everything else is out of range.
   */
  function FromInt(v: Int32): (r: Result<IntDate, DateError>)
    ensures r.Err? <==> 65536 <= v <= 70100 || 991232 <= v <= 19000100
    ensures r.Err? ==> r.error == ArgumentOutOfRange
    ensures 0 <= v <= 0xFFFF <==> r.Ok? && r.value.Days?
    ensures 0 <= v <= 0xFFFF ==> r.value.days == v
    ensures v < 0 || 20491231 < v <==> r.Ok? && r.value.UnixSeconds?
  {
    if AsUInt32(v) < 65536 then Ok(Days(v))
    else if 20491231 < AsUInt32(v) then Ok(UnixSeconds(v))
    else if 19000101 <= v <= 20491231 then Ok(Calendar(v / 10000, (v / 100) % 100, v % 100))
    else if 70101 <= v <= 991231 then Ok(Calendar((if 491231 < v then 1900 else 2000) + v / 10000, (v / 100) % 100, v % 100))
    else Err(ArgumentOutOfRange)
  }

  /**
   * A calendar date read from an int gives the int back from its digits: yyyymmdd for
   * eight digits; yymmdd for six, with the year in 1949..1999 or 2007..2049, so
   * 2000-01-01..2006-12-31 cannot be written this way.
   */
  lemma FromIntCalendarDigits(v: Int32)
    requires FromInt(v).Ok? && FromInt(v).value.Calendar?
    ensures var c := FromInt(v).value;
            0 <= c.month <= 99 && 0 <= c.day <= 99
            && (19000101 <= v ==> 1900 <= c.year <= 2049 && c.year * 10000 + c.month * 100 + c.day == v)
            && (v <= 991231 ==> (1949 <= c.year <= 1999 || 2007 <= c.year <= 2049)
                                && (c.year % 100) * 10000 + c.month * 100 + c.day == v)
  {
    var c := FromInt(v).value;
    DecimalDigits(v);
    if v <= 991231 {
      var century := if 491231 < v then 1900 else 2000;
      assert c.year == century + v / 10000;
      assert (century + v / 10000) % 100 == v / 10000;
    }
  }

  /** The last two, the two before them, and the rest of the decimal digits of a number. */
  lemma DecimalDigits(v: nat)
    ensures v == v / 10000 * 10000 + v / 100 % 100 * 100 + v % 100
    ensures 0 <= v / 100 % 100 <= 99 && 0 <= v % 100 <= 99
  {
    var q := v / 100;
    assert v == q * 100 + v % 100;
    assert q == q / 100 * 100 + q % 100;
    assert v == q / 100 * 10000 + (q % 100 * 100 + v % 100);
    assert v / 10000 == q / 100;
  }

  // ---------------------------------------------------------------------------
  // TimeSpan.Round

  function Abs(x: int): nat
  {
    if x < 0 then -x else x
  }

  /**
   * Round(TimeSpan, long) as written: when the signs differ the period is negated,
   * then ((t + (p >> 1)) / p) * p with truncating division. Negating long.MinValue
   * wraps; the other int64 operations are taken exactly.
   */
  function RoundAsWritten(t: Int64, p: Int64): Result<int, DateError>
  {
    if p == 0 then Err(DivideByZero)
    else
      var q := if (t < 0) != (p < 0) then Wrap64(-(p as int)) else p;
      Ok(TruncDiv(t + Floor2(q), q) * q)
  }

  /** `x >> 1`: halving rounded toward negative infinity. */
  function Floor2(x: int): int
  {
    x / 2
  }

  /** Round as intended: the multiple of p nearest to t, ties away from zero. */
  function Round(t: int, p: int): (r: Result<int, DateError>)
    ensures r.Err? <==> p == 0
  {
    if p == 0 then Err(DivideByZero)
    else
      var q := Abs(p);
      var m := (Abs(t) + q / 2) / q * q;
      Ok(if t < 0 then -m else m)
  }

  /** a < b when a * q < b * q for a positive q. */
  lemma LessByFactor(a: int, b: int, q: int)
    requires q > 0 && a * q < b * q
    ensures a < b
  {
  }

  /** x / q is k when x lies in [k * q, (k + 1) * q). */
  lemma DivisionBetween(x: int, q: int, k: int)
    requires 0 < q && k * q <= x < k * q + q
    ensures x / q == k
  {
    var d := x / q;
    assert d * q <= x < d * q + q;
    LessByFactor(d, k + 1, q);
    LessByFactor(k, d + 1, q);
  }

  /** A multiple of q leaves no remainder. */
  lemma MultipleHasNoRemainder(k: int, q: int)
    requires q > 0
    ensures (k * q) % q == 0
  {
    DivisionBetween(k * q, q, k);
  }

  /**
   * For a magnitude a, (a + q / 2) / q * q is the multiple of q nearest to a, and on
   * a tie the larger one.
   */
  lemma RoundedMagnitude(a: nat, q: int)
    requires q > 0
    ensures var m := (a + q / 2) / q * q;
            m % q == 0 && 2 * Abs(a - m) <= q && (2 * Abs(a - m) == q ==> m > a)
  {
    var k, s := a / q, a % q;
    assert a == k * q + s;
    if s + q / 2 < q {
      DivisionBetween(a + q / 2, q, k);
      MultipleHasNoRemainder(k, q);
    } else {
      DivisionBetween(a + q / 2, q, k + 1);
      MultipleHasNoRemainder(k + 1, q);
    }
  }

  /**
   * Round picks a multiple of p no further from t than half of |p|, and on a tie the
   * one further from zero.
   */
  lemma RoundIsNearest(t: int, p: int)
    requires p != 0
    ensures var r := Round(t, p).value;
            r % Abs(p) == 0 && 2 * Abs(t - r) <= Abs(p)
            && (2 * Abs(t - r) == Abs(p) ==> Abs(r) > Abs(t))
  {
    var q := Abs(p);
    var m := (Abs(t) + q / 2) / q * q;
    RoundedMagnitude(Abs(t), q);
    if t < 0 {
      NegatedMultiple(m, q);
    }
  }

  /** The negation of a multiple of q is a multiple of q. */
  lemma NegatedMultiple(m: int, q: int)
    requires q > 0 && m % q == 0
    ensures (-m) % q == 0
  {
    var k := m / q;
    assert m == k * q;
    assert (-k) * q == -(k * q);
    MultipleHasNoRemainder(-k, q);
  }

  /** k * -q == -(k * q). */
  lemma NegatedProduct(k: int, q: int)
    ensures k * -q == -(k * q)
  {
  }

  /** Where the source agrees with the intent: non-negative ticks, or an even period. */
  lemma RoundAsWrittenAgrees(t: Int64, p: Int64)
    requires p != Int64Min
    requires 0 <= t || p % 2 == 0
    ensures RoundAsWritten(t, p) == Round(t, p)
  {
    if p != 0 && t >= 0 {
      NonNegativeSide(t, p);
    } else if p != 0 {
      NegativeSide(t, p);
    }
  }

  /** With t non-negative the period is taken as |p| and the truncating formula rounds t. */
  lemma NonNegativeSide(t: Int64, p: Int64)
    requires p != Int64Min && p != 0 && 0 <= t
    ensures RoundAsWritten(t, p) == Round(t, p)
  {
    var q: int := Abs(p);
    WrittenWithPeriod(t, p, q);
    var k := (t + q / 2) / q;
    assert TruncDiv(t + Floor2(q), q) == k;
    IntendedWithQuotient(t, p, k);
  }

  /** With t negative the period is taken as -|p|; for an even period the formula rounds |t| and negates it. */
  lemma NegativeSide(t: Int64, p: Int64)
    requires p != Int64Min && p != 0 && t < 0 && p % 2 == 0
    ensures RoundAsWritten(t, p) == Round(t, p)
  {
    var q: int := Abs(p);
    EvenMagnitude(p);
    WrittenWithPeriod(t, p, -q);
    var k := NegativeQuotient(t, q);
    IntendedWithQuotient(t, p, k);
  }

  /** An even number has an even magnitude. */
  lemma EvenMagnitude(p: int)
    requires p % 2 == 0
    ensures Abs(p) % 2 == 0
  {
    var h := p / 2;
    assert p == 2 * h;
    assert Abs(p) == 2 * Abs(h);
  }

  /** The period the source divides by: p when the signs agree, -p otherwise. */
  lemma WrittenWithPeriod(t: Int64, p: Int64, c: int)
    requires p != Int64Min && p != 0
    requires c == if (t < 0) != (p < 0) then -(p as int) else p
    ensures c != 0 && RoundAsWritten(t, p) == Ok(TruncDiv(t + Floor2(c), c) * c)
  {
  }

  /** Round in terms of the rounded magnitude quotient k. */
  lemma IntendedWithQuotient(t: Int64, p: Int64, k: int)
    requires p != 0 && k == (Abs(t) + Abs(p) / 2) / Abs(p)
    ensures Round(t, p) == Ok(if t < 0 then -(k * Abs(p)) else k * Abs(p))
  {
  }

  /** The truncating quotient of t - q/2 by -q, for negative t and an even positive q. */
  lemma NegativeQuotient(t: int, q: int) returns (k: int)
    requires t < 0 && 0 < q && q % 2 == 0
    ensures k == (-t + q / 2) / q
    ensures TruncDiv(t + Floor2(-q), -q) * -q == -(k * q)
  {
    assert Floor2(-q) == -(q / 2);
    k := (-t + q / 2) / q;
    assert TruncDiv(t + Floor2(-q), -q) == k;
    NegatedProduct(k, q);
  }

  /** The discrepancy: Round(-1 tick, 3) gives -3, although 0 is nearer. */
  lemma RoundAsWrittenMissesNearest()
    ensures RoundAsWritten(-1, 3) == Ok(-3)
    ensures Round(-1, 3) == Ok(0)
  {
    assert TruncDiv(-3, -3) == 1;
  }

  // ---------------------------------------------------------------------------
  // GetEasterSundayInYear

  /** 2^k. */
  function Pow2(k: nat): (r: nat)
    ensures r >= 1
  {
    if k == 0 then 1 else 2 * Pow2(k - 1)
  }

  /**
   * `(-(mask & i)) >> 31` for a non-negative int32 `mask & i`: -1 when it is not zero
   * and 0 when it is.
   */
  function SignOfNegated(masked: bv32): int
  {
    if masked != 0 then -1 else 0
  }

  /**
   * The Paschal full moon of `year` as a day of March (32 is 1 April): the
   * epact, corrected for the century, plus 20 or 21.
   */
  function PaschalFullMoon(year: int): (r: int)
    requires 1583 <= year <= 4099
    ensures 21 <= r <= 50
  {
    var c, r19 := year / 100, (year % 19) * 11;
    var i := (1 as bv32) << (if c - 20 > 0 then c - 20 else 0);
    var moon := (202 + (c - 15) / 2 - r19 + SignOfNegated(0x1f_ffb2 & i) + SignOfNegated(0x1b_2000 & i)) % 30;
    moon + (if (moon == 28 && 110 < r19) || moon == 29 then 20 else 21)
  }

  /** The century's weekday correction `tC`: `(40 - c) & 3`, with 3 raised to 4 and anything above 1 raised once more. */
  function CenturyCorrection(c: int): (r: int)
    ensures 0 <= r <= 5
  {
    var tC0 := (40 - c) % 4;
    var tC1 := if tC0 == 3 then tC0 + 1 else tC0;
    if tC1 > 1 then tC1 + 1 else tC1
  }

  /** The Sunday after the day `fullMoon` of March, as a day of March: `fullMoon` plus one to seven days. */
  function SundayAfter(year: int, fullMoon: int): (r: int)
    requires 1583 <= year <= 4099 && 21 <= fullMoon
    ensures fullMoon < r <= fullMoon + 7
  {
    var c := year / 100;
    var tB := (fullMoon - 19) % 7;
    var y := year - c * 100;
    fullMoon + (20 - tB - CenturyCorrection(c) - (y + y / 4) % 7) % 7 + 1
  }

  /**
   * GetEasterSundayInYear as written, returning (month, day): the Paschal full moon
   * in the days after 21 March and then the following Sunday. Years outside
   * 1583..4099 are out of range.
   */
  function EasterSunday(year: Int32): (r: Result<(int, int), DateError>)
    ensures r.Err? <==> year < 1583 || 4099 < year
    ensures r.Ok? ==> var (month, day) := r.value;
                      (month == 3 && 22 <= day <= 31) || (month == 4 && 1 <= day <= 25)
  {
    if year < 1583 || 4099 < year then Err(ArgumentOutOfRange)
    else
      var sunday := SundayAfter(year, PaschalFullMoon(year));
      var april := if 31 < sunday then -1 else 0;
      Ok((3 - april, sunday - (if april == -1 then 31 else 0)))
  }

  /** Going from year `n - 1` to year `n` adds a leap-rule multiple exactly when `n` is one. */
  lemma LeapDaysStep(n: int)
    requires 1 <= n
    ensures n / 4 == (n - 1) / 4 + (if n % 4 == 0 then 1 else 0)
    ensures n / 100 == (n - 1) / 100 + (if n % 100 == 0 then 1 else 0)
    ensures n / 400 == (n - 1) / 400 + (if n % 400 == 0 then 1 else 0)
  {
  }

  /** February has a 29th day exactly when the leap rule adds one: every fourth year, but not every hundredth unless every four hundredth. */
  lemma FebruaryDays(year: int)
    ensures ClrText.DaysInMonth(year, 2)
      == 28 + (if year % 4 == 0 then 1 else 0) - (if year % 100 == 0 then 1 else 0) + (if year % 400 == 0 then 1 else 0)
  {
    if year % 400 == 0 {
      MultipleHasNoRemainder(4 * (year / 400), 100);
      MultipleHasNoRemainder(100 * (year / 400), 4);
    } else if year % 100 == 0 {
      MultipleHasNoRemainder(25 * (year / 100), 4);
    }
  }

  /** The days from 0001-01-01 to 1 March of `year`: 365 a year and the leap days up to that February. */
  lemma {:induction false} DaysBeforeMarch(year: int)
    requires 1 <= year
    ensures ClrText.DaysBeforeYear(year) + ClrText.DaysBeforeMonth(year, 3) == 365 * year + year / 4 - year / 100 + year / 400 - 306
  {
    assert ClrText.DaysBeforeMonth(year, 2) == 31;
    assert ClrText.DaysBeforeMonth(year, 3) == 31 + ClrText.DaysInMonth(year, 2);
    FebruaryDays(year);
    LeapDaysStep(year);
  }

  /** Day `day` of March of `year`, a day past 31 falling in April, as a day number. */
  lemma {:induction false} MarchDayNumber(year: int, day: int)
    requires 1583 <= year <= 4099 && 1 <= day <= 31 + 30
    ensures var d := if day <= 31 then ClrText.Date(year, 3, day) else ClrText.Date(year, 4, day - 31);
      ClrText.IsValidDate(d) && ClrText.DayNumber(d) == 365 * year + year / 4 - year / 100 + year / 400 - 306 + day - 1
  {
    DaysBeforeMarch(year);
    assert ClrText.DaysBeforeMonth(year, 4) == ClrText.DaysBeforeMonth(year, 3) + 31;
  }

  /** The century correction depends on the century modulo 4 only: 0, 5, 3, 1. */
  lemma CenturyCorrectionCycle(c: int)
    ensures CenturyCorrection(c) == [0, 5, 3, 1][c % 4]
  {
    var s := c % 4;
    assert (40 - c) % 4 == (4 - s) % 4 by {
      assert 40 - c == 4 * (10 - c / 4 - 1) + (4 - s);
    }
  }

  /** Adding whole weeks leaves the weekday alone. */
  lemma WeeksAdded(w: int, x: int)
    ensures (7 * w + x) % 7 == x % 7
  {
    DivModSeven(7 * w + x, w + x / 7, x % 7);
  }

  /**
   * The week arithmetic of the Gregorian cycle: 400 years are 146097 days, a
   * whole number of weeks, and a century of the cycle shifts the weekday by
   * what `CenturyCorrection` adds.
   */
  lemma {:induction false} CenturyWeeks(year: int, day: int)
    requires 0 <= year
    ensures var c := year / 100; var y := year - c * 100;
      (365 * year + year / 4 - year / 100 + year / 400 - 306 + day) % 7 == (day + CenturyCorrection(c) + y + y / 4 - 5) % 7
  {
    var c := year / 100;
    var y := year - c * 100;
    var q, s := c / 4, c % 4;
    assert year / 4 == 25 * c + y / 4;
    assert year / 400 == q;
    CenturyCorrectionCycle(c);
    var t := [0, 0, 1, 2][s];
    assert CenturyCorrection(c) == 5 * s - 7 * t;
    var w := 20871 * q + 5217 * s + 52 * y - 43;
    var x := day + CenturyCorrection(c) + y + y / 4 - 5;
    assert 365 * year + year / 4 - year / 100 + year / 400 - 306 + day == 7 * (w + t) + x;
    WeeksAdded(w + t, x);
  }

  /**
   * Day `day` of March of `year` (a day past 31 falls in April) is a Sunday
   * exactly when `day` is five minus the century correction, the year of the
   * century and its leap years, modulo 7.
   */
  lemma {:induction false} MarchDayOfWeek(year: int, day: int)
    requires 1583 <= year <= 4099 && 1 <= day <= 31 + 30
    ensures var d := if day <= 31 then ClrText.Date(year, 3, day) else ClrText.Date(year, 4, day - 31);
      var c := year / 100;
      var y := year - c * 100;
      ClrText.IsValidDate(d) && (ClrText.DayOfWeek(d) == 0 <==> (day + CenturyCorrection(c) + y + y / 4 - 5) % 7 == 0)
  {
    MarchDayNumber(year, day);
    CenturyWeeks(year, day);
  }

  /**
   * What the computus promises: for every year it accepts, the date is a valid
   * day of March or April, it is a Sunday, and it is the first Sunday after
   * the Paschal full moon (one of the seven days that follow it).
   */
  lemma {:induction false} EasterSundayIsSunday(year: Int32)
    requires 1583 <= year <= 4099
    ensures EasterSunday(year).Ok?
    ensures var (month, day) := EasterSunday(year).value;
      var date := ClrText.Date(year, month, day);
      var dayOfMarch := if month == 3 then day else day + 31;
      ClrText.IsValidDate(date) && ClrText.DayOfWeek(date) == 0
      && PaschalFullMoon(year) < dayOfMarch <= PaschalFullMoon(year) + 7
  {
    var fm := PaschalFullMoon(year);
    var sunday := SundayAfter(year, fm);
    MarchDayOfWeek(year, sunday);
    var c := year / 100;
    var y := year - c * 100;
    var tC := CenturyCorrection(c);
    var tB, w := (fm - 19) % 7, (y + y / 4) % 7;
    var k := (20 - tB - tC - w) % 7;
    assert sunday == fm + k + 1;
    var qB, qW, qK := (fm - 19) / 7, (y + y / 4) / 7, (20 - tB - tC - w) / 7;
    assert sunday + tC + y + y / 4 - 5 == 7 * (5 + qB + qW - qK) + 0;
    WeeksAdded(5 + qB + qW - qK, 0);
  }

  /** Easter Sunday of 2024, as printed in the calendar. */
  lemma EasterSundayExample()
    ensures EasterSunday(2024) == Ok((3, 31))
  {
    assert 2024 / 100 == 20 && 2024 % 19 == 10;
    var i := (1 as bv32) << 0;
    assert i == 1;
    assert 0x1f_ffb2 & i == 0 && 0x1b_2000 & i == 0;
    assert SignOfNegated(0) == 0;
    assert (202 + (20 - 15) / 2 - 110) % 30 == 4;
    assert (25 - 19) % 7 == 6 && (40 - 20) % 4 == 0;
    assert (20 - 6 - 0 - (24 + 24 / 4) % 7) % 7 == 5;
  }

  // ---------------------------------------------------------------------------
  // DateTimeAsInt

  /** (int.MaxValue - 1) * TicksPerMinute: the first tick count not encoded by minutes. */
  const MaxValueTicks: int := 1_288_490_187_600_000_000

  /**
   * The DateTime getter of DateTimeAsInt: the low 31 bits count minutes and a set sign
   * bit subtracts one tick; all 31 low bits set stand for DateTime.MaxValue (or one
   * tick before it).
   */
  function TicksOf(v: Int32): int
  {
    var low := if v < 0 then v + 0x8000_0000 else v;  // v & int.MaxValue
    var sign := if v < 0 then -1 else 0;               // v >> 31
    if low == Int32Max then DateTimeMax + sign else low * TicksPerMinute + sign
  }

  /**
   * CanBeRepresentedExactly(long): the code of a tick count that is the first or last
   * tick of a minute below MaxValueTicks, or DateTime.MaxValue or one tick before it;
   * none for any other tick count.
   */
  function CanBeRepresentedExactly(t: Int64): (r: Option<Int32>)
    ensures r.Some? <==> (0 <= t < MaxValueTicks && (t % TicksPerMinute == 0 || t % TicksPerMinute == TicksPerMinute - 1))
                         || t == DateTimeMax || t == DateTimeMax - 1
    ensures r.Some? ==> TicksOf(r.value) == t
  {
    if 0 <= t < MaxValueTicks then
      var i := t / TicksPerMinute;
      var rest := t - i * TicksPerMinute;
      if rest == 0 then Some(i)
      else if rest == TicksPerMinute - 1 then Some(i - Int32Max)
      else None
    else if t == DateTimeMax then Some(Int32Max)
    else if t == DateTimeMax - 1 then Some(-1)
    else None
  }

  /** Every code whose DateTime lies in the encodable range decodes and encodes back to itself. */
  lemma CanBeRepresentedExactlyInverts(v: Int32)
    requires v == Int32Max || v == -1 || 0 <= v < Int32Max - 1 || Int32Min < v < -1
    ensures 0 <= TicksOf(v) <= DateTimeMax
    ensures CanBeRepresentedExactly(TicksOf(v)) == Some(v)
  {
    if 0 <= v < Int32Max - 1 {
      assert TicksOf(v) / TicksPerMinute == v;
    } else if Int32Min < v < -1 {
      var low := v + 0x8000_0000;
      assert TicksOf(v) == (low - 1) * TicksPerMinute + (TicksPerMinute - 1);
      assert TicksOf(v) / TicksPerMinute == low - 1;
    }
  }
}
