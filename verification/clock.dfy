/** Calendar dates, instants and durations: the part of Go's `time` package
    the cleaner relies on.

    - A date is a proleptic Gregorian (year, month, day), as `time.Parse`
      produces for the layout "20060102" (always midnight UTC).
    - An instant is a number of nanoseconds since 0000-01-01T00:00:00Z.
    - A duration is a number of nanoseconds held in an int64: `Time.Sub`
      saturates at the int64 bounds instead of wrapping, which `Sub` models.
    - `Duration.Hours` is computed exactly (as a `real`); floating-point
      rounding is not modelled. */
module Clock {
  import opened Wrappers
  import opened Strings

  datatype Date = Date(year: int, month: int, day: int)

  predicate IsLeap(year: int) {
    year % 4 == 0 && (year % 100 != 0 || year % 400 == 0)
  }

  function DaysIn(year: int, month: int): (n: int)
    requires 1 <= month <= 12
    ensures 28 <= n <= 31
  {
    if month == 2 then (if IsLeap(year) then 29 else 28)
    else if month == 4 || month == 6 || month == 9 || month == 11 then 30
    else 31
  }

  function YearLength(year: int): int {
    if IsLeap(year) then 366 else 365
  }

  /** The dates `time.Parse` can produce from four year digits. */
  predicate ValidDate(d: Date) {
    && 0 <= d.year <= 9999
    && 1 <= d.month <= 12
    && 1 <= d.day <= DaysIn(d.year, d.month)
  }

  /** `time.Parse("20060102", s)`: four year digits, two month digits, two
      day digits and nothing else; the month must be 1..12 and the day must
      exist in that month of that year. */
  function ParseDate(s: string): (r: Option<Date>)
    ensures r.Some? ==> ValidDate(r.value)
    ensures r.Some? ==> |s| == 8 && AllDigits(s)
  {
    if |s| != 8 || !AllDigits(s) then None
    else
      var d := Date(DecimalValue(s[0..4]), DecimalValue(s[4..6]), DecimalValue(s[6..8]));
      if 1 <= d.month <= 12 && 1 <= d.day <= DaysIn(d.year, d.month) then Some(d)
      else None
  }

  /** The layout "20060102" applied to a date: `Time.Format`. */
  function FormatDate(d: Date): (s: string)
    requires ValidDate(d)
    ensures |s| == 8 && AllDigits(s)
  {
    PadDigits(d.year, 4) + PadDigits(d.month, 2) + PadDigits(d.day, 2)
  }

  /** Every valid date survives formatting and parsing. */
  lemma ParseFormatDate(d: Date)
    requires ValidDate(d)
    ensures ParseDate(FormatDate(d)) == Some(d)
  {
    var s := FormatDate(d);
    assert s[0..4] == PadDigits(d.year, 4);
    assert s[4..6] == PadDigits(d.month, 2);
    assert s[6..8] == PadDigits(d.day, 2);
    DecimalValuePadDigits(d.year, 4);
    DecimalValuePadDigits(d.month, 2);
    DecimalValuePadDigits(d.day, 2);
  }

  /** Every string the parser accepts is the formatting of what it parsed. */
  lemma FormatParseDate(s: string)
    requires ParseDate(s).Some?
    ensures FormatDate(ParseDate(s).value) == s
  {
    PadDigitsDecimalValue(s[0..4]);
    PadDigitsDecimalValue(s[4..6]);
    PadDigitsDecimalValue(s[6..8]);
    assert s == s[0..4] + s[4..6] + s[6..8];
  }

  // ---------------------------------------------------------------------
  // Day numbers: days since 0000-01-01.
  // ---------------------------------------------------------------------

  /** Days in the years 0 .. year-1 (year 0 is a leap year). */
  function DaysBeforeYear(year: int): int
    requires year >= 0
  {
    365 * year + (year + 3) / 4 - (year + 99) / 100 + (year + 399) / 400
  }

  /** Days in the months 1 .. month-1 of `year`. */
  function DaysBeforeMonth(year: int, month: int): int
    requires 1 <= month <= 12
  {
    var common :=
      if month == 1 then 0 else if month == 2 then 31 else if month == 3 then 59
      else if month == 4 then 90 else if month == 5 then 120 else if month == 6 then 151
      else if month == 7 then 181 else if month == 8 then 212 else if month == 9 then 243
      else if month == 10 then 273 else if month == 11 then 304 else 334;
    common + (if month > 2 && IsLeap(year) then 1 else 0)
  }

  function DayNumber(d: Date): int
    requires ValidDate(d)
  {
    DaysBeforeYear(d.year) + DaysBeforeMonth(d.year, d.month) + d.day - 1
  }

  /** The calendar day after `d`. */
  function NextDate(d: Date): Date
    requires ValidDate(d)
  {
    if d.day < DaysIn(d.year, d.month) then Date(d.year, d.month, d.day + 1)
    else if d.month < 12 then Date(d.year, d.month + 1, 1)
    else Date(d.year + 1, 1, 1)
  }

  /** One more year adds one more multiple of `k` below it exactly when
      `year` is itself a multiple of `k`. */
  lemma CeilStep4(year: int)
    requires year >= 0
    ensures (year + 4) / 4 - (year + 3) / 4 == (if year % 4 == 0 then 1 else 0)
  {
    var q, r := year / 4, year % 4;
    assert year + 4 == 4 * (q + 1) + r;
    assert (year + 4) / 4 == q + 1;
    if r == 0 {
      assert year + 3 == 4 * q + 3;
    } else {
      assert year + 3 == 4 * (q + 1) + (r - 1);
    }
  }

  lemma CeilStep100(year: int)
    requires year >= 0
    ensures (year + 100) / 100 - (year + 99) / 100 == (if year % 100 == 0 then 1 else 0)
  {
    var q, r := year / 100, year % 100;
    assert year + 100 == 100 * (q + 1) + r;
    assert (year + 100) / 100 == q + 1;
    if r == 0 {
      assert year + 99 == 100 * q + 99;
    } else {
      assert year + 99 == 100 * (q + 1) + (r - 1);
    }
  }

  lemma CeilStep400(year: int)
    requires year >= 0
    ensures (year + 400) / 400 - (year + 399) / 400 == (if year % 400 == 0 then 1 else 0)
  {
    var q, r := year / 400, year % 400;
    assert year + 400 == 400 * (q + 1) + r;
    assert (year + 400) / 400 == q + 1;
    if r == 0 {
      assert year + 399 == 400 * q + 399;
    } else {
      assert year + 399 == 400 * (q + 1) + (r - 1);
    }
  }

  lemma LeapDivisibility(year: int)
    ensures year % 100 == 0 ==> year % 4 == 0
    ensures year % 400 == 0 ==> year % 100 == 0
  {
    if year % 100 == 0 {
      var k := year / 100;
      assert year == 4 * (25 * k);
    }
    if year % 400 == 0 {
      var k := year / 400;
      assert year == 100 * (4 * k);
    }
  }

  lemma YearStep(year: int)
    requires year >= 0
    ensures DaysBeforeYear(year + 1) == DaysBeforeYear(year) + YearLength(year)
  {
    CeilStep4(year);
    CeilStep100(year);
    CeilStep400(year);
    LeapDivisibility(year);
  }

  /** Day numbers count days: the first date is day 0 and each next date is
      one day later, so the numbering is gapless and increasing. */
  lemma DayNumberNext(d: Date)
    requires ValidDate(d) && d != Date(9999, 12, 31)
    ensures ValidDate(NextDate(d))
    ensures DayNumber(NextDate(d)) == DayNumber(d) + 1
  {
    if d.day == DaysIn(d.year, d.month) && d.month == 12 {
      YearStep(d.year);
    }
  }

  lemma DayNumberFirst()
    ensures DayNumber(Date(0, 1, 1)) == 0
  {
  }

  /** Date order (year, then month, then day). */
  predicate DateBefore(a: Date, b: Date) {
    || a.year < b.year
    || (a.year == b.year && a.month < b.month)
    || (a.year == b.year && a.month == b.month && a.day < b.day)
  }

  lemma DaysBeforeYearMonotone(a: int, b: int)
    requires 0 <= a < b
    ensures DaysBeforeYear(a) + YearLength(a) <= DaysBeforeYear(b)
    decreases b - a
  {
    YearStep(a);
    if a + 1 < b {
      DaysBeforeYearMonotone(a + 1, b);
    }
  }

  lemma MonthWithinYear(year: int, month: int)
    requires 1 <= month <= 12
    ensures DaysBeforeMonth(year, month) + DaysIn(year, month) <= YearLength(year)
  {
  }

  lemma MonthStep(year: int, a: int, b: int)
    requires 1 <= a < b <= 12
    ensures DaysBeforeMonth(year, a) + DaysIn(year, a) <= DaysBeforeMonth(year, b)
  {
  }

  /** Day numbers are strictly increasing in date order, hence one-to-one on
      valid dates. */
  lemma {:induction false} DayNumberMonotone(a: Date, b: Date)
    requires ValidDate(a) && ValidDate(b) && DateBefore(a, b)
    ensures DayNumber(a) < DayNumber(b)
  {
    if a.year < b.year {
      MonthWithinYear(a.year, a.month);
      DaysBeforeYearMonotone(a.year, b.year);
    } else if a.month < b.month {
      MonthStep(a.year, a.month, b.month);
    }
  }

  lemma DayNumberInjective(a: Date, b: Date)
    requires ValidDate(a) && ValidDate(b) && DayNumber(a) == DayNumber(b)
    ensures a == b
  {
    if DateBefore(a, b) {
      DayNumberMonotone(a, b);
    } else if DateBefore(b, a) {
      DayNumberMonotone(b, a);
    }
  }

  // ---------------------------------------------------------------------
  // Instants and durations.
  // ---------------------------------------------------------------------

  const NanosPerDay: int := 86_400_000_000_000

  /** Bounds of Go's `time.Duration` (int64 nanoseconds). */
  const MinDuration: int := -0x8000_0000_0000_0000
  const MaxDuration: int := 0x7FFF_FFFF_FFFF_FFFF

  /** Whole days a `time.Duration` can hold: 106751 days is about 292 years. */
  const MaxDurationDays: int := 106751

  /** `time.Time{}`, the zero time: 0001-01-01T00:00:00Z. */
  const ZeroTime: Date := Date(1, 1, 1)

  /** Midnight UTC at the start of the day with the given day number. */
  function DayStart(dayNumber: int): int {
    dayNumber * NanosPerDay
  }

  /** `t.Sub(u)`: the elapsed time from `u` to `t`, saturated at the bounds
      of `time.Duration`. */
  function Sub(t: int, u: int): (d: int)
    ensures MinDuration <= d <= MaxDuration
    ensures d < 0 <==> t < u
    ensures MinDuration <= t - u <= MaxDuration ==> d == t - u
  {
    if t - u > MaxDuration then MaxDuration
    else if t - u < MinDuration then MinDuration
    else t - u
  }

  /** `d.Hours() / 24`, computed exactly. */
  function DurationDays(d: int): real {
    d as real / NanosPerDay as real
  }

  /** Between two dates at most 106751 days apart, `Sub` does not saturate
      and the duration in days is the exact difference of day numbers. */
  lemma SubDays(a: int, b: int)
    requires -MaxDurationDays <= a - b <= MaxDurationDays
    ensures DurationDays(Sub(DayStart(a), DayStart(b))) == (a - b) as real
  {
    assert DayStart(a) - DayStart(b) == (a - b) * NanosPerDay;
  }

  /** Beyond 106751 days `Sub` saturates, and the duration in days is then
      above 106751 but still finite. */
  lemma SubDaysSaturated(a: int, b: int)
    requires a - b > MaxDurationDays
    ensures MaxDurationDays as real < DurationDays(Sub(DayStart(a), DayStart(b))) < (MaxDurationDays + 1) as real
  {
    assert DayStart(a) - DayStart(b) == (a - b) * NanosPerDay;
    assert (a - b) * NanosPerDay >= (MaxDurationDays + 1) * NanosPerDay;
  }
}
