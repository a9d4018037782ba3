/** The date and time-of-day arithmetic that `adjust` (src/adjust.rs) borrows
    from its calendar library: proleptic Gregorian dates within the library's
    range of years, a time of day counted in seconds, one-day steps, month
    steps that clamp the day, and time steps that report their overflow. */
module Calendar {
  import opened Wrappers

  /** The representable years of chrono 0.4 before its range was narrowed by
      one year at each end: `i32::MIN >> 13` to `i32::MAX >> 13`. Which chrono
      release the firmware builds against is not part of this model; only
      these two bounds depend on it. */
  const MinYear: int := -262144
  const MaxYear: int := 262143
  const SecsPerDay: int := 86400
  /** Largest month count the library accepts in a month step (`i32::MAX`). */
  const MaxMonthStep: int := 0x7fff_ffff

  datatype Date = Date(year: int, month: int, day: int)

  /** A date and a time of day; `secs` counts seconds since midnight. */
  datatype DateTime = DateTime(date: Date, secs: int)

  const MinDate: Date := Date(MinYear, 1, 1)
  const MaxDate: Date := Date(MaxYear, 12, 31)

  predicate IsLeapYear(y: int) {
    y % 4 == 0 && (y % 100 != 0 || y % 400 == 0)
  }

  function DaysInMonth(y: int, m: int): (n: int)
    requires 1 <= m <= 12
    ensures 28 <= n <= 31
  {
    if m == 2 then (if IsLeapYear(y) then 29 else 28)
    else if m == 4 || m == 6 || m == 9 || m == 11 then 30
    else 31
  }

  predicate ValidDate(d: Date) {
    MinYear <= d.year <= MaxYear && 1 <= d.month <= 12 && 1 <= d.day <= DaysInMonth(d.year, d.month)
  }

  predicate ValidDateTime(t: DateTime) {
    ValidDate(t.date) && 0 <= t.secs < SecsPerDay
  }

  function Min(a: int, b: int): int { if a <= b then a else b }

  /** Rust's `/` and `%` on signed integers, which round toward zero. */
  function TruncDiv(a: int, b: int): int
    requires b > 0
  {
    if a >= 0 then a / b else -((-a) / b)
  }

  function TruncRem(a: int, b: int): (r: int)
    requires b > 0
    ensures a == b * TruncDiv(a, b) + r
    ensures a >= 0 ==> 0 <= r < b
    ensures a < 0 ==> -b < r <= 0
  {
    if a >= 0 then a % b else -((-a) % b)
  }

  // ---------------------------------------------------------------------
  // A reference numbering of days, used to state what the steps do.

  /** Leap years before year y, counted from a fixed origin (floor division). */
  function LeapsBefore(y: int): int {
    (y - 1) / 4 - (y - 1) / 100 + (y - 1) / 400
  }

  /** Days from 1970-01-01 to January 1st of year y. */
  function DaysBeforeYear(y: int): int {
    365 * (y - 1970) + LeapsBefore(y) - LeapsBefore(1970)
  }

  /** Days from January 1st to the first day of month m, as a cumulative table. */
  function DaysBeforeMonth(y: int, m: int): int
    requires 1 <= m <= 12
  {
    [0, 31, 59, 90, 120, 151, 181, 212, 243, 273, 304, 334][m - 1] + (if m > 2 && IsLeapYear(y) then 1 else 0)
  }

  /** Days since 1970-01-01 (negative before it). */
  function DayNumber(d: Date): int
    requires 1 <= d.month <= 12
  {
    DaysBeforeYear(d.year) + DaysBeforeMonth(d.year, d.month) + d.day - 1
  }

  /** Seconds since 1970-01-01T00:00:00. */
  function Seconds(t: DateTime): int
    requires 1 <= t.date.month <= 12
  {
    DayNumber(t.date) * SecsPerDay + t.secs
  }

  /** Index of a calendar month: January of year 0 is 0. */
  function MonthIndex(d: Date): int {
    d.year * 12 + d.month - 1
  }

  /** The cumulative month table agrees with the month lengths. */
  lemma {:induction false} DaysBeforeMonthStep(y: int, m: int)
    requires 1 <= m < 12
    ensures DaysBeforeMonth(y, m + 1) == DaysBeforeMonth(y, m) + DaysInMonth(y, m)
  {
  }

  /** A year is 366 days long exactly when it is a leap year. */
  lemma {:induction false} DaysBeforeYearStep(y: int)
    ensures DaysBeforeYear(y + 1) == DaysBeforeYear(y) + DaysBeforeMonth(y, 12) + DaysInMonth(y, 12)
  {
    var q4, q100, q400 := y / 4, y / 100, y / 400;
    assert (y - 1) / 4 == (if y % 4 == 0 then q4 - 1 else q4);
    assert (y - 1) / 100 == (if y % 100 == 0 then q100 - 1 else q100);
    assert (y - 1) / 400 == (if y % 400 == 0 then q400 - 1 else q400);
    assert y % 400 == 0 ==> y % 100 == 0;
    assert y % 100 == 0 ==> y % 4 == 0;
  }

  // ---------------------------------------------------------------------
  // One-day steps and `checked_add_signed` / `checked_sub_signed` on dates.

  /** The next calendar day; None past the last representable date. */
  function NextDay(d: Date): (r: Option<Date>)
    requires ValidDate(d)
    ensures r.Some? ==> ValidDate(r.value)
  {
    if d.day < DaysInMonth(d.year, d.month) then Some(Date(d.year, d.month, d.day + 1))
    else if d.month < 12 then Some(Date(d.year, d.month + 1, 1))
    else if d.year < MaxYear then Some(Date(d.year + 1, 1, 1))
    else None
  }

  /** The previous calendar day; None before the first representable date. */
  function PrevDay(d: Date): (r: Option<Date>)
    requires ValidDate(d)
    ensures r.Some? ==> ValidDate(r.value)
  {
    if d.day > 1 then Some(Date(d.year, d.month, d.day - 1))
    else if d.month > 1 then Some(Date(d.year, d.month - 1, DaysInMonth(d.year, d.month - 1)))
    else if d.year > MinYear then Some(Date(d.year - 1, 12, 31))
    else None
  }

  /** NextDay fails only on the last date and otherwise advances the day
      number by exactly one. */
  lemma {:induction false} NextDaySpec(d: Date)
    requires ValidDate(d)
    ensures NextDay(d).None? <==> d == MaxDate
    ensures NextDay(d).Some? ==> DayNumber(NextDay(d).value) == DayNumber(d) + 1
  {
    if d.day == DaysInMonth(d.year, d.month) {
      if d.month < 12 {
        DaysBeforeMonthStep(d.year, d.month);
      } else {
        DaysBeforeYearStep(d.year);
      }
    }
  }

  /** PrevDay fails only on the first date and otherwise moves the day
      number back by exactly one. */
  lemma {:induction false} PrevDaySpec(d: Date)
    requires ValidDate(d)
    ensures PrevDay(d).None? <==> d == MinDate
    ensures PrevDay(d).Some? ==> DayNumber(PrevDay(d).value) == DayNumber(d) - 1
  {
    if d.day == 1 {
      if d.month > 1 {
        DaysBeforeMonthStep(d.year, d.month - 1);
      } else if d.year > MinYear {
        DaysBeforeYearStep(d.year - 1);
      }
    }
  }

  /** The two one-day steps undo each other. */
  lemma {:induction false} NextPrevInverse(d: Date)
    requires ValidDate(d)
    ensures NextDay(d).Some? ==> PrevDay(NextDay(d).value) == Some(d)
    ensures PrevDay(d).Some? ==> NextDay(PrevDay(d).value) == Some(d)
  {
  }

  /** Moving n days one step at a time; None as soon as a step leaves the
      range (the range has no gaps, so this is when the target is outside it). */
  function CheckedAddDays(d: Date, n: int): (r: Option<Date>)
    requires ValidDate(d)
    ensures r.Some? ==> ValidDate(r.value)
    decreases if n < 0 then -n else n
  {
    if n == 0 then Some(d)
    else if n > 0 then
      match NextDay(d)
      case None => None
      case Some(e) => CheckedAddDays(e, n - 1)
    else
      match PrevDay(d)
      case None => None
      case Some(e) => CheckedAddDays(e, n + 1)
  }

  /** A successful day step moves the day number by exactly n. */
  lemma {:induction false} CheckedAddDaysShift(d: Date, n: int)
    requires ValidDate(d)
    ensures CheckedAddDays(d, n).Some? ==> DayNumber(CheckedAddDays(d, n).value) == DayNumber(d) + n
    decreases if n < 0 then -n else n
  {
    if n > 0 {
      NextDaySpec(d);
      if NextDay(d).Some? {
        CheckedAddDaysShift(NextDay(d).value, n - 1);
      }
    } else if n < 0 {
      PrevDaySpec(d);
      if PrevDay(d).Some? {
        CheckedAddDaysShift(PrevDay(d).value, n + 1);
      }
    }
  }

  /** Whole days of a duration given in seconds (`Duration::num_days`,
      rounding toward zero). */
  function DurationDays(secs: int): (n: int)
    ensures secs >= 0 ==> 0 <= secs - n * SecsPerDay < SecsPerDay
    ensures secs < 0 ==> -SecsPerDay < secs - n * SecsPerDay <= 0
  {
    TruncDiv(secs, SecsPerDay)
  }

  /** `NaiveDate::checked_add_signed`. */
  function CheckedAddSigned(d: Date, secs: int): (r: Option<Date>)
    requires ValidDate(d)
    ensures r.Some? ==> ValidDate(r.value)
  {
    CheckedAddDays(d, DurationDays(secs))
  }

  /** `NaiveDate::checked_sub_signed`. */
  function CheckedSubSigned(d: Date, secs: int): (r: Option<Date>)
    requires ValidDate(d)
    ensures r.Some? ==> ValidDate(r.value)
  {
    CheckedAddDays(d, -DurationDays(secs))
  }

  // ---------------------------------------------------------------------
  // Month steps: `checked_add_months` / `checked_sub_months`.

  /** The library's `diff_months`: split the month count into years and
      months (rounding toward zero), refuse a year outside the range, carry
      the month into the year, and clamp the day to the target month. */
  function DiffMonths(d: Date, months: int): (r: Option<Date>)
    requires ValidDate(d)
    ensures r.Some? ==> ValidDate(r.value)
  {
    var years := TruncDiv(months, 12);
    var left := TruncRem(months, 12);
    if (years > 0 && years > MaxYear - d.year) || (years < 0 && years < MinYear - d.year) then None
    else
      var year := d.year + years;
      var month := d.month + left;
      if month <= 0 && year == MinYear then None
      else if month > 12 && year == MaxYear then None
      else
        var y := if month <= 0 then year - 1 else if month > 12 then year + 1 else year;
        var m := if month <= 0 then month + 12 else if month > 12 then month - 12 else month;
        Some(Date(y, m, Min(d.day, DaysInMonth(y, m))))
  }

  function CheckedAddMonths(d: Date, months: nat): (r: Option<Date>)
    requires ValidDate(d)
    ensures r.Some? ==> ValidDate(r.value)
  {
    if months == 0 then Some(d)
    else if months <= MaxMonthStep then DiffMonths(d, months)
    else None
  }

  function CheckedSubMonths(d: Date, months: nat): (r: Option<Date>)
    requires ValidDate(d)
    ensures r.Some? ==> ValidDate(r.value)
  {
    if months == 0 then Some(d)
    else if months <= MaxMonthStep then DiffMonths(d, -(months as int))
    else None
  }

  /** A month step lands exactly n calendar months away with the day clamped
      to the target month's length, and fails exactly when the target year is
      outside the range. */
  lemma {:induction false} DiffMonthsSpec(d: Date, n: int)
    requires ValidDate(d)
    ensures var target := (MonthIndex(d) + n) / 12;
      DiffMonths(d, n).None? <==> !(MinYear <= target <= MaxYear)
    ensures DiffMonths(d, n).Some? ==>
      var e := DiffMonths(d, n).value;
      MonthIndex(e) == MonthIndex(d) + n && e.day == Min(d.day, DaysInMonth(e.year, e.month))
  {
    var years := TruncDiv(n, 12);
    var left := TruncRem(n, 12);
    assert n == 12 * years + left;
  }

  // ---------------------------------------------------------------------
  // Time of day: `overflowing_add_signed` / `overflowing_sub_signed`.

  /** `NaiveTime::overflowing_add_signed` for a whole number of seconds: the
      new time of day and the overflow, in seconds, to carry into the date. */
  function OverflowingAdd(secs: int, rhs: int): (r: (int, int))
    requires 0 <= secs < SecsPerDay
    ensures 0 <= r.0 < SecsPerDay
  {
    var inDay := TruncRem(rhs, SecsPerDay);
    var more := rhs - inDay;
    var s := secs + inDay;
    if s < 0 then (s + SecsPerDay, more - SecsPerDay)
    else if s >= SecsPerDay then (s - SecsPerDay, more + SecsPerDay)
    else (s, more)
  }

  /** `NaiveTime::overflowing_sub_signed`: add the negated duration and
      negate the overflow. */
  function OverflowingSub(secs: int, rhs: int): (r: (int, int))
    requires 0 <= secs < SecsPerDay
    ensures 0 <= r.0 < SecsPerDay
  {
    var (t, more) := OverflowingAdd(secs, -rhs);
    (t, -more)
  }

  /** The time stays within a day, the overflow is whole days, and nothing is
      lost: time plus overflow is the exact sum (the exact difference for
      subtraction). */
  lemma {:induction false} OverflowingSpec(secs: int, rhs: int)
    requires 0 <= secs < SecsPerDay
    ensures var (t, o) := OverflowingAdd(secs, rhs);
      o % SecsPerDay == 0 && t + o == secs + rhs
    ensures var (t, o) := OverflowingSub(secs, rhs);
      o % SecsPerDay == 0 && t - o == secs - rhs
  {
    var inDay := TruncRem(rhs, SecsPerDay);
    assert rhs - inDay == SecsPerDay * TruncDiv(rhs, SecsPerDay);
    var inDay' := TruncRem(-rhs, SecsPerDay);
    assert -rhs - inDay' == SecsPerDay * TruncDiv(-rhs, SecsPerDay);
  }
}
