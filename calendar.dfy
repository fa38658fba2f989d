/**
 * The proleptic Gregorian calendar of Python's `datetime.date`, and the
 * birthday countdown of `Birthday.days_to_birthday`.
 *
 * The clock read `datetime.date.today()` is not modelled: `today` is a
 * parameter.
 */
module Calendar {
  import opened Failures

  datatype Date = Date(year: int, month: int, day: int)

  /** `datetime.MINYEAR` and `datetime.MAXYEAR`. */
  const MinYear: int := 1
  const MaxYear: int := 9999

  predicate IsLeapYear(y: int) {
    y % 4 == 0 && (y % 100 != 0 || y % 400 == 0)
  }

  function DaysInMonth(y: int, m: int): int
    requires 1 <= m <= 12
  {
    if m == 2 then (if IsLeapYear(y) then 29 else 28)
    else if m == 4 || m == 6 || m == 9 || m == 11 then 30
    else 31
  }

  function DaysInYear(y: int): int {
    if IsLeapYear(y) then 366 else 365
  }

  /** The dates `datetime.date` accepts. */
  predicate IsValidDate(d: Date) {
    && MinYear <= d.year <= MaxYear
    && 1 <= d.month <= 12
    && 1 <= d.day <= DaysInMonth(d.year, d.month)
  }

  /** A date that `datetime.date` can hold. */
  type ValidDate = d: Date | IsValidDate(d) witness Date(1, 1, 1)

  /** Days of year `y` before the first of month `m` (the datetime table plus the leap day). */
  function DaysBeforeMonth(y: int, m: int): int
    requires 1 <= m <= 12
  {
    var common := [0, 31, 59, 90, 120, 151, 181, 212, 243, 273, 304, 334][m - 1];
    if m > 2 && IsLeapYear(y) then common + 1 else common
  }

  /** Days before January 1 of year `y`, counted from January 1 of year 1. */
  function DaysBeforeYear(y: int): int
    requires y >= 1
  {
    var p := y - 1;
    365 * p + p / 4 - p / 100 + p / 400
  }

  /** Position of `d` within its year, 1 for January 1. */
  function DayOfYear(d: Date): int
    requires IsValidDate(d)
  {
    DaysBeforeMonth(d.year, d.month) + d.day
  }

  /** `date.toordinal()`: January 1 of year 1 is day 1. */
  function Ordinal(d: Date): int
    requires IsValidDate(d)
  {
    DaysBeforeYear(d.year) + DayOfYear(d)
  }

  /** `a < b` on dates: (year, month, day) compared lexicographically. */
  predicate Before(a: Date, b: Date) {
    || a.year < b.year
    || (a.year == b.year && a.month < b.month)
    || (a.year == b.year && a.month == b.month && a.day < b.day)
  }

  /** `datetime.date(year, month, day)`: ValueError for an impossible date. */
  function MakeDate(year: int, month: int, day: int): (r: Result<Date>)
    ensures r.Ok? <==> IsValidDate(Date(year, month, day))
    ensures r.Ok? ==> r.value == Date(year, month, day)
    ensures r.Err? ==> r.error == ValueError
  {
    if IsValidDate(Date(year, month, day)) then Ok(Date(year, month, day)) else Err(ValueError)
  }

  /**
   * The next birthday as `days_to_birthday` builds it: the birthday's month
   * and day in today's year, or in the following year when that has passed.
   * Either construction can raise ValueError (February 29 outside a leap year,
   * or a year past 9999).
   */
  function NextBirthday(birth: Date, today: Date): (r: Result<Date>)
    ensures r.Ok? ==> IsValidDate(r.value)
  {
    match MakeDate(today.year, birth.month, birth.day)
    case Err(e) => Err(e)
    case Ok(candidate) =>
      if Before(candidate, today) then MakeDate(today.year + 1, birth.month, birth.day)
      else Ok(candidate)
  }

  /** `(next_birthday - today).days`. */
  function DaysToBirthday(birth: Date, today: Date): Result<int>
    requires IsValidDate(today)
  {
    match NextBirthday(birth, today)
    case Err(e) => Err(e)
    case Ok(next) => Ok(Ordinal(next) - Ordinal(today))
  }

  /** The text `days_to_birthday` returns for a day count. */
  function CountdownMessage(days: int): string {
    if days == 0 then "Today birthday" else IntToString(days) + " days to next birthday"
  }

  /** Decimal digits of a natural number, as Python's `str` writes them. */
  function NatToString(n: nat): (r: string)
    decreases n
    ensures |r| >= 1 && '0' <= r[0] <= '9'
  {
    if n < 10 then [DigitChar(n)] else NatToString(n / 10) + [DigitChar(n % 10)]
  }

  function DigitChar(n: nat): char
    requires n < 10
  {
    ('0' as int + n) as char
  }

  function IntToString(n: int): string {
    if n < 0 then "-" + NatToString(-n) else NatToString(n)
  }

  /** The next birthday falls on the birthday's month and day, in this year or the next, never before today. */
  lemma NextBirthdayIsNext(birth: Date, today: Date)
    requires IsValidDate(today)
    requires NextBirthday(birth, today).Ok?
    ensures var next := NextBirthday(birth, today).value;
      && next.month == birth.month && next.day == birth.day
      && (next.year == today.year || next.year == today.year + 1)
      && !Before(next, today)
      && (next.year == today.year + 1 ==> Before(Date(today.year, next.month, next.day), today))
  {
  }

  /**
   * The countdown lies between 0 and 365 days, and it is 0 (the message is
   * "Today birthday") exactly when the month and day are today's.
   */
  lemma DaysToBirthdayBounds(birth: Date, today: Date)
    requires IsValidDate(today)
    requires DaysToBirthday(birth, today).Ok?
    ensures 0 <= DaysToBirthday(birth, today).value <= 365
    ensures DaysToBirthday(birth, today).value == 0 <==> birth.month == today.month && birth.day == today.day
    ensures CountdownMessage(DaysToBirthday(birth, today).value) == "Today birthday"
            <==> birth.month == today.month && birth.day == today.day
  {
    var next := NextBirthday(birth, today).value;
    if next.year == today.year {
      SameYearDistance(today, next);
    } else {
      NextYearDistance(today, next);
    }
    CountdownMessageDistinct(DaysToBirthday(birth, today).value);
  }

  /** From a date to a later-or-equal one of the same year: under a year, and 0 only for the same date. */
  lemma SameYearDistance(a: Date, b: Date)
    requires IsValidDate(a) && IsValidDate(b) && a.year == b.year && !Before(b, a)
    ensures 0 <= Ordinal(b) - Ordinal(a) <= 365
    ensures Ordinal(b) == Ordinal(a) <==> a == b
  {
    DayOfYearMonotone(b, a);
    DayOfYearMonotone(a, b);
    DayOfYearBound(a);
    DayOfYearBound(b);
  }

  /**
   * From `today` to a date of the following year whose month and day have
   * already passed this year: at least one day, at most 365.
   */
  lemma NextYearDistance(today: Date, next: Date)
    requires IsValidDate(today) && IsValidDate(next) && next.year == today.year + 1
    requires IsValidDate(Date(today.year, next.month, next.day))
    requires Before(Date(today.year, next.month, next.day), today)
    ensures 1 <= Ordinal(next) - Ordinal(today) <= 365
  {
    var here := Date(today.year, next.month, next.day);
    DayOfYearMonotone(here, today);
    DayOfYearBound(today);
    DaysBeforeYearStep(today.year);
    NextYearShift(here);
  }

  /**
   * The countdown fails (ValueError) exactly for a February 29 birthday whose
   * next occurrence would fall in a common year, or when the next birthday
   * would be in the year 10000.
   */
  lemma DaysToBirthdayFails(birth: Date, today: Date)
    requires IsValidDate(today) && IsValidDate(birth)
    ensures DaysToBirthday(birth, today).Err? <==>
      || (birth.month == 2 && birth.day == 29 && !IsLeapYear(today.year))
      || (birth.month == 2 && birth.day == 29 && Before(Date(today.year, 2, 29), today))
      || (today.year == MaxYear && Before(Date(today.year, birth.month, birth.day), today))
    ensures DaysToBirthday(birth, today).Err? ==> DaysToBirthday(birth, today).error == ValueError
  {
    var y := today.year;
    if birth.month == 2 && birth.day == 29 && IsLeapYear(y) {
      LeapYearsApart(y);
    }
  }

  /** Two consecutive years are never both leap years. */
  lemma LeapYearsApart(y: int)
    requires IsLeapYear(y)
    ensures !IsLeapYear(y + 1)
  {
  }

  lemma CountdownMessageDistinct(days: int)
    ensures CountdownMessage(days) == "Today birthday" <==> days == 0
  {
    if days != 0 {
      var m := CountdownMessage(days);
      assert m[0] == '-' || '0' <= m[0] <= '9';
    }
  }

  /** The first of the following month comes right after the last day of this one. */
  lemma DaysBeforeMonthStep(y: int, m: int)
    requires 1 <= m < 12
    ensures DaysBeforeMonth(y, m + 1) == DaysBeforeMonth(y, m) + DaysInMonth(y, m)
  {
  }

  lemma {:induction false} DaysBeforeMonthMonotone(y: int, m: int, n: int)
    requires 1 <= m < n <= 12
    ensures DaysBeforeMonth(y, m) + DaysInMonth(y, m) <= DaysBeforeMonth(y, n)
    decreases n - m
  {
    DaysBeforeMonthStep(y, m);
    if m + 1 < n {
      DaysBeforeMonthMonotone(y, m + 1, n);
    }
  }

  /** Within one year, the day of the year follows the order of dates. */
  lemma DayOfYearMonotone(a: Date, b: Date)
    requires IsValidDate(a) && IsValidDate(b) && a.year == b.year
    ensures Before(a, b) <==> DayOfYear(a) < DayOfYear(b)
  {
    if a.month < b.month {
      DaysBeforeMonthMonotone(a.year, a.month, b.month);
    } else if b.month < a.month {
      DaysBeforeMonthMonotone(a.year, b.month, a.month);
    }
  }

  lemma DayOfYearBound(d: Date)
    requires IsValidDate(d)
    ensures 1 <= DayOfYear(d) <= DaysInYear(d.year)
  {
  }

  lemma DaysBeforeYearStep(y: int)
    requires y >= 1
    ensures DaysBeforeYear(y + 1) == DaysBeforeYear(y) + DaysInYear(y)
  {
    var p := y - 1;
    DivStep(p, 4);
    DivStep(p, 100);
    DivStep(p, 400);
  }

  lemma {:induction false} DaysBeforeYearMonotone(x: int, y: int)
    requires 1 <= x <= y
    ensures DaysBeforeYear(x) + (y - x) * 365 <= DaysBeforeYear(y)
    decreases y - x
  {
    if x < y {
      DaysBeforeYearStep(x);
      DaysBeforeYearMonotone(x + 1, y);
    }
  }

  /**
   * Ordinals follow the order of dates: `a < b` exactly when `a` has the
   * smaller ordinal, so the comparison `next_birthday < today` and the
   * subtraction `next_birthday - today` agree, and distinct dates have
   * distinct ordinals.
   */
  lemma OrdinalOrder(a: Date, b: Date)
    requires IsValidDate(a) && IsValidDate(b)
    ensures Before(a, b) <==> Ordinal(a) < Ordinal(b)
    ensures Ordinal(a) == Ordinal(b) <==> a == b
  {
    if a.year == b.year {
      DayOfYearMonotone(a, b);
      DayOfYearMonotone(b, a);
    } else if a.year < b.year {
      YearsApart(a, b);
    } else {
      YearsApart(b, a);
    }
  }

  /** A date of an earlier year has a smaller ordinal. */
  lemma YearsApart(a: Date, b: Date)
    requires IsValidDate(a) && IsValidDate(b) && a.year < b.year
    ensures Ordinal(a) < Ordinal(b)
  {
    DayOfYearBound(a);
    DayOfYearBound(b);
    DaysBeforeYearStep(a.year);
    DaysBeforeYearMonotone(a.year + 1, b.year);
  }

  /** Stepping the dividend by one raises the quotient exactly when it reaches a multiple. */
  lemma DivStep(p: int, k: int)
    requires k == 4 || k == 100 || k == 400
    ensures (p + 1) / k == p / k + (if (p + 1) % k == 0 then 1 else 0)
  {
  }

  /** The same month and day one year later sits at most one day further into the year (never further after a leap year). */
  lemma NextYearShift(d: Date)
    requires IsValidDate(d) && IsValidDate(Date(d.year + 1, d.month, d.day))
    ensures DayOfYear(Date(d.year + 1, d.month, d.day)) <= DayOfYear(d) + 1
    ensures IsLeapYear(d.year) ==> DayOfYear(Date(d.year + 1, d.month, d.day)) <= DayOfYear(d)
  {
    if IsLeapYear(d.year) {
      LeapYearsApart(d.year);
    }
  }
}
