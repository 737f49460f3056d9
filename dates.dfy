/** Calendar dates as (year, month, day) triples in the proleptic Gregorian
    calendar, with the two kinds of date arithmetic the pipeline uses:
    adding whole days (a `timedelta`, or `relativedelta(days=..)` /
    `relativedelta(weeks=..)`) and adding calendar months or years
    (`relativedelta(months=..)`, `relativedelta(years=..)`), which clamp the
    day to the length of the target month. */
module Dates {

  datatype Date = Date(year: int, month: int, day: int)

  predicate IsLeapYear(y: int) {
    y % 4 == 0 && (y % 100 != 0 || y % 400 == 0)
  }

  function DaysInMonth(y: int, m: int): (n: int)
    ensures 28 <= n <= 31
  {
    if m == 2 then (if IsLeapYear(y) then 29 else 28)
    else if m == 4 || m == 6 || m == 9 || m == 11 then 30
    else 31
  }

  predicate Valid(d: Date) {
    1 <= d.month <= 12 && 1 <= d.day <= DaysInMonth(d.year, d.month)
  }

  /** Chronological order: lexicographic on (year, month, day). */
  predicate Le(a: Date, b: Date) {
    a.year < b.year ||
    (a.year == b.year && (a.month < b.month || (a.month == b.month && a.day <= b.day)))
  }

  predicate Lt(a: Date, b: Date) {
    Le(a, b) && a != b
  }

  function NextDay(d: Date): (r: Date)
    requires Valid(d)
    ensures Valid(r) && Lt(d, r)
  {
    if d.day < DaysInMonth(d.year, d.month) then Date(d.year, d.month, d.day + 1)
    else if d.month < 12 then Date(d.year, d.month + 1, 1)
    else Date(d.year + 1, 1, 1)
  }

  function PrevDay(d: Date): (r: Date)
    requires Valid(d)
    ensures Valid(r) && Lt(r, d)
  {
    if d.day > 1 then Date(d.year, d.month, d.day - 1)
    else if d.month > 1 then Date(d.year, d.month - 1, DaysInMonth(d.year, d.month - 1))
    else Date(d.year - 1, 12, 31)
  }

  /** `d + timedelta(days=n)`. */
  function AddDays(d: Date, n: int): (r: Date)
    requires Valid(d)
    ensures Valid(r)
    decreases if n >= 0 then n else -n
  {
    if n == 0 then d
    else if n > 0 then AddDays(NextDay(d), n - 1)
    else AddDays(PrevDay(d), n + 1)
  }

  /** `d + relativedelta(weeks=w)`: relativedelta turns weeks into 7-day steps. */
  function AddWeeks(d: Date, w: int): (r: Date)
    requires Valid(d)
    ensures Valid(r)
  {
    AddDays(d, 7 * w)
  }

  /** `d + relativedelta(months=k)`: move k calendar months (carrying into the
      year), then clamp the day to the length of the month reached. */
  function AddMonths(d: Date, k: int): (r: Date)
    requires Valid(d)
    ensures Valid(r)
    ensures r.year * 12 + r.month == d.year * 12 + d.month + k
    ensures r.day == if d.day <= DaysInMonth(r.year, r.month) then d.day else DaysInMonth(r.year, r.month)
  {
    var total := d.year * 12 + (d.month - 1) + k;
    var y := total / 12;
    var m := total % 12 + 1;
    var last := DaysInMonth(y, m);
    Date(y, m, if d.day <= last then d.day else last)
  }

  /** `d + relativedelta(years=n)`: same month and day n years on, with
      29 February clamped to 28 February in a common year. */
  function AddYears(d: Date, n: int): (r: Date)
    requires Valid(d)
    ensures Valid(r)
    ensures r.year == d.year + n && r.month == d.month
    ensures r.day == if d.day <= DaysInMonth(r.year, r.month) then d.day else DaysInMonth(r.year, r.month)
  {
    var last := DaysInMonth(d.year + n, d.month);
    Date(d.year + n, d.month, if d.day <= last then d.day else last)
  }

  /** Two years' lengths are counted the same way by `relativedelta`:
      adding n years is adding 12 * n months. */
  lemma YearsAreTwelveMonths(d: Date, n: int)
    requires Valid(d)
    ensures AddYears(d, n) == AddMonths(d, 12 * n)
  {
    var r := AddMonths(d, 12 * n);
    assert r.year * 12 + r.month == (d.year + n) * 12 + d.month;
    assert r.year == d.year + n && r.month == d.month;
  }

  /** Adding a non-negative number of years never moves a date backwards. */
  lemma AddYearsForward(d: Date, n: nat)
    requires Valid(d)
    ensures Le(d, AddYears(d, n))
  {
    YearsAreTwelveMonths(d, n);
    AddMonthsMonotone(d, 0, 12 * n);
    AddMonthsZero(d);
  }

  // ---------------------------------------------------------------------
  // Day numbers: the count of days from 1 January of year 1, which a
  // `timedelta` of n days moves by exactly n

  function DaysInYear(y: int): int {
    if IsLeapYear(y) then 366 else 365
  }

  /** The days of the years from year 1 up to y (counted negatively before
      year 1). */
  function DaysBeforeYear(y: int): int
    decreases if y >= 1 then y - 1 else 1 - y
  {
    if y == 1 then 0
    else if y > 1 then DaysBeforeYear(y - 1) + DaysInYear(y - 1)
    else DaysBeforeYear(y + 1) - DaysInYear(y)
  }

  lemma DaysBeforeNextYear(y: int)
    ensures DaysBeforeYear(y + 1) == DaysBeforeYear(y) + DaysInYear(y)
  {
  }

  /** The days of the months of year y before month m. */
  function DaysBeforeMonth(y: int, m: int): int
    decreases m
  {
    if m <= 1 then 0 else DaysBeforeMonth(y, m - 1) + DaysInMonth(y, m - 1)
  }

  function DayNumber(d: Date): int {
    DaysBeforeYear(d.year) + DaysBeforeMonth(d.year, d.month) + d.day
  }

  lemma DaysBeforeDecember(y: int)
    ensures DaysBeforeMonth(y, 12) + 31 == DaysInYear(y)
  {
    assert DaysBeforeMonth(y, 3) == 31 + DaysInMonth(y, 2);
  }

  lemma NextDayNumber(d: Date)
    requires Valid(d)
    ensures DayNumber(NextDay(d)) == DayNumber(d) + 1
  {
    var last := DaysInMonth(d.year, d.month);
    if d.day < last {
      assert NextDay(d) == Date(d.year, d.month, d.day + 1);
    } else if d.month < 12 {
      assert NextDay(d) == Date(d.year, d.month + 1, 1);
      assert DaysBeforeMonth(d.year, d.month + 1) == DaysBeforeMonth(d.year, d.month) + last;
    } else {
      assert NextDay(d) == Date(d.year + 1, 1, 1);
      DaysBeforeNextYear(d.year);
      DaysBeforeDecember(d.year);
    }
  }

  lemma PrevDayNumber(d: Date)
    requires Valid(d)
    ensures DayNumber(PrevDay(d)) == DayNumber(d) - 1
  {
    if d.day > 1 {
      assert PrevDay(d) == Date(d.year, d.month, d.day - 1);
    } else if d.month > 1 {
      var last := DaysInMonth(d.year, d.month - 1);
      assert PrevDay(d) == Date(d.year, d.month - 1, last);
      assert DaysBeforeMonth(d.year, d.month) == DaysBeforeMonth(d.year, d.month - 1) + last;
    } else {
      assert PrevDay(d) == Date(d.year - 1, 12, 31);
      DaysBeforeNextYear(d.year - 1);
      DaysBeforeDecember(d.year - 1);
    }
  }

  /** `d + timedelta(days=n)` is the date whose day number is n more. */
  lemma {:induction false} AddDaysNumber(d: Date, n: int)
    requires Valid(d)
    ensures DayNumber(AddDays(d, n)) == DayNumber(d) + n
    decreases if n >= 0 then n else -n
  {
    if n > 0 {
      var e := NextDay(d);
      assert AddDays(d, n) == AddDays(e, n - 1);
      NextDayNumber(d);
      AddDaysNumber(e, n - 1);
    } else if n < 0 {
      var e := PrevDay(d);
      assert AddDays(d, n) == AddDays(e, n + 1);
      PrevDayNumber(d);
      AddDaysNumber(e, n + 1);
    }
  }

  /** `relativedelta(weeks=w)` moves the day number by 7 * w. */
  lemma AddWeeksNumber(d: Date, w: int)
    requires Valid(d)
    ensures DayNumber(AddWeeks(d, w)) == DayNumber(d) + 7 * w
  {
    AddDaysNumber(d, 7 * w);
  }

  lemma LeTransitive(a: Date, b: Date, c: Date)
    requires Le(a, b) && Le(b, c)
    ensures Le(a, c)
  {
  }

  /** Adding a non-negative number of days never moves a date backwards. */
  lemma {:induction false} AddDaysForward(d: Date, n: nat)
    requires Valid(d)
    ensures Le(d, AddDays(d, n))
    decreases n
  {
    if n > 0 {
      AddDaysForward(NextDay(d), n - 1);
      LeTransitive(d, NextDay(d), AddDays(NextDay(d), n - 1));
    }
  }

  /** Adding a + b days is adding a days, then b days. */
  lemma {:induction false} AddDaysSplit(d: Date, a: nat, b: nat)
    requires Valid(d)
    ensures AddDays(d, a + b) == AddDays(AddDays(d, a), b)
    decreases a
  {
    if a > 0 {
      AddDaysSplit(NextDay(d), a - 1, b);
    }
  }

  /** Adding days that stay inside the month only moves the day of month. */
  lemma {:induction false} AddDaysWithinMonth(d: Date, n: nat)
    requires Valid(d) && d.day + n <= DaysInMonth(d.year, d.month)
    ensures AddDays(d, n) == Date(d.year, d.month, d.day + n)
    decreases n
  {
    if n > 0 {
      assert NextDay(d) == Date(d.year, d.month, d.day + 1);
      AddDaysWithinMonth(NextDay(d), n - 1);
    }
  }

  /** Day addition is monotone in the number of days added. */
  lemma AddDaysMonotone(d: Date, a: nat, b: nat)
    requires Valid(d) && a <= b
    ensures Le(AddDays(d, a), AddDays(d, b))
  {
    AddDaysSplit(d, a, b - a);
    AddDaysForward(AddDays(d, a), b - a);
  }

  lemma AddWeeksMonotone(d: Date, a: nat, b: nat)
    requires Valid(d) && a <= b
    ensures Le(AddWeeks(d, a), AddWeeks(d, b))
  {
    AddDaysMonotone(d, 7 * a, 7 * b);
  }

  /** Month addition is monotone in the number of months added: every month
      reached later is a later (year, month), whatever day clamping does. */
  lemma AddMonthsMonotone(d: Date, a: int, b: int)
    requires Valid(d) && a <= b
    ensures Le(AddMonths(d, a), AddMonths(d, b))
  {
    var ra, rb := AddMonths(d, a), AddMonths(d, b);
    if ra.year * 12 + ra.month == rb.year * 12 + rb.month {
      assert ra.year == rb.year && ra.month == rb.month;
    } else {
      assert ra.year * 12 + ra.month < rb.year * 12 + rb.month;
      assert ra.year < rb.year || (ra.year == rb.year && ra.month < rb.month);
    }
  }

  lemma AddMonthsZero(d: Date)
    requires Valid(d)
    ensures AddMonths(d, 0) == d
  {
  }
}
