/**
 * The date-fns functions the age calculator calls: `isAfter`,
 * `differenceInYears`, `differenceInMonths` and `differenceInDays`, on dates
 * at day resolution. The library's code is not part of this model; the
 * differences are specified by their documented meaning (the signed number
 * of full years, full months and days between two dates).
 */
module DateFns {
  import opened Calendar

  /** `isAfter(a, b)`: the time value of `a` is greater than that of `b`. */
  function IsAfter(a: Date, b: Date): (r: bool)
    requires a.IsValid() && b.IsValid()
    ensures r <==> Before(b, a)
  {
    BeforeIffDayNumberLess(b, a);
    DayNumber(a) > DayNumber(b)
  }

  /** Month and day of `a` come strictly before those of `b` within a (leap) year. */
  predicate MonthDayBefore(a: Date, b: Date) {
    a.month < b.month || (a.month == b.month && a.day < b.day)
  }

  /** Full years from `from` to `to` when `from` is not after `to`. */
  function FullYears(from: Date, to: Date): int {
    to.year - from.year - (if MonthDayBefore(to, from) then 1 else 0)
  }

  /** `differenceInYears(left, right)`: full years, negative when `left` is earlier. */
  function DiffYears(left: Date, right: Date): (r: int)
    ensures !Before(left, right) ==> r >= 0
    ensures Before(left, right) ==> r <= 0
  {
    if Before(left, right) then -FullYears(left, right) else FullYears(right, left)
  }

  /** Months since January of year 0. */
  function MonthIndex(d: Date): int {
    d.year * 12 + d.month - 1
  }

  /** Full months from `from` to `to` when `from` is not after `to`. */
  function FullMonths(from: Date, to: Date): int {
    MonthIndex(to) - MonthIndex(from) - (if to.day < from.day then 1 else 0)
  }

  /** `differenceInMonths(left, right)`: full months, negative when `left` is earlier. */
  function DiffMonths(left: Date, right: Date): (r: int)
    ensures 1 <= left.month <= 12 && 1 <= right.month <= 12 ==>
              (!Before(left, right) ==> r >= 0) && (Before(left, right) ==> r <= 0)
  {
    if Before(left, right) then -FullMonths(left, right) else FullMonths(right, left)
  }

  /** `differenceInDays(left, right)`: days from `right` to `left`, at midnight on both. */
  function DiffDays(left: Date, right: Date): int
    requires 1 <= left.month <= 12 && 1 <= right.month <= 12
  {
    DayNumber(left) - DayNumber(right)
  }

  /**
   * `DiffYears(t, b)` is the number of full years: the largest `k` whose
   * `k`-th anniversary of `b` (month and day kept) is not after `t`.
   */
  lemma DiffYearsIsFullYears(t: Date, b: Date)
    requires !Before(t, b)
    ensures var k := DiffYears(t, b);
            && k >= 0
            && !Before(t, Date(b.year + k, b.month, b.day))
            && Before(t, Date(b.year + k + 1, b.month, b.day))
  {
  }

  /**
   * `DiffMonths(t, a)` is the number of full months: the largest `k` such
   * that day `a.day` of the `k`-th month after `a`'s is not after `t`.
   */
  lemma DiffMonthsIsFullMonths(t: Date, a: Date)
    requires t.IsValid() && a.IsValid() && !Before(t, a)
    ensures var k := DiffMonths(t, a);
            && k >= 0
            && (MonthIndex(a) + k < MonthIndex(t) || (MonthIndex(a) + k == MonthIndex(t) && a.day <= t.day))
            && (MonthIndex(a) + k + 1 > MonthIndex(t) || (MonthIndex(a) + k + 1 == MonthIndex(t) && a.day > t.day))
  {
  }

  /** Within one month the day difference is the difference of the days of month. */
  lemma DiffDaysSameMonth(l: Date, r: Date)
    requires 1 <= l.month <= 12 && l.year == r.year && l.month == r.month
    ensures DiffDays(l, r) == l.day - r.day
  {
  }

  /** Into the next month the day difference adds the length of `r`'s month. */
  lemma DiffDaysNextMonth(l: Date, r: Date)
    requires 1 <= r.month <= 12 && (l.year, l.month) == NextMonth(r.year, r.month)
    ensures DiffDays(l, r) == DaysInMonth(r.year, r.month) + l.day - r.day
  {
    MonthStep(r.year, r.month, l.day);
  }

  /** Adding `DiffDays(l, r)` days to `r` gives exactly `l`. */
  lemma AddDiffDays(l: Date, r: Date)
    requires l.IsValid() && r.IsValid()
    ensures AddDays(r, DiffDays(l, r)) == l
  {
    AddDaysDayNumber(r, DiffDays(l, r));
    BeforeIffDayNumberLess(AddDays(r, DiffDays(l, r)), l);
  }
}
