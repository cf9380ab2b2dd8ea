/**
 * Proleptic Gregorian calendar dates at day resolution, and the JavaScript
 * `Date` arithmetic the age calculator uses: ECMAScript's MakeDay
 * (ECMA-262, section 21.4.1), which carries an out-of-range month into the
 * year and an out-of-range day into the following (or preceding) months.
 * A `Date` object is modelled by the calendar components of the local day it
 * denotes; time of day, time zones and the time-value range are not modelled.
 */
module Calendar {

  /** A calendar date. `month` is 1-based (January = 1); the value need not be valid. */
  datatype Date = Date(year: int, month: int, day: int)
  {
    /** The triple names a real Gregorian date. */
    predicate IsValid() {
      1 <= month <= 12 && 1 <= day <= DaysInMonth(year, month)
    }
  }

  /** Gregorian leap-year rule. */
  predicate IsLeap(y: int) {
    y % 4 == 0 && (y % 100 != 0 || y % 400 == 0)
  }

  function DaysInYear(y: int): (n: int)
    ensures n == 365 || n == 366
    ensures n == 366 <==> IsLeap(y)
  {
    if IsLeap(y) then 366 else 365
  }

  function DaysInMonth(y: int, m: int): (n: int)
    requires 1 <= m <= 12
    ensures 28 <= n <= 31
    ensures n == 29 <==> m == 2 && IsLeap(y)
  {
    if m == 2 then (if IsLeap(y) then 29 else 28)
    else if m == 4 || m == 6 || m == 9 || m == 11 then 30
    else 31
  }

  /** Strict chronological order of two dates, compared field by field. */
  predicate Before(a: Date, b: Date) {
    a.year < b.year
    || (a.year == b.year && (a.month < b.month || (a.month == b.month && a.day < b.day)))
  }

  /** Number of days from 0000-01-01 (astronomical year numbering) to January 1 of `y`. */
  function DaysBeforeYear(y: int): int
    decreases if y < 0 then -y else y
  {
    if y == 0 then 0
    else if y > 0 then DaysBeforeYear(y - 1) + DaysInYear(y - 1)
    else DaysBeforeYear(y + 1) - DaysInYear(y)
  }

  /** Number of days in year `y` before the first of month `m`. */
  function DaysBeforeMonth(y: int, m: int): (n: int)
    requires 1 <= m <= 12
    ensures 0 <= n <= 335
  {
    var common :=
      if m == 1 then 0 else if m == 2 then 31 else if m == 3 then 59 else if m == 4 then 90
      else if m == 5 then 120 else if m == 6 then 151 else if m == 7 then 181 else if m == 8 then 212
      else if m == 9 then 243 else if m == 10 then 273 else if m == 11 then 304 else 334;
    if m > 2 && IsLeap(y) then common + 1 else common
  }

  /**
   * The day number of a (year, month, day) triple, counted from 0000-01-01:
   * MakeDay's day count for a month already in range, with the day not
   * required to lie inside the month.
   */
  function DayNumber(d: Date): int
    requires 1 <= d.month <= 12
  {
    DaysBeforeYear(d.year) + DaysBeforeMonth(d.year, d.month) + d.day - 1
  }

  function NextMonth(y: int, m: int): (r: (int, int))
    requires 1 <= m <= 12
    ensures 1 <= r.1 <= 12
    ensures r.0 * 12 + r.1 == y * 12 + m + 1
  {
    if m == 12 then (y + 1, 1) else (y, m + 1)
  }

  function PrevMonth(y: int, m: int): (r: (int, int))
    requires 1 <= m <= 12
    ensures 1 <= r.1 <= 12
    ensures r.0 * 12 + r.1 == y * 12 + m - 1
  {
    if m == 1 then (y - 1, 12) else (y, m - 1)
  }

  lemma DaysBeforeYearStep(y: int)
    ensures DaysBeforeYear(y + 1) == DaysBeforeYear(y) + DaysInYear(y)
  {
  }

  /** Years are at least 365 days long, so `DaysBeforeYear` is increasing. */
  lemma {:induction false} DaysBeforeYearGrows(y1: int, y2: int)
    requires y1 <= y2
    ensures DaysBeforeYear(y1) + 365 * (y2 - y1) <= DaysBeforeYear(y2)
    decreases y2 - y1
  {
    if y1 < y2 {
      DaysBeforeYearStep(y2 - 1);
      DaysBeforeYearGrows(y1, y2 - 1);
    }
  }

  /** Moving a day to the same day of the next month adds the length of the month. */
  lemma MonthStep(y: int, m: int, d: int)
    requires 1 <= m <= 12
    ensures DayNumber(Date(NextMonth(y, m).0, NextMonth(y, m).1, d))
            == DayNumber(Date(y, m, d)) + DaysInMonth(y, m)
  {
    if m == 12 {
      DaysBeforeYearStep(y);
    }
  }

  /** A valid date's day number lies inside its year. */
  lemma DayNumberInYear(d: Date)
    requires d.IsValid()
    ensures DaysBeforeYear(d.year) <= DayNumber(d) < DaysBeforeYear(d.year) + DaysInYear(d.year)
  {
  }

  /** On valid dates, chronological order is the order of day numbers. */
  lemma BeforeIffDayNumberLess(a: Date, b: Date)
    requires a.IsValid() && b.IsValid()
    ensures Before(a, b) <==> DayNumber(a) < DayNumber(b)
    ensures a == b <==> DayNumber(a) == DayNumber(b)
  {
    if Before(a, b) {
      BeforeDayNumberLess(a, b);
    } else if Before(b, a) {
      BeforeDayNumberLess(b, a);
    }
  }

  /** An earlier valid date has a smaller day number. */
  lemma BeforeDayNumberLess(a: Date, b: Date)
    requires a.IsValid() && b.IsValid() && Before(a, b)
    ensures DayNumber(a) < DayNumber(b)
  {
    if a.year < b.year {
      DayNumberInYear(a);
      DayNumberInYear(b);
      DaysBeforeYearStep(a.year);
      DaysBeforeYearGrows(a.year + 1, b.year);
    } else if a.month < b.month {
      DaysBeforeMonthGrows(a.year, a.month, b.month);
    }
  }

  /** A whole month `m1` fits before the start of any later month `m2` of the same year. */
  lemma DaysBeforeMonthGrows(y: int, m1: int, m2: int)
    requires 1 <= m1 < m2 <= 12
    ensures DaysBeforeMonth(y, m1) + DaysInMonth(y, m1) <= DaysBeforeMonth(y, m2)
  {
  }

  /**
   * Carries an out-of-range day of month (y, m) into the following or the
   * preceding months until it names a real date.
   */
  function CarryDays(y: int, m: int, d: int): (r: Date)
    requires 1 <= m <= 12
    ensures r.IsValid()
    decreases if d < 1 then 1 else 0, if d < 1 then -d else d
  {
    if d < 1 then
      var (py, pm) := PrevMonth(y, m);
      CarryDays(py, pm, d + DaysInMonth(py, pm))
    else if d > DaysInMonth(y, m) then
      var (ny, nm) := NextMonth(y, m);
      CarryDays(ny, nm, d - DaysInMonth(y, m))
    else
      Date(y, m, d)
  }

  /** Carrying days between months keeps the day number. */
  lemma {:induction false} CarryDaysKeepsDayNumber(y: int, m: int, d: int)
    requires 1 <= m <= 12
    ensures DayNumber(CarryDays(y, m, d)) == DayNumber(Date(y, m, d))
    decreases if d < 1 then 1 else 0, if d < 1 then -d else d
  {
    if d < 1 {
      var (py, pm) := PrevMonth(y, m);
      MonthStep(py, pm, d + DaysInMonth(py, pm));
      CarryDaysKeepsDayNumber(py, pm, d + DaysInMonth(py, pm));
    } else if d > DaysInMonth(y, m) {
      var (ny, nm) := NextMonth(y, m);
      MonthStep(y, m, d);
      CarryDaysKeepsDayNumber(ny, nm, d - DaysInMonth(y, m));
    }
  }

  /**
   * MakeDay's month carry: month `m0` (0-based, any integer) of year `y` is
   * the returned (year, 1-based month).
   */
  function CarryMonth(y: int, m0: int): (r: (int, int))
    ensures 1 <= r.1 <= 12
    ensures r.0 * 12 + r.1 - 1 == y * 12 + m0
  {
    (y + m0 / 12, m0 % 12 + 1)
  }

  /**
   * ECMAScript MakeDay followed by reading the date back: the real date that
   * day `d` of month `m0` (0-based, any integer) of year `y` lands on.
   */
  function MakeDay(y: int, m0: int, d: int): (r: Date)
    ensures r.IsValid()
  {
    CarryDays(CarryMonth(y, m0).0, CarryMonth(y, m0).1, d)
  }

  /**
   * MakeDay's day count: the months carried into the year, then the days
   * before the month, then the day of month counted from 1.
   */
  lemma MakeDayDayNumber(y: int, m0: int, d: int)
    ensures DayNumber(MakeDay(y, m0, d)) == DayNumber(Date(CarryMonth(y, m0).0, CarryMonth(y, m0).1, d))
  {
    var (cy, cm) := CarryMonth(y, m0);
    CarryDaysKeepsDayNumber(cy, cm, d);
  }

  /** A 0-based month already in range carries nothing into the year. */
  lemma MonthInRange(y: int, m: int)
    requires 1 <= m <= 12
    ensures CarryMonth(y, m - 1) == (y, m)
  {
  }

  /** `setFullYear(y)` on `d`: month and day of month kept, then normalised. */
  function WithYear(d: Date, y: int): (r: Date)
    requires d.IsValid()
    ensures r.IsValid()
  {
    MakeDay(y, d.month - 1, d.day)
  }

  /** `setMonth(m0)` on `d`: year and day of month kept, then normalised. */
  function WithMonth(d: Date, m0: int): (r: Date)
    requires d.IsValid()
    ensures r.IsValid()
  {
    MakeDay(d.year, m0, d.day)
  }

  /** `setFullYear(getFullYear() + k)`. */
  function AddYears(b: Date, k: int): (r: Date)
    requires b.IsValid()
    ensures r.IsValid()
  {
    WithYear(b, b.year + k)
  }

  /** `setMonth(getMonth() + k)`. */
  function AddMonths(b: Date, k: int): (r: Date)
    requires b.IsValid()
    ensures r.IsValid()
  {
    WithMonth(b, b.month - 1 + k)
  }

  /**
   * The date `k` days after `b` (before it when `k < 0`), normalised from day
   * `b.day + k` of the same month. The page never shifts by days; this is the
   * shift with which "years, then months, then days re-added give today" is stated.
   */
  function AddDays(b: Date, k: int): (r: Date)
    requires b.IsValid()
    ensures r.IsValid()
  {
    MakeDay(b.year, b.month - 1, b.day + k)
  }

  /** Adding `k` days moves the day number by exactly `k`. */
  lemma AddDaysDayNumber(b: Date, k: int)
    requires b.IsValid()
    ensures DayNumber(AddDays(b, k)) == DayNumber(b) + k
  {
    MonthInRange(b.year, b.month);
    MakeDayDayNumber(b.year, b.month - 1, b.day + k);
  }

  /** MakeDay is onto the valid dates and reads a valid date back unchanged. */
  lemma MakeDayOfValid(d: Date)
    requires d.IsValid()
    ensures MakeDay(d.year, d.month - 1, d.day) == d
  {
    MonthInRange(d.year, d.month);
  }

  /** Shifting by zero years, months or days leaves a valid date unchanged. */
  lemma AddZeroIsIdentity(d: Date)
    requires d.IsValid()
    ensures AddYears(d, 0) == d && AddMonths(d, 0) == d && AddDays(d, 0) == d
  {
    MakeDayOfValid(d);
  }

  /**
   * A `Date` built from day, month and year reads back the same three
   * components exactly when they name a real date: an out-of-range day
   * overflows into the next month instead of being clamped.
   */
  lemma ReadBackIffValid(y: int, m: int, d: int)
    requires 1 <= m <= 12
    ensures MakeDay(y, m - 1, d) == Date(y, m, d) <==> Date(y, m, d).IsValid()
  {
    MonthInRange(y, m);
  }

  /**
   * Shifting by whole years keeps month and day when that day exists in the
   * target year; otherwise (February 29 into a common year) it overflows to March 1.
   */
  lemma AddYearsOverflow(b: Date, k: int)
    requires b.IsValid()
    ensures b.day <= DaysInMonth(b.year + k, b.month) ==> AddYears(b, k) == Date(b.year + k, b.month, b.day)
    ensures b.day > DaysInMonth(b.year + k, b.month) ==>
              b.month == 2 && b.day == 29 && AddYears(b, k) == Date(b.year + k, 3, 1)
  {
    MonthInRange(b.year + k, b.month);
    if b.day > DaysInMonth(b.year + k, b.month) {
      MonthStep(b.year + k, 2, 29);
      assert CarryDays(b.year + k, 3, 1) == Date(b.year + k, 3, 1);
    }
  }

  /**
   * A day of month between 1 and 31 either fits its month or spills over by
   * at most three days into the next month.
   */
  lemma CarryShort(y: int, m: int, d: int)
    requires 1 <= m <= 12 && 1 <= d <= 31
    ensures d <= DaysInMonth(y, m) ==> CarryDays(y, m, d) == Date(y, m, d)
    ensures d > DaysInMonth(y, m) ==>
              CarryDays(y, m, d) == Date(NextMonth(y, m).0, NextMonth(y, m).1, d - DaysInMonth(y, m))
  {
    if d > DaysInMonth(y, m) {
      var (ny, nm) := NextMonth(y, m);
      assert CarryDays(ny, nm, d - DaysInMonth(y, m)) == Date(ny, nm, d - DaysInMonth(y, m));
    }
  }

  /**
   * Shifting by whole months keeps the day when it exists in the target
   * month; otherwise the excess days spill into the month after it.
   */
  lemma AddMonthsOverflow(b: Date, k: int)
    requires b.IsValid()
    ensures var (ty, tm) := CarryMonth(b.year, b.month - 1 + k);
            && (b.day <= DaysInMonth(ty, tm) ==> AddMonths(b, k) == Date(ty, tm, b.day))
            && (b.day > DaysInMonth(ty, tm) ==>
                  AddMonths(b, k) == Date(NextMonth(ty, tm).0, NextMonth(ty, tm).1, b.day - DaysInMonth(ty, tm)))
  {
    var (ty, tm) := CarryMonth(b.year, b.month - 1 + k);
    CarryShort(ty, tm, b.day);
  }

  /** February 29 moved by whole years into a common year is March 1. */
  lemma LeapDayIntoCommonYear(y: int, k: int)
    requires IsLeap(y) && !IsLeap(y + k)
    ensures AddYears(Date(y, 2, 29), k) == Date(y + k, 3, 1)
  {
    AddYearsOverflow(Date(y, 2, 29), k);
  }

  /** January 31 plus one month overflows February: March 3, or March 2 in a leap year. */
  lemma JanuaryEndPlusMonth(y: int)
    ensures AddMonths(Date(y, 1, 31), 1) == if IsLeap(y) then Date(y, 3, 2) else Date(y, 3, 3)
  {
    AddMonthsOverflow(Date(y, 1, 31), 1);
    assert CarryMonth(y, 0 + 1) == (y, 2);
  }

  /**
   * A JavaScript `Date` object at day resolution. Its setters change it in
   * place and normalise as MakeDay does.
   */
  class JsDate {
    var value: Date

    ghost predicate Valid()
      reads this
    {
      value.IsValid()
    }

    /** `new Date(other)`: a copy. */
    constructor Copy(d: Date)
      requires d.IsValid()
      ensures Valid() && value == d
    {
      value := d;
    }

    /** The full year. */
    function GetFullYear(): int
      reads this
    {
      value.year
    }

    /** The 0-based month. */
    function GetMonth(): (m0: int)
      reads this
      requires Valid()
      ensures 0 <= m0 <= 11
    {
      value.month - 1
    }

    /** `setFullYear(y)`: month and day of month kept, then normalised. */
    method SetFullYear(y: int)
      requires Valid()
      modifies this
      ensures Valid()
      ensures value == WithYear(old(value), y)
    {
      value := WithYear(value, y);
    }

    /** `setMonth(m0)`: year and day of month kept, then normalised. */
    method SetMonth(m0: int)
      requires Valid()
      modifies this
      ensures Valid()
      ensures value == WithMonth(old(value), m0)
    {
      value := WithMonth(value, m0);
    }
  }

  /** `new Date(b)` followed by `setFullYear(getFullYear() + k)` on the copy. */
  method ShiftYears(b: Date, k: int) returns (anchor: Date)
    requires b.IsValid()
    ensures anchor == AddYears(b, k)
  {
    var d := new JsDate.Copy(b);
    d.SetFullYear(d.GetFullYear() + k);
    anchor := d.value;
  }

  /** `new Date(b)` followed by `setMonth(getMonth() + k)` on the copy. */
  method ShiftMonths(b: Date, k: int) returns (anchor: Date)
    requires b.IsValid()
    ensures anchor == AddMonths(b, k)
  {
    var d := new JsDate.Copy(b);
    d.SetMonth(d.GetMonth() + k);
    anchor := d.value;
  }
}
