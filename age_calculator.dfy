/**
 * The age calculator page (`Index`): its state, the birth-date validation
 * of `calculateAge`, the calendar-aware age arithmetic, and `resetCalculator`.
 * The wall clock is a `today` parameter; its year is the "current year".
 */
module AgeCalculator {
  import opened Wrappers
  import opened Calendar
  import opened DateFns

  /** The result shown to the user. */
  datatype AgeResult = AgeResult(years: int, months: int, days: int)

  /** How the birth date is entered. */
  datatype InputMethod = CalendarInput | ManualInput

  /**
   * A manual text field after `parseInt`: the empty string (which fails the
   * presence check), a text that parses to NaN, or the integer it parses to.
   */
  datatype Field = Blank | NotANumber | Number(n: int)

  const SelectDateError := "Please select your date of birth"
  const MissingFieldsError := "Please enter day, month, and year"
  const InvalidDateError := "Please enter a valid date"
  const FutureDateError := "Date of birth cannot be in the future"

  /** The four messages. */
  const Errors: set<string> := {SelectDateError, MissingFieldsError, InvalidDateError, FutureDateError}

  /** The four messages are distinct and non-empty, so every rejecting path leaves a non-empty message. */
  lemma ErrorsDistinctAndNonEmpty()
    ensures |Errors| == 4
    ensures forall e :: e in Errors ==> |e| > 0
  {
  }

  /** `f < k` in JavaScript: false when `f` is NaN. */
  predicate Less(f: Field, k: int) {
    f.Number? && f.n < k
  }

  /** `f > k` in JavaScript: false when `f` is NaN. */
  predicate Greater(f: Field, k: int) {
    f.Number? && f.n > k
  }

  /** `parseInt(manualMonth) - 1`: the 0-based month; NaN stays NaN. */
  function MinusOne(f: Field): (r: Field)
    requires !f.Blank?
    ensures r.Number? <==> f.Number?
    ensures r.Number? ==> r.n + 1 == f.n
  {
    if f.Number? then Number(f.n - 1) else NotANumber
  }

  /** The range check on day, 0-based month and year. */
  predicate OutOfRange(day: Field, month0: Field, year: Field, currentYear: int) {
    Less(day, 1) || Greater(day, 31) || Less(month0, 0) || Greater(month0, 11)
    || Less(year, 1900) || Greater(year, currentYear)
  }

  /** `new Date(year, month0, day)` at midnight; `None` is an Invalid Date (a NaN argument). */
  function ConstructDate(year: Field, month0: Field, day: Field): (r: Option<Date>)
    ensures r.Some? <==> year.Number? && month0.Number? && day.Number?
    ensures r.Some? ==> r.value.IsValid()
  {
    if year.Number? && month0.Number? && day.Number? then Some(MakeDay(year.n, month0.n, day.n))
    else None
  }

  /**
   * The read-back check: the built date's day, month or year differs from
   * the input (every getter of an Invalid Date reads NaN, which differs from everything).
   */
  predicate ReadBackDiffers(built: Option<Date>, year: Field, month0: Field, day: Field)
    ensures built.None? ==> ReadBackDiffers(built, year, month0, day)
    ensures built.Some? && year.Number? && month0.Number? && day.Number? ==>
              (!ReadBackDiffers(built, year, month0, day) <==> built.value == Date(year.n, month0.n + 1, day.n))
  {
    built.None?
    || Number(built.value.day) != day
    || Number(built.value.month - 1) != month0
    || Number(built.value.year) != year
  }

  /**
   * The manual branch of `calculateAge`: all three fields present, in range,
   * and naming a real date, which is then the birth date.
   */
  function ManualBirthDate(day: Field, month: Field, year: Field, currentYear: int): (r: Result<Date, string>)
    ensures r.Success? <==>
              && day.Number? && month.Number? && year.Number?
              && 1900 <= year.n <= currentYear
              && Date(year.n, month.n, day.n).IsValid()
    ensures r.Success? ==> r.value == Date(year.n, month.n, day.n)
    ensures r.Failure? && (day.Blank? || month.Blank? || year.Blank?) ==> r.error == MissingFieldsError
    ensures r.Failure? && !(day.Blank? || month.Blank? || year.Blank?) ==> r.error == InvalidDateError
  {
    if day.Blank? || month.Blank? || year.Blank? then
      Failure(MissingFieldsError)
    else
      var month0 := MinusOne(month);
      if OutOfRange(day, month0, year, currentYear) then
        Failure(InvalidDateError)
      else
        var built := ConstructDate(year, month0, day);
        ReadBack(year, month, day);
        if ReadBackDiffers(built, year, month0, day) then
          Failure(InvalidDateError)
        else
          Success(built.value)
  }

  /** The read-back check passes exactly for three in-range numbers naming a real date. */
  lemma ReadBack(year: Field, month: Field, day: Field)
    requires !month.Blank? && !Less(MinusOne(month), 0) && !Greater(MinusOne(month), 11)
    ensures var built := ConstructDate(year, MinusOne(month), day);
            && (!ReadBackDiffers(built, year, MinusOne(month), day) <==>
                  day.Number? && month.Number? && year.Number? && Date(year.n, month.n, day.n).IsValid())
            && (!ReadBackDiffers(built, year, MinusOne(month), day) ==> built == Some(Date(year.n, month.n, day.n)))
  {
    if day.Number? && month.Number? && year.Number? {
      ReadBackIffValid(year.n, month.n, day.n);
    }
  }

  /** The birth date `calculateAge` works with, or the message of the first failed check. */
  function BirthDate(inputMethod: InputMethod, date: Option<Date>, day: Field, month: Field, year: Field,
                     currentYear: int): (r: Result<Date, string>)
    requires date.Some? ==> date.value.IsValid()
    ensures r.Success? ==> r.value.IsValid()
    ensures r.Failure? ==> r.error in Errors - {FutureDateError}
    ensures inputMethod == CalendarInput ==>
              r == if date.None? then Failure(SelectDateError) else Success(date.value)
    ensures inputMethod == ManualInput ==> r == ManualBirthDate(day, month, year, currentYear)
  {
    if inputMethod == CalendarInput then
      if date.None? then Failure(SelectDateError) else Success(date.value)
    else
      ManualBirthDate(day, month, year, currentYear)
  }

  /**
   * The age arithmetic: full years, then full months from the year anchor,
   * then days from the month anchor. The anchors are shifted with the
   * overflowing `setFullYear` and `setMonth`.
   */
  function Age(birth: Date, today: Date): AgeResult
    requires birth.IsValid() && today.IsValid()
  {
    var years := DiffYears(today, birth);
    var yearAnchor := AddYears(birth, years);
    var months := DiffMonths(today, yearAnchor);
    var monthAnchor := AddMonths(yearAnchor, months);
    AgeResult(years, months, DiffDays(today, monthAnchor))
  }

  /** Re-adding the result's years, then months, then days to `birth` reaches `today`. */
  predicate Reconstructs(birth: Date, today: Date, a: AgeResult)
    requires birth.IsValid()
  {
    AddDays(AddMonths(AddYears(birth, a.years), a.months), a.days) == today
  }

  /**
   * The outcome of one `calculateAge` call: the age, or the message of the
   * first failed check.
   */
  function Evaluate(inputMethod: InputMethod, date: Option<Date>, day: Field, month: Field, year: Field,
                    today: Date): (r: Result<AgeResult, string>)
    requires date.Some? ==> date.value.IsValid()
    requires today.IsValid()
    ensures r.Failure? ==> r.error in Errors
    ensures var b := BirthDate(inputMethod, date, day, month, year, today.year);
            && (r.Success? <==> b.Success? && !Before(today, b.value))
            && (b.Failure? ==> r == Failure(b.error))
            && (b.Success? && Before(today, b.value) ==> r == Failure(FutureDateError))
    ensures r.Success? ==> r.value == Age(BirthDate(inputMethod, date, day, month, year, today.year).value, today)
    ensures r.Success? ==>
              var b := BirthDate(inputMethod, date, day, month, year, today.year).value;
              && r.value.years >= 0
              && 0 <= r.value.months <= 11
              && Reconstructs(b, today, r.value)
  {
    var b := BirthDate(inputMethod, date, day, month, year, today.year);
    if b.Failure? then
      Failure(b.error)
    else if IsAfter(b.value, today) then
      Failure(FutureDateError)
    else
      AgeCorrect(b.value, today);
      Success(Age(b.value, today))
  }

  /**
   * For a birth date not after today: `years` is the number of full years
   * and is non-negative, the year anchor is not after today while the next
   * anniversary is, `months` lies in 0..11, adding `days` to the month anchor
   * gives exactly today, and `days` lies in -2..30 (it is negative only when
   * `setMonth` overflowed into today's month past today).
   */
  lemma AgeCorrect(birth: Date, today: Date)
    requires birth.IsValid() && today.IsValid() && !Before(today, birth)
    ensures var a := Age(birth, today);
            && a.years >= 0
            && !Before(today, AddYears(birth, a.years))
            && Before(today, AddYears(birth, a.years + 1))
            && 0 <= a.months <= 11
            && Reconstructs(birth, today, a)
            && -2 <= a.days <= 30
  {
    var years := DiffYears(today, birth);
    var ya := AddYears(birth, years);
    YearAnchor(birth, today);
    var months := DiffMonths(today, ya);
    var ma := AddMonths(ya, months);
    MonthsWithinYear(ya, today);
    MonthAnchorDays(ya, today);
    AddDiffDays(today, ma);
    var a := AgeResult(years, months, DiffDays(today, ma));
    AgeSteps(birth, today, ya, ma, a);
    assert Reconstructs(birth, today, a);
  }

  /**
   * The year anchor: not after today, and both the next anniversary and the
   * same month and day a year after the anchor are after today.
   */
  lemma YearAnchor(birth: Date, today: Date)
    requires birth.IsValid() && today.IsValid() && !Before(today, birth)
    ensures var years := DiffYears(today, birth);
            var ya := AddYears(birth, years);
            && years >= 0
            && !Before(today, ya)
            && Before(today, AddYears(birth, years + 1))
            && Before(today, Date(ya.year + 1, ya.month, ya.day))
  {
    var years := DiffYears(today, birth);
    AddYearsOverflow(birth, years);
    AddYearsOverflow(birth, years + 1);
  }

  /** Less than a year after `a`, at most 11 full months have passed. */
  lemma MonthsWithinYear(a: Date, today: Date)
    requires a.IsValid() && today.IsValid()
    requires !Before(today, a) && Before(today, Date(a.year + 1, a.month, a.day))
    ensures 0 <= DiffMonths(today, a) <= 11
  {
  }

  /**
   * Days from the month anchor: shifting `a` by its full months to `today`
   * with `setMonth` lands at most 30 days before and at most 2 days after today.
   */
  lemma MonthAnchorDays(a: Date, today: Date)
    requires a.IsValid() && today.IsValid() && !Before(today, a)
    ensures -2 <= DiffDays(today, AddMonths(a, DiffMonths(today, a))) <= 30
  {
    var months := DiffMonths(today, a);
    MonthTarget(a, today);
    AddMonthsOverflow(a, months);
    var (ty, tm) := CarryMonth(a.year, a.month - 1 + months);
    if today.day < a.day {
      AnchorInPreviousMonth(ty, tm, a.day, today);
    } else {
      DiffDaysSameMonth(today, Date(ty, tm, a.day));
    }
  }

  /**
   * The month `setMonth` aims at: today's month when the day of month has
   * been reached, otherwise the month before it.
   */
  lemma MonthTarget(a: Date, today: Date)
    requires a.IsValid() && today.IsValid() && !Before(today, a)
    ensures var (ty, tm) := CarryMonth(a.year, a.month - 1 + DiffMonths(today, a));
            && (a.day <= today.day ==> ty == today.year && tm == today.month)
            && (a.day > today.day ==> NextMonth(ty, tm) == (today.year, today.month))
  {
    var (ty, tm) := CarryMonth(a.year, a.month - 1 + DiffMonths(today, a));
    if a.day > today.day {
      var (ny, nm) := NextMonth(ty, tm);
      assert ny * 12 + nm == today.year * 12 + today.month;
    } else {
      assert ty * 12 + tm == today.year * 12 + today.month;
    }
  }

  /**
   * Day `d` of the month before today's, or its overflow into today's month,
   * measured from today.
   */
  lemma AnchorInPreviousMonth(py: int, pm: int, d: int, today: Date)
    requires 1 <= pm <= 12 && today.IsValid() && NextMonth(py, pm) == (today.year, today.month)
    requires today.day < d <= 31
    ensures d <= DaysInMonth(py, pm) ==> DiffDays(today, Date(py, pm, d)) == DaysInMonth(py, pm) + today.day - d
    ensures d > DaysInMonth(py, pm) ==>
              DiffDays(today, Date(today.year, today.month, d - DaysInMonth(py, pm)))
              == DaysInMonth(py, pm) + today.day - d
  {
    MonthStep(py, pm, today.day);
  }

  /** `Age` from its two anchors, once they are known. */
  lemma AgeSteps(birth: Date, today: Date, yearAnchor: Date, monthAnchor: Date, a: AgeResult)
    requires birth.IsValid() && today.IsValid()
    requires a.years == DiffYears(today, birth) && yearAnchor == AddYears(birth, a.years)
    requires a.months == DiffMonths(today, yearAnchor) && monthAnchor == AddMonths(yearAnchor, a.months)
    requires a.days == DiffDays(today, monthAnchor)
    ensures Age(birth, today) == a
  {
  }

  /** A birth date equal to today gives zero years, months and days. */
  lemma AgeOfToday(d: Date)
    requires d.IsValid()
    ensures Age(d, d) == AgeResult(0, 0, 0)
  {
    AgeOnBirthday(d, 0);
    assert Date(d.year + 0, d.month, d.day) == d;
  }

  /**
   * On the `n`-th birthday (when that day exists in the year) the age is
   * whole years only.
   */
  lemma AgeOnBirthday(b: Date, n: int)
    requires b.IsValid() && n >= 0 && b.day <= DaysInMonth(b.year + n, b.month)
    ensures Age(b, Date(b.year + n, b.month, b.day)) == AgeResult(n, 0, 0)
  {
    var t := Date(b.year + n, b.month, b.day);
    AddYearsOverflow(b, n);
    AddZeroIsIdentity(t);
    AgeSteps(b, t, t, t, AgeResult(n, 0, 0));
  }

  /**
   * Born June 15, on June 10 of a later year: one year fewer, 11 months,
   * and the 26 days from May 15 to June 10.
   */
  lemma AgeBeforeBirthday(y: int, n: int)
    requires n >= 1
    ensures Age(Date(y, 6, 15), Date(y + n, 6, 10)) == AgeResult(n - 1, 11, 26)
  {
    var b, t := Date(y, 6, 15), Date(y + n, 6, 10);
    var ya, ma := Date(y + n - 1, 6, 15), Date(y + n, 5, 15);
    AddYearsOverflow(b, n - 1);
    AddMonthsOverflow(ya, 11);
    assert CarryMonth(y + n - 1, 5 + 11) == (y + n, 5);
    DiffDaysNextMonth(t, ma);
    AgeSteps(b, t, ya, ma, AgeResult(n - 1, 11, 26));
  }

  /**
   * A February 29 birth, on February 28 of a later leap year: `setFullYear`
   * into the common year before overflows to March 1, so the age is 11
   * months and 27 days past the previous whole year, not 11 months and 30 days.
   */
  lemma AgeLeapDayBirth(y: int, n: int)
    requires IsLeap(y) && IsLeap(y + n) && n >= 1
    ensures Age(Date(y, 2, 29), Date(y + n, 2, 28)) == AgeResult(n - 1, 11, 27)
  {
    var b, t := Date(y, 2, 29), Date(y + n, 2, 28);
    var ya, ma := Date(y + (n - 1), 3, 1), Date(y + n, 2, 1);
    assert !IsLeap(y + (n - 1));
    LeapDayIntoCommonYear(y, n - 1);
    AddMonthsOverflow(ya, 11);
    assert CarryMonth(y + (n - 1), 2 + 11) == (y + n, 2);
    DiffDaysSameMonth(t, ma);
    AgeSteps(b, t, ya, ma, AgeResult(n - 1, 11, 27));
  }

  /**
   * A January 31 birth, on March 1 of the same common year: `setMonth`
   * overflows February 31 to March 3, and the day count is negative.
   */
  lemma AgeNegativeDays(y: int)
    requires !IsLeap(y)
    ensures Age(Date(y, 1, 31), Date(y, 3, 1)) == AgeResult(0, 1, -2)
  {
    var b, t, ma := Date(y, 1, 31), Date(y, 3, 1), Date(y, 3, 3);
    AddZeroIsIdentity(b);
    JanuaryEndPlusMonth(y);
    DiffDaysSameMonth(t, ma);
    AgeSteps(b, t, b, ma, AgeResult(0, 1, -2));
  }

  /** Which message each rejecting path of `calculateAge` leaves. */
  lemma RejectionMessages(inputMethod: InputMethod, date: Option<Date>, day: Field, month: Field, year: Field,
                          today: Date)
    requires date.Some? ==> date.value.IsValid()
    requires today.IsValid()
    ensures var r := Evaluate(inputMethod, date, day, month, year, today);
            && (inputMethod == CalendarInput && date.None? ==> r == Failure(SelectDateError))
            && (inputMethod == ManualInput && (day.Blank? || month.Blank? || year.Blank?) ==>
                  r == Failure(MissingFieldsError))
            && ((inputMethod == ManualInput && !(day.Blank? || month.Blank? || year.Blank?)
                 && OutOfRange(day, MinusOne(month), year, today.year)) ==> r == Failure(InvalidDateError))
            && ((inputMethod == ManualInput && (day == NotANumber || month == NotANumber || year == NotANumber)
                 && !(day.Blank? || month.Blank? || year.Blank?)) ==> r == Failure(InvalidDateError))
            && (inputMethod == CalendarInput && date.Some? && Before(today, date.value) ==>
                  r == Failure(FutureDateError))
            && ((inputMethod == ManualInput && day.Number? && month.Number? && year.Number?
                 && 1900 <= year.n <= today.year && Date(year.n, month.n, day.n).IsValid()
                 && Before(today, Date(year.n, month.n, day.n))) ==> r == Failure(FutureDateError))
            && (inputMethod == CalendarInput && date.Some? && !Before(today, date.value) ==>
                  r == Success(Age(date.value, today)))
            && ((inputMethod == ManualInput && day.Number? && month.Number? && year.Number?
                 && 1900 <= year.n <= today.year && Date(year.n, month.n, day.n).IsValid()
                 && !Before(today, Date(year.n, month.n, day.n))) ==>
                  r == Success(Age(Date(year.n, month.n, day.n), today)))
            && (inputMethod == CalendarInput && date == Some(today) ==> r == Success(AgeResult(0, 0, 0)))
  {
    AgeOfToday(today);
  }

  /**
   * A manual day 30 or 31 of February, or February 29 of a common year, is
   * rejected even though each field is in range.
   */
  lemma ManualFebruaryRejected(day: int, year: int, today: Date)
    requires today.IsValid() && 1900 <= year <= today.year
    requires day == 30 || day == 31 || (day == 29 && !IsLeap(year))
    ensures Evaluate(ManualInput, None, Number(day), Number(2), Number(year), today) == Failure(InvalidDateError)
  {
  }

  /**
   * The arithmetic at the end of `calculateAge`, on two `Date` copies that
   * `setFullYear` and `setMonth` change in place.
   */
  method ComputeAge(birthDate: Date, today: Date) returns (age: AgeResult)
    requires birthDate.IsValid() && today.IsValid()
    ensures age == Age(birthDate, today)
  {
    var years := DiffYears(today, birthDate);
    var yearsPassed := ShiftYears(birthDate, years);
    var months := DiffMonths(today, yearsPassed);
    var monthsPassed := ShiftMonths(yearsPassed, months);
    var days := DiffDays(today, monthsPassed);
    age := AgeResult(years, months, days);
  }

  /** The page's component state; the setters are immediate field assignments. */
  class Index {
    var date: Option<Date>
    var ageResult: Option<AgeResult>
    var error: string
    var inputMethod: InputMethod
    var manualDay: Field
    var manualMonth: Field
    var manualYear: Field

    /** A selected date is a real calendar date. */
    ghost predicate Valid()
      reads this
    {
      date.Some? ==> date.value.IsValid()
    }

    /** The initial state of the seven `useState` hooks. */
    constructor ()
      ensures Valid()
      ensures date == None && ageResult == None && error == "" && inputMethod == CalendarInput
      ensures manualDay == Blank && manualMonth == Blank && manualYear == Blank
    {
      date := None;
      ageResult := None;
      error := "";
      inputMethod := CalendarInput;
      manualDay, manualMonth, manualYear := Blank, Blank, Blank;
    }

    /** The picker's `onSelect`: sets or clears the selected date and nothing else. */
    method SelectDate(d: Option<Date>)
      requires d.Some? ==> d.value.IsValid()
      modifies this
      ensures Valid()
      ensures date == d
      ensures ageResult == old(ageResult) && error == old(error) && inputMethod == old(inputMethod)
      ensures manualDay == old(manualDay) && manualMonth == old(manualMonth) && manualYear == old(manualYear)
    {
      date := d;
    }

    /**
     * `calculateAge`: clears the error and the result, then either sets the
     * message of the first failed check or sets the computed age.
     */
    method CalculateAge(today: Date)
      requires Valid() && today.IsValid()
      modifies this
      ensures Valid()
      ensures date == old(date) && inputMethod == old(inputMethod)
      ensures manualDay == old(manualDay) && manualMonth == old(manualMonth) && manualYear == old(manualYear)
      ensures var r := Evaluate(inputMethod, date, manualDay, manualMonth, manualYear, today);
              && ageResult == (if r.Success? then Some(r.value) else None)
              && error == (if r.Failure? then r.error else "")
    {
      error := "";
      ageResult := None;

      var birthDate: Date;
      if inputMethod == CalendarInput {
        if date.None? {
          error := SelectDateError;
          return;
        }
        birthDate := date.value;
      } else {
        if manualDay.Blank? || manualMonth.Blank? || manualYear.Blank? {
          error := MissingFieldsError;
          return;
        }
        var day, month0, year := manualDay, MinusOne(manualMonth), manualYear;
        if OutOfRange(day, month0, year, today.year) {
          error := InvalidDateError;
          return;
        }
        var built := ConstructDate(year, month0, day);
        if ReadBackDiffers(built, year, month0, day) {
          error := InvalidDateError;
          return;
        }
        birthDate := built.value;
      }

      if IsAfter(birthDate, today) {
        error := FutureDateError;
        return;
      }

      var age := ComputeAge(birthDate, today);
      ageResult := Some(age);
      assert birthDate == BirthDate(inputMethod, date, manualDay, manualMonth, manualYear, today.year).value;
    }

    /** `resetCalculator`: clears every field except the input method. */
    method Reset()
      modifies this
      ensures Valid()
      ensures date == None && ageResult == None && error == ""
      ensures manualDay == Blank && manualMonth == Blank && manualYear == Blank
      ensures inputMethod == old(inputMethod)
    {
      date := None;
      ageResult := None;
      error := "";
      manualDay := Blank;
      manualMonth := Blank;
      manualYear := Blank;
    }
  }
}
