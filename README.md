# Age calculator: a verified model

This project models the age calculator page (`Index`). The page takes a
birth date picked in a calendar (it also has a manual day, month and year
branch that its UI never enables). It validates the date and shows the age in years, months and days:

- the number of full years;
- the full months since the last anniversary, which is the birth date moved
  forward by those years with `setFullYear`;
- the days since the month anchor, which is that anniversary moved forward
  by those months with `setMonth`.

A reset button clears the form.

The model has four modules:

- `Calendar` (calendar.dfy): Gregorian dates at day resolution and the
  JavaScript `Date` arithmetic the page relies on. This is ECMAScript's
  MakeDay (ECMA-262, section 21.4.1). A month outside 0..11 carries into the
  year. A day outside the month carries into the following or preceding
  months; it is never clamped. `JsDate` is a `Date` object whose setters
  change it in place.
- `DateFns` (date_fns.dfy): `isAfter`, `differenceInYears`,
  `differenceInMonths` and `differenceInDays` from date-fns. Each is
  specified by its documented meaning: signed full years, full months and
  days.
- `AgeCalculator` (age_calculator.dfy): the component's state as the class
  `Index`, with `calculateAge` as `CalculateAge` and `resetCalculator` as
  `Reset`. It also holds the pure functions that specify them:
  `ManualBirthDate`, `BirthDate`, `Age` and `Evaluate`.
- `Wrappers` (wrappers.dfy): `Option` and `Result`.

Consequences of the overflow arithmetic, with `differenceInMonths` counted
by day of month as modelled here (date-fns' own end-of-month rules are not
modelled; see "## Left out"):

- A February 29 birth moves to March 1 in a common year. For a birth on
  February 29, the age on February 28 of a later leap year is one year fewer,
  11 months and 27 days (so 23 years, 11 months and 27 days from 2000-02-29
  to 2024-02-28).
- `days` is not always non-negative. For a birth on January 31, the age on
  March 1 of the same common year is 0 years, 1 month and -2 days. The
  month anchor, February 31, overflows to March 3. For the modelled month
  count, `days` lies in -2..30 and `months` in 0..11.

The page as written never calls `setInputMethod` and renders no manual input
fields. So the manual branch of `calculateAge` cannot be reached from the UI.
The model still covers it in full.

## Model

| member | source | states |
|---|---|---|
| `Calendar.DaysInMonth` | client/pages/Index.tsx:56-62 | a month has 28 to 31 days; February has 29 exactly in a Gregorian leap year |
| `Calendar.CarryMonth` | client/pages/Index.tsx:56 | MakeDay's month carry gives a month in 1..12 and keeps the month count: carried year * 12 + month - 1 equals year * 12 + the 0-based month |
| `Calendar.CarryDays` | client/pages/Index.tsx:56 | carrying an out-of-range day into neighbouring months always yields a real date |
| `Calendar.CarryDaysKeepsDayNumber` | client/pages/Index.tsx:56 | carrying days between months keeps the day number, so normalisation overflows instead of clamping |
| `Calendar.MakeDayDayNumber` | client/pages/Index.tsx:56 | the normalised date's day number is MakeDay's count, with the month carried into the year |
| `Calendar.MakeDayOfValid` | client/pages/Index.tsx:56 | building a `Date` from a real date gives that date |
| `Calendar.MakeDay` | client/pages/Index.tsx:56 | `new Date(y, m0, d)` for any integers always names a real date |
| `Calendar.ReadBackIffValid` | client/pages/Index.tsx:56-62 | a `Date` built from day, month and year reads the same three back exactly when they name a real Gregorian date (Feb 30, or Feb 29 in a common year, read back differently) |
| `Calendar.BeforeIffDayNumberLess` | client/pages/Index.tsx:67 | on real dates, field-by-field chronological order equals time-value order, and equal day numbers mean equal dates |
| `Calendar.BeforeDayNumberLess` | client/pages/Index.tsx:67 | a real date chronologically before another has the smaller day number |
| `Calendar.WithYear` | client/pages/Index.tsx:77 | `setFullYear` on a real date always leaves a real date |
| `Calendar.WithMonth` | client/pages/Index.tsx:82 | `setMonth` on a real date always leaves a real date, for any month index |
| `Calendar.AddZeroIsIdentity` | client/pages/Index.tsx:76-83 | shifting a real date by zero years, months or days leaves it unchanged |
| `Calendar.AddYearsOverflow` | client/pages/Index.tsx:76-77 | `setFullYear(getFullYear() + k)` keeps month and day when the day exists in the target year; otherwise the date is Feb 29 and becomes Mar 1 |
| `Calendar.CarryShort` | client/pages/Index.tsx:82 | a day of month in 1..31 either fits its month or spills into the next month with the month's length subtracted |
| `Calendar.AddMonthsOverflow` | client/pages/Index.tsx:81-82 | `setMonth(getMonth() + k)` keeps the day when it exists in the carried target month; otherwise the excess days spill into the month after it |
| `Calendar.LeapDayIntoCommonYear` | client/pages/Index.tsx:76-77 | Feb 29 moved by whole years into a common year is Mar 1 of that year |
| `Calendar.JanuaryEndPlusMonth` | client/pages/Index.tsx:81-82 | Jan 31 plus one month is Mar 3, or Mar 2 in a leap year |
| `Calendar.AddYears` | client/pages/Index.tsx:77 | the year anchor `setFullYear(getFullYear() + k)` is always a real date; its exact value is `AddYearsOverflow` |
| `Calendar.AddMonths` | client/pages/Index.tsx:82 | the month anchor `setMonth(getMonth() + k)` is always a real date; its exact value is `AddMonthsOverflow` |
| `Calendar.AddDays` | client/pages/Index.tsx:83 | the date `k` days after a real date is a real date; its day number is `AddDaysDayNumber` |
| `Calendar.AddDaysDayNumber` | client/pages/Index.tsx:83 | moving a date by `k` days moves its day number by exactly `k` |
| `Calendar.JsDate.Copy` | client/pages/Index.tsx:76 | `new Date(d)` is a copy of `d` |
| `Calendar.JsDate.GetFullYear` | client/pages/Index.tsx:77 | `getFullYear()`: the year of the held date |
| `Calendar.JsDate.GetMonth` | client/pages/Index.tsx:82 | the 0-based month of a real date lies in 0..11 |
| `Calendar.JsDate.SetFullYear` | client/pages/Index.tsx:77 | sets the year in place, keeping month and day, normalised by MakeDay; the object still holds a real date |
| `Calendar.JsDate.SetMonth` | client/pages/Index.tsx:82 | sets the month in place, keeping year and day, normalised by MakeDay; the object still holds a real date |
| `Calendar.ShiftYears` | client/pages/Index.tsx:76-77 | copying the birth date and calling `setFullYear(getFullYear() + k)` on the copy gives `AddYears(b, k)` |
| `Calendar.ShiftMonths` | client/pages/Index.tsx:81-82 | copying the year anchor and calling `setMonth(getMonth() + k)` on the copy gives `AddMonths(b, k)` |
| `DateFns.IsAfter` | client/pages/Index.tsx:67 | `isAfter(a, b)` holds exactly when `b` comes strictly before `a` |
| `DateFns.DiffYears` | client/pages/Index.tsx:73 | `differenceInYears(l, r)` is non-negative when `l` is not before `r` and non-positive when it is |
| `DateFns.DiffMonths` | client/pages/Index.tsx:78 | `differenceInMonths(l, r)` is non-negative when `l` is not before `r` and non-positive when it is |
| `DateFns.DiffDays` | client/pages/Index.tsx:83 | `differenceInDays(l, r)` is the signed count of days from `r` to `l`; `AddDiffDays` proves it the inverse of the day shift |
| `DateFns.DiffYearsIsFullYears` | client/pages/Index.tsx:73 | `differenceInYears(today, birth)` is the largest `k >= 0` whose `k`-th anniversary is not after today |
| `DateFns.DiffMonthsIsFullMonths` | client/pages/Index.tsx:78 | `differenceInMonths(today, a)` is the largest `k >= 0` such that the same day `k` months after `a` is not after today |
| `DateFns.DiffDaysSameMonth` | client/pages/Index.tsx:83 | within one month the day difference is the difference of the days of month |
| `DateFns.DiffDaysNextMonth` | client/pages/Index.tsx:83 | from a day of one month to a day of the next, the day difference adds the first month's length |
| `DateFns.AddDiffDays` | client/pages/Index.tsx:83 | adding `differenceInDays(l, r)` days to `r` gives exactly `l` |
| `AgeCalculator.MinusOne` | client/pages/Index.tsx:48 | `parseInt(month) - 1` is a number exactly when the field parsed to one, one less than it |
| `AgeCalculator.ErrorsDistinctAndNonEmpty` | client/pages/Index.tsx:28-70 | the four messages are pairwise distinct and non-empty, so every rejecting path leaves a non-empty error |
| `AgeCalculator.Less` | client/pages/Index.tsx:51 | JavaScript's `f < k` on a parsed field: false when the field is NaN |
| `AgeCalculator.Greater` | client/pages/Index.tsx:51 | JavaScript's `f > k` on a parsed field: false when the field is NaN |
| `AgeCalculator.ConstructDate` | client/pages/Index.tsx:56 | `new Date(year, month, day)` is valid exactly when no argument is NaN, and is then a real date |
| `AgeCalculator.OutOfRange` | client/pages/Index.tsx:51-54 | the range check on day 1..31, 0-based month 0..11 and year 1900..current year; a NaN field passes it |
| `AgeCalculator.ReadBackDiffers` | client/pages/Index.tsx:59-62 | an Invalid Date always fails the read-back; otherwise the read-back passes exactly when the built date is the typed day, month and year |
| `AgeCalculator.ReadBack` | client/pages/Index.tsx:56-62 | once the month is in range, the read-back check passes exactly when all three fields are numbers naming a real date, and the built date is then that date |
| `AgeCalculator.ManualBirthDate` | client/pages/Index.tsx:42-62 | manual input is accepted exactly when all three fields parse and the year lies in 1900..current year and the triple is a real date; a blank field gives the "enter day, month, and year" message and any other rejection the "valid date" message |
| `AgeCalculator.BirthDate` | client/pages/Index.tsx:34-63 | in calendar mode the birth date is the selected date, or "select your date of birth" when none is selected; in manual mode it is `ManualBirthDate`'s outcome; a birth date obtained is a real date, and a rejection carries one of the three input messages, never the future-date one |
| `AgeCalculator.Evaluate` | client/pages/Index.tsx:28-85 | a call fails with one of the four messages, or succeeds exactly when a birth date is obtained that is not after today; a failure to obtain the birth date passes its message on unchanged, and a birth date after today, in either input mode, fails with the future-date message; on success the value is exactly `Age(birth date, today)`, so `years >= 0`, `months` in 0..11 (for the modelled `differenceInMonths`) and years, then months, then days re-added to the birth date give today |
| `AgeCalculator.Age` | client/pages/Index.tsx:72-85 | the age arithmetic: full years, full months from the year anchor, days from the month anchor; its properties are `AgeCorrect` |
| `AgeCalculator.AgeCorrect` | client/pages/Index.tsx:72-85 | for a birth date not after today: `years >= 0`; the year anchor is not after today; the next anniversary is after today; `months` in 0..11; the month anchor plus `days` days is exactly today; `days` in -2..30 (the month bounds hold for the modelled `differenceInMonths`) |
| `AgeCalculator.YearAnchor` | client/pages/Index.tsx:73-77 | the year anchor is not after today, while the next anniversary and the same month and day one year after the anchor are |
| `AgeCalculator.MonthsWithinYear` | client/pages/Index.tsx:76-78 | less than a year after the year anchor, the full months from it lie in 0..11 |
| `AgeCalculator.MonthTarget` | client/pages/Index.tsx:78-82 | the month `setMonth` aims at is today's month when today's day of month has reached the anchor's, otherwise the month before today's |
| `AgeCalculator.AnchorInPreviousMonth` | client/pages/Index.tsx:81-83 | an anchor day in the month before today's, or its overflow into today's month, lies the previous month's length plus today's day minus the anchor day before today |
| `AgeCalculator.MonthAnchorDays` | client/pages/Index.tsx:78-83 | for the modelled month count, the month anchor lies at most 30 days before and at most 2 days after today |
| `AgeCalculator.AgeOfToday` | client/pages/Index.tsx:65-85 | a birth date equal to today gives 0 years, 0 months, 0 days |
| `AgeCalculator.AgeOnBirthday` | client/pages/Index.tsx:72-85 | on the `n`-th birthday, when that day exists in the year, the age is `n` years, 0 months, 0 days |
| `AgeCalculator.AgeBeforeBirthday` | client/pages/Index.tsx:72-85 | born June 15, on June 10 `n >= 1` years later: `n - 1` years, 11 months, 26 days |
| `AgeCalculator.AgeLeapDayBirth` | client/pages/Index.tsx:76-83 | born Feb 29, on Feb 28 of a leap year `n >= 1` years later: `n - 1` years, 11 months, 27 days, because the anniversary in the common year before overflows to Mar 1 |
| `AgeCalculator.AgeNegativeDays` | client/pages/Index.tsx:81-83 | born Jan 31 of a common year, on Mar 1 of that year: 0 years, 1 month, -2 days |
| `AgeCalculator.RejectionMessages` | client/pages/Index.tsx:34-70 | which message each rejecting path leaves: no selected date, a blank field, a value out of range, a NaN field, a future date picked in the calendar or typed in by hand; a selected or typed date not after today gives `Age` of it, and a selected date equal to today gives {0, 0, 0} |
| `AgeCalculator.ManualFebruaryRejected` | client/pages/Index.tsx:56-62 | manual Feb 30, Feb 31, and Feb 29 of a common year are rejected as invalid dates |
| `AgeCalculator.ComputeAge` | client/pages/Index.tsx:72-85 | the arithmetic on two in-place-mutated `Date` copies computes `Age` |
| `AgeCalculator.Index.constructor` | client/pages/Index.tsx:20-26 | initial state: no date, no result, empty error, calendar mode, blank manual fields |
| `AgeCalculator.Index.SelectDate` | client/pages/Index.tsx:139 | the picker's `onSelect` sets the selected date and nothing else |
| `AgeCalculator.Index.CalculateAge` | client/pages/Index.tsx:28-86 | clears error and result, then leaves exactly the outcome of `Evaluate`: the age and an empty error, or no result and the failing message; the inputs are unchanged |
| `AgeCalculator.Index.Reset` | client/pages/Index.tsx:88-95 | clears the date, result, error and all three manual fields and leaves the input method unchanged |

## Left out

- Rendering, layout, styling, icons and the year/month/day pluralisation (client/pages/Index.tsx:97-217): presentation only.
- The calendar picker widget and its `disabled` predicate (client/pages/Index.tsx:135-145): third-party UI. The selected date is set from outside through `SelectDate` and is assumed to be a real date.
- `format(...)` display strings (client/pages/Index.tsx:132, 190): locale formatting inside date-fns.
- Reading the clock with `new Date()`: the clock is the `today` parameter, and its year is the current year. The source reads the clock twice (lines 51 and 65); the model uses one reading for both.
- Time of day, time zones, daylight saving and `startOfDay`: dates are (year, month, day) at midnight.
- The parsing done by `parseInt` (client/pages/Index.tsx:47-49): a manual field is modelled by its outcome. That outcome is blank (the empty string), NaN, or an integer.
- The ECMAScript time-value range (about ±273,790 years), beyond which a `Date` is invalid. The model's dates are unbounded integers.
- The mapping of years 0..99 to 1900..1999 in `new Date(year, month, day)`: the range check before it admits only years from 1900.
- React's asynchronous state updates and re-rendering: the setters are immediate field assignments.
- Zodiac-sign classification: there is no zodiac code in this page.
- DateFns.DiffMonths: date-fns' `differenceInMonths` has special cases when the later date is late in February or on the last day of its month. The model counts full months by day of month only. For example, January 31 to February 28 is 0 full months here.
- DateFns.DiffYears: `differenceInYears` is modelled by its documented full-year count, not by the library's own code.
- AgeCalculator.AgeCorrect: `months` in 0..11 and `days` in -2..30 are proved for the modelled `differenceInMonths`. With date-fns' end-of-month rule the page can show other values: a birth on January 31 measured on February 28 of the same common year counts one full month there, so the page shows 0 years, 1 month and -3 days where the model gives 0 years, 0 months and 28 days.
- AgeCalculator.MonthAnchorDays: the bound -2..30 on the days from the month anchor holds for the modelled month count only, for the reason given for `AgeCorrect`.
- AgeCalculator.Evaluate: the `months` range on success holds for the modelled `differenceInMonths` only, for the reason given for `AgeCorrect`.
