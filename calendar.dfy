/** Gregorian calendar arithmetic as the calendar view relies on it. Months are
    numbered 0 (January) to 11 (December), the way JavaScript's Date numbers
    them, so that the model's month is the value `getMonth()` returns. */
module Calendar {

  datatype Option<T> = None | Some(value: T)

  /** The Gregorian leap-year rule (proleptic, for every integer year). */
  predicate IsLeapYear(year: int)
  {
    year % 4 == 0 && (year % 100 != 0 || year % 400 == 0)
  }

  /** The number of days of the year that precede the first day of `month`,
      taken from the month table of ECMAScript's MonthFromTime operation;
      MonthStart(12, leap) is the length of the year. */
  function MonthStart(month: int, leap: bool): (d: int)
    requires 0 <= month <= 12
    ensures 0 <= d <= 366
    ensures month == 12 ==> d == if leap then 366 else 365
  {
    var l := if leap then 1 else 0;
    if month == 0 then 0
    else if month == 1 then 31
    else if month == 2 then 59 + l
    else if month == 3 then 90 + l
    else if month == 4 then 120 + l
    else if month == 5 then 151 + l
    else if month == 6 then 181 + l
    else if month == 7 then 212 + l
    else if month == 8 then 243 + l
    else if month == 9 then 273 + l
    else if month == 10 then 304 + l
    else if month == 11 then 334 + l
    else 365 + l
  }

  /** Later months start later in the year. */
  lemma MonthStartIncreasing(i: int, j: int, leap: bool)
    requires 0 <= i < j <= 12
    ensures MonthStart(i, leap) + 28 <= MonthStart(j, leap)
  {
  }

  /** The Gregorian length of a month: the closed form the view's probing
      loop computes. */
  function DaysInMonth(year: int, month: int): (n: int)
    requires 0 <= month < 12
    ensures 28 <= n <= 31
    ensures n == MonthStart(month + 1, IsLeapYear(year)) - MonthStart(month, IsLeapYear(year))
  {
    if month == 1 then (if IsLeapYear(year) then 29 else 28)
    else if month == 3 || month == 5 || month == 8 || month == 10 then 30
    else 31
  }

  /** The month in which day `d` of the year falls (day 0 is January 1st), as
      ECMAScript's MonthFromTime finds it from its table. */
  function MonthOfDayInYear(d: int, leap: bool): (m: int)
    requires 0 <= d < MonthStart(12, leap)
    ensures 0 <= m < 12
    ensures MonthStart(m, leap) <= d < MonthStart(m + 1, leap)
  {
    if d < MonthStart(1, leap) then 0
    else if d < MonthStart(2, leap) then 1
    else if d < MonthStart(3, leap) then 2
    else if d < MonthStart(4, leap) then 3
    else if d < MonthStart(5, leap) then 4
    else if d < MonthStart(6, leap) then 5
    else if d < MonthStart(7, leap) then 6
    else if d < MonthStart(8, leap) then 7
    else if d < MonthStart(9, leap) then 8
    else if d < MonthStart(10, leap) then 9
    else if d < MonthStart(11, leap) then 10
    else 11
  }

  /** The day of the year lies in exactly one month. */
  lemma MonthOfDayInYearUnique(d: int, leap: bool, m: int)
    requires 0 <= m < 12
    requires MonthStart(m, leap) <= d < MonthStart(m + 1, leap)
    ensures MonthOfDayInYear(d, leap) == m
  {
  }

  /** The full year the Date constructor `new Date(year, month, day)` uses:
      ECMAScript reads a year from 0 to 99 as 1900 to 1999. The year it uses
      is never one of 0..99, and it is a leap year exactly when the given year
      is, except for year 0 (1900 is not a leap year, year 0 is). */
  function ConstructorYear(year: int): (y: int)
    ensures y < 0 || y > 99
    ensures year != 0 ==> IsLeapYear(y) == IsLeapYear(year)
    ensures MinYear < year < MaxYear ==> MinYear < y < MaxYear
  {
    if 0 <= year <= 99 then
      assert (1900 + year) % 4 == year % 4;
      assert (1900 + year) % 100 == year % 100;
      1900 + year
    else year
  }

  /** The day number of January 1st of `year`, counted from January 1st,
      1970 (ECMAScript's DayFromYear). */
  function DayFromYear(year: int): int
  {
    365 * (year - 1970) + (year - 1969) / 4 - (year - 1901) / 100 + (year - 1601) / 400
  }

  /** The day number of day `day` of month `month` (0-based) of `year`. */
  function DayNumber(year: int, month: int, day: int): int
    requires 0 <= month < 12 && 1 <= day <= 31
  {
    DayFromYear(year) + MonthStart(month, IsLeapYear(year)) + day - 1
  }

  /** DayFromYear advances by the length of each Gregorian year. */
  lemma DayFromYearStep(year: int)
    ensures DayFromYear(year + 1) == DayFromYear(year) + if IsLeapYear(year) then 366 else 365
  {
    LeapDaysStep4(year);
    LeapDaysStep100(year);
    LeapDaysStep400(year);
    MultiplesNest(year);
  }

  /** A multiple of 400 is a multiple of 100, and a multiple of 100 one of 4. */
  lemma MultiplesNest(year: int)
    ensures year % 400 == 0 ==> year % 100 == 0
    ensures year % 100 == 0 ==> year % 4 == 0
  {
  }

  // Each term of DayFromYear counts the multiples of 4, 100 or 400 passed
  // since an origin year; it steps up by one right after such a multiple.

  lemma LeapDaysStep4(year: int)
    ensures (year + 1 - 1969) / 4 == (year - 1969) / 4 + if year % 4 == 0 then 1 else 0
  {
  }

  lemma LeapDaysStep100(year: int)
    ensures (year + 1 - 1901) / 100 == (year - 1901) / 100 + if year % 100 == 0 then 1 else 0
  {
  }

  lemma LeapDaysStep400(year: int)
    ensures (year + 1 - 1601) / 400 == (year - 1601) / 400 + if year % 400 == 0 then 1 else 0
  {
  }

  /** A later year starts at least 365 days per year later. */
  lemma {:induction false} DayFromYearIncreasing(a: int, b: int)
    requires a <= b
    ensures DayFromYear(a) + 365 * (b - a) <= DayFromYear(b)
    decreases b - a
  {
    if a < b {
      DayFromYearStep(a);
      DayFromYearIncreasing(a + 1, b);
    }
  }

  /** The years a Date can hold: its time values reach 8.64e15 ms, that is
      100,000,000 days, on either side of 1970. */
  const MinYear: int := -271821
  const MaxYear: int := 275760
  const MaxDays: int := 100000000

  /** Whether the date that `new Date(year, month, day)` builds (midnight of
      that day, taken in UTC) survives ECMAScript's TimeClip; any other date is
      an Invalid Date. */
  predicate InTimeRange(year: int, month: int, day: int)
    requires 0 <= month < 12 && 1 <= day <= 31
  {
    -MaxDays <= DayNumber(ConstructorYear(year), month, day) <= MaxDays
  }

  /** The first and the last representable dates are April 20th, -271821 and
      September 13th, 275760. */
  lemma TimeRangeEdges()
    ensures InTimeRange(MinYear, 3, 20) && !InTimeRange(MinYear, 3, 19)
    ensures InTimeRange(MaxYear, 8, 13) && !InTimeRange(MaxYear, 8, 14)
  {
  }

  /** Every day of a month is representable when its first and last days are. */
  predicate MonthInTimeRange(year: int, month: int)
    requires 0 <= month < 12
  {
    InTimeRange(year, month, 1) && InTimeRange(year, month, DaysInMonth(ConstructorYear(year), month))
  }

  /** Every month of the years strictly inside the range, and of the first
      and last years the months after April and before September, lie wholly
      in the time range. */
  lemma MonthsInTimeRange(year: int, month: int)
    requires 0 <= month < 12
    requires || MinYear < year < MaxYear
             || (year == MinYear && month > 3)
             || (year == MaxYear && month < 8)
    ensures MonthInTimeRange(year, month)
  {
  }

  /** `new Date(year, month, day).getMonth()` for a month index 0..11 and a day
      1..31, with `None` for NaN, the month of an Invalid Date. Otherwise the
      day is placed in the year after the days of the months before it, and
      the month is read back from the month table; a day past the month's end
      therefore lands in the next month, and with at most 31 days it never
      leaves the year. */
  function GetMonth(year: int, month: int, day: int): (m: Option<int>)
    requires 0 <= month < 12 && 1 <= day <= 31
    ensures m.Some? <==> InTimeRange(year, month, day)
    ensures m == Some(month) <==> InTimeRange(year, month, day) && day <= DaysInMonth(ConstructorYear(year), month)
    ensures m.Some? && day > DaysInMonth(ConstructorYear(year), month) ==> m == Some(month + 1)
  {
    ProbeStaysInMonth(year, month, day);
    if InTimeRange(year, month, day) then Some(ProbeMonth(year, month, day)) else None
  }

  /** The month of the day-of-year the constructor computes. */
  function ProbeMonth(year: int, month: int, day: int): (m: int)
    requires 0 <= month < 12 && 1 <= day <= 31
    ensures 0 <= m < 12
  {
    var leap := IsLeapYear(ConstructorYear(year));
    MonthOfDayInYear(MonthStart(month, leap) + day - 1, leap)
  }

  /** The computed month is the given one exactly for the days 1..n of its
      Gregorian length n (for the year the constructor reads), and otherwise
      the month that follows. */
  lemma ProbeStaysInMonth(year: int, month: int, day: int)
    requires 0 <= month < 12 && 1 <= day <= 31
    ensures ProbeMonth(year, month, day) == month <==> day <= DaysInMonth(ConstructorYear(year), month)
    ensures day > DaysInMonth(ConstructorYear(year), month) ==> ProbeMonth(year, month, day) == month + 1
  {
  }

  /** The days of September 275760 that a Date can hold are the 1st to the
      13th; those of April -271821 are the 20th and later. */
  lemma EdgeMonthDays(day: int)
    requires 1 <= day <= 31
    ensures InTimeRange(MaxYear, 8, day) <==> day <= 13
    ensures InTimeRange(MinYear, 3, day) <==> day >= 20
  {
  }

  /** No day of January to March -271821 nor of October to December 275760
      is a valid Date: their first days already lie outside the range. */
  lemma OutsideMonths(month: int)
    requires 0 <= month < 12
    ensures month < 3 ==> !InTimeRange(MinYear, month, 1)
    ensures month > 8 ==> !InTimeRange(MaxYear, month, 1)
  {
  }

  /** The facts a loop has established when it has probed days 1, 2, ...,
      found the first `n` of them in `month`, and stopped at day n + 1 because
      its month is not `month` (or is NaN), or after day 31. */
  predicate StoppedAfter(year: int, month: int, n: int)
    requires 0 <= month < 12
  {
    && 0 <= n <= 31
    && (forall d :: 1 <= d <= n ==> GetMonth(year, month, d) == Some(month))
    && (n < 31 ==> GetMonth(year, month, n + 1) != Some(month))
  }

  /** Such a loop has visited all of a month that is wholly representable,
      which every month of the years strictly inside the range is. */
  lemma {:induction false} StoppedAfterWholeMonth(year: int, month: int, n: int)
    requires 0 <= month < 12 && StoppedAfter(year, month, n)
    ensures n <= DaysInMonth(ConstructorYear(year), month)
    ensures MonthInTimeRange(year, month) ==> n == DaysInMonth(ConstructorYear(year), month)
  {
    var len := DaysInMonth(ConstructorYear(year), month);
    if n > 0 {
      assert GetMonth(year, month, n) == Some(month);
    }
    if MonthInTimeRange(year, month) && n < len {
      assert InTimeRange(year, month, n + 1);
    }
  }

  /** Such a loop visits 13 days of September 275760, and no day of the
      months up to April -271821 nor of those after September 275760, whose
      first days are Invalid Dates. */
  lemma {:induction false} StoppedAfterEdgeMonth(year: int, month: int, n: int)
    requires 0 <= month < 12 && StoppedAfter(year, month, n)
    ensures year == MaxYear && month == 8 ==> n == 13
    ensures year == MinYear && month <= 3 ==> n == 0
    ensures year == MaxYear && month > 8 ==> n == 0
  {
    if year == MaxYear && month == 8 {
      if n > 0 {
        assert GetMonth(year, month, n) == Some(month);
        EdgeMonthDays(n);
      }
      if n < 31 {
        EdgeMonthDays(n + 1);
      }
    } else if (year == MinYear && month <= 3) || (year == MaxYear && month > 8) {
      if n > 0 {
        assert GetMonth(year, month, 1) == Some(month);
        EdgeMonthDays(1);
        OutsideMonths(month);
      }
    }
  }

  /** What the probe finds for each of the days 1..31: entry d - 1 says
      whether day d is in `month`. */
  function Probes(year: int, month: int): (found: seq<bool>)
    requires 0 <= month < 12
    ensures |found| == 31
  {
    seq(31, i requires 0 <= i < 31 => GetMonth(year, month, i + 1) == Some(month))
  }

  /** Entry day - 1 of the probe results is the probe of day `day`. */
  lemma ProbesAt(year: int, month: int, day: int)
    requires 0 <= month < 12 && 1 <= day <= 31
    ensures Probes(year, month)[day - 1] <==> GetMonth(year, month, day) == Some(month)
  {
  }

  /** The last day of the run of days found in the month from day `day` on:
      days `day`, `day` + 1, ... are probed until one is not found, or day 31
      has been probed. */
  function RunEnd(found: seq<bool>, day: int): (n: int)
    requires |found| == 31 && 1 <= day <= 32
    ensures day - 1 <= n <= 31
    decreases 32 - day
  {
    if day == 32 || !found[day - 1] then day - 1 else RunEnd(found, day + 1)
  }

  /** When all days before `day` were found, every day up to the end of the
      run was found, and the day after it (if there is one) was not. */
  lemma {:induction false} RunEndStops(found: seq<bool>, day: int)
    requires |found| == 31 && 1 <= day <= 32
    requires forall i :: 0 <= i < day - 1 ==> found[i]
    ensures forall i :: 0 <= i < RunEnd(found, day) ==> found[i]
    ensures RunEnd(found, day) < 31 ==> !found[RunEnd(found, day)]
    decreases 32 - day
  {
    if day < 32 && found[day - 1] {
      RunEndStops(found, day + 1);
    }
  }

  /** The number of days the day loop of the view visits: days 1 to n. */
  function VisitedDays(year: int, month: int): (n: int)
    requires 0 <= month < 12
    ensures 0 <= n <= 31
  {
    RunEnd(Probes(year, month), 1)
  }

  /** Those are the days the probe finds in the month, in a row from day 1,
      and the day after them (if there is one before day 32) is not. */
  lemma VisitedDaysStop(year: int, month: int)
    requires 0 <= month < 12
    ensures StoppedAfter(year, month, VisitedDays(year, month))
  {
    var found := Probes(year, month);
    RunEndStops(found, 1);
    var n := VisitedDays(year, month);
    forall d | 1 <= d <= n
      ensures GetMonth(year, month, d) == Some(month)
    {
      ProbesAt(year, month, d);
    }
    if n < 31 {
      ProbesAt(year, month, n + 1);
    }
  }

  /** For every year a Date can hold the loop visits at most the month: all
      of a month strictly inside the range (28 to 31 days, the Gregorian
      length of the displayed month except for February of year 0), 13 days
      of September 275760 and none of April -271821. */
  lemma VisitedDaysLength(year: int, month: int)
    requires MinYear <= year <= MaxYear
    requires 0 <= month < 12
    ensures VisitedDays(year, month) <= DaysInMonth(ConstructorYear(year), month)
    ensures MonthInTimeRange(year, month) ==> VisitedDays(year, month) == DaysInMonth(ConstructorYear(year), month)
    ensures MinYear < year < MaxYear ==> 28 <= VisitedDays(year, month) <= 31 && VisitedDays(year, month) == DaysInMonth(ConstructorYear(year), month)
    ensures MinYear < year < MaxYear && (year != 0 || month != 1) ==> VisitedDays(year, month) == DaysInMonth(year, month)
    ensures year == MaxYear && month == 8 ==> VisitedDays(year, month) == 13
    ensures year == MinYear && month <= 3 ==> VisitedDays(year, month) == 0
    ensures year == MaxYear && month > 8 ==> VisitedDays(year, month) == 0
  {
    var n := VisitedDays(year, month);
    VisitedDaysStop(year, month);
    StoppedAfterWholeMonth(year, month, n);
    StoppedAfterEdgeMonth(year, month, n);
    if MinYear < year < MaxYear {
      MonthsInTimeRange(year, month);
    }
    if year != 0 || month != 1 {
      ConstructorYearMonthLength(year, month);
    }
  }

  /** So the probing loop agrees with the Gregorian month length of the
      displayed year, except for February of year 0. */
  lemma ConstructorYearMonthLength(year: int, month: int)
    requires 0 <= month < 12
    requires year != 0 || month != 1
    ensures DaysInMonth(ConstructorYear(year), month) == DaysInMonth(year, month)
  {
  }

  /** February of year 0: the probe reads the year as 1900 and stops after 28
      days, while the Gregorian year 0 has a 29-day February. */
  lemma YearZeroFebruary()
    ensures DaysInMonth(ConstructorYear(0), 1) == 28
    ensures DaysInMonth(0, 1) == 29
  {
  }

  /** The days of the year before `month`, summed month by month. */
  function DaysBeforeMonth(year: int, month: int): (n: int)
    requires 0 <= month <= 12
    decreases month
  {
    if month == 0 then 0 else DaysBeforeMonth(year, month - 1) + DaysInMonth(year, month - 1)
  }

  /** The month lengths add up to the month table, and so a year has 365
      days, or 366 in a leap year. */
  lemma {:induction false} DaysBeforeMonthIsMonthStart(year: int, month: int)
    requires 0 <= month <= 12
    ensures DaysBeforeMonth(year, month) == MonthStart(month, IsLeapYear(year))
    ensures month == 12 ==> DaysBeforeMonth(year, month) == if IsLeapYear(year) then 366 else 365
  {
    if month > 0 {
      DaysBeforeMonthIsMonthStart(year, month - 1);
    }
  }
}
