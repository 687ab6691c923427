/**
 * The static calendar helpers of the date type: `Date.isLeapYear`,
 * `Date.daysInMonth` and the fixed part of `Date.units`.
 */
module CalendarRules {
  import opened Errors
  import opened Calendar

  /** The host's date constructor reads a year argument 0..99 as 1900 plus it. */
  function HostYear(y: int): int
  {
    if 0 <= y <= 99 then 1900 + y else y
  }

  /**
   * `Date.isLeapYear(year)`: builds February 29th of the year with the
   * host's constructor and asks whether the day of the month is still 29.
   */
  predicate IsLeapYear(year: int)
  {
    DateFromDay(MakeDay(HostYear(year), 1, 29)) == 29
  }

  /** The read-back is the Gregorian rule, applied to the year the host constructor uses. */
  lemma IsLeapYearRule(year: int)
    ensures IsLeapYear(year) <==> IsGregorianLeap(HostYear(year))
  {
    var hy := HostYear(year);
    if IsGregorianLeap(hy) {
      CivilOfMakeDay(hy, 1, 29);
    } else {
      assert MakeDay(hy, 1, 29) == MakeDay(hy, 2, 1);
      CivilOfMakeDay(hy, 2, 1);
    }
  }

  /** For every year but 0 that is the rule "divisible by 4 and not by 100, or by 400". */
  lemma IsLeapYearGregorian(year: int)
    requires year != 0
    ensures IsLeapYear(year) <==> (year % 4 == 0 && year % 100 != 0) || year % 400 == 0
  {
    IsLeapYearRule(year);
    assert IsGregorianLeap(HostYear(year)) <==> IsGregorianLeap(year) by {
      if 1 <= year <= 99 {
        HundredsShift(year);
      }
    }
  }

  lemma HundredsShift(year: int)
    requires 1 <= year <= 99
    ensures IsGregorianLeap(1900 + year) <==> year % 4 == 0
    ensures IsGregorianLeap(year) <==> year % 4 == 0
  {
    assert (1900 + year) % 100 == year;
    assert (1900 + year) % 4 == year % 4;
  }

  /** The source's leap years are Gregorian leap years (year 0 is the one it misses). */
  lemma IsLeapYearImpliesGregorian(year: int)
    ensures IsLeapYear(year) ==> IsGregorianLeap(year)
    ensures year != 0 ==> (IsLeapYear(year) <==> IsGregorianLeap(year))
  {
    IsLeapYearRule(year);
    if year != 0 {
      IsLeapYearGregorian(year);
    }
  }

  /**
   * Year 0 is the one exception: the constructor reads it as 1900, so
   * isLeapYear(0) is false, though year 0 is a leap year of the proleptic
   * Gregorian calendar.
   */
  lemma LeapYearZero(year: int)
    ensures IsLeapYear(year) != IsGregorianLeap(year) <==> year == 0
  {
    IsLeapYearImpliesGregorian(year);
    IsLeapYearRule(year);
    if year == 0 {
      assert HostYear(year) == 1900;
    }
  }

  /** `Date.daysInMonth(month, year)`: the fixed table, February from isLeapYear; undefined off the table. */
  function DaysInMonth(month: int, year: int): Option<int>
  {
    if 0 <= month < 12 then
      Some([31, if IsLeapYear(year) then 29 else 28, 31, 30, 31, 30, 31, 31, 30, 31, 30, 31][month])
    else None
  }

  lemma DaysInMonthTable(month: int, year: int)
    ensures 0 <= month < 12 <==> DaysInMonth(month, year).Some?
    ensures 0 <= month < 12 ==> DaysInMonth(month, year) == Some(MonthLength(month, IsLeapYear(year)))
    ensures 0 <= month < 12 ==> 28 <= DaysInMonth(month, year).value <= 31
    ensures month == 1 ==> (DaysInMonth(month, year) == Some(29) <==> IsLeapYear(year))
  {
  }

  /** A month length from the table never exceeds the real length of that month. */
  lemma DaysInMonthFits(month: int, year: int)
    requires 0 <= month < 12
    ensures 1 <= MonthLength(month, IsLeapYear(year)) <= MonthLength(month, IsGregorianLeap(year))
  {
    IsLeapYearImpliesGregorian(year);
  }

  /**
   * The constant entries of `Date.units`, in milliseconds; `week` is
   * 608400000 as written.  The `month` and `year` entries depend on the
   * current date and are not part of this function.
   */
  function UnitMs(name: string): Option<int>
  {
    if name == "ms" then Some(1)
    else if name == "second" then Some(MsPerSecond)
    else if name == "minute" then Some(MsPerMinute)
    else if name == "hour" then Some(MsPerHour)
    else if name == "day" then Some(MsPerDay)
    else if name == "week" then Some(608400000)
    else None
  }

  lemma UnitMsPositive(name: string)
    ensures UnitMs(name).Some? ==> UnitMs(name).value >= 1
    ensures UnitMs(name).Some? <==> name in {"ms", "second", "minute", "hour", "day", "week"}
  {
  }
}
