/**
 * Calendar arithmetic on an instant: `increment`/`decrement` by a named
 * interval, `clearTime`, and `diff` at a resolution, each written as a
 * function of the instant and the fixed local offset `tz`.  The class
 * in dates.dfy performs the same steps on a date object.
 */
module Arithmetic {
  import opened Errors
  import opened Calendar
  import opened CalendarRules
  import opened Fields

  /** `interval || 'day'`: a missing or empty interval means days. */
  function IntervalOrDay(interval: string): string
  {
    if interval == "" then "day" else interval
  }

  /** `$pick(times, 1)`: a missing count means one. */
  function TimesOrOne(times: Option<int>): int
  {
    times.GetOr(1)
  }

  /**
   * `increment('month', k)`: remember the date, go to the 1st, move the
   * month index by k (carrying into the year), then put back the date,
   * clamped to the length of the new month.
   */
  function MonthsLater(t: int, tz: int, k: int): int
  {
    SetDate(FirstOfMonthLater(t, tz, k), tz, Min(DateAt(t, tz), DaysInMonthAt(FirstOfMonthLater(t, tz, k), tz)))
  }

  /** The three setter calls of the month branch, taken one at a time, reach MonthsLater. */
  lemma MonthsLaterBySteps(t: int, tz: int, k: int, t1: int, m: int, t2: int, last: int, r: int)
    requires t1 == SetDate(t, tz, 1) && m == MonthAt(t1, tz) + k && t2 == SetMonth(t1, tz, m)
    requires last == Min(DateAt(t, tz), DaysInMonthAt(t2, tz)) && r == SetDate(t2, tz, last)
    ensures r == MonthsLater(t, tz, k)
  {
    FirstOfMonthBySteps(t, tz, k, t1, m, t2);
    MonthsLaterFrom(t, tz, k, t2, last, r);
  }

  lemma FirstOfMonthBySteps(t: int, tz: int, k: int, t1: int, m: int, t2: int)
    requires t1 == SetDate(t, tz, 1) && m == MonthAt(t1, tz) + k && t2 == SetMonth(t1, tz, m)
    ensures t2 == FirstOfMonthLater(t, tz, k)
  {
  }

  lemma MonthsLaterFrom(t: int, tz: int, k: int, t2: int, last: int, r: int)
    requires t2 == FirstOfMonthLater(t, tz, k)
    requires last == Min(DateAt(t, tz), DaysInMonthAt(t2, tz)) && r == SetDate(t2, tz, last)
    ensures r == MonthsLater(t, tz, k)
  {
  }

  /** The first two steps: setDate(1), then setMonth(getMonth() + k). */
  function FirstOfMonthLater(t: int, tz: int, k: int): int
  {
    SetMonth(SetDate(t, tz, 1), tz, MonthAt(SetDate(t, tz, 1), tz) + k)
  }

  function Min(a: int, b: int): int
  {
    if a <= b then a else b
  }

  /** `increment('day', k)`: set the date to the current date plus k. */
  function DaysLater(t: int, tz: int, k: int): int
  {
    SetDate(t, tz, DateAt(t, tz) + k)
  }

  /** `increment(interval, times)` on an instant, when interval and times are already defaulted. */
  function IncrementBy(t: int, tz: int, interval: string, times: int): Result<int>
    decreases if interval == "year" || interval == "week" then 1 else 0
  {
    if interval == "year" then IncrementBy(t, tz, "month", times * 12)
    else if interval == "month" then Ok(MonthsLater(t, tz, times))
    else if interval == "week" then IncrementBy(t, tz, "day", times * 7)
    else if interval == "day" then Ok(DaysLater(t, tz, times))
    else if UnitMs(interval).None? then Err(UnsupportedInterval(interval))
    else Ok(t + times * UnitMs(interval).value)
  }

  /** `increment(interval, times)`; the empty interval stands for a missing one. */
  function Increment(t: int, tz: int, interval: string, times: Option<int>): Result<int>
  {
    IncrementBy(t, tz, IntervalOrDay(interval), TimesOrOne(times))
  }

  /** `decrement(interval, times)`: increment by minus the (defaulted) count. */
  function Decrement(t: int, tz: int, interval: string, times: Option<int>): Result<int>
  {
    Increment(t, tz, interval, Some(-1 * TimesOrOne(times)))
  }

  /**
   * The outcome of a chain of setter calls that may stop at a throwing
   * setter: the instant reached, and the error that stopped the chain.
   */
  datatype Outcome = Outcome(time: int, error: Option<Error>)

  /** `set({p1: v1, p2: v2, ...})`: the setters of the entries in order, stopping at the first error. */
  function SetAll(t: int, tz: int, entries: seq<(string, Value)>): Outcome
    decreases |entries|
  {
    if entries == [] then Outcome(t, None)
    else match Fields.Set(t, tz, entries[0].0, entries[0].1)
      case Err(e) => Outcome(t, Some(e))
      case Ok(t') => SetAll(t', tz, entries[1..])
  }

  /** The object literal `{hr: 0, min: 0, sec: 0, ms: 0}` of clearTime, in its key order. */
  const Midnight: seq<(string, Value)> := [("hr", Num(0)), ("min", Num(0)), ("sec", Num(0)), ("ms", Num(0))]

  /** `clearTime()`. */
  function ClearTime(t: int, tz: int): Outcome
  {
    SetAll(t, tz, Midnight)
  }

  /** JavaScript's Math.round(n / u) for a positive unit: the floor of n / u + 1/2. */
  function RoundDiv(n: int, u: int): int
    requires u > 0
  {
    (2 * n + u) / (2 * u)
  }

  /** `this.diff(d, resolution)` for a date d; the empty resolution stands for a missing one. */
  function Diff(t: int, d: int, tz: int, resolution: string): Result<int>
  {
    var res := if resolution == "" then "day" else resolution;
    if res == "year" then Ok(YearAt(d, tz) - YearAt(t, tz))
    else if res == "month" then Ok((YearAt(d, tz) - YearAt(t, tz)) * 12 + MonthAt(d, tz) - MonthAt(t, tz))
    else if UnitMs(res).None? then Err(TypeError("Date.units[resolution] is not a function"))
    else
      var u := UnitMs(res).value;
      var delta := d - t;
      if u > Abs(delta) then Ok(0) else Ok(RoundDiv(delta, u))
  }

  // ---- increment --------------------------------------------------------

  /**
   * A month increment moves the month count by k, keeps the time of day,
   * and keeps the date unless the new month is shorter, in which case the
   * date becomes that month's last day.
   */
  lemma MonthsLaterMeaning(t: int, tz: int, k: int)
    ensures var r := MonthsLater(t, tz, k);
      MonthCount(r, tz) == MonthCount(t, tz) + k &&
      DateAt(r, tz) == Min(DateAt(t, tz), DaysInMonthAt(r, tz)) &&
      TimeWithinDay(Local(r, tz)) == TimeWithinDay(Local(t, tz))
  {
    MonthsLaterSteps(t, tz, k, FirstOfMonthLater(t, tz, k), MonthsLater(t, tz, k));
  }

  lemma MonthsLaterSteps(t: int, tz: int, k: int, t2: int, r: int)
    requires t2 == FirstOfMonthLater(t, tz, k)
    requires r == SetDate(t2, tz, Min(DateAt(t, tz), DaysInMonthAt(t2, tz)))
    ensures MonthCount(r, tz) == MonthCount(t, tz) + k
    ensures DateAt(r, tz) == Min(DateAt(t, tz), DaysInMonthAt(r, tz))
    ensures TimeWithinDay(Local(r, tz)) == TimeWithinDay(Local(t, tz))
  {
    FirstOfMonthLaterMeaning(t, tz, k);
    SetDateWithinMonth(t2, tz, Min(DateAt(t, tz), DaysInMonthAt(t2, tz)), r);
  }

  /** The first of the month k months on, at the same time of day. */
  lemma FirstOfMonthLaterMeaning(t: int, tz: int, k: int)
    ensures MonthCount(FirstOfMonthLater(t, tz, k), tz) == MonthCount(t, tz) + k
    ensures DateAt(FirstOfMonthLater(t, tz, k), tz) == 1
    ensures TimeWithinDay(Local(FirstOfMonthLater(t, tz, k), tz)) == TimeWithinDay(Local(t, tz))
  {
    FirstOfMonthSteps(t, tz, k, SetDate(t, tz, 1), FirstOfMonthLater(t, tz, k));
  }

  lemma FirstOfMonthSteps(t: int, tz: int, k: int, t1: int, t2: int)
    requires t1 == SetDate(t, tz, 1) && t2 == SetMonth(t1, tz, MonthAt(t1, tz) + k)
    ensures MonthCount(t2, tz) == MonthCount(t, tz) + k && DateAt(t2, tz) == 1
    ensures TimeWithinDay(Local(t2, tz)) == TimeWithinDay(Local(t, tz))
  {
    ToFirstOfMonth(t, tz, t1);
    MoveFirstOfMonth(t1, tz, k, t2);
  }

  lemma ToFirstOfMonth(t: int, tz: int, t1: int)
    requires t1 == SetDate(t, tz, 1)
    ensures MonthCount(t1, tz) == MonthCount(t, tz) && DateAt(t1, tz) == 1
    ensures TimeWithinDay(Local(t1, tz)) == TimeWithinDay(Local(t, tz))
  {
    SetDateReadBack(t, tz, 1);
  }

  lemma MoveFirstOfMonth(t1: int, tz: int, k: int, t2: int)
    requires DateAt(t1, tz) == 1 && t2 == SetMonth(t1, tz, MonthAt(t1, tz) + k)
    ensures MonthCount(t2, tz) == MonthCount(t1, tz) + k && DateAt(t2, tz) == 1
    ensures TimeWithinDay(Local(t2, tz)) == TimeWithinDay(Local(t1, tz))
  {
    SetMonthRollover(t1, tz, MonthAt(t1, tz) + k);
  }

  lemma SetDateWithinMonth(t2: int, tz: int, v: int, r: int)
    requires 1 <= v <= DaysInMonthAt(t2, tz) && r == SetDate(t2, tz, v)
    ensures YearAt(r, tz) == YearAt(t2, tz) && MonthAt(r, tz) == MonthAt(t2, tz) && DateAt(r, tz) == v
    ensures DaysInMonthAt(r, tz) == DaysInMonthAt(t2, tz)
    ensures TimeWithinDay(Local(r, tz)) == TimeWithinDay(Local(t2, tz))
  {
    DaysInMonthFits(MonthAt(t2, tz), YearAt(t2, tz));
    SetDateReadBack(t2, tz, v);
  }

  /** A month increment never leaves the target month: the date fits the new month's length. */
  lemma MonthsLaterFits(t: int, tz: int, k: int)
    ensures 1 <= DateAt(MonthsLater(t, tz, k), tz) <= DaysInMonthAt(MonthsLater(t, tz, k), tz)
    ensures DateAt(t, tz) <= DaysInMonthAt(MonthsLater(t, tz, k), tz) ==> DateAt(MonthsLater(t, tz, k), tz) == DateAt(t, tz)
  {
    MonthsLaterMeaning(t, tz, k);
  }

  /** A date that exists in every month comes back unchanged after k months forward and back. */
  lemma MonthsRoundTrip(t: int, tz: int, k: int, j: int)
    requires DateAt(t, tz) <= 28 && j == -k
    ensures MonthsLater(MonthsLater(t, tz, k), tz, j) == t
  {
    var r := MonthsLater(t, tz, k);
    var r' := MonthsLater(r, tz, j);
    MonthsLaterFacts(t, tz, k, r);
    MonthsLaterFacts(r, tz, j, r');
    MonthsBack(t, tz, k, r, r');
  }

  /** Two month moves by k and -k that keep the date and the time of day come back to the start. */
  lemma MonthsBack(t: int, tz: int, k: int, r: int, r': int)
    requires DateAt(t, tz) <= 28
    requires MonthCount(r, tz) == MonthCount(t, tz) + k
    requires DateAt(t, tz) <= 28 ==> DateAt(r, tz) == DateAt(t, tz)
    requires TimeWithinDay(Local(r, tz)) == TimeWithinDay(Local(t, tz))
    requires MonthCount(r', tz) == MonthCount(r, tz) - k
    requires DateAt(r, tz) <= 28 ==> DateAt(r', tz) == DateAt(r, tz)
    requires TimeWithinDay(Local(r', tz)) == TimeWithinDay(Local(r, tz))
    ensures r' == t
  {
    SameFields(r', t, tz);
  }

  lemma MonthsLaterFacts(t: int, tz: int, k: int, r: int)
    requires r == MonthsLater(t, tz, k)
    ensures MonthCount(r, tz) == MonthCount(t, tz) + k
    ensures DateAt(t, tz) <= 28 ==> DateAt(r, tz) == DateAt(t, tz)
    ensures TimeWithinDay(Local(r, tz)) == TimeWithinDay(Local(t, tz))
  {
    MonthsLaterMeaning(t, tz, k);
  }

  /** Two instants with the same local year, month, date and time of day are equal. */
  lemma SameFields(a: int, b: int, tz: int)
    requires MonthCount(a, tz) == MonthCount(b, tz) && DateAt(a, tz) == DateAt(b, tz)
    requires TimeWithinDay(Local(a, tz)) == TimeWithinDay(Local(b, tz))
    ensures a == b
  {
    assert YearAt(a, tz) == YearAt(b, tz) && MonthAt(a, tz) == MonthAt(b, tz);
    LocalRoundTrip(a, tz);
    LocalRoundTrip(b, tz);
  }

  /** The dispatch of increment on the defaulted interval, one case at a time. */
  lemma IncrementYearIsMonths(t: int, tz: int, interval: string, times: Option<int>, m: int)
    requires IntervalOrDay(interval) == "year" && m == TimesOrOne(times) * 12
    ensures Increment(t, tz, interval, times) == Increment(t, tz, "month", Some(m))
  {
  }

  lemma IncrementMonthBranch(t: int, tz: int, interval: string, times: Option<int>)
    requires IntervalOrDay(interval) == "month"
    ensures Increment(t, tz, interval, times) == Ok(MonthsLater(t, tz, TimesOrOne(times)))
  {
  }

  lemma IncrementWeekIsDays(t: int, tz: int, interval: string, times: Option<int>, m: int)
    requires IntervalOrDay(interval) == "week" && m == TimesOrOne(times) * 7
    ensures Increment(t, tz, interval, times) == Increment(t, tz, "day", Some(m))
  {
  }

  lemma IncrementDayBranch(t: int, tz: int, interval: string, times: Option<int>, d: int)
    requires IntervalOrDay(interval) == "day" && d == DateAt(t, tz) + TimesOrOne(times)
    ensures Increment(t, tz, interval, times) == Ok(SetDate(t, tz, d))
  {
  }

  lemma IncrementUnitBranch(t: int, tz: int, interval: string, times: Option<int>)
    requires IntervalOrDay(interval) !in {"year", "month", "week", "day"}
    ensures UnitMs(IntervalOrDay(interval)).None? ==>
      Increment(t, tz, interval, times) == Err(UnsupportedInterval(IntervalOrDay(interval)))
    ensures UnitMs(IntervalOrDay(interval)).Some? ==>
      Increment(t, tz, interval, times) == Ok(t + TimesOrOne(times) * UnitMs(IntervalOrDay(interval)).value)
  {
  }

  /** Moving the date by k days moves the instant by k whole days. */
  lemma DaysLaterShift(t: int, tz: int, k: int)
    ensures DaysLater(t, tz, k) == t + k * MsPerDay
  {
    SetDateShift(t, tz, DateAt(t, tz) + k);
  }

  /** A day increment (the default interval) adds k whole days. */
  lemma IncrementDays(t: int, tz: int, k: int)
    ensures Increment(t, tz, "day", Some(k)) == Ok(t + k * MsPerDay)
    ensures Increment(t, tz, "", Some(k)) == Ok(t + k * MsPerDay)
  {
    assert Increment(t, tz, "day", Some(k)) == Ok(DaysLater(t, tz, k));
    assert Increment(t, tz, "", Some(k)) == Ok(DaysLater(t, tz, k));
    DaysLaterShift(t, tz, k);
  }

  /** A week increment is a day increment of 7k days. */
  lemma IncrementWeeks(t: int, tz: int, k: int)
    ensures Increment(t, tz, "week", Some(k)) == Ok(t + 7 * k * MsPerDay)
  {
    var w := k * 7;
    assert Increment(t, tz, "week", Some(k)) == Ok(DaysLater(t, tz, w));
    DaysLaterShift(t, tz, w);
  }

  /** Year and month increments are month moves of 12k and k. */
  lemma IncrementNamed(t: int, tz: int, k: int)
    ensures Increment(t, tz, "year", Some(k)) == Ok(MonthsLater(t, tz, k * 12))
    ensures Increment(t, tz, "month", Some(k)) == Ok(MonthsLater(t, tz, k))
  {
  }

  /** The interval defaults to a day and the count to one. */
  lemma IncrementDefaults(t: int, tz: int)
    ensures Increment(t, tz, "", None) == Ok(t + MsPerDay)
  {
    IncrementDays(t, tz, 1);
  }

  /** The fixed units add times * unit milliseconds. */
  lemma IncrementUnits(t: int, tz: int, interval: string, k: int)
    requires interval in {"ms", "second", "minute", "hour"}
    ensures Increment(t, tz, interval, Some(k)) == Ok(t + k * UnitMs(interval).value)
  {
  }

  /** setAMPM's two moves: decrement('hour', 12) and increment('hour', 12) are 12 hours back and on. */
  lemma HalfDaySteps(t: int, tz: int)
    ensures Decrement(t, tz, "hour", Some(12)) == Ok(t + -1 * 12 * MsPerHour)
    ensures Increment(t, tz, "hour", Some(12)) == Ok(t + 12 * MsPerHour)
  {
    var m := -1 * 12;
    DecrementNegates(t, tz, "hour", 12, m);
    IncrementUnits(t, tz, "hour", m);
    IncrementUnits(t, tz, "hour", 12);
  }

  /** Exactly the names year, month, week, day (or none) and the fixed units are supported. */
  lemma IncrementSupported(t: int, tz: int, interval: string, times: Option<int>)
    ensures Increment(t, tz, interval, times).Err? <==>
      interval !in {"", "year", "month", "week", "day", "ms", "second", "minute", "hour"}
    ensures Increment(t, tz, interval, times).Err? ==>
      Increment(t, tz, interval, times).error == UnsupportedInterval(interval)
  {
  }

  /** A year increment is twelve month increments: a leap day plus one year lands on February 28th. */
  lemma LeapDayPlusYear(t: int, tz: int)
    requires MonthAt(t, tz) == 1 && DateAt(t, tz) == 29 && !IsLeapYear(YearAt(t, tz) + 1)
    ensures var r := Increment(t, tz, "year", None).value;
      YearAt(r, tz) == YearAt(t, tz) + 1 && MonthAt(r, tz) == 1 && DateAt(r, tz) == 28
  {
    var r := MonthsLater(t, tz, 12);
    MonthsLaterMeaning(t, tz, 12);
    assert YearAt(r, tz) == YearAt(t, tz) + 1 && MonthAt(r, tz) == 1;
  }

  /** January 31st plus one month is the last day of February, never a day of March. */
  lemma EndOfJanuaryPlusMonth(t: int, tz: int)
    requires MonthAt(t, tz) == 0 && DateAt(t, tz) == 31
    ensures var r := Increment(t, tz, "month", None).value;
      YearAt(r, tz) == YearAt(t, tz) && MonthAt(r, tz) == 1 &&
      DateAt(r, tz) == (if IsLeapYear(YearAt(t, tz)) then 29 else 28)
  {
    var r := MonthsLater(t, tz, 1);
    MonthsLaterMeaning(t, tz, 1);
    assert YearAt(r, tz) == YearAt(t, tz) && MonthAt(r, tz) == 1;
  }

  /** decrement(u, n) is increment(u, -n), so a day, week or fixed-unit decrement undoes the increment. */
  lemma DecrementUndoesIncrement(t: int, tz: int, interval: string, n: int, t': int)
    requires interval in {"", "day", "week", "ms", "second", "minute", "hour"}
    requires Increment(t, tz, interval, Some(n)) == Ok(t')
    ensures Decrement(t', tz, interval, Some(n)) == Ok(t)
  {
    DecrementNegates(t', tz, interval, n, -1 * n);
    if interval == "week" {
      UndoWeeks(t, tz, n, t', -1 * n);
    } else if interval == "" || interval == "day" {
      UndoDays(t, tz, interval, n, t', -1 * n);
    } else {
      UndoUnits(t, tz, interval, n, t', -1 * n);
    }
  }

  lemma UndoWeeks(t: int, tz: int, n: int, t': int, m: int)
    requires m == -n && Increment(t, tz, "week", Some(n)) == Ok(t')
    ensures Increment(t', tz, "week", Some(m)) == Ok(t)
  {
    IncrementWeeks(t, tz, n);
    IncrementWeeks(t', tz, m);
  }

  lemma UndoDays(t: int, tz: int, interval: string, n: int, t': int, m: int)
    requires interval == "" || interval == "day"
    requires m == -n && Increment(t, tz, interval, Some(n)) == Ok(t')
    ensures Increment(t', tz, interval, Some(m)) == Ok(t)
  {
    IncrementDays(t, tz, n);
    IncrementDays(t', tz, m);
  }

  lemma UndoUnits(t: int, tz: int, interval: string, n: int, t': int, m: int)
    requires interval in {"ms", "second", "minute", "hour"}
    requires m == -n && Increment(t, tz, interval, Some(n)) == Ok(t')
    ensures Increment(t', tz, interval, Some(m)) == Ok(t)
  {
    IncrementUnits(t, tz, interval, n);
    IncrementUnits(t', tz, interval, m);
  }

  /** decrement(u, n) is increment(u, -n). */
  lemma DecrementNegates(t: int, tz: int, interval: string, n: int, m: int)
    requires m == -n
    ensures Decrement(t, tz, interval, Some(n)) == Increment(t, tz, interval, Some(m))
  {
  }

  // ---- clearTime --------------------------------------------------------

  /** clearTime keeps the local day and sets the local clock to 00:00:00.000. */
  lemma ClearTimeMeaning(t: int, tz: int)
    ensures ClearTime(t, tz).error == None
    ensures var r := ClearTime(t, tz).time;
      DayNumber(Local(r, tz)) == DayNumber(Local(t, tz)) && TimeWithinDay(Local(r, tz)) == 0 &&
      r == DayNumber(Local(t, tz)) * MsPerDay + tz * MsPerMinute
  {
    var t1 := SetHours(t, tz, 0);
    var t2 := SetMinutes(t1, tz, 0);
    var t3 := SetSeconds(t2, tz, 0);
    var t4 := SetMilliseconds(t3, tz, 0);
    ClearTimeSetters(t, tz, t1, t2, t3, t4);
    MidnightSteps(t, tz, t1, t2, t3, t4);
  }

  /** clearTime is setHours(0), setMinutes(0), setSeconds(0), setMilliseconds(0), and none of them fails. */
  lemma ClearTimeSetters(t: int, tz: int, t1: int, t2: int, t3: int, t4: int)
    requires t1 == SetHours(t, tz, 0) && t2 == SetMinutes(t1, tz, 0)
    requires t3 == SetSeconds(t2, tz, 0) && t4 == SetMilliseconds(t3, tz, 0)
    ensures ClearTime(t, tz) == Outcome(t4, None)
  {
    LookupClockAliases();
    assert Midnight[1..][1..][1..][1..] == [];
    assert SetAll(t3, tz, Midnight[1..][1..][1..]) == Outcome(t4, None);
    assert SetAll(t2, tz, Midnight[1..][1..]) == Outcome(t4, None);
    assert SetAll(t1, tz, Midnight[1..]) == Outcome(t4, None);
  }

  lemma MidnightSteps(t: int, tz: int, t1: int, t2: int, t3: int, t4: int)
    requires t1 == SetHours(t, tz, 0) && t2 == SetMinutes(t1, tz, 0)
    requires t3 == SetSeconds(t2, tz, 0) && t4 == SetMilliseconds(t3, tz, 0)
    ensures DayNumber(Local(t4, tz)) == DayNumber(Local(t, tz)) && TimeWithinDay(Local(t4, tz)) == 0
    ensures t4 == DayNumber(Local(t, tz)) * MsPerDay + tz * MsPerMinute
  {
    ClockReadBack(t, tz, 0, MinutesAt(t, tz), SecondsAt(t, tz), MsAt(t, tz));
    ClockReadBack(t1, tz, 0, 0, SecondsAt(t, tz), MsAt(t, tz));
    ClockReadBack(t2, tz, 0, 0, 0, MsAt(t, tz));
    ClockReadBack(t3, tz, 0, 0, 0, 0);
    SplitTime(Local(t4, tz));
  }

  // ---- diff -------------------------------------------------------------

  /** Year and month differences are exactly antisymmetric. */
  lemma DiffCalendarAntisymmetric(a: int, b: int, tz: int)
    ensures Diff(a, b, tz, "year").value == -Diff(b, a, tz, "year").value
    ensures Diff(a, b, tz, "month").value == -Diff(b, a, tz, "month").value
    ensures Diff(a, b, tz, "month").value == MonthCount(b, tz) - MonthCount(a, tz)
  {
  }

  /** diff('month') counts the months a month increment moved. */
  lemma DiffOfMonthsLater(t: int, tz: int, k: int)
    ensures Diff(t, Increment(t, tz, "month", Some(k)).value, tz, "month") == Ok(k)
  {
    IncrementNamed(t, tz, k);
    MonthsLaterMeaning(t, tz, k);
    DiffOfMonthCount(t, MonthsLater(t, tz, k), tz, k);
  }

  lemma DiffOfMonthCount(a: int, b: int, tz: int, k: int)
    requires MonthCount(b, tz) == MonthCount(a, tz) + k
    ensures Diff(a, b, tz, "month") == Ok(k)
  {
  }

  /** Below one unit apart the difference is 0; otherwise it is Math.round of the quotient. */
  lemma DiffOfUnit(a: int, b: int, tz: int, res: string)
    requires UnitMs(res).Some? && res != ""
    ensures var u := UnitMs(res).value;
      Diff(a, b, tz, res) == Ok(if Abs(b - a) < u then 0 else RoundDiv(b - a, u))
  {
  }

  /** The result is never negative when the argument is later, and positive once a whole unit later. */
  lemma DiffSign(a: int, b: int, tz: int, resolution: string)
    requires UnitMs(if resolution == "" then "day" else resolution).Some?
    ensures var u := UnitMs(if resolution == "" then "day" else resolution).value;
      (b >= a ==> Diff(a, b, tz, resolution).value >= 0) &&
      (b - a >= u ==> Diff(a, b, tz, resolution).value >= 1) &&
      (a - b >= u ==> Diff(a, b, tz, resolution).value <= -1)
  {
    var u := UnitMs(if resolution == "" then "day" else resolution).value;
    UnitMsPositive(if resolution == "" then "day" else resolution);
    if b - a >= u {
      RoundDivAtLeastOne(b - a, u);
    } else if a - b >= u {
      RoundDivAtMostMinusOne(b - a, u);
    }
  }

  lemma RoundDivAtLeastOne(n: int, u: int)
    requires u > 0 && n >= u
    ensures RoundDiv(n, u) >= 1
  {
    assert 2 * n + u >= 2 * u;
  }

  lemma RoundDivAtMostMinusOne(n: int, u: int)
    requires u > 0 && n <= -u
    ensures RoundDiv(n, u) <= -1
  {
    assert 2 * n + u < 0;
  }

  /** A whole number of units apart, the difference is that number. */
  lemma DiffWholeUnits(a: int, tz: int, res: string, k: int)
    requires UnitMs(res).Some? && res != ""
    ensures Diff(a, a + k * UnitMs(res).value, tz, res) == Ok(k)
  {
    var u := UnitMs(res).value;
    UnitMsPositive(res);
    RoundDivExact(k, u);
    if k != 0 {
      assert Abs(k * u) >= u by {
        if k > 0 { assert k * u >= u; } else { assert k * u <= -u; }
      }
    }
  }

  lemma RoundDivExact(k: int, u: int)
    requires u > 0
    ensures RoundDiv(k * u, u) == k
  {
    assert 2 * (k * u) + u == k * (2 * u) + u;
    DivMod(2 * (k * u) + u, 2 * u, k, u);
  }

  /** The default resolution is days. */
  lemma DiffDefaultsToDays(a: int, b: int, tz: int)
    ensures Diff(a, b, tz, "") == Diff(a, b, tz, "day")
  {
  }

  /** A resolution that names no unit is a TypeError (units[resolution] is undefined). */
  lemma DiffUnknownResolution(a: int, b: int, tz: int, res: string)
    requires res !in {"", "year", "month", "ms", "second", "minute", "hour", "day", "week"}
    ensures Diff(a, b, tz, res).Err? && Diff(a, b, tz, res).error.TypeError?
  {
  }

  // ---- rounding at half units -------------------------------------------

  /** Rounding n/u and -n/u half up: the two sum to 1 exactly half way between whole units, and to 0 otherwise. */
  lemma RoundDivNegated(n: int, u: int)
    requires u > 0
    ensures RoundDiv(n, u) + RoundDiv(-n, u) == if (2 * n + u) % (2 * u) == 0 then 1 else 0
  {
    var m := 2 * n + u;
    var q, r := m / (2 * u), m % (2 * u);
    assert m == q * (2 * u) + r;
    assert 2 * -n + u == 2 * u - m;
    DivMod(m, 2 * u, q, r);
    if r == 0 {
      assert 2 * u - m == (1 - q) * (2 * u);
      DivMod(2 * u - m, 2 * u, 1 - q, 0);
    } else {
      assert 2 * u - m == (-q) * (2 * u) + (2 * u - r);
      DivMod(2 * u - m, 2 * u, -q, 2 * u - r);
    }
  }

  /**
   * diff by a unit is antisymmetric except at an exact half unit, at least
   * one unit apart: there Math.round rounds both directions up, and the
   * two results sum to 1.
   */
  lemma DiffNearlyAntisymmetric(a: int, b: int, tz: int, res: string)
    requires UnitMs(res).Some? && res != ""
    ensures var u := UnitMs(res).value;
      Diff(a, b, tz, res).value + Diff(b, a, tz, res).value ==
        if Abs(b - a) >= u && (2 * (b - a) + u) % (2 * u) == 0 then 1 else 0
  {
    UnitMsPositive(res);
    var u := UnitMs(res).value;
    assert a - b == -(b - a) && Abs(a - b) == Abs(b - a);
    RoundDivNegated(b - a, u);
  }

  /** As written, dates a day and a half apart are 2 days apart one way and -1 day the other. */
  lemma DiffHalfDayExample()
    ensures Diff(0, 129600000, 0, "day") == Ok(2)
    ensures Diff(129600000, 0, 0, "day") == Ok(-1)
  {
    assert RoundDiv(129600000, MsPerDay) == 2;
    assert RoundDiv(-129600000, MsPerDay) == -1;
  }

  /** `diff` with a unit rounding halves away from zero, so that swapping the dates negates it; year and month as written. */
  function DiffSymmetric(t: int, d: int, tz: int, resolution: string): Result<int>
  {
    var res := if resolution == "" then "day" else resolution;
    if UnitMs(res).None? then Diff(t, d, tz, resolution)
    else
      var u := UnitMs(res).value;
      var delta := d - t;
      if u > Abs(delta) then Ok(0)
      else if delta >= 0 then Ok(RoundDiv(delta, u))
      else Ok(-RoundDiv(-delta, u))
  }

  /** With halves rounded away from zero, diff is exactly antisymmetric, and it fails for the same resolutions both ways. */
  lemma DiffSymmetricAntisymmetric(a: int, b: int, tz: int, resolution: string)
    ensures DiffSymmetric(a, b, tz, resolution).Ok? <==> DiffSymmetric(b, a, tz, resolution).Ok?
    ensures DiffSymmetric(a, b, tz, resolution).Ok? ==>
      DiffSymmetric(b, a, tz, resolution).value == -DiffSymmetric(a, b, tz, resolution).value
  {
    DiffCalendarAntisymmetric(a, b, tz);
    assert a - b == -(b - a) && Abs(a - b) == Abs(b - a);
  }

  /** Away from the half units, the corrected diff is diff as written. */
  lemma DiffSymmetricAgrees(a: int, b: int, tz: int, res: string)
    requires UnitMs(res).Some? && res != ""
    requires (2 * (b - a) + UnitMs(res).value) % (2 * UnitMs(res).value) != 0
    ensures DiffSymmetric(a, b, tz, res) == Diff(a, b, tz, res)
  {
    UnitMsPositive(res);
    RoundDivNegated(b - a, UnitMs(res).value);
  }

  // ---- the week unit ---------------------------------------------------

  /** The length of a week as intended: seven days. */
  const WeekMs: int := 7 * MsPerDay

  /** `diff` with the week unit corrected to seven days; every other resolution as written. */
  function DiffFixed(t: int, d: int, tz: int, resolution: string): Result<int>
  {
    if resolution == "week" then
      var delta := d - t;
      if WeekMs > Abs(delta) then Ok(0) else Ok(RoundDiv(delta, WeekMs))
    else Diff(t, d, tz, resolution)
  }

  /** As written, a date 85 weeks on, reached by increment('week', 85), is 84 weeks away by diff; so is one 84 weeks on. */
  lemma DiffWeeksAsWritten(t: int, tz: int)
    ensures var d := Increment(t, tz, "week", Some(85)).value; Diff(t, d, tz, "week") == Ok(84)
    ensures var d := Increment(t, tz, "week", Some(84)).value; Diff(t, d, tz, "week") == Ok(84)
  {
    IncrementWeeks(t, tz, 85);
    IncrementWeeks(t, tz, 84);
    DiffWeekUnit(t, t + 7 * 85 * MsPerDay, tz);
    DiffWeekUnit(t, t + 7 * 84 * MsPerDay, tz);
    assert RoundDiv(51408000000, 608400000) == 84;
    assert RoundDiv(50803200000, 608400000) == 84;
  }

  /** diff('week') as written divides by 608400000. */
  lemma DiffWeekUnit(t: int, d: int, tz: int)
    ensures Diff(t, d, tz, "week") == if 608400000 > Abs(d - t) then Ok(0) else Ok(RoundDiv(d - t, 608400000))
  {
  }

  /** With the corrected unit, diff('week') counts exactly the weeks an increment('week', k) moved. */
  lemma DiffFixedOfIncrementWeeks(t: int, tz: int, k: int)
    ensures DiffFixed(t, Increment(t, tz, "week", Some(k)).value, tz, "week") == Ok(k)
  {
    IncrementWeeks(t, tz, k);
    assert 7 * k * MsPerDay == k * WeekMs;
    RoundDivExact(k, WeekMs);
    if k != 0 {
      assert Abs(k * WeekMs) >= WeekMs by {
        if k > 0 { assert k * WeekMs >= WeekMs; } else { assert k * WeekMs <= -WeekMs; }
      }
    }
  }
}
