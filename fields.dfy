/**
 * The field accessors of a date: `get(prop)` and `set(prop, value)` look
 * the lower-cased property name up in `Date.Methods` and call the getter
 * or setter of that name.  A date's only state is its instant `t`; the
 * local fields are read from `t - tz * 60000`, where `tz` is the fixed
 * local offset in the host's getTimezoneOffset convention (minutes to add
 * to local time to reach UTC), and the UTC fields from `t` itself.
 */
module Fields {
  import opened Errors
  import opened Text
  import opened Calendar
  import opened CalendarRules

  /** The accessor names of `Date.Methods`. */
  datatype Field =
    | Date | Day | FullYear | Hours | Milliseconds | Minutes | Month | Seconds | Time
    | TimezoneOffset | Week | Timezone | GMTOffset | DayOfYear | LastMonth | DaysInMonth
    | UTCDate | UTCDay | UTCFullYear | AMPM | UTCHours | UTCMilliseconds | UTCMinutes
    | UTCMonth | UTCSeconds

  /** The accessor's name as the source spells it (the suffix of getX/setX). */
  function MethodName(f: Field): string
  {
    match f
    case Date => "Date"
    case Day => "Day"
    case FullYear => "FullYear"
    case Hours => "Hours"
    case Milliseconds => "Milliseconds"
    case Minutes => "Minutes"
    case Month => "Month"
    case Seconds => "Seconds"
    case Time => "Time"
    case TimezoneOffset => "TimezoneOffset"
    case Week => "Week"
    case Timezone => "Timezone"
    case GMTOffset => "GMTOffset"
    case DayOfYear => "DayOfYear"
    case LastMonth => "LastMonth"
    case DaysInMonth => "DaysInMonth"
    case UTCDate => "UTCDate"
    case UTCDay => "UTCDay"
    case UTCFullYear => "UTCFullYear"
    case AMPM => "AMPM"
    case UTCHours => "UTCHours"
    case UTCMilliseconds => "UTCMilliseconds"
    case UTCMinutes => "UTCMinutes"
    case UTCMonth => "UTCMonth"
    case UTCSeconds => "UTCSeconds"
  }

  /**
   * `Date.Methods[key]`: each accessor is stored under its lower-case
   * name, and six short aliases are added; any other key holds nothing.
   */
  function Method(key: string): Option<Field>
  {
    if key == "date" then Some(Date)
    else if key == "day" then Some(Day)
    else if key == "fullyear" || key == "year" then Some(FullYear)
    else if key == "hours" || key == "hr" then Some(Hours)
    else if key == "milliseconds" || key == "ms" then Some(Milliseconds)
    else if key == "minutes" || key == "min" then Some(Minutes)
    else if key == "month" || key == "mo" then Some(Month)
    else if key == "seconds" || key == "sec" then Some(Seconds)
    else if key == "time" then Some(Time)
    else if key == "timezoneoffset" then Some(TimezoneOffset)
    else if key == "week" then Some(Week)
    else if key == "timezone" then Some(Timezone)
    else if key == "gmtoffset" then Some(GMTOffset)
    else if key == "dayofyear" then Some(DayOfYear)
    else if key == "lastmonth" then Some(LastMonth)
    else if key == "daysinmonth" then Some(DaysInMonth)
    else if key == "utcdate" then Some(UTCDate)
    else if key == "utcday" then Some(UTCDay)
    else if key == "utcfullyear" then Some(UTCFullYear)
    else if key == "ampm" then Some(AMPM)
    else if key == "utchours" then Some(UTCHours)
    else if key == "utcmilliseconds" then Some(UTCMilliseconds)
    else if key == "utcminutes" then Some(UTCMinutes)
    else if key == "utcmonth" then Some(UTCMonth)
    else if key == "utcseconds" then Some(UTCSeconds)
    else None
  }

  /** The field a property name selects, ignoring case: `Date.Methods[prop.toLowerCase()]`. */
  function Lookup(prop: string): Option<Field>
  {
    Method(Lower(prop))
  }

  /** Lookup goes through the lower-case spelling of the name. */
  lemma LookupVia(prop: string, key: string)
    requires Lower(prop) == key
    ensures Lookup(prop) == Method(key)
  {
  }

  lemma LowerMixedCase()
    ensures Lower("FullYear") == "fullyear"
  {
  }

  lemma LowerCapitals()
    ensures Lower("Month") == "month" && Lower("YEAR") == "year" && Lower("AMPM") == "ampm"
  {
  }

  lemma LowerUnchanged()
    ensures Lower("mo") == "mo" && Lower("hr") == "hr" && Lower("weekday") == "weekday"
  {
  }

  lemma MethodExamples()
    ensures Method("fullyear") == Some(FullYear) && Method("month") == Some(Month)
    ensures Method("year") == Some(FullYear) && Method("mo") == Some(Month)
  {
  }

  lemma MethodMoreExamples()
    ensures Method("hr") == Some(Hours) && Method("ampm") == Some(AMPM) && Method("weekday") == None
  {
  }

  /** Accessor names in any case, the short aliases, and a name that is not an accessor. */
  lemma LookupExamples()
    ensures Lookup("FullYear") == Some(FullYear) && Lookup("Month") == Some(Month)
    ensures Lookup("YEAR") == Some(FullYear) && Lookup("mo") == Some(Month) && Lookup("hr") == Some(Hours)
    ensures Lookup("AMPM") == Some(AMPM) && Lookup("weekday") == None
  {
    LowerMixedCase();
    LowerCapitals();
    LowerUnchanged();
    MethodExamples();
    MethodMoreExamples();
    LookupVia("FullYear", "fullyear");
    LookupVia("Month", "month");
    LookupVia("YEAR", "year");
    LookupVia("mo", "mo");
    LookupVia("hr", "hr");
    LookupVia("AMPM", "ampm");
    LookupVia("weekday", "weekday");
  }

  /** The aliases clearTime uses reach the clock accessors. */
  lemma LookupClockAliases()
    ensures Lookup("hr") == Some(Hours) && Lookup("min") == Some(Minutes)
    ensures Lookup("sec") == Some(Seconds) && Lookup("ms") == Some(Milliseconds)
  {
    LookupName("hr", Hours);
    LookupName("min", Minutes);
    LookupName("sec", Seconds);
    LookupName("ms", Milliseconds);
  }

  /** The names the date methods themselves pass to `set` reach the setters they mean. */
  lemma LookupSetterNames()
    ensures Lookup("date") == Some(Date) && Lookup("time") == Some(Time)
    ensures Lookup("mo") == Some(Month) && Lookup("year") == Some(FullYear)
  {
    LookupName("date", Date);
    LookupName("time", Time);
    LookupName("mo", Month);
    LookupName("year", FullYear);
  }

  /** A lower-case key that Date.Methods holds is looked up as itself. */
  lemma LookupName(key: string, f: Field)
    requires forall i :: 0 <= i < |key| ==> !('A' <= key[i] <= 'Z')
    requires Method(key) == Some(f)
    ensures Lookup(key) == Some(f)
  {
    LowerOfLowerCase(key);
  }

  /** Names that differ only in the case of ASCII letters select the same accessor. */
  lemma LookupIgnoresCase(a: string, b: string)
    requires |a| == |b| && forall i :: 0 <= i < |a| ==> LowerChar(a[i]) == LowerChar(b[i])
    ensures Lookup(a) == Lookup(b)
  {
    assert Lower(a) == Lower(b);
  }

  // ---- reading ------------------------------------------------------

  /** The local instant of t: local time is UTC minus the offset. */
  function Local(t: int, off: int): int
  {
    t - off * MsPerMinute
  }

  function YearAt(t: int, off: int): int { YearFromDay(DayNumber(Local(t, off))) }
  function MonthAt(t: int, off: int): int { MonthFromDay(DayNumber(Local(t, off))) }
  function DateAt(t: int, off: int): int { DateFromDay(DayNumber(Local(t, off))) }
  function WeekDayAt(t: int, off: int): int { WeekDay(DayNumber(Local(t, off))) }
  function HoursAt(t: int, off: int): int { HourFromTime(Local(t, off)) }
  function MinutesAt(t: int, off: int): int { MinFromTime(Local(t, off)) }
  function SecondsAt(t: int, off: int): int { SecFromTime(Local(t, off)) }
  function MsAt(t: int, off: int): int { MsFromTime(Local(t, off)) }

  /** The 1-based day of the year (derived here: getDayOfYear belongs to another file). */
  function DayOfYearAt(t: int, off: int): (d: int)
    ensures 1 <= d <= 366
  {
    DayWithinYear(DayNumber(Local(t, off))) + 1
  }

  /** `getWeek`: the day of the year divided by 7, rounded up. */
  function WeekAt(t: int, off: int): (w: int)
    ensures 1 <= w <= 53
  {
    (DayOfYearAt(t, off) + 6) / 7
  }

  /** `getAMPM`. */
  function AmPmAt(t: int, tz: int): string
  {
    if HoursAt(t, tz) < 12 then "AM" else "PM"
  }

  /** `getDaysInMonth`: `Date.daysInMonth` of the date's own month and year. */
  function DaysInMonthAt(t: int, tz: int): (n: int)
    ensures n == MonthLength(MonthAt(t, tz), IsLeapYear(YearAt(t, tz)))
  {
    DaysInMonthTable(MonthAt(t, tz), YearAt(t, tz));
    CalendarRules.DaysInMonth(MonthAt(t, tz), YearAt(t, tz)).value
  }

  /**
   * JavaScript's `%`: the remainder of a division truncated toward zero,
   * so it differs from a by a multiple of b, is smaller than b in
   * magnitude, and is never of the opposite sign to a.
   */
  function JsRem(a: int, b: int): (r: int)
    requires b > 0
    ensures -b < r < b && (a - r) % b == 0
    ensures (a >= 0 ==> r >= 0) && (a <= 0 ==> r <= 0)
  {
    TruncatedRemainder(a, b);
    if a >= 0 then a % b else -((-a) % b)
  }

  lemma TruncatedRemainder(a: int, b: int)
    requires b > 0
    ensures var r := if a >= 0 then a % b else -((-a) % b); (a - r) % b == 0
  {
    var n := if a >= 0 then a else -a;
    var q := n / b;
    assert n == q * b + n % b;
    if a >= 0 {
      DivMod(q * b, b, q, 0);
    } else {
      assert a - -(n % b) == (-q) * b;
      DivMod((-q) * b, b, -q, 0);
    }
  }

  /**
   * `getGMTOffset`: '-' when the raw offset is positive, '+' otherwise,
   * then the whole hours of its magnitude and the signed remainder of the
   * offset by 60, each through zeroize(·, 2).
   */
  function GMTOffsetText(off: int): string
  {
    (if off > 0 then "-" else "+") + Zeroize(Abs(off) / 60, 2) + Zeroize(JsRem(off, 60), 2)
  }

  function Abs(x: int): (r: nat)
    ensures r == x || r == -x
  {
    if x < 0 then -x else x
  }

  /** What the host supplies and this core does not compute: `toString()` and the zone abbreviation it yields. */
  datatype Host = Host(text: int -> string, zone: int -> string)

  datatype Value = Num(n: int) | Str(s: string)

  /** Calling the getter of a field; a getter this file does not define is a TypeError. */
  function Read(t: int, tz: int, host: Host, f: Field): Result<Value>
  {
    match f
    case Date => Ok(Num(DateAt(t, tz)))
    case Day => Ok(Num(WeekDayAt(t, tz)))
    case FullYear => Ok(Num(YearAt(t, tz)))
    case Hours => Ok(Num(HoursAt(t, tz)))
    case Milliseconds => Ok(Num(MsAt(t, tz)))
    case Minutes => Ok(Num(MinutesAt(t, tz)))
    case Month => Ok(Num(MonthAt(t, tz)))
    case Seconds => Ok(Num(SecondsAt(t, tz)))
    case Time => Ok(Num(t))
    case TimezoneOffset => Ok(Num(tz))
    case Week => Ok(Num(WeekAt(t, tz)))
    case Timezone => Ok(Str(host.zone(t)))
    case GMTOffset => Ok(Str(GMTOffsetText(tz)))
    case DayOfYear => Ok(Num(DayOfYearAt(t, tz)))
    case LastMonth => Err(TypeError("getLastMonth is not a function"))
    case DaysInMonth => Ok(Num(DaysInMonthAt(t, tz)))
    case UTCDate => Ok(Num(DateAt(t, 0)))
    case UTCDay => Ok(Num(WeekDayAt(t, 0)))
    case UTCFullYear => Ok(Num(YearAt(t, 0)))
    case AMPM => Ok(Str(AmPmAt(t, tz)))
    case UTCHours => Ok(Num(HoursAt(t, 0)))
    case UTCMilliseconds => Ok(Num(MsAt(t, 0)))
    case UTCMinutes => Ok(Num(MinutesAt(t, 0)))
    case UTCMonth => Ok(Num(MonthAt(t, 0)))
    case UTCSeconds => Ok(Num(SecondsAt(t, 0)))
  }

  /** `get(prop)`: the getter's value, or None (null) for an unknown name. */
  function Get(t: int, tz: int, host: Host, prop: string): Result<Option<Value>>
  {
    match Lookup(prop)
    case None => Ok(None)
    case Some(f) =>
      var v :- Read(t, tz, host, f);
      Ok(Some(v))
  }

  // ---- writing ------------------------------------------------------

  /*
   * The host's setters (local when off is the local offset, UTC when it
   * is 0): each replaces one part and keeps the others, and a value out
   * of range runs over into the neighbouring units.
   */

  function SetDate(t: int, off: int, v: int): int
  {
    WithCivil(t, off, YearAt(t, off), MonthAt(t, off), v)
  }

  function SetMonth(t: int, off: int, v: int): int
  {
    WithCivil(t, off, YearAt(t, off), v, DateAt(t, off))
  }

  function SetFullYear(t: int, off: int, v: int): int
  {
    WithCivil(t, off, v, MonthAt(t, off), DateAt(t, off))
  }

  function SetHours(t: int, off: int, v: int): int
  {
    WithClock(t, off, v, MinutesAt(t, off), SecondsAt(t, off), MsAt(t, off))
  }

  function SetMinutes(t: int, off: int, v: int): int
  {
    WithClock(t, off, HoursAt(t, off), v, SecondsAt(t, off), MsAt(t, off))
  }

  function SetSeconds(t: int, off: int, v: int): int
  {
    WithClock(t, off, HoursAt(t, off), MinutesAt(t, off), v, MsAt(t, off))
  }

  function SetMilliseconds(t: int, off: int, v: int): int
  {
    WithClock(t, off, HoursAt(t, off), MinutesAt(t, off), SecondsAt(t, off), v)
  }

  /** The instant whose local day is MakeDay(y, m, d), at t's local time of day. */
  function WithCivil(t: int, off: int, y: int, m: int, d: int): int
  {
    MakeDate(MakeDay(y, m, d), TimeWithinDay(Local(t, off))) + off * MsPerMinute
  }

  /** The instant on t's local day whose local clock reads h:mi:s.ms (with carry). */
  function WithClock(t: int, off: int, h: int, mi: int, s: int, ms: int): int
  {
    MakeDate(DayNumber(Local(t, off)), MakeTime(h, mi, s, ms)) + off * MsPerMinute
  }

  /**
   * `setAMPM(ampm)`: 12 hours back for a PM hour given "AM", 12 hours on
   * for an AM hour given "PM" (through decrement/increment('hour', 12),
   * which add -12 or 12 times 3600000 ms), otherwise no change.
   */
  function SetAMPM(t: int, tz: int, ampm: string): int
  {
    var a := Upper(ampm);
    var hr := HoursAt(t, tz);
    if hr > 11 && a == "AM" then t + -1 * 12 * MsPerHour
    else if hr < 12 && a == "PM" then t + 12 * MsPerHour
    else t
  }

  /** The number a setter receives: strings go through ToNumber. */
  function NumberOf(v: Value): Result<int>
  {
    match v
    case Num(n) => Ok(n)
    case Str(s) => if ToNumber(s).Some? then Ok(ToNumber(s).value) else Err(NotANumber(s))
  }

  /** Calling the setter of a field; a setter that does not exist is a TypeError. */
  function Write(t: int, tz: int, f: Field, v: Value): Result<int>
  {
    match f
    case Time => var n :- NumberOf(v); Ok(n)
    case Date => var n :- NumberOf(v); Ok(SetDate(t, tz, n))
    case FullYear => var n :- NumberOf(v); Ok(SetFullYear(t, tz, n))
    case Hours => var n :- NumberOf(v); Ok(SetHours(t, tz, n))
    case Milliseconds => var n :- NumberOf(v); Ok(SetMilliseconds(t, tz, n))
    case Minutes => var n :- NumberOf(v); Ok(SetMinutes(t, tz, n))
    case Month => var n :- NumberOf(v); Ok(SetMonth(t, tz, n))
    case Seconds => var n :- NumberOf(v); Ok(SetSeconds(t, tz, n))
    case UTCDate => var n :- NumberOf(v); Ok(SetDate(t, 0, n))
    case UTCFullYear => var n :- NumberOf(v); Ok(SetFullYear(t, 0, n))
    case UTCHours => var n :- NumberOf(v); Ok(SetHours(t, 0, n))
    case UTCMilliseconds => var n :- NumberOf(v); Ok(SetMilliseconds(t, 0, n))
    case UTCMinutes => var n :- NumberOf(v); Ok(SetMinutes(t, 0, n))
    case UTCMonth => var n :- NumberOf(v); Ok(SetMonth(t, 0, n))
    case UTCSeconds => var n :- NumberOf(v); Ok(SetSeconds(t, 0, n))
    case AMPM =>
      (match v
       case Str(s) => Ok(SetAMPM(t, tz, s))
       case Num(_) => Err(TypeError("ampm.toUpperCase is not a function")))
    case _ => Err(TypeError("set" + MethodName(f) + " is not a function"))
  }

  /** `set(prop, value)`: the new instant; an unknown name changes nothing. */
  function Set(t: int, tz: int, prop: string, v: Value): Result<int>
  {
    match Lookup(prop)
    case None => Ok(t)
    case Some(f) => Write(t, tz, f, v)
  }

  // ---- what the setters promise ---------------------------------------

  /** `set` with a name that selects an accessor writes through it. */
  lemma SetVia(t: int, tz: int, prop: string, f: Field, v: Value)
    requires Lookup(prop) == Some(f)
    ensures Set(t, tz, prop, v) == Write(t, tz, f, v)
  {
  }

  /** `set` with the names the date methods use and a number calls the setter it names. */
  lemma SetDateByName(t: int, tz: int, v: int)
    ensures Set(t, tz, "date", Num(v)) == Ok(SetDate(t, tz, v))
  {
    LookupName("date", Date);
    SetVia(t, tz, "date", Date, Num(v));
  }

  lemma SetMonthByName(t: int, tz: int, v: int)
    ensures Set(t, tz, "mo", Num(v)) == Ok(SetMonth(t, tz, v))
  {
    LookupName("mo", Month);
    SetVia(t, tz, "mo", Month, Num(v));
  }

  lemma SetTimeByName(t: int, tz: int, v: int)
    ensures Set(t, tz, "time", Num(v)) == Ok(v)
  {
    LookupName("time", Time);
    SetVia(t, tz, "time", Time, Num(v));
  }

  lemma SetYearByName(t: int, tz: int, v: int)
    ensures Set(t, tz, "year", Num(v)) == Ok(SetFullYear(t, tz, v))
  {
    LookupName("year", FullYear);
    SetVia(t, tz, "year", FullYear, Num(v));
  }

  /** ... and the same for the clock aliases of clearTime. */
  lemma SetClockByName(t: int, tz: int, v: int)
    ensures Set(t, tz, "hr", Num(v)) == Ok(SetHours(t, tz, v))
    ensures Set(t, tz, "min", Num(v)) == Ok(SetMinutes(t, tz, v))
    ensures Set(t, tz, "sec", Num(v)) == Ok(SetSeconds(t, tz, v))
    ensures Set(t, tz, "ms", Num(v)) == Ok(SetMilliseconds(t, tz, v))
  {
    LookupClockAliases();
    SetVia(t, tz, "hr", Hours, Num(v));
    SetVia(t, tz, "min", Minutes, Num(v));
    SetVia(t, tz, "sec", Seconds, Num(v));
    SetVia(t, tz, "ms", Milliseconds, Num(v));
  }

  /** The local fields of an instant are its local day and clock put back together. */
  lemma LocalRoundTrip(t: int, off: int)
    ensures WithCivil(t, off, YearAt(t, off), MonthAt(t, off), DateAt(t, off)) == t
  {
    MakeDayOfCivil(DayNumber(Local(t, off)));
    SplitDay(Local(t, off));
  }

  /** setDate moves the instant by whole days: setting date d + k adds k days. */
  lemma SetDateShift(t: int, off: int, v: int)
    ensures SetDate(t, off, v) == t + (v - DateAt(t, off)) * MsPerDay
  {
    LocalRoundTrip(t, off);
    MakeDayShift(YearAt(t, off), MonthAt(t, off), DateAt(t, off), v - DateAt(t, off));
  }

  /** A civil date that exists reads back unchanged, with t's local time of day. */
  lemma CivilReadBack(t: int, off: int, y: int, m: int, d: int)
    requires 0 <= m < 12 && 1 <= d <= MonthLength(m, IsGregorianLeap(y))
    ensures var t' := WithCivil(t, off, y, m, d);
      YearAt(t', off) == y && MonthAt(t', off) == m && DateAt(t', off) == d &&
      TimeWithinDay(Local(t', off)) == TimeWithinDay(Local(t, off))
  {
    var w := TimeWithinDay(Local(t, off));
    var t' := WithCivil(t, off, y, m, d);
    assert Local(t', off) == MakeDay(y, m, d) * MsPerDay + w;
    assert DayNumber(Local(t', off)) == MakeDay(y, m, d);
    CivilOfMakeDay(y, m, d);
  }

  /** An in-range clock reads back unchanged, on t's local day. */
  lemma ClockReadBack(t: int, off: int, h: int, mi: int, s: int, ms: int)
    requires 0 <= h < 24 && 0 <= mi < 60 && 0 <= s < 60 && 0 <= ms < 1000
    ensures var t' := WithClock(t, off, h, mi, s, ms);
      DayNumber(Local(t', off)) == DayNumber(Local(t, off)) &&
      HoursAt(t', off) == h && MinutesAt(t', off) == mi && SecondsAt(t', off) == s && MsAt(t', off) == ms
  {
    var t' := WithClock(t, off, h, mi, s, ms);
    assert Local(t', off) == MakeDate(DayNumber(Local(t, off)), MakeTime(h, mi, s, ms));
    FieldsOfMakeDate(DayNumber(Local(t, off)), h, mi, s, ms);
  }

  /** setDate with a day that exists in the month changes the date alone. */
  lemma SetDateReadBack(t: int, off: int, v: int)
    requires 1 <= v <= MonthLength(MonthAt(t, off), IsGregorianLeap(YearAt(t, off)))
    ensures var t' := SetDate(t, off, v);
      YearAt(t', off) == YearAt(t, off) && MonthAt(t', off) == MonthAt(t, off) && DateAt(t', off) == v &&
      TimeWithinDay(Local(t', off)) == TimeWithinDay(Local(t, off))
  {
    CivilReadBack(t, off, YearAt(t, off), MonthAt(t, off), v);
  }

  /** The months elapsed since January of year 0 at the local calendar date of t. */
  function MonthCount(t: int, off: int): int
  {
    YearAt(t, off) * 12 + MonthAt(t, off)
  }

  /**
   * setMonth carries whole years: the month count moves to that of month
   * v of the current year; with a date that exists in every month
   * nothing else moves.
   */
  lemma SetMonthRollover(t: int, off: int, v: int)
    requires DateAt(t, off) <= 28
    ensures var t' := SetMonth(t, off, v);
      MonthCount(t', off) == YearAt(t, off) * 12 + v &&
      DateAt(t', off) == DateAt(t, off) && TimeWithinDay(Local(t', off)) == TimeWithinDay(Local(t, off))
  {
    var y, d := YearAt(t, off), DateAt(t, off);
    assert SetMonth(t, off, v) == WithCivil(t, off, y, v, d);
    CarriedCivilReadBack(t, off, y, v, d, y + v / 12, v % 12);
  }

  /** Month v of year y reads back as month m2 of year y2 when y2 * 12 + m2 == y * 12 + v. */
  lemma CarriedCivilReadBack(t: int, off: int, y: int, v: int, d: int, y2: int, m2: int)
    requires 1 <= d <= 28 && 0 <= m2 < 12 && y2 * 12 + m2 == y * 12 + v
    ensures var t' := WithCivil(t, off, y, v, d);
      YearAt(t', off) == y2 && MonthAt(t', off) == m2 && DateAt(t', off) == d &&
      TimeWithinDay(Local(t', off)) == TimeWithinDay(Local(t, off))
  {
    assert y2 == y + v / 12 && m2 == v % 12;
    MakeDayCarry(y, v, d);
    assert WithCivil(t, off, y, v, d) == WithCivil(t, off, y2, m2, d);
    assert MonthLength(m2, IsGregorianLeap(y2)) >= 28;
    CivilReadBack(t, off, y2, m2, d);
  }

  /** setFullYear changes the year alone when the date exists in that year's month. */
  lemma SetYearReadBack(t: int, off: int, v: int)
    requires DateAt(t, off) <= MonthLength(MonthAt(t, off), IsGregorianLeap(v))
    ensures var t' := SetFullYear(t, off, v);
      YearAt(t', off) == v && MonthAt(t', off) == MonthAt(t, off) && DateAt(t', off) == DateAt(t, off) &&
      TimeWithinDay(Local(t', off)) == TimeWithinDay(Local(t, off))
  {
    CivilReadBack(t, off, v, MonthAt(t, off), DateAt(t, off));
  }

  /**
   * setAMPM moves the instant by 12 hours exactly when the hour and the
   * label disagree, leaving an hour on the label's side of noon.
   */
  lemma SetAMPMMeaning(t: int, tz: int, ampm: string)
    ensures var t' := SetAMPM(t, tz, ampm); var hr := HoursAt(t, tz);
      (hr > 11 && Upper(ampm) == "AM" ==> t' == t - 12 * MsPerHour && HoursAt(t', tz) == hr - 12) &&
      (hr < 12 && Upper(ampm) == "PM" ==> t' == t + 12 * MsPerHour && HoursAt(t', tz) == hr + 12) &&
      (!(hr > 11 && Upper(ampm) == "AM") && !(hr < 12 && Upper(ampm) == "PM") ==> t' == t)
  {
    var l := Local(t, tz);
    SplitTime(l);
    var hr := HoursAt(t, tz);
    var rest := MakeTime(0, MinFromTime(l), SecFromTime(l), MsFromTime(l));
    if hr > 11 && Upper(ampm) == "AM" {
      FieldsOfMakeDate(DayNumber(l), hr - 12, MinFromTime(l), SecFromTime(l), MsFromTime(l));
      assert Local(t - 12 * MsPerHour, tz) == MakeDate(DayNumber(l), MakeTime(hr - 12, MinFromTime(l), SecFromTime(l), MsFromTime(l)));
    } else if hr < 12 && Upper(ampm) == "PM" {
      FieldsOfMakeDate(DayNumber(l), hr + 12, MinFromTime(l), SecFromTime(l), MsFromTime(l));
      assert Local(t + 12 * MsPerHour, tz) == MakeDate(DayNumber(l), MakeTime(hr + 12, MinFromTime(l), SecFromTime(l), MsFromTime(l)));
    }
  }

  /** getAMPM reads back what setAMPM was given, for either label in any case. */
  lemma AmPmRoundTrip(t: int, tz: int, ampm: string)
    requires Upper(ampm) == "AM" || Upper(ampm) == "PM"
    ensures AmPmAt(SetAMPM(t, tz, ampm), tz) == Upper(ampm)
  {
    SetAMPMMeaning(t, tz, ampm);
  }

  /** get('date') reads back a date that setDate wrote, when the month has that day. */
  lemma GetAfterSetDate(t: int, tz: int, host: Host, v: int)
    requires 1 <= v <= MonthLength(MonthAt(t, tz), IsGregorianLeap(YearAt(t, tz)))
    ensures Get(SetDate(t, tz, v), tz, host, "date") == Ok(Some(Num(v)))
  {
    SetDateReadBack(t, tz, v);
    LookupSetterNames();
  }

  /** get with names that differ only in case reads the same getter. */
  lemma GetIgnoresCase(t: int, tz: int, host: Host, a: string, b: string)
    requires |a| == |b| && forall i :: 0 <= i < |a| ==> LowerChar(a[i]) == LowerChar(b[i])
    ensures Get(t, tz, host, a) == Get(t, tz, host, b)
  {
    LookupIgnoresCase(a, b);
  }

  /** getGMTOffset for the offsets the examples use. */
  lemma GMTOffsetExamples()
    ensures GMTOffsetText(-120) == "+0200"
    ensures GMTOffsetText(300) == "-0500"
    ensures GMTOffsetText(0) == "+0000"
  {
    GMTOffsetParts(-120, "+", "02", "00");
    GMTOffsetParts(300, "-", "05", "00");
    GMTOffsetParts(0, "+", "00", "00");
  }

  lemma GMTOffsetParts(off: int, sign: string, h: string, m: string)
    requires sign == (if off > 0 then "-" else "+")
    requires h == Zeroize(Abs(off) / 60, 2) && m == Zeroize(JsRem(off, 60), 2)
    ensures GMTOffsetText(off) == sign + h + m
  {
  }

  /**
   * The offset as the source writes it is a sign and four digits, hours
   * then minutes adding up to the offset, whenever the zone is west of
   * UTC or a whole number of hours east of it.
   */
  lemma GMTOffsetDigits(off: int)
    requires Abs(off) < 6000 && (off >= 0 || JsRem(off, 60) == 0)
    ensures var s := GMTOffsetText(off);
      |s| == 5 && (s[0] == '-' <==> off > 0) && (s[0] == '+' <==> off <= 0) &&
      IsAllDigits(s[1..3]) && IsAllDigits(s[3..]) &&
      DecimalValue(s[1..3]) * 60 + DecimalValue(s[3..]) == Abs(off)
  {
    var h, m := Abs(off) / 60, Abs(off) % 60;
    assert JsRem(off, 60) == m;
    OffsetText(off, h, m, GMTOffsetText(off));
  }

  /** A sign and the two padded parts of an offset below 100 hours. */
  lemma OffsetText(off: int, h: int, m: int, s: string)
    requires Abs(off) < 6000 && h == Abs(off) / 60 && m == Abs(off) % 60
    requires s == (if off > 0 then "-" else "+") + Zeroize(h, 2) + Zeroize(m, 2)
    ensures |s| == 5 && (s[0] == '-' <==> off > 0) && (s[0] == '+' <==> off <= 0)
    ensures IsAllDigits(s[1..3]) && IsAllDigits(s[3..])
    ensures DecimalValue(s[1..3]) * 60 + DecimalValue(s[3..]) == Abs(off)
  {
    assert Pow10(2) == 100;
    ZeroizeDigits(h, 2);
    ZeroizeDigits(m, 2);
    assert s[1..3] == Zeroize(h, 2) && s[3..] == Zeroize(m, 2);
  }

  /**
   * East of UTC by a fraction of an hour the remainder is negative and
   * zeroize pads it as '-30': India's offset of -330 minutes reads
   * '+05-30' where '+0530' is meant.
   */
  lemma GMTOffsetHalfHourEast()
    ensures GMTOffsetText(-330) == "+05-30"
    ensures GMTOffsetCorrected(-330) == "+0530"
  {
    assert JsRem(-330, 60) == -30;
    assert Zeroize(-30, 2) == "-30";
  }

  /** The offset with the minutes taken from the magnitude, as intended. */
  function GMTOffsetCorrected(off: int): string
  {
    (if off > 0 then "-" else "+") + Zeroize(Abs(off) / 60, 2) + Zeroize(Abs(off) % 60, 2)
  }

  /** The corrected offset is a sign and four digits, hours then minutes, for every offset below 100 hours. */
  lemma GMTOffsetCorrectedDigits(off: int)
    requires Abs(off) < 6000
    ensures var s := GMTOffsetCorrected(off);
      |s| == 5 && (s[0] == '-' <==> off > 0) && (s[0] == '+' <==> off <= 0) &&
      IsAllDigits(s[1..3]) && IsAllDigits(s[3..]) &&
      DecimalValue(s[1..3]) * 60 + DecimalValue(s[3..]) == Abs(off)
  {
    OffsetText(off, Abs(off) / 60, Abs(off) % 60, GMTOffsetCorrected(off));
  }

  /** The two agree exactly where the remainder is not negative. */
  lemma GMTOffsetAgreement(off: int)
    ensures GMTOffsetText(off) == GMTOffsetCorrected(off) <==> JsRem(off, 60) >= 0
  {
    var a, b := Zeroize(JsRem(off, 60), 2), Zeroize(Abs(off) % 60, 2);
    if JsRem(off, 60) >= 0 {
      assert JsRem(off, 60) == Abs(off) % 60;
    } else {
      var head := (if off > 0 then "-" else "+") + Zeroize(Abs(off) / 60, 2);
      assert GMTOffsetText(off) == head + a && GMTOffsetCorrected(off) == head + b;
      assert a[0] == '-';
      assert b[0] != '-' by {
        assert Pow10(2) == 100;
        ZeroizeDigits(Abs(off) % 60, 2);
      }
      assert (head + a)[|head|] != (head + b)[|head|];
    }
  }
}
