/**
 * A date object.  Its only state is the instant `time`; the local offset
 * `tz` stays fixed for the object's life.  The methods change the instant
 * the way the source does, through the string-named setters called one
 * after the other, and each is proved to reach the instant the functions
 * of the Fields and Arithmetic modules describe.  An `err` result stands
 * for an exception: the state is then the one reached when it was thrown.
 */
module Dates {
  import opened Errors
  import opened Text
  import opened Calendar
  import opened CalendarRules
  import opened Fields
  import opened Arithmetic
  import opened Handlers

  /** The state `after` and error `err` of a call whose described result is r, started at `before`. */
  predicate Reached(r: Result<int>, before: int, after: int, err: Option<Error>)
  {
    match r
    case Ok(v) => after == v && err == None
    case Err(e) => after == before && err == Some(e)
  }

  /**
   * The termination rank of increment: 'year' and 'week' call increment
   * again with 'month' and 'day'.  set('ampm') ranks above setAMPM, which
   * ranks above decrement, which ranks above increment, which calls set
   * only with names other than 'ampm'.
   */
  function IncrementRank(interval: string): nat
  {
    var iv := IntervalOrDay(interval);
    if iv == "year" || iv == "week" then 3 else 2
  }

  class JsDate {
    var time: int
    const tz: int

    /** `new Date(t)` in a host whose local offset is `offset`. */
    constructor(t: int, offset: int)
      ensures time == t && tz == offset
    {
      time := t;
      tz := offset;
    }

    /** `isValid()`: the instant's value is truthy. */
    predicate IsValid()
      reads this
    {
      time != 0
    }

    /** `isValid(date)`: the argument's validity when one is given, this date's otherwise. */
    function IsValidWith(other: JsDate?): (valid: bool)
      reads this, other
      ensures other == null ==> (valid <==> IsValid())
      ensures other != null ==> (valid <==> other.IsValid())
    {
      (if other != null then other.time else time) != 0
    }

    /** `clone()`: a new date at the same instant. */
    method Clone() returns (d: JsDate)
      ensures fresh(d) && d.time == time && d.tz == tz
    {
      d := new JsDate(time, tz);
    }

    /** `set(prop, value)` with a property name. */
    method Set(prop: string, v: Value) returns (err: Option<Error>)
      modifies this
      decreases if Lookup(prop) == Some(AMPM) then 6 else 0
      ensures Reached(Fields.Set(old(time), tz, prop, v), old(time), time, err)
    {
      match Lookup(prop)
      case None =>
        err := None;
      case Some(f) =>
        if f == AMPM {
          match v
          case Str(s) =>
            err := SetAMPM(s);
          case Num(_) =>
            err := Some(TypeError("ampm.toUpperCase is not a function"));
        } else {
          var r := Write(time, tz, f, v);
          if r.Err? {
            err := Some(r.error);
          } else {
            time := r.value;
            err := None;
          }
        }
    }

    /** `set({p1: v1, ...})`: the entries in order, stopping at the first that throws. */
    method SetMany(entries: seq<(string, Value)>) returns (err: Option<Error>)
      modifies this
      decreases 7
      ensures Outcome(time, err) == SetAll(old(time), tz, entries)
    {
      var i := 0;
      while i < |entries|
        invariant 0 <= i <= |entries|
        invariant SetAll(old(time), tz, entries) == SetAll(time, tz, entries[i..])
      {
        assert entries[i..][1..] == entries[i + 1..];
        var e := Set(entries[i].0, entries[i].1);
        if e.Some? {
          return e;
        }
        i := i + 1;
      }
      err := None;
    }

    /** `setAMPM(ampm)`: decrement or increment by 12 hours when the hour is on the other side of noon. */
    method SetAMPM(ampm: string) returns (err: Option<Error>)
      modifies this
      decreases 5
      ensures time == Fields.SetAMPM(old(time), tz, ampm) && err == None
    {
      var a := Upper(ampm);
      var hr := HoursAt(time, tz);
      HalfDaySteps(time, tz);
      if hr > 11 && a == "AM" {
        err := Decrement("hour", Some(12));
      } else if hr < 12 && a == "PM" {
        err := Increment("hour", Some(12));
      } else {
        err := None;
      }
    }

    /** `decrement(interval, times)`: increment by minus the count. */
    method Decrement(interval: string, times: Option<int>) returns (err: Option<Error>)
      modifies this
      decreases 4
      ensures Reached(Arithmetic.Decrement(old(time), tz, interval, times), old(time), time, err)
    {
      err := Increment(interval, Some(-1 * TimesOrOne(times)));
    }

    /** `increment(interval, times)`. */
    method Increment(interval: string, times: Option<int>) returns (err: Option<Error>)
      modifies this
      decreases IncrementRank(interval)
      ensures Reached(Arithmetic.Increment(old(time), tz, interval, times), old(time), time, err)
    {
      var iv := IntervalOrDay(interval);
      var n := TimesOrOne(times);
      if iv == "year" {
        var m := n * 12;
        IncrementYearIsMonths(time, tz, interval, times, m);
        err := Increment("month", Some(m));
      } else if iv == "month" {
        IncrementMonthBranch(time, tz, interval, times);
        IncrementMonths(n);
        err := None;
      } else if iv == "week" {
        var m := n * 7;
        IncrementWeekIsDays(time, tz, interval, times, m);
        err := Increment("day", Some(m));
      } else if iv == "day" {
        IncrementDayBranch(time, tz, interval, times, DateAt(time, tz) + n);
        err := IncrementDays(n);
      } else if UnitMs(iv).None? {
        IncrementUnitBranch(time, tz, interval, times);
        err := Some(UnsupportedInterval(iv));
      } else {
        IncrementUnitBranch(time, tz, interval, times);
        err := IncrementTime(n * UnitMs(iv).value);
      }
    }

    /** The day branch of increment: set('date', getDate() + n). */
    method IncrementDays(n: int) returns (err: Option<Error>)
      modifies this
      decreases 1
      ensures time == SetDate(old(time), tz, DateAt(old(time), tz) + n) && err == None
    {
      var d := DateAt(time, tz) + n;
      LookupSetterNames();
      SetDateByName(time, tz, d);
      err := Set("date", Num(d));
    }

    /** The fixed-unit branch of increment: set('time', getTime() + ms). */
    method IncrementTime(ms: int) returns (err: Option<Error>)
      modifies this
      decreases 1
      ensures time == old(time) + ms && err == None
    {
      var v := time + ms;
      LookupSetterNames();
      SetTimeByName(time, tz, v);
      err := Set("time", Num(v));
    }

    /** The month branch of increment: remember the date, go to the 1st, move the month, clamp the date. */
    method IncrementMonths(n: int)
      modifies this
      decreases 1
      ensures time == MonthsLater(old(time), tz, n)
    {
      LookupSetterNames();
      var d := DateAt(time, tz);
      ghost var t0 := time;
      SetDateByName(t0, tz, 1);
      var _ := Set("date", Num(1));
      assert time == SetDate(t0, tz, 1);
      ghost var t1 := time;
      var m := MonthAt(time, tz) + n;
      SetMonthByName(t1, tz, m);
      var _ := Set("mo", Num(m));
      assert time == SetMonth(t1, tz, m);
      ghost var t2 := time;
      var last := Min(d, DaysInMonthAt(time, tz));
      SetDateByName(t2, tz, last);
      var _ := Set("date", Num(last));
      assert time == SetDate(t2, tz, last);
      MonthsLaterBySteps(t0, tz, n, t1, m, t2, last, time);
    }

    /** `clearTime()`: set({hr: 0, min: 0, sec: 0, ms: 0}). */
    method ClearTime() returns (err: Option<Error>)
      modifies this
      decreases 8
      ensures Outcome(time, err) == Arithmetic.ClearTime(old(time), tz)
      ensures err == None && DayNumber(Local(time, tz)) == DayNumber(Local(old(time), tz))
      ensures TimeWithinDay(Local(time, tz)) == 0
    {
      err := SetMany(Midnight);
      ClearTimeMeaning(old(time), tz);
    }

    /** `handle.call(this, key, value)`: the field a captured text names, set through `set`. */
    method Handle(key: char, value: Option<string>, env: Env) returns (err: Option<Error>)
      modifies this
      decreases 9
      ensures Reached(Handlers.Handle(old(time), tz, env, key, value), old(time), time, err)
    {
      var step := Step(time, tz, env, key, value);
      match step
      case Err(e) =>
        err := Some(e);
      case Ok(Keep) =>
        err := None;
      case Ok(Assign(p, v)) =>
        err := Set(p, v);
    }
  }
}
