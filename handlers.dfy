/**
 * The field handlers of a compiled parse pattern: `handle(key, value)`
 * sets one field of the date from the text one capturing group matched,
 * and a pattern's handler runs it for every captured letter in order,
 * starting from today at midnight.
 */
module Handlers {
  import opened Errors
  import opened Text
  import opened Locales
  import opened Calendar
  import opened CalendarRules
  import opened Fields
  import opened Names
  import opened Arithmetic

  /** The two-digit-year window: `yr_base` and `yr_start`. */
  datatype YearWindow = YearWindow(base: int, start: int)

  const DefaultWindow: YearWindow := YearWindow(1900, 70)

  /** `define2DigitYearStart(year)`: the window of two-digit years that starts at year. */
  function WindowFrom(year: int): (w: YearWindow)
    ensures w.base + w.start == year && w.start == JsRem(year, 100)
  {
    var st := JsRem(year, 100);
    YearWindow(year - st, st)
  }

  /** The 'y' handler's reading of a number below 100 as a year of the window. */
  function Widen(w: YearWindow, v: int): int
  {
    if v < 100 then v + w.base + (if v < w.start then 100 else 0) else v
  }

  /** What a handler reads besides the date: the current locale and year window. */
  datatype Env = Env(locale: Locale, window: YearWindow)

  /** What handle does with the date: nothing, or one call of set. */
  datatype Action = Keep | Assign(prop: string, v: Value)

  /** `value.replace(/\./g, '')`. */
  function RemoveDots(s: string): (r: string)
    ensures |r| <= |s| && forall i :: 0 <= i < |r| ==> r[i] != '.'
  {
    if s == [] then [] else (if s[0] == '.' then [] else [s[0]]) + RemoveDots(s[1..])
  }

  /** The dots go and everything else stays, in order: removing dots distributes over concatenation. */
  lemma {:induction false} RemoveDotsAppend(a: string, b: string)
    ensures RemoveDots(a + b) == RemoveDots(a) + RemoveDots(b)
    decreases |a|
  {
    if a != [] {
      assert (a + b)[1..] == a[1..] + b;
      RemoveDotsAppend(a[1..], b);
    } else {
      assert a + b == b;
    }
  }

  /** A text without a dot is kept as it is, and only such a text. */
  lemma {:induction false} RemoveDotsKeeps(s: string)
    ensures RemoveDots(s) == s <==> forall i :: 0 <= i < |s| ==> s[i] != '.'
    decreases |s|
  {
    if s != [] {
      RemoveDotsKeeps(s[1..]);
      if s[0] != '.' {
        assert (forall i :: 0 <= i < |s| ==> s[i] != '.') <==> (forall i :: 0 <= i < |s[1..]| ==> s[1..][i] != '.') by {
          forall i | 0 < i < |s| ensures s[i] == s[1..][i - 1] { }
        }
      } else {
        assert |RemoveDots(s)| < |s|;
      }
    }
  }

  /**
   * `('0.' + value) * 1000` as setMilliseconds receives it: the first three
   * digits after the decimal point, read in exact decimal arithmetic.
   */
  function FractionMs(s: string): Result<int>
  {
    if s != [] && IsAllDigits(s) then
      Ok(100 * DigitValue(s[0]) + 10 * (if |s| > 1 then DigitValue(s[1]) else 0) + (if |s| > 2 then DigitValue(s[2]) else 0))
    else Err(NotANumber("0." + s))
  }

  /** A sign and two digits: the hours of a zone offset. */
  predicate IsZoneHours(h: string)
  {
    |h| == 3 && (h[0] == '+' || h[0] == '-') && IsDigit(h[1]) && IsDigit(h[2])
  }

  /** `value.match(/([+-]\d{2}):?(\d{2})?/)`: the signed hours and the minutes, where they first occur. */
  function ZoneMatch(s: string): (m: Option<(string, Option<string>)>)
    ensures m.Some? ==> IsZoneHours(m.value.0)
    ensures m.Some? && m.value.1.Some? ==> |m.value.1.value| == 2 && IsAllDigits(m.value.1.value)
  {
    if |s| < 3 then None
    else if IsZoneHours(s[..3]) then Some((s[..3], MinutesAfter(s[3..])))
    else ZoneMatch(s[1..])
  }

  /** `:?(\d{2})?` right after the hours: an optional colon, then two digits if they follow. */
  function MinutesAfter(r: string): (m: Option<string>)
    ensures m.Some? ==> |m.value| == 2 && IsAllDigits(m.value)
  {
    var r' := if |r| >= 1 && r[0] == ':' then r[1..] else r;
    if |r'| >= 2 && IsDigit(r'[0]) && IsDigit(r'[1]) then Some(r'[..2]) else None
  }

  /** Position i of s starts a sign and two digits. */
  predicate ZoneAt(s: string, i: int)
  {
    0 <= i && i + 3 <= |s| && IsZoneHours(s[i..i + 3])
  }

  /** The zone is found exactly when some position starts a sign and two digits. */
  lemma {:induction false} ZoneMatchNone(s: string)
    ensures ZoneMatch(s).None? <==> forall i :: !ZoneAt(s, i)
    decreases |s|
  {
    if |s| >= 3 && !IsZoneHours(s[..3]) {
      ZoneMatchNone(s[1..]);
      ZoneAtTail(s);
      if ZoneMatch(s[1..]).None? {
        forall i ensures !ZoneAt(s, i) {
          if i > 0 {
            assert !ZoneAt(s[1..], i - 1);
          }
        }
      } else {
        var i :| ZoneAt(s[1..], i);
        assert ZoneAt(s, i + 1);
      }
    } else if |s| >= 3 {
      assert s[0..3] == s[..3];
      assert ZoneAt(s, 0);
    }
  }

  /** The match is at the first such position: its hours are the three characters there, and its minutes follow them. */
  lemma {:induction false} ZoneMatchFirst(s: string)
    requires ZoneMatch(s).Some?
    ensures exists i ::
      && ZoneAt(s, i) && (forall j :: 0 <= j < i ==> !ZoneAt(s, j))
      && ZoneMatch(s).value == (s[i..i + 3], MinutesAfter(s[i + 3..]))
    decreases |s|
  {
    if IsZoneHours(s[..3]) {
      assert s[0..3] == s[..3];
      assert ZoneAt(s, 0);
    } else {
      ZoneMatchFirst(s[1..]);
      ZoneAtTail(s);
      var i :| ZoneAt(s[1..], i) && (forall j :: 0 <= j < i ==> !ZoneAt(s[1..], j)) &&
        ZoneMatch(s[1..]).value == (s[1..][i..i + 3], MinutesAfter(s[1..][i + 3..]));
      assert s[1..][i..i + 3] == s[i + 1..i + 4] && s[1..][i + 3..] == s[i + 4..];
      assert ZoneAt(s, i + 1);
      forall j | 0 <= j < i + 1 ensures !ZoneAt(s, j) {
        if j > 0 {
          assert !ZoneAt(s[1..], j - 1);
        }
      }
    }
  }

  /** Past a first character that starts no zone, the positions of s are those of its tail, one on. */
  lemma ZoneAtTail(s: string)
    requires |s| >= 3 && !IsZoneHours(s[..3])
    ensures !ZoneAt(s, 0)
    ensures forall i :: ZoneAt(s, i + 1) <==> ZoneAt(s[1..], i)
  {
    assert s[0..3] == s[..3];
    forall i ensures ZoneAt(s, i + 1) <==> ZoneAt(s[1..], i) {
      if 0 <= i && i + 3 <= |s[1..]| {
        assert s[1..][i..i + 3] == s[i + 1..i + 4];
      }
    }
  }

  /** `(offset[2] || 0).toInt()`. */
  function ZoneMinutesText(m: Option<string>): int
  {
    match m
    case Some(mm) => if IsAllDigits(mm) then DecimalValue(mm) else 0
    case None => 0
  }

  /** The 'T' handler: the new instant, with 'Z' read as '+00'. */
  function ZoneTime(t: int, tz: int, value: string): Result<int>
  {
    var v := if value == "Z" then "+00" else value;
    match ZoneMatch(v)
    case None => Err(TypeError("offset is null"))
    case Some((h, m)) =>
      var hours :- NumberOf(Str(h));
      var offset := hours * 60 + ZoneMinutesText(m) + tz;
      Ok(t + offset * MsPerMinute)
  }

  /** The signed size of a zone's hours field: ToNumber of a sign and two digits. */
  function ZoneHoursValue(h: string): int
    requires IsZoneHours(h)
  {
    var n := DigitValue(h[1]) * 10 + DigitValue(h[2]);
    if h[0] == '-' then -n else n
  }

  /**
   * The offset from UTC, in minutes east, that a zone designator writes:
   * 'Z' is 0, '+05:30' is 330 and '-05:30' is -330.  The sign covers the
   * minutes as well as the hours.
   */
  function ZoneMinutes(value: string): Option<int>
  {
    var v := if value == "Z" then "+00" else value;
    match ZoneMatch(v)
    case None => None
    case Some((h, m)) =>
      var size := (DigitValue(h[1]) * 10 + DigitValue(h[2])) * 60 + ZoneMinutesText(m);
      Some(if h[0] == '-' then -size else size)
  }

  /**
   * The 'T' handler as later versions of the library write it: the date's
   * local clock reading, taken as a reading in the written zone.
   */
  function ZoneTimeFixed(t: int, tz: int, value: string): Result<int>
  {
    match ZoneMinutes(value)
    case None => Err(TypeError("offset is null"))
    case Some(z) => Ok(t - (z + tz) * MsPerMinute)
  }

  /**
   * handle(key, value) up to its call of set.  An empty or missing value
   * stands for 1 with 'm' and 'd' and leaves the date alone otherwise.
   */
  function Step(t: int, tz: int, env: Env, key: char, value: Option<string>): Result<Action>
  {
    var s := value.GetOr("");
    if s == [] && key != 'm' && key != 'd' then Ok(Keep)
    else
      var v := if s == [] then Num(1) else Str(s);
      if key == 'a' || key == 'A' then
        var i :- Position(env.locale, DayKind, TextWord(s));
        Ok(Assign("day", Num(i)))
      else if key == 'b' || key == 'B' then
        var i :- Position(env.locale, MonthKind, TextWord(s));
        Ok(Assign("mo", Num(i)))
      else if key == 'd' then Ok(Assign("date", v))
      else if key == 'H' || key == 'I' then Ok(Assign("hr", v))
      else if key == 'm' then
        var n :- NumberOf(v);
        Ok(Assign("mo", Num(n - 1)))
      else if key == 'M' then Ok(Assign("min", v))
      else if key == 'p' then Ok(Assign("ampm", Str(RemoveDots(s))))
      else if key == 'S' then Ok(Assign("sec", v))
      else if key == 's' then
        var ms :- FractionMs(s);
        Ok(Assign("ms", Num(ms)))
      else if key == 'w' then Ok(Assign("day", v))
      else if key == 'Y' then Ok(Assign("year", v))
      else if key == 'y' then
        var n :- NumberOf(v);
        Ok(Assign("year", Num(Widen(env.window, n))))
      else if key == 'T' then
        var r :- ZoneTime(t, tz, s);
        Ok(Assign("time", Num(r)))
      else Ok(Keep)
  }

  /** `handle.call(date, key, value)`: the instant it leaves the date at. */
  function Handle(t: int, tz: int, env: Env, key: char, value: Option<string>): Result<int>
  {
    var a :- Step(t, tz, env, key, value);
    match a
    case Keep => Ok(t)
    case Assign(p, v) => Fields.Set(t, tz, p, v)
  }

  /** `bits[j]`, undefined past the end. */
  function Bit(bits: seq<Option<string>>, j: int): Option<string>
  {
    if 0 <= j < |bits| then bits[j] else None
  }

  /** The handler's loop from parsed[k] on: parsed[k] is filled from bits[k + 1]. */
  function HandleFrom(t: int, tz: int, env: Env, parsed: seq<char>, bits: seq<Option<string>>, k: nat): Outcome
    decreases |parsed| - k
  {
    if k >= |parsed| then Outcome(t, None)
    else match Handle(t, tz, env, parsed[k], Bit(bits, k + 1))
      case Err(e) => Outcome(t, Some(e))
      case Ok(t') => HandleFrom(t', tz, env, parsed, bits, k + 1)
  }

  /** A compiled pattern's handler, given the instant `now` it reads as `new Date()`. */
  function Handler(now: int, tz: int, env: Env, parsed: seq<char>, bits: seq<Option<string>>): Outcome
  {
    HandleFrom(ClearTime(now, tz).time, tz, env, parsed, bits, 0)
  }

  // ---- what the handlers promise --------------------------------------------

  /** An empty capture is the 1st with 'd', January with 'm', and no change with any other letter. */
  lemma HandleEmpty(t: int, tz: int, env: Env, key: char, value: Option<string>)
    requires value == None || value == Some("")
    ensures Handle(t, tz, env, 'd', value) == Ok(SetDate(t, tz, 1))
    ensures Handle(t, tz, env, 'm', value) == Ok(SetMonth(t, tz, 0))
    ensures key != 'd' && key != 'm' ==> Handle(t, tz, env, key, value) == Ok(t)
  {
    SetDateByName(t, tz, 1);
    SetMonthByName(t, tz, 0);
  }

  /** handle goes through set with what its switch chose. */
  lemma HandleVia(t: int, tz: int, env: Env, key: char, value: Option<string>, p: string, v: Value)
    requires Step(t, tz, env, key, value) == Ok(Assign(p, v))
    ensures Handle(t, tz, env, key, value) == Fields.Set(t, tz, p, v)
  {
  }

  /** A numeral reaches a numeric setter as its number. */
  lemma WriteNumeral(t: int, tz: int, f: Field, s: string)
    requires IsAllDigits(s) && (f == Date || f == FullYear || f == Hours || f == Minutes || f == Seconds)
    ensures Write(t, tz, f, Str(s)) == Write(t, tz, f, Num(DecimalValue(s)))
  {
    assert NumberOf(Str(s)) == Ok(DecimalValue(s));
  }

  /** The switch for captured digits. */
  lemma StepDigits(t: int, tz: int, env: Env, s: string)
    requires s != [] && IsAllDigits(s)
    ensures Step(t, tz, env, 'd', Some(s)) == Ok(Assign("date", Str(s)))
    ensures Step(t, tz, env, 'm', Some(s)) == Ok(Assign("mo", Num(DecimalValue(s) + -1)))
    ensures Step(t, tz, env, 'Y', Some(s)) == Ok(Assign("year", Str(s)))
    ensures Step(t, tz, env, 'y', Some(s)) == Ok(Assign("year", Num(Widen(env.window, DecimalValue(s)))))
    ensures Step(t, tz, env, 'H', Some(s)) == Ok(Assign("hr", Str(s)))
    ensures Step(t, tz, env, 'I', Some(s)) == Ok(Assign("hr", Str(s)))
    ensures Step(t, tz, env, 'M', Some(s)) == Ok(Assign("min", Str(s)))
    ensures Step(t, tz, env, 'S', Some(s)) == Ok(Assign("sec", Str(s)))
  {
    assert NumberOf(Str(s)) == Ok(DecimalValue(s));
  }

  /** Digits captured for the date go to setDate. */
  lemma HandleDate(t: int, tz: int, env: Env, s: string)
    requires s != [] && IsAllDigits(s)
    ensures Handle(t, tz, env, 'd', Some(s)) == Ok(SetDate(t, tz, DecimalValue(s)))
  {
    StepDigits(t, tz, env, s);
    HandleVia(t, tz, env, 'd', Some(s), "date", Str(s));
    LookupName("date", Date);
    SetVia(t, tz, "date", Date, Str(s));
    WriteNumeral(t, tz, Date, s);
  }

  /** Digits captured for the month go to setMonth, one less: months count from 0. */
  lemma HandleMonth(t: int, tz: int, env: Env, s: string, month: int)
    requires s != [] && IsAllDigits(s) && month == DecimalValue(s) + -1
    ensures Handle(t, tz, env, 'm', Some(s)) == Ok(SetMonth(t, tz, month))
  {
    StepDigits(t, tz, env, s);
    HandleVia(t, tz, env, 'm', Some(s), "mo", Num(month));
    SetMonthByName(t, tz, month);
  }

  /** Digits captured for a four-digit year go to setFullYear as they are. */
  lemma HandleYear(t: int, tz: int, env: Env, s: string)
    requires s != [] && IsAllDigits(s)
    ensures Handle(t, tz, env, 'Y', Some(s)) == Ok(SetFullYear(t, tz, DecimalValue(s)))
  {
    StepDigits(t, tz, env, s);
    HandleVia(t, tz, env, 'Y', Some(s), "year", Str(s));
    LookupName("year", FullYear);
    SetVia(t, tz, "year", FullYear, Str(s));
    WriteNumeral(t, tz, FullYear, s);
  }

  /** Digits captured for a two-digit year go to setFullYear through the year window. */
  lemma HandleShortYear(t: int, tz: int, env: Env, s: string)
    requires s != [] && IsAllDigits(s)
    ensures Handle(t, tz, env, 'y', Some(s)) == Ok(SetFullYear(t, tz, Widen(env.window, DecimalValue(s))))
  {
    StepDigits(t, tz, env, s);
    var y := Widen(env.window, DecimalValue(s));
    HandleVia(t, tz, env, 'y', Some(s), "year", Num(y));
    SetYearByName(t, tz, y);
  }

  /** Digits captured for the hours, minutes and seconds go to their setters. */
  lemma HandleClockDigits(t: int, tz: int, env: Env, s: string)
    requires s != [] && IsAllDigits(s)
    ensures Handle(t, tz, env, 'H', Some(s)) == Ok(SetHours(t, tz, DecimalValue(s)))
    ensures Handle(t, tz, env, 'I', Some(s)) == Ok(SetHours(t, tz, DecimalValue(s)))
    ensures Handle(t, tz, env, 'M', Some(s)) == Ok(SetMinutes(t, tz, DecimalValue(s)))
    ensures Handle(t, tz, env, 'S', Some(s)) == Ok(SetSeconds(t, tz, DecimalValue(s)))
  {
    var n := DecimalValue(s);
    StepDigits(t, tz, env, s);
    HandleVia(t, tz, env, 'H', Some(s), "hr", Str(s));
    HandleVia(t, tz, env, 'I', Some(s), "hr", Str(s));
    HandleVia(t, tz, env, 'M', Some(s), "min", Str(s));
    HandleVia(t, tz, env, 'S', Some(s), "sec", Str(s));
    LookupClockAliases();
    SetVia(t, tz, "hr", Hours, Str(s));
    SetVia(t, tz, "min", Minutes, Str(s));
    SetVia(t, tz, "sec", Seconds, Str(s));
    WriteNumeral(t, tz, Hours, s);
    WriteNumeral(t, tz, Minutes, s);
    WriteNumeral(t, tz, Seconds, s);
  }

  lemma StepFraction(t: int, tz: int, env: Env, s: string)
    requires s != [] && IsAllDigits(s)
    ensures Step(t, tz, env, 's', Some(s)) == Ok(Assign("ms", Num(FractionMs(s).value)))
  {
  }

  /** Fraction digits go to setMilliseconds as the first three digits after the point. */
  lemma HandleFraction(t: int, tz: int, env: Env, s: string)
    requires s != [] && IsAllDigits(s)
    ensures var ms := FractionMs(s).value;
      0 <= ms < 1000 && Handle(t, tz, env, 's', Some(s)) == Ok(SetMilliseconds(t, tz, ms))
  {
    var ms := FractionMs(s).value;
    StepFraction(t, tz, env, s);
    HandleVia(t, tz, env, 's', Some(s), "ms", Num(ms));
    SetClockByName(t, tz, ms);
  }

  /** A month name (or unique prefix) sets the month to its position in the locale. */
  lemma HandleMonthName(t: int, tz: int, env: Env, s: string, i: int)
    requires s != [] && UniqueIn(env.locale.months, Prefix(s), i)
    ensures Handle(t, tz, env, 'b', Some(s)) == Ok(SetMonth(t, tz, i))
    ensures Handle(t, tz, env, 'B', Some(s)) == Ok(SetMonth(t, tz, i))
  {
    ParseTextWord(env.locale, MonthKind, s, true);
    SetMonthByName(t, tz, i);
  }

  /** The accessor table has no setDay. */
  lemma NoDaySetter(t: int, tz: int, v: Value)
    ensures Fields.Set(t, tz, "day", v) == Err(TypeError("setDay is not a function"))
  {
    LookupName("day", Day);
    assert "set" + MethodName(Day) + " is not a function" == "setDay is not a function";
  }

  /** A weekday never gets set: 'a', 'A' and 'w' throw, with the missing setDay unless the name is rejected first. */
  lemma HandleWeekDay(t: int, tz: int, env: Env, key: char, s: string)
    requires s != [] && (key == 'a' || key == 'A' || key == 'w')
    ensures Handle(t, tz, env, key, Some(s)).Err?
    ensures key == 'w' || Position(env.locale, DayKind, TextWord(s)).Ok? ==>
      Handle(t, tz, env, key, Some(s)) == Err(TypeError("setDay is not a function"))
  {
    var st := Step(t, tz, env, key, Some(s));
    if st.Ok? {
      assert st.value.Assign? && st.value.prop == "day";
      HandleVia(t, tz, env, key, Some(s), "day", st.value.v);
      NoDaySetter(t, tz, st.value.v);
    }
  }

  lemma MeridiemSetter()
    ensures Lookup("ampm") == Some(AMPM)
  {
    LookupName("ampm", AMPM);
  }

  lemma WriteMeridiem(t: int, tz: int, r: string)
    ensures Write(t, tz, AMPM, Str(r)) == Ok(Fields.SetAMPM(t, tz, r))
  {
  }

  lemma StepMeridiem(t: int, tz: int, env: Env, s: string)
    requires s != []
    ensures Step(t, tz, env, 'p', Some(s)) == Ok(Assign("ampm", Str(RemoveDots(s))))
  {
  }

  /** The meridiem letter drops the dots and goes through setAMPM. */
  lemma HandleMeridiem(t: int, tz: int, env: Env, s: string)
    requires s != []
    ensures Handle(t, tz, env, 'p', Some(s)) == Ok(Fields.SetAMPM(t, tz, RemoveDots(s)))
  {
    var r := RemoveDots(s);
    StepMeridiem(t, tz, env, s);
    HandleVia(t, tz, env, 'p', Some(s), "ampm", Str(r));
    MeridiemSetter();
    SetVia(t, tz, "ampm", AMPM, Str(r));
    WriteMeridiem(t, tz, r);
  }

  /** Letters handle has no case for leave the date alone. */
  lemma HandleOtherKeys(t: int, tz: int, env: Env, key: char, value: Option<string>)
    requires key != 'a' && key != 'A' && key != 'b' && key != 'B' && key != 'd' && key != 'H' && key != 'I'
    requires key != 'm' && key != 'M' && key != 'p' && key != 'S' && key != 's' && key != 'w' && key != 'Y'
    requires key != 'y' && key != 'T'
    ensures Handle(t, tz, env, key, value) == Ok(t)
  {
  }

  /**
   * A window started at a year y >= 0 reads every two-digit number v as
   * the one year of y .. y + 99 that ends in v.
   */
  lemma WidenWithinWindow(year: int, v: int)
    requires year >= 0 && 0 <= v < 100
    ensures var y := Widen(WindowFrom(year), v); year <= y < year + 100 && y % 100 == v
  {
    var w := WindowFrom(year);
    assert w.start == year % 100 && w.base == (year / 100) * 100;
  }

  /** The default window runs from 1970: '05' is 2005, '69' is 2069, '70' is 1970 and '95' is 1995. */
  lemma DefaultWindowYears()
    ensures Widen(DefaultWindow, 5) == 2005 && Widen(DefaultWindow, 69) == 2069
    ensures Widen(DefaultWindow, 70) == 1970 && Widen(DefaultWindow, 95) == 1995
    ensures forall v :: 100 <= v ==> Widen(DefaultWindow, v) == v
  {
  }

  /** The default window is the one define2DigitYearStart(1970) sets. */
  lemma DefaultWindowStart()
    ensures WindowFrom(1970) == DefaultWindow
  {
  }

  // ---- the handler's loop ---------------------------------------------------

  /** With no captured letters the handler gives today at midnight. */
  lemma HandlerWithoutFields(now: int, tz: int, env: Env, bits: seq<Option<string>>)
    ensures var r := Handler(now, tz, env, [], bits);
      r.error == None && DayNumber(Local(r.time, tz)) == DayNumber(Local(now, tz)) &&
      TimeWithinDay(Local(r.time, tz)) == 0
  {
    ClearTimeMeaning(now, tz);
  }

  /** Two letters in a row: the second works on the instant the first left. */
  lemma HandleTwo(t: int, tz: int, env: Env, a: char, b: char, x: string, y: string, t1: int, t2: int)
    requires Handle(t, tz, env, a, Some(x)) == Ok(t1) && Handle(t1, tz, env, b, Some(y)) == Ok(t2)
    ensures HandleFrom(t, tz, env, [a, b], [None, Some(x), Some(y)], 0) == Outcome(t2, None)
  {
    var bits := [None, Some(x), Some(y)];
    assert Bit(bits, 1) == Some(x) && Bit(bits, 2) == Some(y);
    assert HandleFrom(t2, tz, env, [a, b], bits, 2) == Outcome(t2, None);
    assert HandleFrom(t1, tz, env, [a, b], bits, 1) == Outcome(t2, None);
  }

  // ---- the zone offset ------------------------------------------------------

  /** ToNumber reads the hours field with its sign. */
  lemma ZoneHoursNumber(h: string)
    requires IsZoneHours(h)
    ensures NumberOf(Str(h)) == Ok(ZoneHoursValue(h))
  {
    var x := h[1..];
    assert !IsAllDigits(h) by { assert !IsDigit(h[0]); }
    assert IsAllDigits(x) by { assert x[0] == h[1] && x[1] == h[2]; }
    assert |x| == 2 && x[1] == h[2] && x[..1] == [h[1]] && [h[1]][..0] == [];
    assert DecimalValue([h[1]]) == DigitValue(h[1]);
    assert DecimalValue(x) == DigitValue(h[1]) * 10 + DigitValue(h[2]);
    assert ToNumber(h) == Some(ZoneHoursValue(h));
  }

  /**
   * As written, 'T' adds the hours with their sign, the minutes always
   * positive and the host offset, all in the wrong direction: the change it
   * makes is the negation of the corrected one whenever the zone is east of
   * UTC or has no minutes, and both reject the same values.
   */
  lemma ZoneTimeAsWritten(t: int, tz: int, value: string)
    ensures ZoneTime(t, tz, value).Ok? <==> ZoneTimeFixed(t, tz, value).Ok?
    ensures ZoneTime(t, tz, value).Ok? ==>
      var v := if value == "Z" then "+00" else value;
      var (h, m) := ZoneMatch(v).value;
      ZoneTime(t, tz, value).value == t + (ZoneHoursValue(h) * 60 + ZoneMinutesText(m) + tz) * MsPerMinute
    ensures ZoneTime(t, tz, value).Ok? && (ZoneMinutes(value).value >= 0 || ZoneMinutesText(ZoneMatch(if value == "Z" then "+00" else value).value.1) == 0) ==>
      ZoneTime(t, tz, value).value - t == t - ZoneTimeFixed(t, tz, value).value
  {
    var v := if value == "Z" then "+00" else value;
    if ZoneMatch(v).Some? {
      var (h, m) := ZoneMatch(v).value;
      ZoneHoursNumber(h);
    }
  }

  /**
   * The corrected 'T' handler keeps the local clock reading of the date and
   * moves it into the written zone: read in that zone, the new instant
   * shows the clock the other fields set.
   */
  lemma ZoneTimeFixedMeaning(t: int, tz: int, value: string)
    ensures ZoneTimeFixed(t, tz, value).Ok? <==> ZoneMinutes(value).Some?
    ensures ZoneTimeFixed(t, tz, value).Ok? ==>
      Local(ZoneTimeFixed(t, tz, value).value, -ZoneMinutes(value).value) == Local(t, tz)
  {
  }

  /** A zone of '+05:00' on a UTC host: as written the date moves five hours later, corrected five hours earlier. */
  lemma ZoneTimeEastExample()
    ensures ZoneTime(0, 0, "+05:00") == Ok(18000000)
    ensures ZoneTimeFixed(0, 0, "+05:00") == Ok(-18000000)
  {
    ZoneMatchPieces();
    ZoneHoursNumber("+05");
  }

  /** A zone of '-05:30' on a UTC host: as written the minutes count against the sign (-270), corrected the offset is 330 minutes west. */
  lemma ZoneTimeWestExample()
    ensures ZoneTime(0, 0, "-05:30") == Ok(-16200000)
    ensures ZoneTimeFixed(0, 0, "-05:30") == Ok(19800000)
  {
    ZoneMatchPieces();
    ZoneHoursNumber("-05");
  }

  lemma ZoneMatchPieces()
    ensures ZoneMatch("+05:00") == Some(("+05", Some("00")))
    ensures ZoneMatch("-05:30") == Some(("-05", Some("30")))
    ensures ZoneMinutesText(Some("00")) == 0 && ZoneMinutesText(Some("30")) == 30
  {
    var e, w := "+05:00", "-05:30";
    assert e[..3] == "+05" && e[4..] == "00" && e[4..][..2] == "00";
    assert w[..3] == "-05" && w[4..] == "30" && w[4..][..2] == "30";
    assert "30"[..1] == "3" && "3"[..0] == [];
    assert "00"[..1] == "0" && "0"[..0] == [];
  }

  // ---- the month before the date --------------------------------------------

  /** February 31 is March 3, or March 2 in a leap year. */
  lemma FebruaryThirtyFirst(y: int)
    ensures var d := 31 - MonthLength(1, IsGregorianLeap(y));
      (d == 2 || d == 3) && MakeDay(y, 1, 31) == MakeDay(y, 2, d)
  {
    var leap := IsGregorianLeap(y);
    MonthStartStep(1, leap);
    assert y + 1 / 12 == y && 1 % 12 == 1 && y + 2 / 12 == y && 2 % 12 == 2;
  }

  /** On a January 31, setting the month to February before the date carries the date into March. */
  lemma MonthThenDateOverflows(t: int, tz: int, d: int)
    requires MonthAt(t, tz) == 0 && DateAt(t, tz) == 31 && 1 <= d <= 31
    ensures var t2 := SetDate(SetMonth(t, tz, 1), tz, d);
      MonthAt(t2, tz) == 2 && DateAt(t2, tz) == d && YearAt(t2, tz) == YearAt(t, tz)
  {
    var y := YearAt(t, tz);
    FebruaryThirtyFirst(y);
    var d1 := 31 - MonthLength(1, IsGregorianLeap(y));
    var t1 := SetMonth(t, tz, 1);
    assert t1 == WithCivil(t, tz, y, 2, d1);
    CivilReadBack(t, tz, y, 2, d1);
    SetDateReadBack(t1, tz, d);
  }

  /**
   * As written, the handler of a month-first pattern such as '%m/%d' sets
   * the month before the date, so on January 31 the text '02/15' is read
   * as March 15.
   */
  lemma HandlerMonthBeforeDate(now: int, tz: int, env: Env, ds: string)
    requires MonthAt(now, tz) == 0 && DateAt(now, tz) == 31
    requires ds != [] && IsAllDigits(ds) && 1 <= DecimalValue(ds) <= 31
    ensures var r := Handler(now, tz, env, ['m', 'd'], [None, Some("02"), Some(ds)]);
      r.error == None && MonthAt(r.time, tz) == 2 && DateAt(r.time, tz) == DecimalValue(ds)
  {
    var t0 := ClearTime(now, tz).time;
    ClearTimeMeaning(now, tz);
    assert IsAllDigits("02") && DecimalValue("02") == 2 by {
      assert "02"[..1] == "0" && "0"[..0] == [];
    }
    HandleMonth(t0, tz, env, "02", 1);
    var t1 := SetMonth(t0, tz, 1);
    HandleDate(t1, tz, env, ds);
    HandleTwo(t0, tz, env, 'm', 'd', "02", ds, t1, SetDate(t1, tz, DecimalValue(ds)));
    MonthThenDateOverflows(t0, tz, DecimalValue(ds));
  }

  /**
   * The handler as later versions of the library run it: when the pattern
   * captures a date, the date is first set to the 1st, so that no month
   * set before it can run over.
   */
  function HandlerFixed(now: int, tz: int, env: Env, parsed: seq<char>, bits: seq<Option<string>>): Outcome
  {
    var t0 := ClearTime(now, tz).time;
    HandleFrom(if 'd' in parsed then SetDate(t0, tz, 1) else t0, tz, env, parsed, bits, 0)
  }

  /**
   * With the correction a month-first text reads as the month and date it
   * writes, in the current year, whatever today's date is.
   */
  lemma HandlerFixedMonthDate(now: int, tz: int, env: Env, ms: string, ds: string)
    requires ms != [] && IsAllDigits(ms) && 1 <= DecimalValue(ms) <= 12
    requires ds != [] && IsAllDigits(ds)
    requires 1 <= DecimalValue(ds) <= MonthLength(DecimalValue(ms) - 1, IsGregorianLeap(YearAt(now, tz)))
    ensures var r := HandlerFixed(now, tz, env, ['m', 'd'], [None, Some(ms), Some(ds)]);
      r.error == None && YearAt(r.time, tz) == YearAt(now, tz) &&
      MonthAt(r.time, tz) == DecimalValue(ms) - 1 && DateAt(r.time, tz) == DecimalValue(ds)
  {
    var t0 := ClearTime(now, tz).time;
    ClearTimeMeaning(now, tz);
    var ta := SetDate(t0, tz, 1);
    SetDateReadBack(t0, tz, 1);
    assert 'd' in ['m', 'd'];
    MonthThenDateFromFirst(ta, tz, env, ms, ds);
  }

  /** setMonth within the year, from the first of a month, keeps the year and the first. */
  lemma MonthWithinYear(t: int, tz: int, m: int)
    requires 0 <= m < 12 && DateAt(t, tz) == 1
    ensures var t' := SetMonth(t, tz, m); YearAt(t', tz) == YearAt(t, tz) && MonthAt(t', tz) == m && DateAt(t', tz) == 1
  {
    var t' := SetMonth(t, tz, m);
    SetMonthRollover(t, tz, m);
    MonthsOfYear(t', tz);
    DivMod(MonthCount(t', tz), 12, YearAt(t', tz), MonthAt(t', tz));
    DivMod(MonthCount(t', tz), 12, YearAt(t, tz), m);
  }

  /** The month of a date is below 12. */
  lemma MonthsOfYear(t: int, tz: int)
    ensures 0 <= MonthAt(t, tz) < 12
  {
  }

  /** From the first of a month, the month handler and then the date handler land on the month and date written. */
  lemma MonthThenDateFromFirst(ta: int, tz: int, env: Env, ms: string, ds: string)
    requires ms != [] && IsAllDigits(ms) && 1 <= DecimalValue(ms) <= 12
    requires ds != [] && IsAllDigits(ds) && DateAt(ta, tz) == 1
    requires 1 <= DecimalValue(ds) <= MonthLength(DecimalValue(ms) - 1, IsGregorianLeap(YearAt(ta, tz)))
    ensures var r := HandleFrom(ta, tz, env, ['m', 'd'], [None, Some(ms), Some(ds)], 0);
      r.error == None && YearAt(r.time, tz) == YearAt(ta, tz) &&
      MonthAt(r.time, tz) == DecimalValue(ms) - 1 && DateAt(r.time, tz) == DecimalValue(ds)
  {
    var y, m, d := YearAt(ta, tz), DecimalValue(ms) - 1, DecimalValue(ds);
    HandleMonth(ta, tz, env, ms, m);
    var tb := SetMonth(ta, tz, m);
    MonthWithinYear(ta, tz, m);
    HandleDate(tb, tz, env, ds);
    SetDateReadBack(tb, tz, d);
    HandleTwo(ta, tz, env, 'm', 'd', ms, ds, tb, SetDate(tb, tz, d));
  }
}
