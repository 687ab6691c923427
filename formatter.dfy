/**
 * `Date.prototype.format` (strftime): a template is scanned left to right
 * and every `%` followed by one of the letters `aAbBcdHIjmMpSUWwxXyYTZ%`
 * is replaced by a field of the date; everything else is copied.  A
 * template may be the name of a macro of the `formats` table, matched
 * case-insensitively.  `%x` and `%X` format the date again with the
 * locale's short date and short time templates.
 */
module Formatter {
  import opened Errors
  import opened Text
  import opened Calendar
  import opened Locales
  import opened Fields

  /** The letters the token pattern `/\%([aAbBcdHIjmMpSUWwxXyYTZ\%])/` accepts. */
  predicate IsToken(c: char)
  {
    c == 'a' || c == 'A' || c == 'b' || c == 'B' || c == 'c' || c == 'd' || c == 'H' || c == 'I' ||
    c == 'j' || c == 'm' || c == 'M' || c == 'p' || c == 'S' || c == 'U' || c == 'W' || c == 'w' ||
    c == 'x' || c == 'X' || c == 'y' || c == 'Y' || c == 'T' || c == 'Z' || c == '%'
  }

  /** The initial `formats` table. */
  const DefaultFormats: map<string, string> := map[
    "db" := "%Y-%m-%d %H:%M:%S",
    "compact" := "%Y%m%dT%H%M%S",
    "iso8601" := "%Y-%m-%dT%H:%M:%S%T",
    "rfc822" := "%a, %d %b %Y %H:%M:%S %Z",
    "short" := "%d %b %H:%M",
    "long" := "%B %d, %Y %H:%M"]

  /** What formatting reads besides the date: the locale messages, the host's text, the macro table. */
  datatype Context = Context(locale: Locale, host: Host, formats: map<string, string>)

  /**
   * The replacement of each token letter but `x`, `X`, `W` and `%` for
   * one date.  The source computes one when the scanner meets its token;
   * all are reads of the same date, and the two that can throw (`%a` and
   * `%b` past the end of the name list) stay results that only their
   * tokens look at, so computing the table first changes nothing.
   */
  datatype Replacements = Replacements(
    shortDay: Result<string>,    // %a
    dayName: string,             // %A
    shortMonth: Result<string>,  // %b
    monthName: string,           // %B
    text: string,                // %c
    date: string,                // %d
    hours: string,               // %H
    hour12: string,              // %I
    dayOfYear: string,           // %j
    month: string,               // %m
    minutes: string,             // %M
    meridiem: string,            // %p
    seconds: string,             // %S
    week: string,                // %U
    weekDay: string,             // %w
    shortYear: string,           // %y
    year: string,                // %Y
    offset: string,              // %T
    zone: string)                // %Z

  /** `names[i].substr(0, 3)`, which throws where `names[i]` is undefined. */
  function ShortName(names: seq<string>, i: int): Result<string>
  {
    if 0 <= i < |names| then Ok(Take(names[i], 3)) else Err(TypeError("names[i] is undefined"))
  }

  /** `names[i]`, which the replace callback turns into 'undefined' past the end. */
  function FullName(names: seq<string>, i: int): string
  {
    if 0 <= i < |names| then names[i] else "undefined"
  }

  /** `(hr % 12) || 12`. */
  function Hour12(hr: int): int
  {
    if hr % 12 == 0 then 12 else hr % 12
  }

  function ReplacementsOf(t: int, tz: int, host: Host, l: Locale): Replacements
  {
    Replacements(
      ShortName(l.days, WeekDayAt(t, tz)), FullName(l.days, WeekDayAt(t, tz)),
      ShortName(l.months, MonthAt(t, tz)), FullName(l.months, MonthAt(t, tz)),
      host.text(t),
      Zeroize(DateAt(t, tz), 2), Zeroize(HoursAt(t, tz), 2), IntToString(Hour12(HoursAt(t, tz))),
      Zeroize(DayOfYearAt(t, tz), 3), Zeroize(MonthAt(t, tz) + 1, 2), Zeroize(MinutesAt(t, tz), 2),
      if AmPmAt(t, tz) == "AM" then l.am else l.pm,
      Zeroize(SecondsAt(t, tz), 2), Zeroize(WeekAt(t, tz), 2), IntToString(WeekDayAt(t, tz)),
      SubstrFrom(IntToString(YearAt(t, tz)), 2), IntToString(YearAt(t, tz)),
      GMTOffsetText(tz), host.zone(t))
  }

  /** The replacement of one token letter other than `x` and `X`; `%W` throws. */
  function Token(p: Replacements, c: char): Result<string>
  {
    if c == 'a' then p.shortDay
    else if c == 'A' then Ok(p.dayName)
    else if c == 'b' then p.shortMonth
    else if c == 'B' then Ok(p.monthName)
    else if c == 'c' then Ok(p.text)
    else if c == 'd' then Ok(p.date)
    else if c == 'H' then Ok(p.hours)
    else if c == 'I' then Ok(p.hour12)
    else if c == 'j' then Ok(p.dayOfYear)
    else if c == 'm' then Ok(p.month)
    else if c == 'M' then Ok(p.minutes)
    else if c == 'p' then Ok(p.meridiem)
    else if c == 'S' then Ok(p.seconds)
    else if c == 'U' then Ok(p.week)
    else if c == 'W' then Err(UnsupportedFormat)
    else if c == 'w' then Ok(p.weekDay)
    else if c == 'y' then Ok(p.shortYear)
    else if c == 'Y' then Ok(p.year)
    else if c == 'T' then Ok(p.offset)
    else if c == 'Z' then Ok(p.zone)
    else Ok("%")
  }

  /**
   * The nested formats a chain of `%x`/`%X` may open.  Below the top
   * level every template is the short date or the short time one, so a
   * third nested call repeats a template already open: the host would
   * recurse without end.  Reaching it is the error Cyclic.
   */
  const MaxNesting: nat := 2

  /** `f || '%x %X'`. */
  function OrDefault(f: Option<string>): string
  {
    if f == None || f == Some("") then "%x %X" else f.value
  }

  /** `formats[f.toLowerCase()] || f`. */
  function Template(formats: map<string, string>, f: string): string
  {
    if Lower(f) in formats && formats[Lower(f)] != "" then formats[Lower(f)] else f
  }

  /** `format(f)`: 'invalid date' for an instant whose value is falsy, else the expanded template. */
  function Format(t: int, tz: int, cx: Context, f: Option<string>): Result<string>
  {
    if t == 0 then Ok("invalid date")
    else Expand(ReplacementsOf(t, tz, cx.host, cx.locale), cx, OrDefault(f), MaxNesting)
  }

  /** The body of format on a valid date, with `fuel` nested formats still allowed. */
  function Expand(p: Replacements, cx: Context, f: string, fuel: nat): Result<string>
    decreases fuel, 1, 0
  {
    Scan(p, cx, Template(cx.formats, f), fuel)
  }

  /** The global replace: tokens left to right, the first one that throws ends it. */
  function Scan(p: Replacements, cx: Context, s: string, fuel: nat): Result<string>
    decreases fuel, 0, |s|
  {
    if s == [] then Ok([])
    else if s[0] == '%' && |s| >= 2 && IsToken(s[1]) then
      var piece :- (if s[1] == 'x' || s[1] == 'X' then Nested(p, cx, s[1], fuel) else Token(p, s[1]));
      var rest :- Scan(p, cx, s[2..], fuel);
      Ok(piece + rest)
    else
      var rest :- Scan(p, cx, s[1..], fuel);
      Ok([s[0]] + rest)
  }

  /** `%x` and `%X`: the date formatted with the locale's short date or short time template. */
  function Nested(p: Replacements, cx: Context, c: char, fuel: nat): Result<string>
    decreases fuel, 0, 0
  {
    if fuel == 0 then Err(Cyclic)
    else if c == 'x' then Expand(p, cx, OrDefault(Some(cx.locale.shortDate)), fuel - 1)
    else Expand(p, cx, OrDefault(Some(cx.locale.shortTime)), fuel - 1)
  }

  // ---- the scanner ---------------------------------------------------

  lemma ScanEmpty(p: Replacements, cx: Context, fuel: nat)
    ensures Scan(p, cx, [], fuel) == Ok([])
  {
  }

  /** Text without a '%' is copied as it is. */
  lemma {:induction false} ScanLiteral(p: Replacements, cx: Context, s: string, fuel: nat)
    requires forall i :: 0 <= i < |s| ==> s[i] != '%'
    ensures Scan(p, cx, s, fuel) == Ok(s)
    decreases |s|
  {
    if s != [] {
      ScanLiteral(p, cx, s[1..], fuel);
      assert [s[0]] + s[1..] == s;
    }
  }

  /** Any character but '%' is copied and scanning goes on after it. */
  lemma ScanOther(p: Replacements, cx: Context, c: char, rest: string, fuel: nat)
    requires c != '%'
    ensures Scan(p, cx, [c] + rest, fuel) ==
      (match Scan(p, cx, rest, fuel)
       case Ok(v) => Ok([c] + v)
       case Err(e) => Err(e))
  {
    assert ([c] + rest)[1..] == rest;
  }

  /** A '%' before a letter that is not a token letter, such as `%q`, is copied with it. */
  lemma ScanUnknown(p: Replacements, cx: Context, c: char, rest: string, fuel: nat)
    requires !IsToken(c)
    ensures Scan(p, cx, ['%', c] + rest, fuel) ==
      (match Scan(p, cx, rest, fuel)
       case Ok(v) => Ok(['%', c] + v)
       case Err(e) => Err(e))
  {
    var s := ['%', c] + rest;
    assert s[0] == '%' && s[1] == c && s[1..] == [c] + rest;
    ScanOther(p, cx, c, rest, fuel);
    match Scan(p, cx, rest, fuel)
    case Ok(v) =>
      assert ['%'] + ([c] + v) == ['%', c] + v;
    case Err(e) =>
  }

  /** A token other than `%x` and `%X` is replaced and scanning goes on after it. */
  lemma ScanToken(p: Replacements, cx: Context, c: char, rest: string, fuel: nat)
    requires IsToken(c) && c != 'x' && c != 'X'
    ensures Scan(p, cx, ['%', c] + rest, fuel) ==
      (match Token(p, c)
       case Err(e) => Err(e)
       case Ok(piece) =>
         match Scan(p, cx, rest, fuel)
         case Ok(v) => Ok(piece + v)
         case Err(e) => Err(e))
  {
    assert (['%', c] + rest)[2..] == rest;
  }

  lemma ScanTokenThen(p: Replacements, cx: Context, c: char, rest: string, fuel: nat, piece: string, v: string)
    requires IsToken(c) && c != 'x' && c != 'X'
    requires Token(p, c) == Ok(piece) && Scan(p, cx, rest, fuel) == Ok(v)
    ensures Scan(p, cx, ['%', c] + rest, fuel) == Ok(piece + v)
  {
    ScanToken(p, cx, c, rest, fuel);
  }

  lemma ScanOtherThen(p: Replacements, cx: Context, c: char, rest: string, fuel: nat, v: string)
    requires c != '%' && Scan(p, cx, rest, fuel) == Ok(v)
    ensures Scan(p, cx, [c] + rest, fuel) == Ok([c] + v)
  {
    ScanOther(p, cx, c, rest, fuel);
  }

  /** `%W` throws wherever it stands after plain text. */
  lemma {:induction false} WeekOfYearUnsupported(p: Replacements, cx: Context, s: string, rest: string, fuel: nat)
    requires forall i :: 0 <= i < |s| ==> s[i] != '%'
    ensures Scan(p, cx, s + "%W" + rest, fuel) == Err(UnsupportedFormat)
    decreases |s|
  {
    if s == [] {
      assert s + "%W" + rest == ['%', 'W'] + rest;
      ScanToken(p, cx, 'W', rest, fuel);
    } else {
      WeekOfYearUnsupported(p, cx, s[1..], rest, fuel);
      assert s + "%W" + rest == [s[0]] + (s[1..] + "%W" + rest);
      ScanOther(p, cx, s[0], s[1..] + "%W" + rest, fuel);
    }
  }

  // ---- nesting -------------------------------------------------------

  /** s holds no `%x` or `%X`. */
  predicate NoNesting(s: string)
  {
    forall i :: 0 <= i < |s| - 1 ==> !(s[i] == '%' && (s[i + 1] == 'x' || s[i + 1] == 'X'))
  }

  lemma NoNestingSuffix(s: string, k: nat)
    requires NoNesting(s) && k <= |s|
    ensures NoNesting(s[k..])
  {
    forall i | 0 <= i < |s[k..]| - 1
      ensures !(s[k..][i] == '%' && (s[k..][i + 1] == 'x' || s[k..][i + 1] == 'X'))
    {
      assert s[k..][i] == s[i + k] && s[k..][i + 1] == s[i + k + 1];
    }
  }

  /** Without `%x` and `%X` scanning never looks at the nesting allowance. */
  lemma {:induction false} ScanWithoutNesting(p: Replacements, cx: Context, s: string, fuel1: nat, fuel2: nat)
    requires NoNesting(s)
    ensures Scan(p, cx, s, fuel1) == Scan(p, cx, s, fuel2)
    decreases |s|
  {
    if s != [] {
      if s[0] == '%' && |s| >= 2 && IsToken(s[1]) {
        assert !(s[0] == '%' && (s[1] == 'x' || s[1] == 'X'));
        NoNestingSuffix(s, 2);
        ScanWithoutNesting(p, cx, s[2..], fuel1, fuel2);
      } else {
        NoNestingSuffix(s, 1);
        ScanWithoutNesting(p, cx, s[1..], fuel1, fuel2);
      }
    }
  }

  /** The locale's short templates, as `%x` and `%X` expand them, hold no `%x` or `%X`. */
  predicate FlatShortTemplates(cx: Context)
  {
    NoNesting(Template(cx.formats, OrDefault(Some(cx.locale.shortDate)))) &&
    NoNesting(Template(cx.formats, OrDefault(Some(cx.locale.shortTime))))
  }

  lemma NestedSuffices(p: Replacements, cx: Context, c: char, fuel: nat)
    requires fuel >= 1 && FlatShortTemplates(cx)
    ensures Nested(p, cx, c, fuel) == Nested(p, cx, c, 1)
  {
    var d := Template(cx.formats, OrDefault(Some(cx.locale.shortDate)));
    var t := Template(cx.formats, OrDefault(Some(cx.locale.shortTime)));
    ScanWithoutNesting(p, cx, d, fuel - 1, 0);
    ScanWithoutNesting(p, cx, t, fuel - 1, 0);
  }

  /**
   * When the short templates hold no `%x` or `%X` one level of nesting
   * gives what any deeper allowance gives: the bound only cuts off
   * chains the host would follow for ever.
   */
  lemma {:induction false} NestingSuffices(p: Replacements, cx: Context, s: string, fuel: nat)
    requires fuel >= 1 && FlatShortTemplates(cx)
    ensures Scan(p, cx, s, fuel) == Scan(p, cx, s, 1)
    decreases |s|
  {
    if s != [] {
      if s[0] == '%' && |s| >= 2 && IsToken(s[1]) {
        if s[1] == 'x' || s[1] == 'X' {
          NestedSuffices(p, cx, s[1], fuel);
        }
        NestingSuffices(p, cx, s[2..], fuel);
      } else {
        NestingSuffices(p, cx, s[1..], fuel);
      }
    }
  }

  lemma SelfNestedPieces()
    ensures Lower("%x") == "%x" && OrDefault(Some("%x")) == "%x"
    ensures "%x" == ['%', 'x'] + [] && IsToken('x')
  {
  }

  lemma SelfNestedScan(p: Replacements, cx: Context, fuel: nat)
    requires cx.locale.shortDate == "%x" && "%x" !in cx.formats
    ensures Scan(p, cx, "%x", fuel) == Err(Cyclic)
  {
    SelfNestedPieces();
    var s := "%x";
    assert s[0] == '%' && s[1] == 'x';
    if fuel > 0 {
      assert Template(cx.formats, OrDefault(Some(cx.locale.shortDate))) == "%x";
      SelfNestedScan(p, cx, fuel - 1);
      assert Nested(p, cx, 'x', fuel) == Err(Cyclic);
    } else {
      assert Nested(p, cx, 'x', fuel) == Err(Cyclic);
    }
  }

  /** A short date template that is '%x' itself is the recursion the host never leaves. */
  lemma SelfNestedShortDate(t: int, tz: int, cx: Context)
    requires t != 0 && cx.locale.shortDate == "%x" && "%x" !in cx.formats
    ensures Format(t, tz, cx, Some("%x")) == Err(Cyclic)
  {
    var p := ReplacementsOf(t, tz, cx.host, cx.locale);
    SelfNestedPieces();
    FormatValid(t, tz, cx, Some("%x"), p, "%x");
    SelfNestedScan(p, cx, MaxNesting);
  }

  // ---- format --------------------------------------------------------

  /** Instant 0 is as falsy as NaN: whatever the template, the text is 'invalid date'. */
  lemma FormatInvalid(tz: int, cx: Context, f: Option<string>)
    ensures Format(0, tz, cx, f) == Ok("invalid date")
  {
  }

  /** A missing or empty template means '%x %X'. */
  lemma FormatDefault(t: int, tz: int, cx: Context)
    ensures Format(t, tz, cx, None) == Format(t, tz, cx, Some("%x %X"))
    ensures Format(t, tz, cx, Some("")) == Format(t, tz, cx, Some("%x %X"))
  {
  }

  /** Macro names are matched whatever their case. */
  lemma FormatMacroIgnoresCase(t: int, tz: int, cx: Context, a: string, b: string)
    requires a != "" && b != "" && Lower(a) == Lower(b)
    requires Lower(a) in cx.formats && cx.formats[Lower(a)] != ""
    ensures Format(t, tz, cx, Some(a)) == Format(t, tz, cx, Some(b))
  {
  }

  /** A valid date formats as the scan of its template. */
  lemma FormatValid(t: int, tz: int, cx: Context, f: Option<string>, p: Replacements, s: string)
    requires t != 0 && p == ReplacementsOf(t, tz, cx.host, cx.locale) && s == Template(cx.formats, OrDefault(f))
    ensures Format(t, tz, cx, f) == Scan(p, cx, s, MaxNesting)
  {
  }

  /** A macro name formats as its template. */
  lemma FormatMacro(t: int, tz: int, cx: Context, name: string)
    requires t != 0 && name != "" && Lower(name) in cx.formats && cx.formats[Lower(name)] != ""
    ensures Format(t, tz, cx, Some(name)) ==
      Scan(ReplacementsOf(t, tz, cx.host, cx.locale), cx, cx.formats[Lower(name)], MaxNesting)
  {
  }

  /** A lower-case macro name stands for its template. */
  lemma MacroTemplate(formats: map<string, string>, name: string, v: string)
    requires name != "" && Lower(name) == name && name in formats && formats[name] == v && v != ""
    ensures Template(formats, OrDefault(Some(name))) == v
  {
  }

  lemma TemplateOfPlainText(formats: map<string, string>, f: string)
    requires f != "" && (Lower(f) !in formats || formats[Lower(f)] == "")
    ensures Template(formats, OrDefault(Some(f))) == f
  {
  }

  /** A template without '%' that names no macro comes back as it is. */
  lemma FormatLiteral(t: int, tz: int, cx: Context, f: string)
    requires t != 0 && f != "" && (Lower(f) !in cx.formats || cx.formats[Lower(f)] == "")
    requires forall i :: 0 <= i < |f| ==> f[i] != '%'
    ensures Format(t, tz, cx, Some(f)) == Ok(f)
  {
    TemplateOfPlainText(cx.formats, f);
    var p := ReplacementsOf(t, tz, cx.host, cx.locale);
    FormatValid(t, tz, cx, Some(f), p, f);
    ScanLiteral(p, cx, f, MaxNesting);
  }

  /**
   * A name given to defineFormat with an upper-case letter is never
   * reached: format looks the lower-cased template up.
   */
  lemma MacroWithCapitalUnreachable(formats: map<string, string>, name: string, v: string, f: string)
    requires exists i :: 0 <= i < |name| && 'A' <= name[i] <= 'Z'
    ensures Template(formats[name := v], f) == Template(formats, f)
  {
    var i :| 0 <= i < |name| && 'A' <= name[i] <= 'Z';
    assert Lower(f) != name by {
      if |f| == |name| {
        assert Lower(f)[i] == LowerChar(f[i]);
      }
    }
  }

  // ---- the tokens ----------------------------------------------------

  /** The replacement each token letter but `x` and `X` stands for. */
  lemma TokenTable(p: Replacements)
    ensures Token(p, 'a') == p.shortDay && Token(p, 'A') == Ok(p.dayName) && Token(p, 'b') == p.shortMonth
    ensures Token(p, 'B') == Ok(p.monthName) && Token(p, 'c') == Ok(p.text) && Token(p, 'd') == Ok(p.date)
    ensures Token(p, 'H') == Ok(p.hours) && Token(p, 'I') == Ok(p.hour12) && Token(p, 'j') == Ok(p.dayOfYear)
    ensures Token(p, 'm') == Ok(p.month) && Token(p, 'M') == Ok(p.minutes) && Token(p, 'p') == Ok(p.meridiem)
    ensures Token(p, 'S') == Ok(p.seconds) && Token(p, 'U') == Ok(p.week) && Token(p, 'W') == Err(UnsupportedFormat)
    ensures Token(p, 'w') == Ok(p.weekDay) && Token(p, 'y') == Ok(p.shortYear) && Token(p, 'Y') == Ok(p.year)
    ensures Token(p, 'T') == Ok(p.offset) && Token(p, 'Z') == Ok(p.zone) && Token(p, '%') == Ok("%")
  {
    NameLetters(p);
    ClockLetters(p);
    OtherLetters(p);
  }

  lemma NameLetters(p: Replacements)
    ensures Token(p, 'a') == p.shortDay && Token(p, 'A') == Ok(p.dayName) && Token(p, 'b') == p.shortMonth
    ensures Token(p, 'B') == Ok(p.monthName) && Token(p, 'c') == Ok(p.text) && Token(p, 'd') == Ok(p.date)
    ensures Token(p, 'H') == Ok(p.hours)
  {
  }

  lemma ClockLetters(p: Replacements)
    ensures Token(p, 'I') == Ok(p.hour12) && Token(p, 'j') == Ok(p.dayOfYear)
    ensures Token(p, 'm') == Ok(p.month) && Token(p, 'M') == Ok(p.minutes) && Token(p, 'p') == Ok(p.meridiem)
    ensures Token(p, 'S') == Ok(p.seconds) && Token(p, 'U') == Ok(p.week)
  {
  }

  lemma OtherLetters(p: Replacements)
    ensures Token(p, 'W') == Err(UnsupportedFormat)
    ensures Token(p, 'w') == Ok(p.weekDay) && Token(p, 'y') == Ok(p.shortYear) && Token(p, 'Y') == Ok(p.year)
    ensures Token(p, 'T') == Ok(p.offset) && Token(p, 'Z') == Ok(p.zone) && Token(p, '%') == Ok("%")
  {
  }

  /** zeroize(n, k) is k digits that read back as n. */
  predicate Padded(n: int, k: nat)
  {
    n >= 0 && |Zeroize(n, k)| == k && IsAllDigits(Zeroize(n, k)) && DecimalValue(Zeroize(n, k)) == n
  }

  lemma PaddedFields(date: int, hours: int, minutes: int, seconds: int, week: int, month: int, dayOfYear: int)
    requires 1 <= date <= 31 && 0 <= hours < 24 && 0 <= minutes < 60 && 0 <= seconds < 60
    requires 1 <= week <= 53 && 0 <= month < 12 && 1 <= dayOfYear <= 366
    ensures Padded(date, 2) && Padded(hours, 2) && Padded(minutes, 2) && Padded(seconds, 2)
    ensures Padded(week, 2) && Padded(month + 1, 2) && Padded(dayOfYear, 3)
  {
    assert Pow10(2) == 100 && Pow10(3) == 1000;
    ZeroizeDigits(date, 2);
    ZeroizeDigits(hours, 2);
    ZeroizeDigits(minutes, 2);
    ZeroizeDigits(seconds, 2);
    ZeroizeDigits(week, 2);
    ZeroizeDigits(month + 1, 2);
    ZeroizeDigits(dayOfYear, 3);
  }

  /**
   * `%d %H %M %S %U %m` are the date's fields in two digits and `%j` in
   * three; each reads back as its field, the month counted from 1.
   */
  lemma PaddedTokens(t: int, tz: int, host: Host, l: Locale)
    ensures var p := ReplacementsOf(t, tz, host, l);
      Token(p, 'd') == Ok(Zeroize(DateAt(t, tz), 2)) && Token(p, 'H') == Ok(Zeroize(HoursAt(t, tz), 2)) &&
      Token(p, 'M') == Ok(Zeroize(MinutesAt(t, tz), 2)) && Token(p, 'S') == Ok(Zeroize(SecondsAt(t, tz), 2)) &&
      Token(p, 'U') == Ok(Zeroize(WeekAt(t, tz), 2)) && Token(p, 'm') == Ok(Zeroize(MonthAt(t, tz) + 1, 2)) &&
      Token(p, 'j') == Ok(Zeroize(DayOfYearAt(t, tz), 3))
    ensures Padded(DateAt(t, tz), 2) && Padded(HoursAt(t, tz), 2) && Padded(MinutesAt(t, tz), 2)
    ensures Padded(SecondsAt(t, tz), 2) && Padded(WeekAt(t, tz), 2) && Padded(MonthAt(t, tz) + 1, 2)
    ensures Padded(DayOfYearAt(t, tz), 3)
  {
    TokenTable(ReplacementsOf(t, tz, host, l));
    PaddedFields(DateAt(t, tz), HoursAt(t, tz), MinutesAt(t, tz), SecondsAt(t, tz),
      WeekAt(t, tz), MonthAt(t, tz), DayOfYearAt(t, tz));
  }

  /** `%I` is the hour on the twelve-hour clock: 1..12, equal to the hour modulo 12, 12 at midnight and noon. */
  lemma TwelveHourClock(t: int, tz: int, host: Host, l: Locale)
    ensures var h := HoursAt(t, tz);
      Token(ReplacementsOf(t, tz, host, l), 'I') == Ok(IntToString(Hour12(h))) &&
      1 <= Hour12(h) <= 12 && Hour12(h) % 12 == h % 12 && (Hour12(h) == 12 <==> h == 0 || h == 12)
  {
    TokenTable(ReplacementsOf(t, tz, host, l));
    Hour12Range(HoursAt(t, tz));
  }

  lemma Hour12Range(h: int)
    requires 0 <= h < 24
    ensures 1 <= Hour12(h) <= 12 && Hour12(h) % 12 == h % 12 && (Hour12(h) == 12 <==> h == 0 || h == 12)
  {
  }

  /** `%p` is the locale's AM text before noon and its PM text from noon on. */
  lemma MeridiemToken(t: int, tz: int, host: Host, l: Locale)
    ensures HoursAt(t, tz) < 12 ==> Token(ReplacementsOf(t, tz, host, l), 'p') == Ok(l.am)
    ensures HoursAt(t, tz) >= 12 ==> Token(ReplacementsOf(t, tz, host, l), 'p') == Ok(l.pm)
  {
    TokenTable(ReplacementsOf(t, tz, host, l));
  }

  /** `%w` is the day of the week counted from Sunday as 0, one digit. */
  lemma WeekDayToken(t: int, tz: int, host: Host, l: Locale)
    ensures Token(ReplacementsOf(t, tz, host, l), 'w') == Ok([DigitChar(WeekDayAt(t, tz))])
  {
    TokenTable(ReplacementsOf(t, tz, host, l));
  }

  /**
   * `%a` and `%b` cut the name to three letters and throw past the end of
   * the list, where `%A` and `%B` give 'undefined'.
   */
  lemma NameTokens(t: int, tz: int, host: Host, l: Locale)
    ensures var p, d, m := ReplacementsOf(t, tz, host, l), WeekDayAt(t, tz), MonthAt(t, tz);
      (d < |l.days| ==> Token(p, 'a') == Ok(Take(l.days[d], 3)) && Token(p, 'A') == Ok(l.days[d])) &&
      (d >= |l.days| ==> Token(p, 'a').Err? && Token(p, 'A') == Ok("undefined")) &&
      (m < |l.months| ==> Token(p, 'b') == Ok(Take(l.months[m], 3)) && Token(p, 'B') == Ok(l.months[m])) &&
      (m >= |l.months| ==> Token(p, 'b').Err? && Token(p, 'B') == Ok("undefined"))
  {
    TokenTable(ReplacementsOf(t, tz, host, l));
  }

  /** For a four-digit year `%y` is its last two digits. */
  lemma TwoDigitYear(t: int, tz: int, host: Host, l: Locale)
    requires 1000 <= YearAt(t, tz) <= 9999
    ensures Token(ReplacementsOf(t, tz, host, l), 'y').Ok?
    ensures var y := Token(ReplacementsOf(t, tz, host, l), 'y').value;
      |y| == 2 && IsAllDigits(y) && DecimalValue(y) == YearAt(t, tz) % 100
  {
    TokenTable(ReplacementsOf(t, tz, host, l));
    LastTwoDigits(YearAt(t, tz));
  }

  /** For a four-digit year `%Y` is four digits that read back as the year. */
  lemma FourDigitYear(t: int, tz: int, host: Host, l: Locale)
    requires 1000 <= YearAt(t, tz) <= 9999
    ensures Token(ReplacementsOf(t, tz, host, l), 'Y').Ok?
    ensures var y := Token(ReplacementsOf(t, tz, host, l), 'Y').value;
      |y| == 4 && IsAllDigits(y) && DecimalValue(y) == YearAt(t, tz)
  {
    TokenTable(ReplacementsOf(t, tz, host, l));
    FourDigits(YearAt(t, tz));
  }

  lemma FourDigits(n: nat)
    requires 1000 <= n <= 9999
    ensures |NatToString(n)| == 4 && DecimalValue(NatToString(n)) == n
  {
    assert Pow10(4) == 10000 && Pow10(3) == 1000;
    NatToStringLength(n, 4);
    NatToStringLength(n, 3);
    NatToStringValue(n);
  }

  lemma LastTwoDigits(n: nat)
    requires 1000 <= n <= 9999
    ensures |NatToString(n)| == 4
    ensures var y := SubstrFrom(NatToString(n), 2);
      |y| == 2 && IsAllDigits(y) && DecimalValue(y) == n % 100
  {
    var q, d0 := n / 10, n % 10;
    var h, d1 := q / 10, q % 10;
    HundredsSplit(n, q, d0, h, d1);
    assert NatToString(n) == NatToString(q) + [DigitChar(d0)];
    assert NatToString(q) == NatToString(h) + [DigitChar(d1)];
    NatToStringLength(h, 2);
    NatToStringLength(h, 1);
    var s := NatToString(n);
    var low := [DigitChar(d1), DigitChar(d0)];
    assert s == NatToString(h) + low;
    assert s[2..] == low;
    TwoDigitsValue(d1, d0);
  }

  /** Two digit characters read back as the number they spell. */
  lemma TwoDigitsValue(a: int, b: int)
    requires 0 <= a < 10 && 0 <= b < 10
    ensures IsAllDigits([DigitChar(a), DigitChar(b)])
    ensures DecimalValue([DigitChar(a), DigitChar(b)]) == a * 10 + b
  {
    var s := [DigitChar(a), DigitChar(b)];
    var first := s[..1];
    assert first == [DigitChar(a)] && first[..0] == [];
    DigitRoundTrip(a);
    DigitRoundTrip(b);
    assert DecimalValue(first) == a;
    assert DecimalValue(s) == DecimalValue(first) * 10 + DigitValue(s[1]);
  }

  lemma HundredsSplit(n: int, q: int, d0: int, h: int, d1: int)
    requires 1000 <= n <= 9999 && q == n / 10 && d0 == n % 10 && h == q / 10 && d1 == q % 10
    ensures 10 <= h <= 99 && 100 <= q && n % 100 == d1 * 10 + d0
    ensures 0 <= d0 < 10 && 0 <= d1 < 10
  {
    DivMod(n, 100, h, d1 * 10 + d0);
  }

  // ---- worked templates ----------------------------------------------

  lemma HourMinuteName()
    ensures Lower("%H:%M") == "%h:%m" && "%H:%M" != ""
  {
  }

  lemma HourMinutePieces()
    ensures "%M" == ['%', 'M'] + [] && ":%M" == [':'] + "%M" && "%H:%M" == ['%', 'H'] + ":%M"
    ensures "07" == "07" + [] && ":07" == [':'] + "07" && "03:07" == "03" + ":07"
  {
  }

  lemma TwoPlaces()
    ensures Zeroize(3, 2) == "03" && Zeroize(7, 2) == "07"
  {
    assert IntToString(3) == [DigitChar(3)] && IntToString(7) == [DigitChar(7)];
  }

  lemma HourMinuteScan(p: Replacements, cx: Context, fuel: nat)
    requires p.hours == "03" && p.minutes == "07"
    ensures Scan(p, cx, "%H:%M", fuel) == Ok("03:07")
  {
    HourMinutePieces();
    ScanEmpty(p, cx, fuel);
    ScanTokenThen(p, cx, 'M', [], fuel, "07", []);
    ScanOtherThen(p, cx, ':', "%M", fuel, "07");
    ScanTokenThen(p, cx, 'H', ":%M", fuel, "03", ":07");
  }

  /** Hour 3 and minute 7 with '%H:%M' give '03:07'. */
  lemma HourMinuteExample(t: int, tz: int, cx: Context)
    requires t != 0 && HoursAt(t, tz) == 3 && MinutesAt(t, tz) == 7
    requires "%h:%m" !in cx.formats
    ensures Format(t, tz, cx, Some("%H:%M")) == Ok("03:07")
  {
    var p := ReplacementsOf(t, tz, cx.host, cx.locale);
    HourMinuteName();
    TwoPlaces();
    FormatValid(t, tz, cx, Some("%H:%M"), p, "%H:%M");
    HourMinuteScan(p, cx, MaxNesting);
  }

  /** Regrouping a concatenation of three parts and two separators. */
  lemma Joined(a: string, x: char, b: string, y: char, c: string, v: string)
    ensures a + [x] + b + [y] + c + v == a + ([x] + (b + ([y] + (c + v))))
  {
  }

  lemma TimePieces(rest: string)
    ensures ":" == [':']
    ensures "%H:%M:%S" + rest == ['%', 'H'] + ([':'] + (['%', 'M'] + ([':'] + (['%', 'S'] + rest))))
  {
  }

  /** `%H:%M:%S` is the padded hours, minutes and seconds separated by colons. */
  lemma TimePart(p: Replacements, cx: Context, rest: string, fuel: nat, v: string)
    requires Scan(p, cx, rest, fuel) == Ok(v)
    ensures Scan(p, cx, "%H:%M:%S" + rest, fuel) == Ok(p.hours + ":" + p.minutes + ":" + p.seconds + v)
  {
    TimePieces(rest);
    var r1 := ['%', 'S'] + rest;
    var r2 := [':'] + r1;
    var r3 := ['%', 'M'] + r2;
    var r4 := [':'] + r3;
    ScanTokenThen(p, cx, 'S', rest, fuel, p.seconds, v);
    ScanOtherThen(p, cx, ':', r1, fuel, p.seconds + v);
    ScanTokenThen(p, cx, 'M', r2, fuel, p.minutes, [':'] + (p.seconds + v));
    ScanOtherThen(p, cx, ':', r3, fuel, p.minutes + ([':'] + (p.seconds + v)));
    ScanTokenThen(p, cx, 'H', r4, fuel, p.hours, [':'] + (p.minutes + ([':'] + (p.seconds + v))));
    Joined(p.hours, ':', p.minutes, ':', p.seconds, v);
  }

  lemma DatePieces(rest: string)
    ensures "-" == ['-']
    ensures "%Y-%m-%d" + rest == ['%', 'Y'] + (['-'] + (['%', 'm'] + (['-'] + (['%', 'd'] + rest))))
  {
  }

  /** `%Y-%m-%d` is the year, the padded month counted from 1 and the padded day, separated by hyphens. */
  lemma DatePart(p: Replacements, cx: Context, rest: string, fuel: nat, v: string)
    requires Scan(p, cx, rest, fuel) == Ok(v)
    ensures Scan(p, cx, "%Y-%m-%d" + rest, fuel) == Ok(p.year + "-" + p.month + "-" + p.date + v)
  {
    DatePieces(rest);
    var r1 := ['%', 'd'] + rest;
    var r2 := ['-'] + r1;
    var r3 := ['%', 'm'] + r2;
    var r4 := ['-'] + r3;
    ScanTokenThen(p, cx, 'd', rest, fuel, p.date, v);
    ScanOtherThen(p, cx, '-', r1, fuel, p.date + v);
    ScanTokenThen(p, cx, 'm', r2, fuel, p.month, ['-'] + (p.date + v));
    ScanOtherThen(p, cx, '-', r3, fuel, p.month + (['-'] + (p.date + v)));
    ScanTokenThen(p, cx, 'Y', r4, fuel, p.year, ['-'] + (p.month + (['-'] + (p.date + v))));
    Joined(p.year, '-', p.month, '-', p.date, v);
  }

  const ISO8601Template: string := "%Y-%m-%dT%H:%M:%S%T"

  lemma ISO8601Pieces()
    ensures ISO8601Template == "%Y-%m-%d" + (['T'] + ("%H:%M:%S" + (['%', 'T'] + [])))
  {
  }

  lemma ISO8601Macro()
    ensures DefaultFormats["iso8601"] == ISO8601Template && Lower("iso8601") == "iso8601"
  {
  }

  /** The iso8601 template: date and time joined by 'T', then the offset. */
  lemma ISO8601Scan(p: Replacements, cx: Context, fuel: nat)
    ensures Scan(p, cx, ISO8601Template, fuel) ==
      Ok(p.year + "-" + p.month + "-" + p.date + "T" + p.hours + ":" + p.minutes + ":" + p.seconds + p.offset)
  {
    ISO8601Pieces();
    var tail := ['%', 'T'] + [];
    ScanEmpty(p, cx, fuel);
    ScanTokenThen(p, cx, 'T', [], fuel, p.offset, []);
    TimePart(p, cx, tail, fuel, p.offset + []);
    var time := p.hours + ":" + p.minutes + ":" + p.seconds + (p.offset + []);
    ScanOtherThen(p, cx, 'T', "%H:%M:%S" + tail, fuel, time);
    DatePart(p, cx, ['T'] + ("%H:%M:%S" + tail), fuel, ['T'] + time);
    ISO8601Joined(p.year, p.month, p.date, p.hours, p.minutes, p.seconds, p.offset);
  }

  lemma ISO8601Joined(y: string, mo: string, d: string, h: string, mi: string, s: string, o: string)
    ensures y + "-" + mo + "-" + d + (['T'] + (h + ":" + mi + ":" + s + (o + []))) ==
      y + "-" + mo + "-" + d + "T" + h + ":" + mi + ":" + s + o
  {
    assert "T" == ['T'] && o + [] == o;
  }

  /**
   * `toISOString()`, that is format('iso8601') with the initial macro:
   * the year, the month, day, hours, minutes and seconds padded to two
   * digits, and the GMT offset.
   */
  lemma FormatISO8601(t: int, tz: int, cx: Context)
    requires t != 0 && "iso8601" in cx.formats && cx.formats["iso8601"] == DefaultFormats["iso8601"]
    ensures Format(t, tz, cx, Some("iso8601")) ==
      Ok(IntToString(YearAt(t, tz)) + "-" + Zeroize(MonthAt(t, tz) + 1, 2) + "-" + Zeroize(DateAt(t, tz), 2) + "T" +
         Zeroize(HoursAt(t, tz), 2) + ":" + Zeroize(MinutesAt(t, tz), 2) + ":" + Zeroize(SecondsAt(t, tz), 2) +
         GMTOffsetText(tz))
  {
    ISO8601Macro();
    MacroTemplate(cx.formats, "iso8601", ISO8601Template);
    var p := ReplacementsOf(t, tz, cx.host, cx.locale);
    FormatValid(t, tz, cx, Some("iso8601"), p, ISO8601Template);
    ISO8601Scan(p, cx, MaxNesting);
  }

  /** s is k digits that read back as n. */
  predicate DigitsOf(s: string, k: nat, n: int)
  {
    |s| == k && IsAllDigits(s) && DecimalValue(s) == n
  }

  /**
   * The complete representation of section 4.3.2 of ISO 8601:2004:
   * extended date and time, then a basic-format offset whose sign is
   * the opposite of the getTimezoneOffset value.
   */
  predicate ISO8601Layout(s: string, year: int, month: int, day: int, h: int, m: int, sec: int, off: int)
  {
    |s| == 24 && s[4] == '-' && s[7] == '-' && s[10] == 'T' && s[13] == ':' && s[16] == ':' &&
    DigitsOf(s[..4], 4, year) && DigitsOf(s[5..7], 2, month) && DigitsOf(s[8..10], 2, day) &&
    DigitsOf(s[11..13], 2, h) && DigitsOf(s[14..16], 2, m) && DigitsOf(s[17..19], 2, sec) &&
    (s[19] == '-' <==> off > 0) && (s[19] == '+' <==> off <= 0) &&
    IsAllDigits(s[20..22]) && IsAllDigits(s[22..]) && DecimalValue(s[20..22]) * 60 + DecimalValue(s[22..]) == Abs(off)
  }

  lemma ISO8601Concat(y: string, mo: string, d: string, h: string, mi: string, s: string, o: string,
                      year: int, month: int, day: int, hv: int, minv: int, sv: int, off: int)
    requires DigitsOf(y, 4, year) && DigitsOf(mo, 2, month) && DigitsOf(d, 2, day)
    requires DigitsOf(h, 2, hv) && DigitsOf(mi, 2, minv) && DigitsOf(s, 2, sv)
    requires |o| == 5 && (o[0] == '-' <==> off > 0) && (o[0] == '+' <==> off <= 0)
    requires IsAllDigits(o[1..3]) && IsAllDigits(o[3..]) && DecimalValue(o[1..3]) * 60 + DecimalValue(o[3..]) == Abs(off)
    ensures ISO8601Layout(y + "-" + mo + "-" + d + "T" + h + ":" + mi + ":" + s + o, year, month, day, hv, minv, sv, off)
  {
    var x := y + "-" + mo + "-" + d + "T" + h + ":" + mi + ":" + s + o;
    assert x[..4] == y && x[5..7] == mo && x[8..10] == d && x[11..13] == h;
    assert x[14..16] == mi && x[17..19] == s && x[19..] == o;
    assert x[20..22] == o[1..3] && x[22..] == o[3..];
  }

  /**
   * For a four-digit year and an offset west of UTC or a whole number of
   * hours east of it, toISOString has the ISO 8601 layout and every part
   * reads back as the date's field, the month counted from 1.
   */
  lemma ISO8601Shape(t: int, tz: int, cx: Context)
    requires t != 0 && "iso8601" in cx.formats && cx.formats["iso8601"] == DefaultFormats["iso8601"]
    requires 1000 <= YearAt(t, tz) <= 9999
    requires Abs(tz) < 6000 && (tz >= 0 || JsRem(tz, 60) == 0)
    ensures Format(t, tz, cx, Some("iso8601")).Ok?
    ensures ISO8601Layout(Format(t, tz, cx, Some("iso8601")).value, YearAt(t, tz), MonthAt(t, tz) + 1,
      DateAt(t, tz), HoursAt(t, tz), MinutesAt(t, tz), SecondsAt(t, tz), tz)
  {
    FormatISO8601(t, tz, cx);
    FourDigits(YearAt(t, tz));
    PaddedFields(DateAt(t, tz), HoursAt(t, tz), MinutesAt(t, tz), SecondsAt(t, tz),
      WeekAt(t, tz), MonthAt(t, tz), DayOfYearAt(t, tz));
    GMTOffsetDigits(tz);
    ISO8601Concat(IntToString(YearAt(t, tz)), Zeroize(MonthAt(t, tz) + 1, 2), Zeroize(DateAt(t, tz), 2),
      Zeroize(HoursAt(t, tz), 2), Zeroize(MinutesAt(t, tz), 2), Zeroize(SecondsAt(t, tz), 2), GMTOffsetText(tz),
      YearAt(t, tz), MonthAt(t, tz) + 1, DateAt(t, tz), HoursAt(t, tz), MinutesAt(t, tz), SecondsAt(t, tz), tz);
  }

  const RFC822Template: string := "%a, %d %b %Y %H:%M:%S %Z"

  lemma RFC822Pieces(head: string, tail: string)
    requires head == ['%', 'a'] + ([','] + ([' '] + (['%', 'd'] + ([' '] + (['%', 'b'] + [' '])))))
    requires tail == ['%', 'Y'] + ([' '] + ("%H:%M:%S" + ([' '] + (['%', 'Z'] + []))))
    ensures RFC822Template == head + tail
    ensures DefaultFormats["rfc822"] == RFC822Template && Lower("rfc822") == "rfc822"
  {
  }

  /** The year, time and zone that end the rfc822 template. */
  lemma RFC822TailScan(p: Replacements, cx: Context, fuel: nat)
    ensures Scan(p, cx, ['%', 'Y'] + ([' '] + ("%H:%M:%S" + ([' '] + (['%', 'Z'] + [])))), fuel) ==
      Ok(p.year + ([' '] + (p.hours + ":" + p.minutes + ":" + p.seconds + ([' '] + (p.zone + [])))))
  {
    var r0 := [' '] + (['%', 'Z'] + []);
    var v0 := [' '] + (p.zone + []);
    ScanEmpty(p, cx, fuel);
    ScanTokenThen(p, cx, 'Z', [], fuel, p.zone, []);
    ScanOtherThen(p, cx, ' ', ['%', 'Z'] + [], fuel, p.zone + []);
    TimePart(p, cx, r0, fuel, v0);
    var v1 := p.hours + ":" + p.minutes + ":" + p.seconds + v0;
    ScanOtherThen(p, cx, ' ', "%H:%M:%S" + r0, fuel, v1);
    ScanTokenThen(p, cx, 'Y', [' '] + ("%H:%M:%S" + r0), fuel, p.year, [' '] + v1);
  }

  /** The short day name, the day and the short month name that open the rfc822 template. */
  lemma RFC822HeadScan(p: Replacements, cx: Context, fuel: nat, day: string, month: string, rest: string, v: string)
    requires p.shortDay == Ok(day) && p.shortMonth == Ok(month) && Scan(p, cx, rest, fuel) == Ok(v)
    ensures Scan(p, cx, ['%', 'a'] + ([','] + ([' '] + (['%', 'd'] + ([' '] + (['%', 'b'] + ([' '] + rest)))))), fuel) ==
      Ok(day + ([','] + ([' '] + (p.date + ([' '] + (month + ([' '] + v)))))))
  {
    var r1 := [' '] + rest;
    var r2 := ['%', 'b'] + r1;
    var r3 := [' '] + r2;
    var r4 := ['%', 'd'] + r3;
    var r5 := [' '] + r4;
    var r6 := [','] + r5;
    ScanOtherThen(p, cx, ' ', rest, fuel, v);
    ScanTokenThen(p, cx, 'b', r1, fuel, month, [' '] + v);
    ScanOtherThen(p, cx, ' ', r2, fuel, month + ([' '] + v));
    ScanTokenThen(p, cx, 'd', r3, fuel, p.date, [' '] + (month + ([' '] + v)));
    var w := p.date + ([' '] + (month + ([' '] + v)));
    ScanOtherThen(p, cx, ' ', r4, fuel, w);
    ScanOtherThen(p, cx, ',', r5, fuel, [' '] + w);
    ScanTokenThen(p, cx, 'a', r6, fuel, day, [','] + ([' '] + w));
  }

  lemma RFC822Joined(head: string, tail: string, rest: string)
    requires head == ['%', 'a'] + ([','] + ([' '] + (['%', 'd'] + ([' '] + (['%', 'b'] + [' '])))))
    ensures head + rest == ['%', 'a'] + ([','] + ([' '] + (['%', 'd'] + ([' '] + (['%', 'b'] + ([' '] + rest))))))
  {
  }

  /** The rfc822 template: short day name, day, short month name, year, time and zone. */
  lemma RFC822Scan(p: Replacements, cx: Context, fuel: nat, day: string, month: string)
    requires p.shortDay == Ok(day) && p.shortMonth == Ok(month)
    ensures Scan(p, cx, RFC822Template, fuel) ==
      Ok(day + ", " + p.date + " " + month + " " + p.year + " " + p.hours + ":" + p.minutes + ":" + p.seconds + " " + p.zone)
  {
    var head := ['%', 'a'] + ([','] + ([' '] + (['%', 'd'] + ([' '] + (['%', 'b'] + [' '])))));
    var tail := ['%', 'Y'] + ([' '] + ("%H:%M:%S" + ([' '] + (['%', 'Z'] + []))));
    RFC822Pieces(head, tail);
    RFC822Joined(head, tail, tail);
    RFC822TailScan(p, cx, fuel);
    var v := p.year + ([' '] + (p.hours + ":" + p.minutes + ":" + p.seconds + ([' '] + (p.zone + []))));
    RFC822HeadScan(p, cx, fuel, day, month, tail, v);
    RFC822Text(day, p.date, month, p.year, p.hours, p.minutes, p.seconds, p.zone);
  }

  lemma RFC822Text(a: string, d: string, b: string, y: string, h: string, mi: string, s: string, z: string)
    ensures a + ([','] + ([' '] + (d + ([' '] + (b + ([' '] + (y + ([' '] + (h + ":" + mi + ":" + s + ([' '] + (z + []))))))))))) ==
      a + ", " + d + " " + b + " " + y + " " + h + ":" + mi + ":" + s + " " + z
  {
    assert ", " == [','] + [' '] && " " == [' '] && z + [] == z;
  }

  /**
   * format('rfc822') with the initial macro and a locale with seven day
   * and twelve month names: the layout of section 5 of RFC 822 with the
   * four-digit year of section 5.2.14 of RFC 1123, the zone taken from
   * the host.
   */
  lemma FormatRFC822(t: int, tz: int, cx: Context)
    requires t != 0 && "rfc822" in cx.formats && cx.formats["rfc822"] == DefaultFormats["rfc822"]
    requires |cx.locale.days| == 7 && |cx.locale.months| == 12
    ensures Format(t, tz, cx, Some("rfc822")) ==
      Ok(Take(cx.locale.days[WeekDayAt(t, tz)], 3) + ", " + Zeroize(DateAt(t, tz), 2) + " " +
         Take(cx.locale.months[MonthAt(t, tz)], 3) + " " + IntToString(YearAt(t, tz)) + " " +
         Zeroize(HoursAt(t, tz), 2) + ":" + Zeroize(MinutesAt(t, tz), 2) + ":" + Zeroize(SecondsAt(t, tz), 2) + " " +
         cx.host.zone(t))
  {
    var p := ReplacementsOf(t, tz, cx.host, cx.locale);
    RFC822Names(p, t, tz, cx);
    var head := ['%', 'a'] + ([','] + ([' '] + (['%', 'd'] + ([' '] + (['%', 'b'] + [' '])))));
    var tail := ['%', 'Y'] + ([' '] + ("%H:%M:%S" + ([' '] + (['%', 'Z'] + []))));
    RFC822Pieces(head, tail);
    MacroTemplate(cx.formats, "rfc822", RFC822Template);
    FormatValid(t, tz, cx, Some("rfc822"), p, RFC822Template);
    RFC822Scan(p, cx, MaxNesting, Take(cx.locale.days[WeekDayAt(t, tz)], 3), Take(cx.locale.months[MonthAt(t, tz)], 3));
  }

  lemma RFC822Names(p: Replacements, t: int, tz: int, cx: Context)
    requires p == ReplacementsOf(t, tz, cx.host, cx.locale)
    requires |cx.locale.days| == 7 && |cx.locale.months| == 12
    ensures p.shortDay == Ok(Take(cx.locale.days[WeekDayAt(t, tz)], 3))
    ensures p.shortMonth == Ok(Take(cx.locale.months[MonthAt(t, tz)], 3))
  {
  }
}
