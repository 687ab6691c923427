/**
 * The parser registry of Date: the named formats, the list of parse
 * patterns tried in order by Date.parse, the two-digit-year window and the
 * language the patterns are compiled for.
 */
module Registry {
  import opened Errors
  import opened Text
  import opened Locales
  import opened Fields
  import opened Patterns
  import opened Handlers
  import opened Dates
  import opened Arithmetic
  import Formatter

  /** What Date.parse is given: a number, a string, or anything else. */
  datatype Input = NumberInput(n: int) | TextInput(s: string) | OtherInput

  /**
   * What Date.parse returns: a date at an instant, a date from a native
   * parse that failed (an invalid date), null, its argument unchanged, or
   * the error a pattern's handler threw.
   */
  datatype Parsed = Instant(t: int) | InvalidDate | NoDate | Unchanged | Thrown(e: Error)

  /**
   * The regular expression engine, left abstract: given a pattern's source
   * (compiled case-insensitively) and a text, the captures of a match —
   * index 0 the whole match, index j group j — or None when it does not match.
   */
  type Matcher = (string, string) -> Option<seq<Option<string>>>

  /** The host's own Date.parse: the instant it reads, or None for NaN. */
  type NativeParse = string -> Option<int>

  /** What defineParser is given: a format to compile, or a ready pattern with its own regular expression and handler. */
  datatype ParserArg =
    | FormatArg(format: string)
    | ReadyArg(re: string, handler: seq<Option<string>> -> Option<int>)

  /** The formats of the default parse patterns, in the order they are tried. */
  const DefaultParserFormats: seq<string> := [
    "%Y([-./]%m([-./]%d((T| )%X)?)?)?",
    "%Y%m%d(T%H(%M%S?)?)?",
    "%x( %X)?",
    "%d%o( %b( %Y)?)?( %X)?",
    "%b( %d%o)?( %Y)?( %X)?"
  ]

  /** The TypeError of `pattern.re.exec` on a pattern that was never compiled. */
  const NotCompiled: Error := TypeError("pattern.re is undefined")

  /** The pattern defineParser adds for arg while the language is lang. */
  function Defined(lang: Option<Locale>, arg: ParserArg): (p: Pattern)
    ensures arg.ReadyArg? <==> p.Custom?
    ensures arg.FormatArg? ==> p == Compiled(lang, arg.format)
  {
    match arg
    case ReadyArg(re, handler) => Custom(re, handler)
    case FormatArg(format) => Compiled(lang, format)
  }

  /**
   * What langChange makes of one pattern: one with a non-empty format is
   * compiled again; a ready one, and one whose format is the empty string
   * (falsy in `if (pattern.format)`), is kept as it is.
   */
  function Rebuilt(l: Locale, p: Pattern): (q: Pattern)
  {
    if p.Custom? || p.format == "" then p else Compiled(Some(l), p.format)
  }

  function RebuiltAll(l: Locale, ps: seq<Pattern>): (qs: seq<Pattern>)
    ensures |qs| == |ps| && forall i :: 0 <= i < |ps| ==> qs[i] == Rebuilt(l, ps[i])
  {
    seq(|ps|, i requires 0 <= i < |ps| => Rebuilt(l, ps[i]))
  }

  /** The number `set('time', ...)` receives for a parse result: a date's instant, 0 for null and for an invalid date. */
  function ParsedTime(r: Parsed): (n: Result<int>)
    ensures n.Err? <==> r.Thrown?
    ensures r.Instant? ==> n == Ok(r.t)
    ensures r.NoDate? || r.InvalidDate? ==> n == Ok(0)
  {
    match r
    case Instant(t) => Ok(t)
    case Thrown(e) => Err(e)
    case _ => Ok(0)
  }

  /**
   * `this.diff(d, resolution)` once Date.parse has read the string d: a
   * date's diff; NaN (None) for an invalid date, unless the resolution
   * names no unit, which throws all the same; null has no `get`; and an
   * error the parse threw propagates.
   */
  function DiffParsed(t: int, tz: int, r: Parsed, resolution: string): (n: Result<Option<int>>)
    requires !r.Unchanged?
    ensures r.NoDate? || r.Thrown? ==> n.Err?
    ensures n.Ok? && n.value.Some? ==> r.Instant?
  {
    match r
    case Instant(d) => (match Diff(t, d, tz, resolution) case Ok(x) => Ok(Some(x)) case Err(e) => Err(e))
    case InvalidDate => (match Diff(t, t, tz, resolution) case Ok(_) => Ok(None) case Err(e) => Err(e))
    case NoDate => Err(TypeError("d is null"))
    case Thrown(e) => Err(e)
  }

  /** `this.diff(str, resolution)`: `d = Date.parse(d)` for a string, then the diff. */
  function DiffText(t: int, tz: int, str: string, resolution: string, ps: seq<Pattern>, now: int, env: Env, matcher: Matcher, native: NativeParse): Result<Option<int>>
  {
    var r := ParseInput(TextInput(str), ps, now, tz, env, matcher, native);
    TextNeverUnchanged(str, ps, now, tz, env, matcher, native);
    DiffParsed(t, tz, r, resolution)
  }

  /** The parse result of a captured match of a compiled pattern: its handler's date, or the error it threw. */
  function HandlerResult(o: Outcome): Parsed
  {
    if o.error.Some? then Thrown(o.error.value) else Instant(o.time)
  }

  /**
   * `Date.parsePatterns.some(...)` from pattern i on: the result of the first
   * pattern that matches text and whose handler gives a date, or None when
   * none does.  A pattern never compiled throws.
   */
  function Decide(ps: seq<Pattern>, i: nat, text: string, now: int, tz: int, env: Env, matcher: Matcher): Option<Parsed>
    decreases |ps| - i
  {
    if i >= |ps| then None
    else match ps[i]
      case Unbuilt(_) => Some(Thrown(NotCompiled))
      case Built(_, source, parsed) =>
        (match matcher(source, text)
         case None => Decide(ps, i + 1, text, now, tz, env, matcher)
         case Some(bits) => Some(HandlerResult(Handler(now, tz, env, parsed, bits))))
      case Custom(re, handler) =>
        (match matcher(re, text)
         case None => Decide(ps, i + 1, text, now, tz, env, matcher)
         case Some(bits) =>
           (match handler(bits)
            case None => Decide(ps, i + 1, text, now, tz, env, matcher)
            case Some(t) => Some(Instant(t))))
  }

  /** `Date.parse(from)`. */
  function ParseInput(from: Input, ps: seq<Pattern>, now: int, tz: int, env: Env, matcher: Matcher, native: NativeParse): Parsed
  {
    match from
    case NumberInput(n) => Instant(n)
    case OtherInput => Unchanged
    case TextInput(s) =>
      var text := Clean(s);
      if text == [] then NoDate
      else match Decide(ps, 0, text, now, tz, env, matcher)
        case Some(r) => r
        case None => (match native(text) case Some(t) => Instant(t) case None => InvalidDate)
  }

  /**
   * A compiled pattern's handler run on a date object: `new Date().clearTime()`,
   * then handle for each captured letter in order.
   */
  method RunHandler(now: int, tz: int, env: Env, parsed: seq<char>, bits: seq<Option<string>>)
    returns (t: int, err: Option<Error>)
    ensures Outcome(t, err) == Handler(now, tz, env, parsed, bits)
  {
    var d := new JsDate(now, tz);
    var e := d.ClearTime();
    var k := 0;
    while k < |parsed|
      invariant 0 <= k <= |parsed| && d.tz == tz
      invariant HandleFrom(d.time, tz, env, parsed, bits, k) == Handler(now, tz, env, parsed, bits)
      decreases |parsed| - k
    {
      var before := d.time;
      err := d.Handle(parsed[k], Bit(bits, k + 1), env);
      if err.Some? {
        assert HandleFrom(before, tz, env, parsed, bits, k) == Outcome(before, err);
        return d.time, err;
      }
      k := k + 1;
    }
    return d.time, None;
  }

  class DateRegistry {
    /** The named formats of Date.prototype.format. */
    var formats: map<string, string>
    /** `Date.parsePatterns`. */
    var patterns: seq<Pattern>
    /** `yr_base` and `yr_start`. */
    var window: YearWindow
    /** The language the patterns are compiled for, once one has date messages. */
    var lang: Option<Locale>

    /** Compiled patterns exist only once a language is set. */
    predicate Valid()
      reads this
    {
      lang.None? ==> forall i :: 0 <= i < |patterns| ==> !patterns[i].Built?
    }

    /** The handlers' view of the registry; before any language is set no pattern is compiled, so none reads the locale. */
    function CurrentEnv(): Env
      reads this
    {
      Env(if lang.Some? then lang.value else EnglishUS, window)
    }

    /** The state when the file has run, before the first langChange: the default formats and the default patterns, not yet compiled. */
    constructor()
      ensures formats == Formatter.DefaultFormats && window == DefaultWindow && lang == None
      ensures |patterns| == |DefaultParserFormats|
      ensures forall i :: 0 <= i < |patterns| ==> patterns[i] == Unbuilt(DefaultParserFormats[i])
      ensures Valid()
    {
      formats := Formatter.DefaultFormats;
      patterns := seq(|DefaultParserFormats|, i requires 0 <= i < |DefaultParserFormats| => Unbuilt(DefaultParserFormats[i]));
      window := DefaultWindow;
      lang := None;
    }

    /** `Date.defineFormat(name, format)`. */
    method DefineFormat(name: string, format: string)
      modifies this
      ensures formats == old(formats)[name := format]
      ensures patterns == old(patterns) && window == old(window) && lang == old(lang)
    {
      formats := formats[name := format];
    }

    /** `Date.defineParser(format)`: the pattern goes to the end of the list. */
    method DefineParser(arg: ParserArg)
      requires Valid()
      modifies this
      ensures patterns == old(patterns) + [Defined(lang, arg)]
      ensures formats == old(formats) && window == old(window) && lang == old(lang)
      ensures Valid()
    {
      var p: Pattern;
      match arg {
        case ReadyArg(re, handler) =>
          p := Custom(re, handler);
        case FormatArg(format) =>
          p := Build(lang, format);
      }
      patterns := patterns + [p];
    }

    /** `Date.defineParsers(formats...)`: each in turn. */
    method DefineParsers(args: seq<ParserArg>)
      requires Valid()
      modifies this
      ensures |patterns| == |old(patterns)| + |args| && patterns[..|old(patterns)|] == old(patterns)
      ensures forall i :: 0 <= i < |args| ==> patterns[|old(patterns)| + i] == Defined(lang, args[i])
      ensures formats == old(formats) && window == old(window) && lang == old(lang)
      ensures Valid()
    {
      var k := 0;
      while k < |args|
        invariant 0 <= k <= |args| && Valid()
        invariant |patterns| == |old(patterns)| + k && patterns[..|old(patterns)|] == old(patterns)
        invariant forall i :: 0 <= i < k ==> patterns[|old(patterns)| + i] == Defined(lang, args[i])
        invariant formats == old(formats) && window == old(window) && lang == old(lang)
        decreases |args| - k
      {
        DefineParser(args[k]);
        k := k + 1;
      }
    }

    /** `Date.define2DigitYearStart(year)`. */
    method Define2DigitYearStart(year: int)
      modifies this
      ensures window == WindowFrom(year)
      ensures formats == old(formats) && patterns == old(patterns) && lang == old(lang)
      ensures Valid() <==> old(Valid())
    {
      window := WindowFrom(year);
    }

    /**
     * The 'langChange' listener: a language with date messages becomes the
     * current one and every pattern with a format is compiled again for it;
     * None stands for a language without date messages, which changes nothing.
     */
    method LangChange(language: Option<Locale>)
      requires Valid()
      modifies this
      ensures language.None? ==> patterns == old(patterns) && lang == old(lang)
      ensures language.Some? ==> patterns == RebuiltAll(language.value, old(patterns)) && lang == language
      ensures formats == old(formats) && window == old(window)
      ensures Valid()
    {
      if language.None? {
        return;
      }
      var l := language.value;
      lang := language;
      var k := 0;
      while k < |patterns|
        invariant 0 <= k <= |patterns| == |old(patterns)|
        invariant forall i :: 0 <= i < k ==> patterns[i] == Rebuilt(l, old(patterns)[i])
        invariant forall i :: k <= i < |patterns| ==> patterns[i] == old(patterns)[i]
        invariant formats == old(formats) && window == old(window) && lang == language
        decreases |patterns| - k
      {
        var p := patterns[k];
        assert p == old(patterns)[k];
        if !p.Custom? && p.format != "" {
          p := Build(lang, p.format);
          assert p == Compiled(Some(l), old(patterns)[k].format);
        }
        assert p == Rebuilt(l, old(patterns)[k]);
        patterns := patterns[k := p];
        k := k + 1;
      }
      assert patterns == RebuiltAll(l, old(patterns));
    }

    /**
     * `Date.parse(from)` on a host whose clock reads now and whose local
     * offset is tz.
     */
    method Parse(from: Input, now: int, tz: int, matcher: Matcher, native: NativeParse) returns (r: Parsed)
      ensures r == ParseInput(from, patterns, now, tz, CurrentEnv(), matcher, native)
    {
      match from {
        case NumberInput(n) =>
          return Instant(n);
        case OtherInput =>
          return Unchanged;
        case TextInput(s) =>
      }
      var text := Clean(from.s);
      if text == [] {
        return NoDate;
      }
      var env := CurrentEnv();
      var i := 0;
      while i < |patterns|
        invariant 0 <= i <= |patterns|
        invariant Decide(patterns, 0, text, now, tz, env, matcher) == Decide(patterns, i, text, now, tz, env, matcher)
        decreases |patterns| - i
      {
        var p := patterns[i];
        if p.Unbuilt? {
          return Thrown(NotCompiled);
        }
        var bits := matcher(if p.Built? then p.source else p.re, text);
        if bits.Some? {
          if p.Built? {
            var t, err := RunHandler(now, tz, env, p.parsed, bits.value);
            return HandlerResult(Outcome(t, err));
          }
          var h := p.handler(bits.value);
          if h.Some? {
            return Instant(h.value);
          }
        }
        i := i + 1;
      }
      var n := native(text);
      r := if n.Some? then Instant(n.value) else InvalidDate;
    }

    /**
     * `date.parse(str)`: `date.set('time', Date.parse(str))`.  A date
     * parsed goes in as its instant, null as 0, and an invalid date as 0,
     * the model's stand-in for NaN; an error thrown leaves the date alone.
     */
    method ParseInto(d: JsDate, str: string, now: int, matcher: Matcher, native: NativeParse) returns (err: Option<Error>)
      modifies d
      ensures Reached(ParsedTime(ParseInput(TextInput(str), patterns, now, d.tz, CurrentEnv(), matcher, native)), old(d.time), d.time, err)
    {
      var r := Parse(TextInput(str), now, d.tz, matcher, native);
      if r.Thrown? {
        return Some(r.e);
      }
      var v := ParsedTime(r).value;
      SetTimeByName(d.time, d.tz, v);
      err := d.Set("time", Num(v));
    }
  }

  // ---- what the registry promises -------------------------------------------

  /**
   * The patterns are tried in order: a list followed by more patterns
   * decides as the list does whenever the list decides, and as the
   * patterns after it otherwise.
   */
  lemma {:induction false} DecideAppend(ps: seq<Pattern>, more: seq<Pattern>, i: nat, text: string, now: int, tz: int, env: Env, matcher: Matcher)
    requires i <= |ps|
    ensures Decide(ps + more, i, text, now, tz, env, matcher) ==
      match Decide(ps, i, text, now, tz, env, matcher)
      case Some(r) => Some(r)
      case None => Decide(more, 0, text, now, tz, env, matcher)
    decreases |ps| - i
  {
    if i == |ps| {
      DecideShift(ps, more, 0, text, now, tz, env, matcher);
    } else {
      assert (ps + more)[i] == ps[i];
      DecideAppend(ps, more, i + 1, text, now, tz, env, matcher);
    }
  }

  /** Patterns in front are skipped once the search is past them. */
  lemma {:induction false} DecideShift(ps: seq<Pattern>, more: seq<Pattern>, j: nat, text: string, now: int, tz: int, env: Env, matcher: Matcher)
    ensures Decide(ps + more, |ps| + j, text, now, tz, env, matcher) == Decide(more, j, text, now, tz, env, matcher)
    decreases |more| - j
  {
    if j < |more| {
      assert (ps + more)[|ps| + j] == more[j];
      DecideShift(ps, more, j + 1, text, now, tz, env, matcher);
    }
  }

  /** A pattern defined later never changes the parse of a text an earlier pattern already accepts. */
  lemma DefinedLaterKeepsEarlier(ps: seq<Pattern>, p: Pattern, s: string, now: int, tz: int, env: Env, matcher: Matcher, native: NativeParse)
    requires Clean(s) != [] && Decide(ps, 0, Clean(s), now, tz, env, matcher).Some?
    ensures ParseInput(TextInput(s), ps + [p], now, tz, env, matcher, native) == ParseInput(TextInput(s), ps, now, tz, env, matcher, native)
  {
    DecideAppend(ps, [p], 0, Clean(s), now, tz, env, matcher);
  }

  /** Only the first pattern that decides counts: what follows a pattern that accepts the text is never consulted. */
  lemma FirstAcceptingWins(ps: seq<Pattern>, i: nat, text: string, now: int, tz: int, env: Env, matcher: Matcher)
    requires i < |ps| && ps[i].Built? && matcher(ps[i].source, text).Some?
    ensures Decide(ps, i, text, now, tz, env, matcher) ==
      Some(HandlerResult(Handler(now, tz, env, ps[i].parsed, matcher(ps[i].source, text).value)))
  {
  }

  /** A pattern that does not match, or a ready pattern whose handler gives nothing, is passed over. */
  lemma NoMatchPassesOver(ps: seq<Pattern>, i: nat, text: string, now: int, tz: int, env: Env, matcher: Matcher)
    requires i < |ps| && !ps[i].Unbuilt?
    requires match ps[i]
      case Built(_, source, _) => matcher(source, text).None?
      case Custom(re, handler) => matcher(re, text).None? || handler(matcher(re, text).value).None?
      case Unbuilt(_) => false
    ensures Decide(ps, i, text, now, tz, env, matcher) == Decide(ps, i + 1, text, now, tz, env, matcher)
  {
  }

  /** Blank text parses to null without consulting a pattern, and only blank text does. */
  lemma ParseBlank(s: string, ps: seq<Pattern>, now: int, tz: int, env: Env, matcher: Matcher, native: NativeParse)
    ensures ParseInput(TextInput(s), ps, now, tz, env, matcher, native) == NoDate <==> IsBlank(s)
  {
    CleanEmpty(s);
    if !IsBlank(s) {
      DecideNeverNull(ps, 0, Clean(s), now, tz, env, matcher);
    }
  }

  /** No pattern gives null: what decides is a date or an error. */
  lemma {:induction false} DecideNeverNull(ps: seq<Pattern>, i: nat, text: string, now: int, tz: int, env: Env, matcher: Matcher)
    ensures var r := Decide(ps, i, text, now, tz, env, matcher); r.Some? ==> r.value.Instant? || r.value.Thrown?
    decreases |ps| - i
  {
    if i < |ps| {
      DecideNeverNull(ps, i + 1, text, now, tz, env, matcher);
    }
  }

  /** A string is never handed back unchanged: it parses to a date, an invalid date, null or an error. */
  lemma TextNeverUnchanged(s: string, ps: seq<Pattern>, now: int, tz: int, env: Env, matcher: Matcher, native: NativeParse)
    ensures !ParseInput(TextInput(s), ps, now, tz, env, matcher, native).Unchanged?
  {
    DecideNeverNull(ps, 0, Clean(s), now, tz, env, matcher);
  }

  /**
   * diff of a string: a number exactly when the string parses to a date
   * and diff of that date succeeds, and then it is that diff; NaN exactly
   * when it parses to an invalid date and the resolution is known; blank
   * text is null, whose `get` throws.
   */
  lemma DiffTextMeaning(t: int, tz: int, s: string, res: string, ps: seq<Pattern>, now: int, env: Env, matcher: Matcher, native: NativeParse)
    ensures var r := ParseInput(TextInput(s), ps, now, tz, env, matcher, native); var n := DiffText(t, tz, s, res, ps, now, env, matcher, native);
      (n.Ok? && n.value.Some? <==> r.Instant? && Diff(t, r.t, tz, res).Ok?) &&
      (n.Ok? && n.value.Some? ==> n.value.value == Diff(t, r.t, tz, res).value) &&
      (n == Ok(None) <==> r.InvalidDate? && Diff(t, t, tz, res).Ok?)
    ensures IsBlank(s) ==> DiffText(t, tz, s, res, ps, now, env, matcher, native) == Err(TypeError("d is null"))
  {
    ParseBlank(s, ps, now, tz, env, matcher, native);
  }

  /** Before a language is set the first default pattern is not compiled, so every non-blank text throws. */
  lemma ParseBeforeLanguage(ps: seq<Pattern>, s: string, now: int, tz: int, env: Env, matcher: Matcher, native: NativeParse)
    requires |ps| > 0 && ps[0].Unbuilt? && !IsBlank(s)
    ensures ParseInput(TextInput(s), ps, now, tz, env, matcher, native) == Thrown(NotCompiled)
  {
    CleanEmpty(s);
  }

  /** When no pattern decides, the text goes to the host's parse, and a NaN there is an invalid date. */
  lemma ParseFallsBack(s: string, ps: seq<Pattern>, now: int, tz: int, env: Env, matcher: Matcher, native: NativeParse)
    requires !IsBlank(s) && Decide(ps, 0, Clean(s), now, tz, env, matcher).None?
    ensures native(Clean(s)).None? ==> ParseInput(TextInput(s), ps, now, tz, env, matcher, native) == InvalidDate
    ensures native(Clean(s)).Some? ==> ParseInput(TextInput(s), ps, now, tz, env, matcher, native) == Instant(native(Clean(s)).value)
  {
    CleanEmpty(s);
  }

  /**
   * langChange keeps the list: the same number of patterns in the same
   * order, ready patterns and patterns with an empty format untouched, and
   * every other one compiled from its own format, with one capturing group
   * per letter its handler reads.
   */
  lemma RebuiltKeepsList(l: Locale, ps: seq<Pattern>)
    ensures var qs := RebuiltAll(l, ps);
      |qs| == |ps| &&
      (forall i :: 0 <= i < |ps| && (ps[i].Custom? || ps[i].format == "") ==> qs[i] == ps[i]) &&
      (forall i :: 0 <= i < |ps| && !ps[i].Custom? && ps[i].format != "" ==> qs[i].Built? && qs[i].format == ps[i].format) &&
      (forall i :: 0 <= i < |ps| && !ps[i].Custom? && ps[i].format != "" ==> CapturingOpens(qs[i].source) == |qs[i].parsed|)
  {
    var qs := RebuiltAll(l, ps);
    forall i | 0 <= i < |ps| && !ps[i].Custom? && ps[i].format != ""
      ensures CapturingOpens(qs[i].source) == |qs[i].parsed|
    {
      BuildGroups(l, ps[i].format);
    }
  }

  /** Switching to the same language twice compiles to the same list as switching once. */
  lemma RebuiltIdempotent(l: Locale, ps: seq<Pattern>)
    ensures RebuiltAll(l, RebuiltAll(l, ps)) == RebuiltAll(l, ps)
  {
    var qs := RebuiltAll(l, ps);
    assert forall i :: 0 <= i < |ps| ==> Rebuilt(l, qs[i]) == qs[i];
  }
}
