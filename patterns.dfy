/**
 * Parse patterns: `build(format)` compiles a parse format such as
 * '%Y([-./]%m([-./]%d)?)?' into an anchored, case-blind regular
 * expression and the list `parsed` of the field letters its capturing
 * groups hold, in order.  The expression is kept as its source text; the
 * matching itself is left to the Registry's matcher.
 */
module Patterns {
  import opened Errors
  import opened Locales

  // ---- keys and parsers -----------------------------------------------------

  /** The sources of the regular expressions in `keys`. */
  const NameKey: string := "[a-z]{3,}"
  const TwoDigitKey: string := "\\d{1,2}"
  const FractionKey: string := "\\d+"
  const MeridiemKey: string := "[ap]\\.?m\\.?"
  const ShortYearKey: string := "\\d{2}|\\d{4}"
  const YearKey: string := "\\d{4}"
  const ZoneKey: string := "Z|[+-]\\d{2}(?::?\\d{2})?"
  const OrdinalKey: string := "[^\\d\\s]*"
  const ClockKey: string := ClockHourMinute + ClockSeconds + ClockSuffix
  // The three parts of the %X fragment: hours and minutes, seconds and fraction, meridiem and zone.
  const ClockHourMinute: string := "%H([.:]%M)?"
  const ClockSeconds: string := "([.:]%S([.:]%s)?)?"
  const ClockSuffix: string := "\\s?%p?\\s?%T?"

  /** The two readings of %x: month first, or date first. */
  const MonthFirstKey: string := "%m[.-/]%d([.-/]%y)?"
  const DateFirstKey: string := "%d[.-/]%m([.-/]%y)?"

  /** `parsers(key)`: the fragment a %-letter stands for, or None for null. */
  function Parser(l: Locale, key: char): Option<string>
  {
    if key == 'x' then Some(if OrderIndex(l, "month") == 1 then MonthFirstKey else DateFirstKey)
    else if key == 'a' || key == 'A' || key == 'b' || key == 'B' then Some(NameKey)
    else if key == 'd' || key == 'H' || key == 'I' || key == 'm' || key == 'M' || key == 'S' then Some(TwoDigitKey)
    else if key == 's' then Some(FractionKey)
    else if key == 'p' then Some(MeridiemKey)
    else if key == 'y' then Some(ShortYearKey)
    else if key == 'Y' then Some(YearKey)
    else if key == 'T' then Some(ZoneKey)
    else if key == 'o' then Some(OrdinalKey)
    else if key == 'X' then Some(ClockKey)
    else None
  }

  /** The letters the first rewrite expands before anything else: `%([xXo])`. */
  predicate IsShortKey(c: char)
  {
    c == 'x' || c == 'X' || c == 'o'
  }

  /** The characters the capture rewrite looks at after a '%': `[a-z%]` ignoring case. */
  predicate IsKeyChar(c: char)
  {
    ('a' <= c <= 'z') || ('A' <= c <= 'Z') || c == '%'
  }

  // ---- the four rewrites ----------------------------------------------------

  /** `replace(/%([xXo])/g, ...)`: each %x, %X and %o becomes its fragment, which is not scanned again. */
  function ExpandShort(l: Locale, s: string): string
    decreases |s|
  {
    if s == [] then []
    else if |s| >= 2 && s[0] == '%' && IsShortKey(s[1]) then Parser(l, s[1]).GetOr([s[1]]) + ExpandShort(l, s[2..])
    else [s[0]] + ExpandShort(l, s[1..])
  }

  /** `replace(/\((?!\?)/g, '(?:')`: every '(' not already followed by '?' opens a non-capturing group. */
  function NonCapturing(s: string): string
  {
    if s == [] then []
    else if s[0] == '(' && !(|s| >= 2 && s[1] == '?') then "(?:" + NonCapturing(s[1..])
    else [s[0]] + NonCapturing(s[1..])
  }

  /** `replace(/ (?!\?|\*)/g, ',? ')`: a space not followed by '?' or '*' may come after a comma. */
  function Forgiving(s: string): string
  {
    if s == [] then []
    else if s[0] == ' ' && !(|s| >= 2 && (s[1] == '?' || s[1] == '*')) then ",? " + Forgiving(s[1..])
    else [s[0]] + Forgiving(s[1..])
  }

  /** What the capture rewrite turns each part of its input into. */
  datatype Piece = Literal(c: char) | Group(key: char, fragment: string)

  /**
   * `replace(/%([a-z%])/gi, ...)`: %c with a fragment f becomes the group
   * '(' + f + ')' and c is pushed onto `parsed`; %c without one becomes c.
   */
  function Pieces(l: Locale, s: string): seq<Piece>
    decreases |s|
  {
    if s == [] then [] else Head(l, s) + Pieces(l, s[Width(s)..])
  }

  /** How many characters the capture rewrite consumes at the start of s: 2 for a match, else 1. */
  function Width(s: string): (w: nat)
    requires s != []
    ensures 1 <= w <= |s|
  {
    if |s| >= 2 && s[0] == '%' && IsKeyChar(s[1]) then 2 else 1
  }

  /** What the capture rewrite makes of the start of s. */
  function Head(l: Locale, s: string): seq<Piece>
    requires s != []
  {
    if Width(s) == 2 then
      (match Parser(l, s[1])
       case Some(f) => [Group(s[1], f)]
       case None => [Literal(s[1])])
    else [Literal(s[0])]
  }

  function PieceText(p: Piece): string
  {
    match p
    case Literal(c) => [c]
    case Group(_, f) => "(" + f + ")"
  }

  function Render(ps: seq<Piece>): string
  {
    if ps == [] then [] else PieceText(ps[0]) + Render(ps[1..])
  }

  /** The letters of the groups, in order: `parsed` without its leading null. */
  function Keys(ps: seq<Piece>): seq<char>
  {
    if ps == [] then []
    else (if ps[0].Group? then [ps[0].key] else []) + Keys(ps[1..])
  }

  /** The text the capture rewrite works on: the first three rewrites in order. */
  function Prepared(l: Locale, format: string): string
  {
    Forgiving(NonCapturing(ExpandShort(l, format)))
  }

  /**
   * What `build(format)` returns: {format} while no language is set;
   * otherwise the format with the source of `new RegExp('^' + re + '$', 'i')`
   * and the letters of `parsed`. A parser object that already has `re`
   * and `handler` is kept as given: its text and its handler.
   */
  datatype Pattern =
    | Unbuilt(format: string)
    | Built(format: string, source: string, parsed: seq<char>)
    | Custom(re: string, handler: seq<Option<string>> -> Option<int>)

  function Compiled(lang: Option<Locale>, format: string): (p: Pattern)
    ensures p.Built? || p.Unbuilt?
    ensures p.format == format
  {
    match lang
    case None => Unbuilt(format)
    case Some(l) =>
      var ps := Pieces(l, Prepared(l, format));
      Built(format, "^" + Render(ps) + "$", Keys(ps))
  }

  // ---- the capture rewrite, as the source runs it --------------------------

  lemma RenderConcat(a: seq<Piece>, b: seq<Piece>)
    ensures Render(a + b) == Render(a) + Render(b)
    ensures Keys(a + b) == Keys(a) + Keys(b)
  {
    RenderAppend(a, b);
    KeysAppend(a, b);
  }

  lemma {:induction false} RenderAppend(a: seq<Piece>, b: seq<Piece>)
    ensures Render(a + b) == Render(a) + Render(b)
  {
    if a == [] {
      assert a + b == b;
    } else {
      var ab := a + b;
      assert ab[0] == a[0] && ab[1..] == a[1..] + b;
      RenderAppend(a[1..], b);
      calc {
        Render(ab);
        PieceText(a[0]) + Render(a[1..] + b);
        PieceText(a[0]) + (Render(a[1..]) + Render(b));
        (PieceText(a[0]) + Render(a[1..])) + Render(b);
      }
    }
  }

  lemma {:induction false} KeysAppend(a: seq<Piece>, b: seq<Piece>)
    ensures Keys(a + b) == Keys(a) + Keys(b)
  {
    if a == [] {
      assert a + b == b;
    } else {
      var ab := a + b;
      assert ab[0] == a[0] && ab[1..] == a[1..] + b;
      KeysAppend(a[1..], b);
      var k: seq<char> := if a[0].Group? then [a[0].key] else [];
      calc {
        Keys(ab);
        k + Keys(a[1..] + b);
        k + (Keys(a[1..]) + Keys(b));
        (k + Keys(a[1..])) + Keys(b);
      }
    }
  }

  lemma RenderOne(p: Piece)
    ensures Render([p]) == PieceText(p) && Keys([p]) == (if p.Group? then [p.key] else [])
  {
    assert [p][1..] == [];
  }

  /** One match of the capture rewrite: what the start of s becomes, then the rest. */
  lemma CaptureStep(l: Locale, s: string, f: Option<string>)
    requires s != [] && (Width(s) == 2 ==> f == Parser(l, s[1]))
    ensures var rest := Pieces(l, s[Width(s)..]);
      if Width(s) == 1 then
        Render(Pieces(l, s)) == [s[0]] + Render(rest) && Keys(Pieces(l, s)) == Keys(rest)
      else if f.Some? then
        Render(Pieces(l, s)) == ("(" + f.value + ")") + Render(rest) && Keys(Pieces(l, s)) == [s[1]] + Keys(rest)
      else
        Render(Pieces(l, s)) == [s[1]] + Render(rest) && Keys(Pieces(l, s)) == Keys(rest)
  {
    var h := Head(l, s);
    assert h == [h[0]];
    RenderOne(h[0]);
    RenderConcat(h, Pieces(l, s[Width(s)..]));
  }

  /** After the first i characters of s the capture rewrite has produced re and parsed. */
  predicate CapturedSoFar(l: Locale, s: string, i: int, re: string, parsed: seq<char>)
    requires 0 <= i <= |s|
  {
    Render(Pieces(l, s)) == re + Render(Pieces(l, s[i..])) &&
    Keys(Pieces(l, s)) == parsed + Keys(Pieces(l, s[i..]))
  }

  /** One more match: the text it becomes goes after re, its letter (if any) after parsed. */
  lemma CaptureAdvance(l: Locale, s: string, i: int, re: string, parsed: seq<char>, text: string, keys: seq<char>)
    requires 0 <= i < |s| && CapturedSoFar(l, s, i, re, parsed)
    requires var rest := s[i..];
      if Width(rest) == 1 then text == [rest[0]] && keys == []
      else if Parser(l, rest[1]).Some? then text == "(" + Parser(l, rest[1]).value + ")" && keys == [rest[1]]
      else text == [rest[1]] && keys == []
    ensures i + Width(s[i..]) <= |s| && CapturedSoFar(l, s, i + Width(s[i..]), re + text, parsed + keys)
  {
    var rest := s[i..];
    var w := Width(rest);
    MatchText(l, rest, text, keys);
    var next := Pieces(l, rest[w..]);
    assert s[i + w..] == rest[w..];
    assert re + (text + Render(next)) == (re + text) + Render(next);
    assert parsed + (keys + Keys(next)) == (parsed + keys) + Keys(next);
  }

  /** The text and letters one match contributes, followed by the rest of the rewrite. */
  lemma MatchText(l: Locale, rest: string, text: string, keys: seq<char>)
    requires rest != []
    requires if Width(rest) == 1 then text == [rest[0]] && keys == []
      else if Parser(l, rest[1]).Some? then text == "(" + Parser(l, rest[1]).value + ")" && keys == [rest[1]]
      else text == [rest[1]] && keys == []
    ensures Width(rest) <= |rest|
    ensures Render(Pieces(l, rest)) == text + Render(Pieces(l, rest[Width(rest)..]))
    ensures Keys(Pieces(l, rest)) == keys + Keys(Pieces(l, rest[Width(rest)..]))
  {
    var w := Width(rest);
    var f := if w == 2 then Parser(l, rest[1]) else None;
    CaptureStep(l, rest, f);
    if w == 1 {
      assert keys + Keys(Pieces(l, rest[w..])) == Keys(Pieces(l, rest[w..]));
    } else if f.Some? {
      assert text == "(" + f.value + ")";
    } else {
      assert keys + Keys(Pieces(l, rest[w..])) == Keys(Pieces(l, rest[w..]));
    }
  }

  /** The capture rewrite, one match at a time, pushing each captured letter onto `parsed`. */
  method CaptureFields(l: Locale, s: string) returns (re: string, parsed: seq<char>)
    ensures re == Render(Pieces(l, s)) && parsed == Keys(Pieces(l, s))
  {
    re, parsed := "", [];
    var i := 0;
    assert s[0..] == s;
    while i < |s|
      invariant 0 <= i <= |s| && CapturedSoFar(l, s, i, re, parsed)
      decreases |s| - i
    {
      var rest := s[i..];
      var w := Width(rest);
      var text: string;
      var keys: seq<char> := [];
      if w == 2 {
        var f := Parser(l, rest[1]);
        if f.Some? {
          text := "(" + f.value + ")";
          keys := [rest[1]];
        } else {
          text := [rest[1]];
        }
      } else {
        text := [rest[0]];
      }
      CaptureAdvance(l, s, i, re, parsed, text, keys);
      re, parsed := re + text, parsed + keys;
      i := i + w;
    }
    assert s[|s|..] == [];
  }

  /** `build(format)`. */
  method Build(lang: Option<Locale>, format: string) returns (p: Pattern)
    ensures p == Compiled(lang, format)
    ensures p.Built? ==> |p.source| >= 2 && p.source[0] == '^' && p.source[|p.source| - 1] == '$'
  {
    if lang.None? {
      return Unbuilt(format);
    }
    var l := lang.value;
    var re, parsed := CaptureFields(l, Prepared(l, format));
    p := Built(format, "^" + re + "$", parsed);
  }

  // ---- what build promises --------------------------------------------------

  /** %x reads month first exactly when the locale's date order starts with the month. */
  lemma ShortDateOrder(l: Locale)
    ensures Parser(l, 'x') == Some(MonthFirstKey) <==> |l.dateOrder| > 0 && l.dateOrder[0] == "month"
    ensures Parser(l, 'x') == Some(DateFirstKey) <==> !(|l.dateOrder| > 0 && l.dateOrder[0] == "month")
  {
    OrderIndexMeaning(l, "month");
    assert MonthFirstKey != DateFirstKey by {
      assert MonthFirstKey[1] != DateFirstKey[1];
    }
  }

  /** The count of '(' that open a capturing group: those not followed by '?'. */
  function CapturingOpens(s: string): nat
  {
    if s == [] then 0
    else (if s[0] == '(' && !(|s| >= 2 && s[1] == '?') then 1 else 0) + CapturingOpens(s[1..])
  }

  /** Every '(' of s is followed by '?'. */
  predicate NoCapturing(s: string)
  {
    forall i :: 0 <= i < |s| && s[i] == '(' ==> i + 1 < |s| && s[i + 1] == '?'
  }

  /** No %x or %X is left for the capture rewrite. */
  predicate NoShortDates(s: string)
  {
    forall i :: 0 <= i < |s| - 1 && s[i] == '%' ==> s[i + 1] != 'x' && s[i + 1] != 'X'
  }

  /** A fragment that, put in parentheses, adds exactly one capturing group. */
  predicate Flat(f: string)
  {
    NoCapturing(f) && (f == [] || f[0] != '?')
  }

  /** No capturing '(' is exactly no '(' without a '?' after it. */
  lemma {:induction false} NoCapturingCount(s: string)
    ensures NoCapturing(s) <==> CapturingOpens(s) == 0
  {
    if s != [] {
      NoCapturingCount(s[1..]);
      if NoCapturing(s) {
        assert NoCapturing(s[1..]) by {
          forall i | 0 <= i < |s[1..]| && s[1..][i] == '(' ensures i + 1 < |s[1..]| && s[1..][i + 1] == '?' {
            assert s[i + 1] == '(';
          }
        }
      }
    }
  }

  /** After the non-capturing rewrite every '(' is followed by '?'. */
  lemma {:induction false} NonCapturingMarksGroups(s: string)
    ensures NoCapturing(NonCapturing(s))
    ensures s != [] && s[0] != '(' ==> NonCapturing(s)[0] == s[0]
    ensures s != [] && s[0] == '(' ==> NonCapturing(s)[0] == '('
    ensures s != [] ==> |NonCapturing(s)| > 0
  {
    if s != [] {
      var rest := NonCapturing(s[1..]);
      NonCapturingMarksGroups(s[1..]);
      var head := if s[0] == '(' && !(|s| >= 2 && s[1] == '?') then "(?:" else [s[0]];
      assert NonCapturing(s) == head + rest;
      forall i | 0 <= i < |head + rest| && (head + rest)[i] == '('
        ensures i + 1 < |head + rest| && (head + rest)[i + 1] == '?'
      {
        if i >= |head| {
          assert rest[i - |head|] == '(';
        } else if |head| == 1 {
          assert |s| >= 2 && s[1] == '?';
          assert rest[0] == '?';
        }
      }
    }
  }

  /** A text without '(' goes through the non-capturing rewrite unchanged. */
  lemma {:induction false} NonCapturingWithoutGroups(s: string)
    requires forall i :: 0 <= i < |s| ==> s[i] != '('
    ensures NonCapturing(s) == s
  {
    if s != [] {
      NonCapturingWithoutGroups(s[1..]);
      assert s == [s[0]] + s[1..];
    }
  }

  /** The comma rewrite keeps every '(' followed by '?', and its first character is that of s or ','. */
  lemma {:induction false} ForgivingKeepsGroups(s: string)
    requires NoCapturing(s)
    ensures NoCapturing(Forgiving(s))
    ensures s != [] ==> |Forgiving(s)| > 0 && (Forgiving(s)[0] == s[0] || (s[0] == ' ' && Forgiving(s)[0] == ','))
  {
    if s != [] {
      assert NoCapturing(s[1..]) by {
        forall i | 0 <= i < |s[1..]| && s[1..][i] == '(' ensures i + 1 < |s[1..]| && s[1..][i + 1] == '?' {
          assert s[i + 1] == '(';
        }
      }
      ForgivingKeepsGroups(s[1..]);
      var rest := Forgiving(s[1..]);
      var head := if s[0] == ' ' && !(|s| >= 2 && (s[1] == '?' || s[1] == '*')) then ",? " else [s[0]];
      assert Forgiving(s) == head + rest;
      forall i | 0 <= i < |head + rest| && (head + rest)[i] == '('
        ensures i + 1 < |head + rest| && (head + rest)[i + 1] == '?'
      {
        if i >= |head| {
          assert rest[i - |head|] == '(';
        } else {
          assert s[0] == '(' && |s| >= 2 && s[1] == '?';
          assert rest[0] == '?';
        }
      }
    }
  }

  /** A text without spaces goes through the comma rewrite unchanged. */
  lemma {:induction false} ForgivingWithoutSpaces(s: string)
    requires forall i :: 0 <= i < |s| ==> s[i] != ' '
    ensures Forgiving(s) == s
  {
    if s != [] {
      ForgivingWithoutSpaces(s[1..]);
      assert s == [s[0]] + s[1..];
    }
  }

  /** Both rewrites look one character ahead only, so they work piecewise. */
  lemma {:induction false} RewritesSplit(a: string, b: string)
    requires a != [] ==> a[|a| - 1] != '(' && a[|a| - 1] != ' '
    ensures NonCapturing(a + b) == NonCapturing(a) + NonCapturing(b)
    ensures Forgiving(a + b) == Forgiving(a) + Forgiving(b)
  {
    if a != [] {
      var ab := a + b;
      assert ab[0] == a[0] && ab[1..] == a[1..] + b;
      RewritesSplit(a[1..], b);
      if |a| == 1 {
        assert a[1..] == [];
        assert NonCapturing(ab) == [a[0]] + NonCapturing(b);
        assert Forgiving(ab) == [a[0]] + Forgiving(b);
      } else {
        assert ab[1] == a[1];
      }
    } else {
      assert a + b == b;
    }
  }

  /** The capture rewrite starts with the same character when s does not start with '%'. */
  lemma PiecesFirst(l: Locale, s: string)
    requires s != [] && s[0] != '%'
    ensures Render(Pieces(l, s)) != [] && Render(Pieces(l, s))[0] == s[0]
  {
    assert Head(l, s) == [Literal(s[0])];
    RenderOne(Literal(s[0]));
    RenderConcat([Literal(s[0])], Pieces(l, s[1..]));
  }

  /** The fragments of every letter but x and X hold no capturing group. */
  lemma FlatKeys(l: Locale, c: char)
    requires Parser(l, c).Some? && c != 'x' && c != 'X'
    ensures Flat(Parser(l, c).value)
  {
    var f := Parser(l, c).value;
    if c == 'T' {
      assert ZoneKey[11] == '(' && ZoneKey[12] == '?';
      assert forall i :: 0 <= i < |ZoneKey| && i != 11 ==> ZoneKey[i] != '(';
    } else {
      assert forall i :: 0 <= i < |f| ==> f[i] != '(';
    }
  }

  /** Counting capturing groups of a concatenation: a '(' at the seam is marked by a '?' after it. */
  lemma {:induction false} CapturingOpensConcat(a: string, b: string)
    ensures CapturingOpens(a + b) ==
      CapturingOpens(a) + CapturingOpens(b) - (if a != [] && a[|a| - 1] == '(' && b != [] && b[0] == '?' then 1 else 0)
  {
    if a != [] {
      var ab := a + b;
      assert ab[0] == a[0] && ab[1..] == a[1..] + b;
      CapturingOpensConcat(a[1..], b);
      if |a| == 1 {
        assert a[1..] == [];
      } else {
        assert ab[1] == a[1];
        assert a[1..][|a[1..]| - 1] == a[|a| - 1];
      }
    } else {
      assert a + b == b;
    }
  }

  /** A flat fragment in parentheses holds one capturing group. */
  lemma GroupOpens(f: string)
    requires Flat(f)
    ensures CapturingOpens("(" + f + ")") == 1
  {
    NoCapturingCount(f);
    CapturingOpensConcat("(", f);
    CapturingOpensConcat("(" + f, ")");
    assert CapturingOpens(")") == 0;
    assert CapturingOpens("(") == 1;
    if f != [] {
      assert ("(" + f)[|"(" + f| - 1] == f[|f| - 1];
      assert f[|f| - 1] != '(';
    }
  }

  /**
   * Without capturing parentheses and without %x or %X, the capture
   * rewrite leaves exactly one capturing group per captured letter.
   */
  lemma {:induction false} OneGroupPerKey(l: Locale, s: string)
    requires NoCapturing(s) && NoShortDates(s)
    ensures CapturingOpens(Render(Pieces(l, s))) == |Keys(Pieces(l, s))|
    decreases |s|
  {
    if s != [] {
      var k := Width(s);
      var rest := s[k..];
      assert NoCapturing(rest) && NoShortDates(rest) by {
        forall i | 0 <= i < |rest| ensures rest[i] == s[i + k] { }
      }
      OneGroupPerKey(l, rest);
      var head := Head(l, s);
      RenderOne(head[0]);
      assert head == [head[0]];
      RenderConcat(head, Pieces(l, rest));
      CapturingOpensConcat(Render(head), Render(Pieces(l, rest)));
      if k == 2 && Parser(l, s[1]).Some? {
        FlatKeys(l, s[1]);
        GroupOpens(Parser(l, s[1]).value);
      } else if k == 1 && s[0] == '(' {
        assert s[1] == '?';
        PiecesFirst(l, rest);
      }
    }
  }

  /** The fragments substituted for %x, %X and %o hold no %x or %X, and start with '%' or '['. */
  lemma ShortFragments(l: Locale, c: char)
    requires IsShortKey(c)
    ensures var f := Parser(l, c).value;
      NoShortDates(f) && f != [] && (f[0] == '%' || f[0] == '[') && f[|f| - 1] != '%'
  {
    if c == 'x' {
      DateKeyFacts();
    } else if c == 'X' {
      ClockKeyFacts();
    } else {
      assert forall i :: 0 <= i < |OrdinalKey| ==> OrdinalKey[i] != '%';
    }
  }

  lemma DateKeyFacts()
    ensures NoShortDates(MonthFirstKey) && MonthFirstKey[0] == '%' && MonthFirstKey[|MonthFirstKey| - 1] == '?'
    ensures NoShortDates(DateFirstKey) && DateFirstKey[0] == '%' && DateFirstKey[|DateFirstKey| - 1] == '?'
  {
  }

  lemma ClockKeyFacts()
    ensures NoShortDates(ClockKey) && ClockKey[0] == '%' && ClockKey[|ClockKey| - 1] == '?'
  {
    ClockPartFacts();
    NoShortDatesConcat(ClockHourMinute, ClockSeconds);
    NoShortDatesConcat(ClockHourMinute + ClockSeconds, ClockSuffix);
  }

  lemma ClockPartFacts()
    ensures NoShortDates(ClockHourMinute) && NoShortDates(ClockSeconds) && NoShortDates(ClockSuffix)
    ensures ClockHourMinute[0] == '%' && ClockHourMinute[|ClockHourMinute| - 1] == '?'
    ensures ClockSeconds[|ClockSeconds| - 1] == '?' && ClockSuffix[|ClockSuffix| - 1] == '?'
  {
  }

  lemma NoShortDatesConcat(a: string, b: string)
    requires NoShortDates(a) && NoShortDates(b)
    requires a != [] && a[|a| - 1] != '%'
    ensures NoShortDates(a + b)
  {
    forall i | 0 <= i < |a + b| - 1 && (a + b)[i] == '%'
      ensures (a + b)[i + 1] != 'x' && (a + b)[i + 1] != 'X'
    {
      if i >= |a| {
        assert (a + b)[i] == b[i - |a|] && (a + b)[i + 1] == b[i - |a| + 1];
      } else {
        assert i < |a| - 1;
        assert (a + b)[i] == a[i] && (a + b)[i + 1] == a[i + 1];
      }
    }
  }

  /** After the first rewrite no %x or %X is left, and nothing starts with an x after a '%'. */
  lemma {:induction false} ExpandShortLeavesNone(l: Locale, s: string)
    ensures NoShortDates(ExpandShort(l, s))
    ensures s != [] ==> ExpandShort(l, s) != []
    ensures s != [] ==> ExpandShort(l, s)[0] == s[0] || ExpandShort(l, s)[0] == '%' || ExpandShort(l, s)[0] == '['

    ensures s != [] && s[0] == '%' && !(|s| >= 2 && IsShortKey(s[1])) ==> ExpandShort(l, s)[0] == '%'
    decreases |s|
  {
    if s != [] {
      var token := |s| >= 2 && s[0] == '%' && IsShortKey(s[1]);
      var k := if token then 2 else 1;
      var rest := s[k..];
      ExpandShortLeavesNone(l, rest);
      var head := if token then Parser(l, s[1]).GetOr([s[1]]) else [s[0]];
      var tail := ExpandShort(l, rest);
      assert ExpandShort(l, s) == head + tail;
      if token {
        ShortFragments(l, s[1]);
      }
      forall i | 0 <= i < |head + tail| - 1 && (head + tail)[i] == '%'
        ensures (head + tail)[i + 1] != 'x' && (head + tail)[i + 1] != 'X'
      {
        if i >= |head| {
          assert tail[i - |head|] == '%';
        } else if i == |head| - 1 {
          assert !token;
          assert tail[0] == (head + tail)[i + 1];
        }
      }
    }
  }

  /** The non-capturing and comma rewrites leave no %x or %X either. */
  lemma {:induction false} RewritesKeepNoShortDates(s: string)
    requires NoShortDates(s)
    ensures NoShortDates(NonCapturing(s)) && NoShortDates(Forgiving(s))
    ensures s != [] ==> NonCapturing(s) != [] && Forgiving(s) != []
    ensures s != [] ==> (NonCapturing(s)[0] == s[0] || NonCapturing(s)[0] == '(')
    ensures s != [] ==> (Forgiving(s)[0] == s[0] || Forgiving(s)[0] == ',')
  {
    if s != [] {
      assert NoShortDates(s[1..]) by {
        forall i | 0 <= i < |s[1..]| - 1 && s[1..][i] == '%' ensures s[1..][i + 1] != 'x' && s[1..][i + 1] != 'X' {
          assert s[i + 1] == '%';
        }
      }
      RewritesKeepNoShortDates(s[1..]);
      var h1 := if s[0] == '(' && !(|s| >= 2 && s[1] == '?') then "(?:" else [s[0]];
      var t1 := NonCapturing(s[1..]);
      assert NonCapturing(s) == h1 + t1;
      forall i | 0 <= i < |h1 + t1| - 1 && (h1 + t1)[i] == '%'
        ensures (h1 + t1)[i + 1] != 'x' && (h1 + t1)[i + 1] != 'X'
      {
        if i >= |h1| {
          assert t1[i - |h1|] == '%';
        } else {
          assert s[0] == '%' && |h1| == 1 && s[1] != 'x' && s[1] != 'X';
        }
      }
      var h2 := if s[0] == ' ' && !(|s| >= 2 && (s[1] == '?' || s[1] == '*')) then ",? " else [s[0]];
      var t2 := Forgiving(s[1..]);
      assert Forgiving(s) == h2 + t2;
      forall i | 0 <= i < |h2 + t2| - 1 && (h2 + t2)[i] == '%'
        ensures (h2 + t2)[i + 1] != 'x' && (h2 + t2)[i + 1] != 'X'
      {
        if i >= |h2| {
          assert t2[i - |h2|] == '%';
        } else {
          assert s[0] == '%' && |h2| == 1 && s[1] != 'x' && s[1] != 'X';
        }
      }
    }
  }

  /**
   * The compiled expression has exactly one capturing group per entry of
   * `parsed`, and they come in the same order, so the handler's bits[i]
   * is the text matched for parsed[i].
   */
  lemma BuildGroups(l: Locale, format: string)
    ensures var p := Compiled(Some(l), format);
      CapturingOpens(p.source) == |p.parsed|
  {
    var e := ExpandShort(l, format);
    ExpandShortLeavesNone(l, format);
    NonCapturingMarksGroups(e);
    RewritesKeepNoShortDates(e);
    RewritesKeepNoShortDates(NonCapturing(e));
    ForgivingKeepsGroups(NonCapturing(e));
    var ps := Pieces(l, Prepared(l, format));
    OneGroupPerKey(l, Prepared(l, format));
    CapturingOpensConcat("^", Render(ps));
    CapturingOpensConcat("^" + Render(ps), "$");
    assert CapturingOpens("^") == 0 && CapturingOpens("$") == 0;
  }
}
