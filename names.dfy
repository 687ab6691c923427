/**
 * Day and month names: `Date.parseDay` and `Date.parseMonth`, both
 * through `parseWord`, turn a date or a name (or a prefix of one,
 * ignoring case) into a name of the current locale, or into that name's
 * position in the locale's list when `num` is set.
 */
module Names {
  import opened Errors
  import opened Text
  import opened Locales
  import opened Fields

  datatype NameKind = DayKind | MonthKind

  /** The `type` argument, as the source spells it. */
  function KindText(k: NameKind): string
  {
    match k
    case DayKind => "day"
    case MonthKind => "month"
  }

  /** `Date.getMsg(type + 's')`: the locale's names of that kind. */
  function NamesOf(l: Locale, k: NameKind): seq<string>
  {
    match k
    case DayKind => l.days
    case MonthKind => l.months
  }

  /**
   * The argument of parseWord, told apart by `$type`: a plain object, with
   * what its `get(type)` returns (None when it has no `get` method), a
   * number, a string, or anything else.  A Date is not an object here:
   * `$type` of a Date is 'date', so it takes no branch of the switch.
   */
  datatype Word = ObjectWord(got: Option<int>) | NumberWord(n: int) | TextWord(s: string) | OtherWord

  /** `list.filter(keep)`: the entries kept, in order. */
  function Filter(names: seq<string>, keep: string -> bool): (r: seq<string>)
    ensures |r| <= |names|
    ensures forall x :: x in r <==> x in names && keep(x)
  {
    if names == [] then []
    else (if keep(names[0]) then [names[0]] else []) + Filter(names[1..], keep)
  }

  /** Position i holds the one entry of the list that keep accepts. */
  predicate UniqueIn(names: seq<string>, keep: string -> bool, i: int)
  {
    0 <= i < |names| && keep(names[i]) && forall j :: 0 <= j < |names| && j != i ==> !keep(names[j])
  }

  /** The test parseWord filters by: the anchored, case-blind pattern built from the word. */
  function Prefix(word: string): string -> bool
  {
    name => StartsWithIgnoringCase(name, word)
  }

  /** `translated.filter(...)` in parseWord. */
  function Matching(names: seq<string>, word: string): (r: seq<string>)
    ensures forall x :: x in r <==> x in names && StartsWithIgnoringCase(x, word)
  {
    Filter(names, Prefix(word))
  }

  /** `ret` after parseWord's switch: a name, -1 when no case applies, or None for `undefined`. */
  function Chosen(l: Locale, k: NameKind, word: Word): Result<Option<Value>>
  {
    var names := NamesOf(l, k);
    match word
    case ObjectWord(got) =>
      // `translated[word.get(type)]`: undefined outside the list
      if got.None? then Err(TypeError("word.get is not a function"))
      else Ok(if 0 <= got.value < |names| then Some(Str(names[got.value])) else None)
    case NumberWord(_) =>
      // the branch reads a variable `month` that is not in scope
      Err(ReferenceError("month"))
    case TextWord(s) =>
      var m := Matching(names, s);
      if |m| == 0 then Err(InvalidName(KindText(k)))
      else if |m| > 1 then Err(AmbiguousName(KindText(k)))
      else Ok(Some(Str(m[0])))
    case OtherWord => Ok(Some(Num(-1)))
  }

  /** `translated.indexOf(ret)`: strings are looked for, anything else is not found. */
  function PositionOf(names: seq<string>, ret: Option<Value>): int
  {
    match ret
    case Some(Str(s)) => IndexOf(names, s)
    case _ => -1
  }

  /** `parseWord(type, word, true)`: the position of the chosen name. */
  function Position(l: Locale, k: NameKind, word: Word): Result<int>
  {
    var ret :- Chosen(l, k, word);
    Ok(PositionOf(NamesOf(l, k), ret))
  }

  /** `parseWord(type, word, num)`. */
  function ParseWord(l: Locale, k: NameKind, word: Word, num: bool): Result<Option<Value>>
  {
    if num then
      var i :- Position(l, k, word);
      Ok(Some(Num(i)))
    else Chosen(l, k, word)
  }

  /** `Date.parseDay(day, num)`. */
  function ParseDay(l: Locale, word: Word, num: bool): Result<Option<Value>>
  {
    ParseWord(l, DayKind, word, num)
  }

  /** `Date.parseMonth(month, num)`. */
  function ParseMonth(l: Locale, word: Word, num: bool): Result<Option<Value>>
  {
    ParseWord(l, MonthKind, word, num)
  }

  // ---- what parseWord promises --------------------------------------------

  /** When one position alone holds an accepted entry, the filter keeps that entry alone. */
  lemma {:induction false} FilterOfUnique(names: seq<string>, keep: string -> bool, i: int)
    requires UniqueIn(names, keep, i)
    ensures Filter(names, keep) == [names[i]]
  {
    var rest := names[1..];
    if i == 0 {
      forall j | 0 <= j < |rest| ensures !keep(rest[j]) {
        assert rest[j] == names[j + 1];
      }
      FilterNone(rest, keep);
    } else {
      assert UniqueIn(rest, keep, i - 1) by {
        forall j | 0 <= j < |rest| && j != i - 1 ensures !keep(rest[j]) {
          assert rest[j] == names[j + 1];
        }
      }
      FilterOfUnique(rest, keep, i - 1);
    }
  }

  /** When the filter keeps one entry, one position alone holds an accepted entry. */
  lemma {:induction false} UniqueOfFilter(names: seq<string>, keep: string -> bool) returns (i: int)
    requires |Filter(names, keep)| == 1
    ensures UniqueIn(names, keep, i)
  {
    var rest := names[1..];
    if keep(names[0]) {
      assert |Filter(rest, keep)| == 0;
      forall j | 0 < j < |names| ensures !keep(names[j]) {
        assert names[j] == rest[j - 1];
        assert names[j] !in Filter(rest, keep);
      }
      i := 0;
    } else {
      assert Filter(names, keep) == Filter(rest, keep);
      var k := UniqueOfFilter(rest, keep);
      forall j | 0 <= j < |names| && j != k + 1 ensures !keep(names[j]) {
        if j > 0 {
          assert names[j] == rest[j - 1];
        }
      }
      i := k + 1;
    }
  }

  /** The filter keeps exactly one entry iff exactly one position of the list has an accepted entry. */
  lemma FilterOne(names: seq<string>, keep: string -> bool)
    ensures |Filter(names, keep)| == 1 <==> exists i :: UniqueIn(names, keep, i)
    ensures forall i :: UniqueIn(names, keep, i) ==> Filter(names, keep) == [names[i]]
  {
    if |Filter(names, keep)| == 1 {
      var i := UniqueOfFilter(names, keep);
    }
    forall i | UniqueIn(names, keep, i) ensures Filter(names, keep) == [names[i]] {
      FilterOfUnique(names, keep, i);
    }
  }

  /** Nothing in the list is accepted iff the filter keeps nothing. */
  lemma FilterNone(names: seq<string>, keep: string -> bool)
    ensures |Filter(names, keep)| == 0 <==> forall i :: 0 <= i < |names| ==> !keep(names[i])
  {
    if |Filter(names, keep)| != 0 {
      assert Filter(names, keep)[0] in Filter(names, keep);
    }
  }

  /** Filter keeps two or more entries iff two positions hold accepted entries. */
  lemma FilterMany(names: seq<string>, keep: string -> bool)
    ensures |Filter(names, keep)| > 1 <==>
      exists i, j :: 0 <= i < j < |names| && keep(names[i]) && keep(names[j])
  {
    FilterOne(names, keep);
    FilterNone(names, keep);
    if |Filter(names, keep)| > 1 {
      var x := Filter(names, keep)[0];
      assert x in Filter(names, keep);
      var i :| 0 <= i < |names| && names[i] == x;
      assert !UniqueIn(names, keep, i);
      var j :| 0 <= j < |names| && j != i && keep(names[j]);
      if i < j {
        assert keep(names[i]) && keep(names[j]);
      } else {
        assert 0 <= j < i < |names| && keep(names[j]) && keep(names[i]);
      }
    } else {
      forall i, j | 0 <= i < j < |names| && keep(names[i]) ensures !keep(names[j]) {
        assert UniqueIn(names, keep, i);
      }
    }
  }

  /** The position of the only accepted entry is that entry's first position. */
  lemma UniquePosition(names: seq<string>, keep: string -> bool, i: int)
    requires UniqueIn(names, keep, i)
    ensures IndexOf(names, names[i]) == i
  {
    var k := IndexOf(names, names[i]);
    assert names[i] in names;
    assert names[k] == names[i];
  }

  /**
   * A name argument: no match is 'Invalid <type> string', several are
   * 'Ambiguous <type>', and otherwise the one name with that prefix, or
   * its position when num is set.
   */
  lemma ParseTextWord(l: Locale, k: NameKind, s: string, num: bool)
    ensures var names := NamesOf(l, k); var keep := Prefix(s); var r := ParseWord(l, k, TextWord(s), num);
      (r == Err(InvalidName(KindText(k))) <==> forall i :: 0 <= i < |names| ==> !keep(names[i])) &&
      (r == Err(AmbiguousName(KindText(k))) <==> exists i, j :: 0 <= i < j < |names| && keep(names[i]) && keep(names[j])) &&
      (r.Ok? <==> exists i :: UniqueIn(names, keep, i)) &&
      (forall i :: UniqueIn(names, keep, i) ==> r == Ok(Some(if num then Num(i) else Str(names[i]))))
  {
    var names := NamesOf(l, k);
    var keep := Prefix(s);
    FilterOne(names, keep);
    FilterNone(names, keep);
    FilterMany(names, keep);
    forall i | UniqueIn(names, keep, i)
      ensures ParseWord(l, k, TextWord(s), num) == Ok(Some(if num then Num(i) else Str(names[i])))
    {
      UniquePosition(names, keep, i);
    }
  }

  /**
   * An object argument gives the name at the index its `get` returns, or
   * undefined outside the list; with num, that name's first position, the
   * index itself among distinct names, and -1 for undefined.  An object
   * without `get` throws.
   */
  lemma ParseObjectWord(l: Locale, k: NameKind, i: int)
    ensures var names := NamesOf(l, k);
      ParseWord(l, k, ObjectWord(Some(i)), false) == Ok(if 0 <= i < |names| then Some(Str(names[i])) else None) &&
      ParseWord(l, k, ObjectWord(Some(i)), true) == Ok(Some(Num(if 0 <= i < |names| then IndexOf(names, names[i]) else -1))) &&
      ((forall a, b :: 0 <= a < b < |names| ==> names[a] != names[b]) ==>
        ParseWord(l, k, ObjectWord(Some(i)), true) == Ok(Some(Num(if 0 <= i < |names| then i else -1)))) &&
      ParseWord(l, k, ObjectWord(None), false) == Err(TypeError("word.get is not a function"))
  {
    if 0 <= i < |NamesOf(l, k)| {
      DistinctPosition(NamesOf(l, k), i);
    }
  }

  /** In a list of distinct names, a name's first position is its position. */
  lemma DistinctPosition(names: seq<string>, i: int)
    requires 0 <= i < |names|
    ensures (forall a, b :: 0 <= a < b < |names| ==> names[a] != names[b]) ==> IndexOf(names, names[i]) == i
  {
    assert names[i] in names;
  }

  /** A number argument never gets past the undefined variable; any other argument gives -1. */
  lemma ParseOtherWords(l: Locale, k: NameKind, n: int, num: bool)
    ensures ParseWord(l, k, NumberWord(n), num) == Err(ReferenceError("month"))
    ensures ParseWord(l, k, OtherWord, num) == Ok(Some(Num(-1)))
  {
  }

  // ---- the English names --------------------------------------------------

  /** A name whose i-th letter differs (ignoring case) from the word's does not match it. */
  lemma DiffersAt(name: string, word: string, i: int)
    requires 0 <= i < |word| <= |name| && LowerChar(name[i]) != LowerChar(word[i])
    ensures !StartsWithIgnoringCase(name, word)
  {
    assert Lower(name[..|word|])[i] != Lower(word)[i];
  }

  /** A name whose first letters are the word's, ignoring case, matches it. */
  lemma SameLetters(name: string, word: string)
    requires |word| <= |name| && forall i :: 0 <= i < |word| ==> LowerChar(name[i]) == LowerChar(word[i])
    ensures StartsWithIgnoringCase(name, word)
  {
    assert Lower(name[..|word|]) == Lower(word);
  }

  /** "Ju" starts June and July: an ambiguous month. */
  lemma AmbiguousJu()
    ensures ParseMonth(EnglishUS, TextWord("Ju"), false) == Err(AmbiguousName("month"))
  {
    var names := EnglishUS.months;
    SameLetters(names[5], "Ju");
    SameLetters(names[6], "Ju");
    assert Prefix("Ju")(names[5]) && Prefix("Ju")(names[6]);
    ParseTextWord(EnglishUS, MonthKind, "Ju", false);
  }

  /** "jan" names January alone, at position 0. */
  lemma JanuaryIsFirst()
    ensures ParseMonth(EnglishUS, TextWord("jan"), true) == Ok(Some(Num(0)))
  {
    var names := EnglishUS.months;
    SameLetters(names[0], "jan");
    forall j | 0 < j < 12 ensures !StartsWithIgnoringCase(names[j], "jan") {
      if j == 5 || j == 6 {
        DiffersAt(names[j], "jan", 1);
      } else {
        DiffersAt(names[j], "jan", 0);
      }
    }
    assert UniqueIn(names, Prefix("jan"), 0);
    ParseTextWord(EnglishUS, MonthKind, "jan", true);
  }

  /** "x" starts no day name. */
  lemma NoDayX()
    ensures ParseDay(EnglishUS, TextWord("x"), true) == Err(InvalidName("day"))
  {
    var names := EnglishUS.days;
    forall j | 0 <= j < 7 ensures !StartsWithIgnoringCase(names[j], "x") {
      DiffersAt(names[j], "x", 0);
    }
    assert forall j :: 0 <= j < |names| ==> !Prefix("x")(names[j]);
    ParseTextWord(EnglishUS, DayKind, "x", true);
  }
}
