/**
 * The locale messages the date code reads through `Date.getMsg`: day and
 * month names, the short date and time templates, the order of the date
 * fields, and the AM/PM labels.
 */
module Locales {

  datatype Locale = Locale(
    days: seq<string>,       // Sunday first
    months: seq<string>,     // January first
    shortDate: string,
    shortTime: string,
    dateOrder: seq<string>,  // e.g. ["month", "date", "year"]
    am: string,
    pm: string)

  /** Array.prototype.indexOf: the first position of x, or -1. */
  function IndexOf<T(==)>(s: seq<T>, x: T): (i: int)
    ensures -1 <= i < |s|
    ensures i == -1 <==> x !in s
    ensures i >= 0 ==> s[i] == x && forall j :: 0 <= j < i ==> s[j] != x
  {
    if s == [] then -1
    else if s[0] == x then 0
    else
      var k := IndexOf(s[1..], x);
      if k == -1 then -1 else k + 1
  }

  /** `Date.orderIndex(unit)`: one more than the position of unit in the date order. */
  function OrderIndex(l: Locale, unit: string): int
  {
    IndexOf(l.dateOrder, unit) + 1
  }

  /** orderIndex is 0 exactly for a unit missing from the order, else its 1-based position. */
  lemma OrderIndexMeaning(l: Locale, unit: string)
    ensures OrderIndex(l, unit) == 0 <==> unit !in l.dateOrder
    ensures OrderIndex(l, unit) == 1 <==> |l.dateOrder| > 0 && l.dateOrder[0] == unit
    ensures OrderIndex(l, unit) > 0 ==> l.dateOrder[OrderIndex(l, unit) - 1] == unit
  {
  }

  /** The English (US) messages, used by the examples. */
  const EnglishUS: Locale := Locale(
    ["Sunday", "Monday", "Tuesday", "Wednesday", "Thursday", "Friday", "Saturday"],
    ["January", "February", "March", "April", "May", "June", "July",
     "August", "September", "October", "November", "December"],
    "%m/%d/%Y",
    "%I:%M%p",
    ["month", "date", "year"],
    "AM",
    "PM")
}
