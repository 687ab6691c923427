/**
 * Gregorian day counting behind the host date type: an instant is
 * an integer count of milliseconds since 1970-01-01T00:00:00 UTC, the
 * day number is its floor-quotient by the length of a day, and the civil
 * fields (year, month index 0..11, day of month 1..31) are recovered from
 * the day number.  The definitions follow the host's own day arithmetic
 * (DayFromYear, MakeDay, MakeDate); there are no leap seconds and no
 * range limit on instants.
 */
module Calendar {

  const MsPerSecond: int := 1000
  const MsPerMinute: int := 60000
  const MsPerHour: int := 3600000
  const MsPerDay: int := 86400000

  /** The proleptic Gregorian rule: divisible by 4 and not by 100, or by 400. */
  predicate IsGregorianLeap(y: int)
  {
    (y % 4 == 0 && y % 100 != 0) || y % 400 == 0
  }

  function YearLength(y: int): int
  {
    if IsGregorianLeap(y) then 366 else 365
  }

  /**
   * Day number of January 1st of year y (0 for 1970): the lengths of the
   * years from 1970 up to y added, or those from y up to 1970 taken away.
   */
  function DayFromYear(y: int): int
    decreases if y >= 1970 then y - 1970 else 1970 - y
  {
    if y == 1970 then 0
    else if y > 1970 then DayFromYear(y - 1) + YearLength(y - 1)
    else DayFromYear(y + 1) - YearLength(y)
  }

  lemma DayFromYearStep(y: int)
    ensures DayFromYear(y + 1) == DayFromYear(y) + YearLength(y)
  {
  }

  lemma {:induction false} DayFromYearMonotone(a: int, b: int)
    requires a <= b
    ensures DayFromYear(a) + 365 * (b - a) <= DayFromYear(b)
    decreases b - a
  {
    if a < b {
      DayFromYearMonotone(a, b - 1);
      DayFromYearStep(b - 1);
    }
  }

  /** The year whose January 1st is the last one at or before day z, walking up. */
  function YearUp(z: int, y: int): (r: int)
    requires DayFromYear(y) <= z
    ensures DayFromYear(r) <= z < DayFromYear(r + 1)
    decreases z - DayFromYear(y)
  {
    DayFromYearStep(y);
    if z < DayFromYear(y + 1) then y else YearUp(z, y + 1)
  }

  /** The same year, walking down. */
  function YearDown(z: int, y: int): (r: int)
    requires z < DayFromYear(y + 1)
    ensures DayFromYear(r) <= z < DayFromYear(r + 1)
    decreases DayFromYear(y + 1) - z
  {
    DayFromYearStep(y);
    if DayFromYear(y) <= z then y else YearDown(z, y - 1)
  }

  /** The year containing day z. */
  function YearFromDay(z: int): (y: int)
    ensures DayFromYear(y) <= z < DayFromYear(y + 1)
  {
    if z >= 0 then YearUp(z, 1970) else YearDown(z, 1969)
  }

  /** A day belongs to exactly one year. */
  lemma YearUnique(z: int, y: int)
    requires DayFromYear(y) <= z < DayFromYear(y + 1)
    ensures YearFromDay(z) == y
  {
    var r := YearFromDay(z);
    if r < y {
      DayFromYearMonotone(r + 1, y);
    } else if y < r {
      DayFromYearMonotone(y + 1, r);
    }
  }

  lemma YearFromDayMonotone(z1: int, z2: int)
    requires z1 <= z2
    ensures YearFromDay(z1) <= YearFromDay(z2)
  {
    var y1, y2 := YearFromDay(z1), YearFromDay(z2);
    if y2 < y1 {
      DayFromYearMonotone(y2 + 1, y1);
    }
  }

  /** Zero-based position of day z within its year. */
  function DayWithinYear(z: int): (d: int)
    ensures 0 <= d < YearLength(YearFromDay(z))
  {
    DayFromYearStep(YearFromDay(z));
    z - DayFromYear(YearFromDay(z))
  }

  /** Number of days in month m (0..11) of a year with the given leap flag. */
  function MonthLength(m: int, leap: bool): (n: int)
    requires 0 <= m < 12
    ensures 28 <= n <= 31
  {
    if m == 1 then (if leap then 29 else 28)
    else if m == 3 || m == 5 || m == 8 || m == 10 then 30
    else 31
  }

  /** Days of the year before the first of month m (0..12). */
  function MonthStart(m: int, leap: bool): int
    requires 0 <= m <= 12
  {
    [0, 31, 59, 90, 120, 151, 181, 212, 243, 273, 304, 334, 365][m]
      + (if leap && m >= 2 then 1 else 0)
  }

  lemma MonthStartStep(m: int, leap: bool)
    requires 0 <= m < 12
    ensures MonthStart(m + 1, leap) == MonthStart(m, leap) + MonthLength(m, leap)
  {
  }

  lemma MonthStartMonotone(a: int, b: int, leap: bool)
    requires 0 <= a <= b <= 12
    ensures MonthStart(a, leap) + 28 * (b - a) <= MonthStart(b, leap)
  {
  }

  /** The month containing day d of the year, searching from month m. */
  function FindMonth(d: int, leap: bool, m: int): (r: int)
    requires 0 <= m < 12
    requires MonthStart(m, leap) <= d < MonthStart(12, leap)
    ensures m <= r < 12
    ensures MonthStart(r, leap) <= d < MonthStart(r + 1, leap)
    decreases 12 - m
  {
    if d < MonthStart(m + 1, leap) then m else FindMonth(d, leap, m + 1)
  }

  lemma MonthUnique(d: int, leap: bool, m: int)
    requires 0 <= m < 12
    requires MonthStart(m, leap) <= d < MonthStart(m + 1, leap)
    ensures FindMonth(d, leap, 0) == m
  {
    var r := FindMonth(d, leap, 0);
    if r < m {
      MonthStartMonotone(r + 1, m, leap);
    } else if m < r {
      MonthStartMonotone(m + 1, r, leap);
    }
  }

  function InLeapYear(z: int): bool
  {
    IsGregorianLeap(YearFromDay(z))
  }

  /** Zero-based month of day z. */
  function MonthFromDay(z: int): (m: int)
    ensures 0 <= m < 12
  {
    FindMonth(DayWithinYear(z), InLeapYear(z), 0)
  }

  /** One-based day of the month of day z. */
  function DateFromDay(z: int): (d: int)
    ensures 1 <= d <= MonthLength(MonthFromDay(z), InLeapYear(z))
  {
    MonthStartStep(MonthFromDay(z), InLeapYear(z));
    DayWithinYear(z) - MonthStart(MonthFromDay(z), InLeapYear(z)) + 1
  }

  /** Day of the week of day z, 0 = Sunday (1970-01-01 was a Thursday). */
  function WeekDay(z: int): (w: int)
    ensures 0 <= w < 7
  {
    (z + 4) % 7
  }

  /**
   * The host's MakeDay: the day number of date `date` of month `month` of
   * `year`, where a month outside 0..11 carries into the year and a date
   * outside the month runs on into the neighbouring months.
   */
  function MakeDay(year: int, month: int, date: int): int
  {
    var ym := year + month / 12;
    var mn := month % 12;
    DayFromYear(ym) + MonthStart(mn, IsGregorianLeap(ym)) + date - 1
  }

  /** The civil fields of MakeDay(y, m, d) read back as y, m, d when d fits the month. */
  lemma CivilOfMakeDay(y: int, m: int, d: int)
    requires 0 <= m < 12 && 1 <= d <= MonthLength(m, IsGregorianLeap(y))
    ensures YearFromDay(MakeDay(y, m, d)) == y
    ensures MonthFromDay(MakeDay(y, m, d)) == m
    ensures DateFromDay(MakeDay(y, m, d)) == d
  {
    var z := MakeDay(y, m, d);
    var leap := IsGregorianLeap(y);
    assert y + m / 12 == y && m % 12 == m;
    MonthStartStep(m, leap);
    MonthStartMonotone(m + 1, 12, leap);
    DayFromYearStep(y);
    YearUnique(z, y);
    MonthUnique(DayWithinYear(z), leap, m);
  }

  /** Every day number is the MakeDay of its own civil fields. */
  lemma MakeDayOfCivil(z: int)
    ensures MakeDay(YearFromDay(z), MonthFromDay(z), DateFromDay(z)) == z
  {
    var y, m := YearFromDay(z), MonthFromDay(z);
    assert y + m / 12 == y && m % 12 == m;
  }

  /** MakeDay moves one day per unit of its date argument. */
  lemma MakeDayShift(y: int, m: int, d: int, k: int)
    ensures MakeDay(y, m, d + k) == MakeDay(y, m, d) + k
  {
  }

  /** Month overflow carries into the year: month m of y is month m mod 12 of y + m div 12. */
  lemma MakeDayCarry(y: int, m: int, d: int)
    ensures MakeDay(y, m, d) == MakeDay(y + m / 12, m % 12, d)
  {
    var ym, mn := y + m / 12, m % 12;
    assert ym + mn / 12 == ym && mn % 12 == mn;
  }

  // ---- time of day -------------------------------------------------

  /** Day number of a (local) instant. */
  function DayNumber(t: int): int
  {
    t / MsPerDay
  }

  function TimeWithinDay(t: int): (r: int)
    ensures 0 <= r < MsPerDay
  {
    t % MsPerDay
  }

  /** The hour of the day. */
  function HourFromTime(t: int): (h: int)
    ensures 0 <= h < 24
  {
    TimeWithinDay(t) / MsPerHour
  }

  /** What is left of the time of day after the whole hours. */
  function PastHour(t: int): (r: int)
    ensures 0 <= r < MsPerHour
  {
    TimeWithinDay(t) % MsPerHour
  }

  function MinFromTime(t: int): (m: int)
    ensures 0 <= m < 60
  {
    PastHour(t) / MsPerMinute
  }

  /** What is left of the time of day after the whole minutes. */
  function PastMinute(t: int): (r: int)
    ensures 0 <= r < MsPerMinute
  {
    PastHour(t) % MsPerMinute
  }

  function SecFromTime(t: int): (s: int)
    ensures 0 <= s < 60
  {
    PastMinute(t) / MsPerSecond
  }

  function MsFromTime(t: int): (ms: int)
    ensures 0 <= ms < 1000
  {
    PastMinute(t) % MsPerSecond
  }

  /** The host's MakeTime: hours, minutes, seconds and milliseconds in milliseconds. */
  function MakeTime(h: int, m: int, s: int, ms: int): int
  {
    h * MsPerHour + m * MsPerMinute + s * MsPerSecond + ms
  }

  /** The host's MakeDate: a day number and a time within the day. */
  function MakeDate(day: int, time: int): int
  {
    day * MsPerDay + time
  }

  /** An instant is its day and its time of day put back together. */
  lemma SplitDay(t: int)
    ensures t == MakeDate(DayNumber(t), TimeWithinDay(t))
  {
  }

  /** An instant is its day and its four clock fields put back together. */
  lemma SplitTime(t: int)
    ensures t == MakeDate(DayNumber(t), MakeTime(HourFromTime(t), MinFromTime(t), SecFromTime(t), MsFromTime(t)))
  {
  }

  /** Quotient and remainder are determined by a == q * k + r with 0 <= r < k. */
  lemma DivMod(a: int, k: int, q: int, r: int)
    requires k > 0 && 0 <= r < k && a == q * k + r
    ensures a / k == q && a % k == r
  {
    var q', r' := a / k, a % k;
    assert (q' - q) * k == r - r';
    MulAwayFromZero(q' - q, k);
  }

  /** A nonzero multiple of k is at least k away from zero. */
  lemma MulAwayFromZero(d: int, k: int)
    requires k > 0
    ensures d >= 1 ==> d * k >= k
    ensures d <= -1 ==> d * k <= -k
  {
  }

  /** Reading the fields of an instant assembled from in-range fields gives them back. */
  lemma FieldsOfMakeDate(day: int, h: int, m: int, s: int, ms: int)
    requires 0 <= h < 24 && 0 <= m < 60 && 0 <= s < 60 && 0 <= ms < 1000
    ensures DayNumber(MakeDate(day, MakeTime(h, m, s, ms))) == day
    ensures TimeWithinDay(MakeDate(day, MakeTime(h, m, s, ms))) == MakeTime(h, m, s, ms)
    ensures HourFromTime(MakeDate(day, MakeTime(h, m, s, ms))) == h
    ensures MinFromTime(MakeDate(day, MakeTime(h, m, s, ms))) == m
    ensures SecFromTime(MakeDate(day, MakeTime(h, m, s, ms))) == s
    ensures MsFromTime(MakeDate(day, MakeTime(h, m, s, ms))) == ms
  {
    var w := MakeTime(h, m, s, ms);
    var t := MakeDate(day, w);
    DivMod(t, MsPerDay, day, w);
    var r1 := m * MsPerMinute + s * MsPerSecond + ms;
    DivMod(w, MsPerHour, h, r1);
    var r2 := s * MsPerSecond + ms;
    DivMod(r1, MsPerMinute, m, r2);
    DivMod(r2, MsPerSecond, s, ms);
  }

  /** Every day counts 24 hours with a fixed offset: a day added is MsPerDay added. */
  lemma MakeDateShift(day: int, time: int, k: int)
    ensures MakeDate(day + k, time) == MakeDate(day, time) + k * MsPerDay
  {
  }
}
