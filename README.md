# A verified model of MooTools More's `Date.js`

This project models `Source/Native/Date.js` of MooTools More in Dafny: the
extensions the library adds to the JavaScript `Date` type, and what is
proved about them. A date holds one integer, its millisecond instant. Every
extension is integer and string logic on that instant:

- the case-insensitive field table behind `get` and `set`;
- month-end clamped `increment` and `decrement`, `clearTime`, `diff` and the AM/PM rule;
- `isLeapYear`, `daysInMonth` and the fixed `Date.units`;
- `zeroize` and the `%`-token formatter with its macro table (`db`, `iso8601`, `rfc822`, ...);
- `parseWord`, the name lookup behind `parseDay` and `parseMonth`;
- the parse-pattern compiler `build`, the field handlers `handle`, and the parser registry behind `Date.parse`.

The host's `Date` arithmetic is modelled after the ECMAScript algorithms:
- Day counting is proleptic Gregorian: `MakeDay`, `MakeTime` and `MakeDate`, and the year, month and date of a day number.
- Local time is a fixed offset `tz` in minutes, in the sign convention of `getTimezoneOffset`: UTC is local time plus `tz` minutes.

What is left abstract:
- Locales are explicit values: day and month names, `shortDate`, `shortTime`, `dateOrder` and AM/PM labels.
- "Now" is a parameter.
- The regular expression engine is a function from a pattern source and a text to the captures of a match.
- The host's own `Date.parse` is a function from text to an optional instant.

Files, one module each:

| file | module | what it holds |
|---|---|---|
| errors.dfy | Errors | `Option`, `Result`, the errors the source throws |
| text.dfy | Text | digits, case mapping, `toString`/`ToNumber` of integers, `zeroize`, `String.clean` |
| locales.dfy | Locales | the locale data, `indexOf`, `orderIndex` |
| calendar.dfy | Calendar | the host's calendar: day numbers, civil fields, clock fields |
| calendar_rules.dfy | CalendarRules | `isLeapYear`, `daysInMonth`, `units` |
| fields.dfy | Fields | `Date.Methods`, getters, setters, `get`, `set`, `setAMPM`, `getGMTOffset` |
| arithmetic.dfy | Arithmetic | `increment`, `decrement`, `set({...})`, `clearTime`, `diff` as functions of the instant |
| dates.dfy | Dates | `class JsDate`: the operations that change a date, as methods proved against those functions |
| formatter.dfy | Formatter | `format`, its token switch, the macro table, `toISOString` |
| names.dfy | Names | `parseWord`, `parseDay`, `parseMonth` |
| patterns.dfy | Patterns | `keys`, `parsers`, the four rewrites of `build`, `build` itself |
| handlers.dfy | Handlers | `handle`, the two-digit year window, a compiled pattern's handler |
| registry.dfy | Registry | `class DateRegistry`: formats, `parsePatterns`, `defineParser(s)`, `define2DigitYearStart`, the `langChange` rebuild, `Date.parse` |

The model keeps the code as written, quirks included. Instant 0 is as
invalid as NaN, because `valueOf()` is falsy. `units.week` is 608400000.
The 'T' handler adds the minutes unsigned and adds the local offset. The
handler sets the month before the date. Where one of these is evidently a
slip, "## Findings" shows it and proves a corrected definition beside the
as-written one. The rest of the model keeps the as-written definition.

## Model

| member | source | states |
|---|---|---|
| Text.ZeroizeDigits | Source/Native/Date.js:40-42 | a number below 10^k padded to k places is exactly k digits that read back as the number |
| Text.LeadingZeros | Source/Native/Date.js:40-42 | zeros put in front of a numeral do not change its value |
| Text.ToNumberOfIntToString | Source/Native/Date.js:421 | ToNumber reads back every numeral toString writes, the basis of `value - 1` on captured digits |
| Text.NatToStringLength | Source/Native/Date.js:40-42 | the numeral of n has at most k digits exactly when n < 10^k |
| Text.Lower | Source/Native/Date.js:52 | toLowerCase keeps the length and maps each ASCII letter to lower case |
| Text.CleanEmpty | Source/Native/Date.js:285-286 | `clean()` leaves nothing exactly when every character of the text is in JavaScript's `\s` class |
| Text.Words | Source/Native/Date.js:285 | the runs `clean()` keeps are non-empty and free of the characters of JavaScript's `\s` class |
| Locales.IndexOf | Source/Native/Date.js:246 | indexOf is -1 exactly for a missing value, and otherwise the first position holding it |
| Locales.OrderIndexMeaning | Source/Native/Date.js:312-314 | orderIndex is 0 exactly for a unit missing from the date order, 1 exactly when it comes first, and otherwise one more than its position |
| Calendar.YearFromDay | Source/Native/Date.js:59-64 | the year of a day number is the one whose January 1st is the last at or before it |
| Calendar.YearUnique | Source/Native/Date.js:59-64 | a day belongs to exactly one year |
| Calendar.CivilOfMakeDay | Source/Native/Date.js:46-57 | a year, month and date that exist read back unchanged from the host's MakeDay |
| Calendar.MakeDayOfCivil | Source/Native/Date.js:46-57 | every day number is the MakeDay of its own year, month and date |
| Calendar.MakeDayCarry | Source/Native/Date.js:79 | a month index outside 0..11 carries into the year |
| Calendar.FieldsOfMakeDate | Source/Native/Date.js:46-57 | an instant assembled from in-range clock fields reads them back |
| Calendar.MonthFromDay | Source/Native/Date.js:59-64 | getMonth of a day is 0..11 |
| Calendar.DateFromDay | Source/Native/Date.js:59-64 | getDate of a day is 1 up to the length of its month in its year |
| Calendar.WeekDay | Source/Native/Date.js:59-64 | getDay is 0..6 |
| Calendar.DivMod | Source/Native/Date.js:59-64 | quotient and remainder are determined by a = q·k + r with 0 ≤ r < k |
| CalendarRules.IsLeapYearRule | Source/Native/Date.js:277-279 | the February 29th read-back is the Gregorian rule, applied to the year the host constructor uses (1900 + y for y in 0..99) |
| CalendarRules.IsLeapYearGregorian | Source/Native/Date.js:277-279 | for every year but 0, isLeapYear is "divisible by 4 and not by 100, or by 400" |
| CalendarRules.IsLeapYearImpliesGregorian | Source/Native/Date.js:277-279 | every year isLeapYear accepts is a Gregorian leap year, and for years other than 0 the two agree |
| CalendarRules.LeapYearZero | Source/Native/Date.js:277-279 | year 0 is the only year where isLeapYear and the Gregorian rule disagree |
| CalendarRules.DaysInMonthTable | Source/Native/Date.js:273-275 | daysInMonth is defined exactly for months 0..11; there it is the fixed table with February 29 iff isLeapYear, always 28..31 |
| CalendarRules.DaysInMonthFits | Source/Native/Date.js:273-279 | a length from the table never exceeds the true length of that month |
| CalendarRules.UnitMsPositive | Source/Native/Date.js:256-262 | the fixed units are exactly ms, second, minute, hour, day and week, and each is at least 1 ms |
| Fields.LookupVia | Source/Native/Date.js:46-64 | set and get look a name up through its lower-case spelling |
| Fields.LookupExamples | Source/Native/Date.js:21-38 | accessor names in any case and the six short aliases select their accessors; other names match none of the table's own keys |
| Fields.MethodExamples | Source/Native/Date.js:21-38 | `Date.Methods` holds each accessor under its lower-case name and the aliases year and mo |
| Fields.MethodMoreExamples | Source/Native/Date.js:21-38 | the aliases hr and ampm are held; weekday is not |
| Fields.LookupIgnoresCase | Source/Native/Date.js:52-60 | names that differ only in letter case select the same accessor |
| Fields.LookupName | Source/Native/Date.js:52-54 | a lower-case key held by `Date.Methods` is looked up as itself |
| Fields.LookupSetterNames | Source/Native/Date.js:79-89 | the names increment passes to set (date, time, mo, year) select the setters they mean |
| Fields.LookupClockAliases | Source/Native/Date.js:100-102 | the aliases clearTime uses select the four clock setters |
| Fields.GetIgnoresCase | Source/Native/Date.js:59-64 | get with names that differ only in case returns the same |
| Fields.GetAfterSetDate | Source/Native/Date.js:46-64 | get('date') reads back a date set('date') wrote, when the month has that day |
| Fields.SetVia | Source/Native/Date.js:46-57 | set with a name that selects an accessor calls that accessor's setter |
| Fields.SetDateByName | Source/Native/Date.js:46-57 | set('date', n) is setDate(n) |
| Fields.SetMonthByName | Source/Native/Date.js:46-57 | set('mo', n) is setMonth(n) |
| Fields.SetTimeByName | Source/Native/Date.js:46-57 | set('time', n) makes n the instant |
| Fields.SetYearByName | Source/Native/Date.js:46-57 | set('year', n) is setFullYear(n) |
| Fields.SetClockByName | Source/Native/Date.js:100-102 | set('hr'/'min'/'sec'/'ms', n) call the four clock setters |
| Fields.LocalRoundTrip | Source/Native/Date.js:46-64 | an instant is its local year, month and date put back together at its time of day |
| Fields.SetDateShift | Source/Native/Date.js:84 | setDate moves the instant by whole days, running over into the neighbouring months |
| Fields.CivilReadBack | Source/Native/Date.js:46-64 | a civil date that exists reads back unchanged, at the old time of day |
| Fields.SetDateReadBack | Source/Native/Date.js:80 | setDate with a day the month has changes the date alone |
| Fields.SetMonthRollover | Source/Native/Date.js:79 | setMonth moves the month count to month v of the current year, carrying whole years; with a date of 28 or less nothing else moves |
| Fields.SetYearReadBack | Source/Native/Date.js:427 | setFullYear changes the year alone when the month of that year has the date |
| Fields.ClockReadBack | Source/Native/Date.js:100-102 | setting the four clock fields to in-range values keeps the local day and reads them back |
| Fields.DayOfYearAt | Source/Native/Date.js:127-129 | the day of the year behind getWeek is 1..366 |
| Fields.DaysInMonthAt | Source/Native/Date.js:123-125 | getDaysInMonth is daysInMonth of the date's own month and year |
| Fields.WeekAt | Source/Native/Date.js:127-129 | getWeek, the day of the year over 7 rounded up, is 1..53 |
| Fields.JsRem | Source/Native/Date.js:141 | JavaScript's `%`: the remainder differs from the dividend by a multiple of the divisor, is smaller than the divisor in magnitude, and never has the opposite sign to the dividend |
| Fields.SetAMPMMeaning | Source/Native/Date.js:144-152 | setAMPM moves 12 hours back for a PM hour told "AM", 12 on for an AM hour told "PM", to an hour on the label's side of noon, and otherwise changes nothing |
| Fields.AmPmRoundTrip | Source/Native/Date.js:144-156 | getAMPM reads back the label setAMPM was given, in any case |
| Fields.GMTOffsetExamples | Source/Native/Date.js:137-142 | example: offsets -120, 300 and 0 read '+0200', '-0500' and '+0000' |
| Fields.GMTOffsetDigits | Source/Native/Date.js:137-142 | the offset is '-' iff the raw offset is positive, then four digits whose hours and minutes add up to the offset, for zones west of UTC or a whole number of hours east |
| Fields.GMTOffsetHalfHourEast | Source/Native/Date.js:141 | India's offset -330 reads '+05-30' as written, '+0530' corrected |
| Fields.GMTOffsetCorrectedDigits | Source/Native/Date.js:137-142 | the corrected offset is a sign and four digits adding up to the offset, for every offset below 100 hours |
| Fields.GMTOffsetAgreement | Source/Native/Date.js:141 | as written and corrected agree exactly where the JavaScript remainder is not negative |
| Arithmetic.MonthsLaterBySteps | Source/Native/Date.js:77-80 | the three setter calls of the month branch reach MonthsLater |
| Arithmetic.MonthsLaterMeaning | Source/Native/Date.js:77-80 | increment('month', k) moves the month count by k, keeps the time of day, and keeps the date unless the new month is shorter, when it becomes the month's last day |
| Arithmetic.FirstOfMonthLaterMeaning | Source/Native/Date.js:79 | setDate(1) and then setMonth(mo + k) is the 1st of the month k months on, at the same time of day |
| Arithmetic.MonthsLaterFits | Source/Native/Date.js:80 | after a month increment the date fits the new month, and a date that fits is kept |
| Arithmetic.MonthsRoundTrip | Source/Native/Date.js:77-80 | a date of the 28th or earlier comes back after k months forward and k back |
| Arithmetic.SameFields | Source/Native/Date.js:46-64 | two instants with the same local year, month, date and time of day are equal |
| Arithmetic.IncrementYearIsMonths | Source/Native/Date.js:75-76 | increment('year', n) is increment('month', 12n) |
| Arithmetic.IncrementWeekIsDays | Source/Native/Date.js:81-82 | increment('week', n) is increment('day', 7n) |
| Arithmetic.IncrementMonthBranch | Source/Native/Date.js:77-80 | increment('month', n) is MonthsLater by n |
| Arithmetic.IncrementDayBranch | Source/Native/Date.js:83-84 | increment('day', n) is setDate(getDate() + n) |
| Arithmetic.IncrementUnitBranch | Source/Native/Date.js:87-89 | another interval throws '... is not a supported interval' unless it is a fixed unit, which adds times × unit ms |
| Arithmetic.DaysLaterShift | Source/Native/Date.js:83-84 | a day increment by k adds k whole days |
| Arithmetic.IncrementDays | Source/Native/Date.js:70-84 | increment('day', k) and increment('', k) add k days |
| Arithmetic.IncrementWeeks | Source/Native/Date.js:81-84 | increment('week', k) adds 7k days |
| Arithmetic.IncrementNamed | Source/Native/Date.js:75-80 | year and month increments are month moves of 12k and k |
| Arithmetic.IncrementDefaults | Source/Native/Date.js:71-72 | the interval defaults to a day and the count to 1 |
| Arithmetic.IncrementUnits | Source/Native/Date.js:87-89 | a fixed unit adds times × its milliseconds |
| Arithmetic.IncrementSupported | Source/Native/Date.js:74-89 | increment throws exactly for an interval that is none of year, month, week, day, empty or an own key of the unit table |
| Arithmetic.HalfDaySteps | Source/Native/Date.js:147-150 | decrement('hour', 12) and increment('hour', 12) move 12 hours back and on |
| Arithmetic.LeapDayPlusYear | Source/Native/Date.js:75-80 | February 29th plus one year is February 28th |
| Arithmetic.EndOfJanuaryPlusMonth | Source/Native/Date.js:77-80 | January 31st plus one month is the last day of February, never a day of March |
| Arithmetic.DecrementNegates | Source/Native/Date.js:92-94 | decrement(u, n) is increment(u, -n) |
| Arithmetic.DecrementUndoesIncrement | Source/Native/Date.js:81-94 | a day, week or fixed-unit decrement undoes the increment |
| Arithmetic.ClearTimeSetters | Source/Native/Date.js:100-102 | clearTime is setHours(0), setMinutes(0), setSeconds(0), setMilliseconds(0), none of which throws |
| Arithmetic.ClearTimeMeaning | Source/Native/Date.js:100-102 | clearTime keeps the local day and sets the local clock to midnight |
| Arithmetic.DiffCalendarAntisymmetric | Source/Native/Date.js:109-113 | diff in years and in months is exactly antisymmetric, the month count being 12 Δyear + Δmonth |
| Arithmetic.DiffOfMonthsLater | Source/Native/Date.js:104-113 | diff('month') counts the months a month increment moved |
| Arithmetic.DiffOfUnit | Source/Native/Date.js:114-117 | other resolutions give 0 below one unit apart and otherwise Math.round of the quotient |
| Arithmetic.DiffSign | Source/Native/Date.js:114-117 | the result is never negative when the argument is later, and at least 1 (at most -1) a whole unit later (earlier) |
| Arithmetic.DiffWholeUnits | Source/Native/Date.js:114-117 | a whole number of units apart, diff is that number |
| Arithmetic.DiffDefaultsToDays | Source/Native/Date.js:105 | the default resolution is a day |
| Arithmetic.DiffUnknownResolution | Source/Native/Date.js:116 | a resolution that is no own key of the unit table throws a TypeError |
| Arithmetic.RoundDivNegated | Source/Native/Date.js:117 | Math.round of n/u and of -n/u sum to 1 exactly half way between whole units, and to 0 otherwise |
| Arithmetic.DiffNearlyAntisymmetric | Source/Native/Date.js:114-117 | diff(a, b) + diff(b, a) by a unit is 0, except 1 for dates at least a unit apart by a whole number of units and a half |
| Arithmetic.DiffHalfDayExample | Source/Native/Date.js:114-117 | dates a day and a half apart are 2 days apart one way and -1 day the other |
| Arithmetic.DiffSymmetricAntisymmetric | Source/Native/Date.js:114-117 | with halves rounded away from zero, diff(b, a) is exactly -diff(a, b), and both fail together |
| Arithmetic.DiffSymmetricAgrees | Source/Native/Date.js:114-117 | away from the half units, the corrected diff is diff as written |
| Arithmetic.DiffWeekUnit | Source/Native/Date.js:114-117 | diff('week') divides by 608400000 |
| Arithmetic.DiffWeeksAsWritten | Source/Native/Date.js:262 | dates 84 and 85 weeks apart are both 84 weeks apart by diff |
| Arithmetic.DiffFixedOfIncrementWeeks | Source/Native/Date.js:114-117 | with a seven-day week, diff('week') counts exactly the weeks increment('week', k) moved |
| Dates.JsDate.constructor | Source/Native/Date.js:66-68 | a date at the given instant in a host with the given offset |
| Dates.JsDate.Clone | Source/Native/Date.js:66-68 | clone is a new date at the same instant |
| Dates.JsDate.IsValidWith | Source/Native/Date.js:163-165 | isValid(date) is the given date's validity, and this date's when none is given |
| Dates.JsDate.Set | Source/Native/Date.js:46-57 | the method ends at the instant Fields.Set describes, or throws its error and leaves the date alone |
| Dates.JsDate.SetMany | Source/Native/Date.js:48-49 | set({...}) applies the entries in order and stops at the first that throws |
| Dates.JsDate.SetAMPM | Source/Native/Date.js:144-152 | the method ends at Fields.SetAMPM, through decrement or increment by 12 hours |
| Dates.JsDate.Increment | Source/Native/Date.js:70-90 | the method ends where Arithmetic.Increment says, or throws its error |
| Dates.JsDate.IncrementDays | Source/Native/Date.js:83-84 | the day branch sets the date to getDate() + n |
| Dates.JsDate.IncrementTime | Source/Native/Date.js:89 | the fixed-unit branch adds its milliseconds |
| Dates.JsDate.IncrementMonths | Source/Native/Date.js:77-80 | the month branch ends at MonthsLater |
| Dates.JsDate.Decrement | Source/Native/Date.js:92-94 | the method ends where Arithmetic.Decrement says |
| Dates.JsDate.ClearTime | Source/Native/Date.js:100-102 | the method ends at Arithmetic.ClearTime: the same local day at midnight |
| Dates.JsDate.Handle | Source/Native/Date.js:410-440 | handle.call(date, key, value) ends at the instant Handlers.Handle describes, or throws its error and leaves the date alone |
| Formatter.ScanEmpty | Source/Native/Date.js:173 | an empty template formats as the empty text |
| Formatter.ScanLiteral | Source/Native/Date.js:173 | text without '%' is copied as it is |
| Formatter.ScanOther | Source/Native/Date.js:173 | every character but '%' is copied and scanning goes on after it |
| Formatter.ScanUnknown | Source/Native/Date.js:173-200 | '%' before a letter outside `aAbBcdHIjmMpSUWwxXyYTZ%`, such as '%q', is copied with it |
| Formatter.ScanToken | Source/Native/Date.js:173-199 | a token letter other than x and X is replaced by its replacement and scanning goes on |
| Formatter.WeekOfYearUnsupported | Source/Native/Date.js:190 | '%W' throws wherever it stands |
| Formatter.TokenTable | Source/Native/Date.js:175-198 | the replacement each token letter stands for |
| Formatter.ScanWithoutNesting | Source/Native/Date.js:192-193 | without %x and %X the scan never uses the nesting allowance |
| Formatter.NestingSuffices | Source/Native/Date.js:192-193 | when the short templates hold no %x or %X, one level of nesting gives what any deeper allowance gives |
| Formatter.SelfNestedShortDate | Source/Native/Date.js:192 | a short date template that is '%x' itself is a recursion the host never leaves |
| Formatter.FormatInvalid | Source/Native/Date.js:163-168 | instant 0 formats as 'invalid date' whatever the template |
| Formatter.FormatDefault | Source/Native/Date.js:169 | a missing or empty template means '%x %X' |
| Formatter.FormatMacroIgnoresCase | Source/Native/Date.js:170 | macro names are matched whatever their case |
| Formatter.FormatValid | Source/Native/Date.js:167-203 | a valid date formats as the scan of its template |
| Formatter.FormatMacro | Source/Native/Date.js:167-170 | a macro name formats as its template |
| Formatter.FormatLiteral | Source/Native/Date.js:170-173 | a template without '%' that is no own key of the macro table comes back unchanged |
| Formatter.MacroWithCapitalUnreachable | Source/Native/Date.js:170 | a name given to defineFormat with a capital letter is never reached, as format looks up the lower-cased name |
| Formatter.PaddedTokens | Source/Native/Date.js:181-189 | %d %H %M %S %U %m are two digits and %j three, each reading back as its field, the month counted from 1 |
| Formatter.TwelveHourClock | Source/Native/Date.js:183 | %I is 1..12, equal to the hour mod 12, and 12 exactly at midnight and noon |
| Formatter.MeridiemToken | Source/Native/Date.js:187 | %p is the locale's AM text before noon and its PM text from noon on |
| Formatter.WeekDayToken | Source/Native/Date.js:191 | %w is the day of the week from Sunday as 0, one digit |
| Formatter.NameTokens | Source/Native/Date.js:176-179 | %a and %b are the first three letters of the name and throw past the end of the list, where %A and %B give 'undefined' |
| Formatter.TwoDigitYear | Source/Native/Date.js:194 | for a four-digit year %y is its last two digits |
| Formatter.FourDigitYear | Source/Native/Date.js:195 | for a four-digit year %Y is four digits reading back as the year |
| Formatter.HourMinuteExample | Source/Native/Date.js:182-186 | example: hour 3 and minute 7 with '%H:%M' give '03:07' |
| Formatter.TimePart | Source/Native/Date.js:182-188 | '%H:%M:%S' is the padded hours, minutes and seconds separated by colons |
| Formatter.DatePart | Source/Native/Date.js:181-195 | '%Y-%m-%d' is the year, the padded month from 1 and the padded day, separated by hyphens |
| Formatter.ISO8601Scan | Source/Native/Date.js:217 | the iso8601 template is date and time joined by 'T', then the offset |
| Formatter.FormatISO8601 | Source/Native/Date.js:205-207 | toISOString is the year, the padded month, day, hours, minutes and seconds, and the GMT offset, in the iso8601 layout |
| Formatter.ISO8601Shape | Source/Native/Date.js:205-207 | for a four-digit year and a whole-hour or western offset, toISOString has the layout of section 4.3.2 of ISO 8601:2004 with a basic-format offset, every part reading back as its field |
| Formatter.RFC822Scan | Source/Native/Date.js:218 | the rfc822 template is short day name, day, short month name, year, time and zone |
| Formatter.FormatRFC822 | Source/Native/Date.js:218 | format('rfc822') follows the layout of section 5 of RFC 822 with the four-digit year of section 5.2.14 of RFC 1123 |
| Names.Filter | Source/Native/Date.js:238-240 | the filter keeps at most the list's entries, and exactly the entries the test accepts |
| Names.Matching | Source/Native/Date.js:238-240 | the names kept are exactly those that start with the word, ignoring the case of ASCII letters |
| Names.FilterOne | Source/Native/Date.js:238-244 | the filter keeps one entry iff one position alone is accepted, and then it keeps that entry |
| Names.FilterNone | Source/Native/Date.js:241 | the filter keeps nothing iff no entry is accepted |
| Names.FilterMany | Source/Native/Date.js:242 | the filter keeps two or more entries iff two positions are accepted |
| Names.UniquePosition | Source/Native/Date.js:246 | the position of the only accepted entry is the first position of its name |
| Names.ParseTextWord | Source/Native/Date.js:237-246 | a word no name starts with throws 'Invalid <type> string', one that starts several throws 'Ambiguous <type>', and otherwise the one name is returned, or its position with num; prefixes compared ignoring the case of ASCII letters |
| Names.ParseObjectWord | Source/Native/Date.js:230-232 | an object argument gives the name at the index its `get(type)` returns, undefined outside the list; with num its first position, the index itself among distinct names, and -1 for undefined; an object without `get` throws a TypeError |
| Names.ParseOtherWords | Source/Native/Date.js:226-235 | a number argument throws at the undefined `month`; any other argument leaves -1 |
| Names.AmbiguousJu | Source/Native/Date.js:301-303 | example: 'Ju' is an ambiguous English month |
| Names.JanuaryIsFirst | Source/Native/Date.js:301-303 | example: 'jan' is English month 0 |
| Names.NoDayX | Source/Native/Date.js:297-299 | example: 'x' starts no English day name |
| Patterns.ShortDateOrder | Source/Native/Date.js:365-367 | %x becomes month-first exactly when the locale's date order starts with the month |
| Patterns.CaptureFields | Source/Native/Date.js:384-392 | the capture rewrite, taken one match at a time, pushes each captured letter onto `parsed`, giving the rendered pieces and their letters |
| Patterns.Build | Source/Native/Date.js:374-397 | build is the compiled pattern: unbuilt until a language is set, otherwise '^' + the rewritten format + '$' with the letters captured |
| Patterns.Compiled | Source/Native/Date.js:374-397 | a compiled pattern keeps its format |
| Patterns.RenderConcat | Source/Native/Date.js:384-392 | the rendered text and letters of pieces put together are the parts put together |
| Patterns.CaptureStep | Source/Native/Date.js:384-392 | one match: %c with a fragment becomes '(' + fragment + ')' and pushes c, %c without one becomes c, any other character stays |
| Patterns.NoCapturingCount | Source/Native/Date.js:383 | no capturing '(' is exactly no '(' without a '?' after it |
| Patterns.NonCapturingMarksGroups | Source/Native/Date.js:383 | after the second rewrite every '(' is followed by '?' |
| Patterns.NonCapturingWithoutGroups | Source/Native/Date.js:383 | a text without '(' is unchanged by the second rewrite |
| Patterns.ForgivingKeepsGroups | Source/Native/Date.js:384 | the comma rewrite keeps every group non-capturing |
| Patterns.ForgivingWithoutSpaces | Source/Native/Date.js:384 | a text without spaces is unchanged by the comma rewrite |
| Patterns.RewritesSplit | Source/Native/Date.js:383-384 | both rewrites work piecewise on a concatenation |
| Patterns.FlatKeys | Source/Native/Date.js:349-363 | the fragments of every letter but x and X hold no capturing group |
| Patterns.GroupOpens | Source/Native/Date.js:391 | a flat fragment in parentheses holds one capturing group |
| Patterns.OneGroupPerKey | Source/Native/Date.js:385-392 | with no capturing '(' and no %x or %X left, the capture rewrite makes one capturing group per captured letter |
| Patterns.ShortFragments | Source/Native/Date.js:358-367 | the fragments for %x, %X and %o hold no %x or %X |
| Patterns.ExpandShortLeavesNone | Source/Native/Date.js:378-382 | after the first rewrite no %x or %X is left |
| Patterns.RewritesKeepNoShortDates | Source/Native/Date.js:383-384 | the second and third rewrites bring no %x or %X back |
| Patterns.BuildGroups | Source/Native/Date.js:374-397 | the compiled source has exactly one capturing group per entry of `parsed`, so capture i is the text for parsed[i] |
| Handlers.RemoveDotsAppend | Source/Native/Date.js:423 | removing dots distributes over concatenation, so what is not a dot stays, in order |
| Handlers.RemoveDotsKeeps | Source/Native/Date.js:423 | a text is left as it is exactly when it has no dot |
| Handlers.ZoneMatchNone | Source/Native/Date.js:434 | the zone pattern fails exactly when no position starts a sign and two digits |
| Handlers.ZoneMatchFirst | Source/Native/Date.js:434 | a found zone is at the first position that starts a sign and two digits, with the minutes read right after, past an optional colon |
| Handlers.WidenWithinWindow | Source/Native/Date.js:428-431 | for a start year y ≥ 0, a two-digit v is read as the one year of y..y+99 ending in v |
| Handlers.DefaultWindowYears | Source/Native/Date.js:346-347 | with the default window '05' is 2005, '69' 2069, '70' 1970 and '95' 1995, and years from 100 on are kept |
| Handlers.DefaultWindowStart | Source/Native/Date.js:338-347 | the default window is the one define2DigitYearStart(1970) makes |
| Handlers.HandleEmpty | Source/Native/Date.js:411-414 | an empty capture is the 1st with 'd' and January with 'm', and changes nothing with any other letter |
| Handlers.HandleVia | Source/Native/Date.js:416-436 | handle ends with the call of set its switch chose |
| Handlers.StepDigits | Source/Native/Date.js:419-431 | the switch sends digits for d, H, I, M, S, Y to set as they are, for m one less, and for y through the window |
| Handlers.HandleDate | Source/Native/Date.js:419 | digits for 'd' set the date |
| Handlers.HandleMonth | Source/Native/Date.js:421 | digits for 'm' set the month to one less |
| Handlers.HandleYear | Source/Native/Date.js:427 | digits for 'Y' set the full year |
| Handlers.HandleShortYear | Source/Native/Date.js:428-431 | digits for 'y' set the full year through the two-digit window |
| Handlers.HandleClockDigits | Source/Native/Date.js:420-424 | digits for H, I, M and S set the hour, minute and second |
| Handlers.HandleFraction | Source/Native/Date.js:425 | fraction digits set the milliseconds to the first three digits after the point, 0..999 |
| Handlers.HandleMonthName | Source/Native/Date.js:418 | a month name, or a prefix of one alone, sets the month to its position in the locale |
| Handlers.NoDaySetter | Source/Native/Date.js:417-426 | set('day') throws, as this file defines no setDay |
| Handlers.HandleWeekDay | Source/Native/Date.js:417-426 | 'a', 'A' and 'w' always throw: the missing setDay, unless the name is rejected first |
| Handlers.HandleMeridiem | Source/Native/Date.js:423 | 'p' drops the dots and calls setAMPM |
| Handlers.HandleOtherKeys | Source/Native/Date.js:416-439 | a letter the switch has no case for leaves the date alone |
| Handlers.ZoneHoursNumber | Source/Native/Date.js:435 | ToNumber reads the zone's hours with their sign |
| Handlers.ZoneTimeAsWritten | Source/Native/Date.js:432-436 | as written, 'T' adds the signed hours, the unsigned minutes and the local offset; the move is the negation of the corrected one for zones east of UTC or without minutes, and both reject the same values |
| Handlers.ZoneTimeFixedMeaning | Source/Native/Date.js:432-436 | corrected, 'T' yields the instant whose clock reading in the written zone is the date's local clock reading |
| Handlers.ZoneTimeEastExample | Source/Native/Date.js:432-436 | '+05:00' on a UTC host moves the date 5 hours later as written, 5 hours earlier corrected |
| Handlers.ZoneTimeWestExample | Source/Native/Date.js:432-436 | '-05:30' on a UTC host moves the date -270 minutes as written, +330 corrected |
| Handlers.HandlerWithoutFields | Source/Native/Date.js:399-405 | with no captured letters the handler gives today at midnight |
| Handlers.HandleTwo | Source/Native/Date.js:402-403 | the handler applies the captures in order, each on the date the previous one left |
| Handlers.FebruaryThirtyFirst | Source/Native/Date.js:421 | February 31st is March 3rd, or March 2nd in a leap year |
| Handlers.MonthThenDateOverflows | Source/Native/Date.js:419-421 | on a January 31st, setting the month to February before the date puts the date in March |
| Handlers.HandlerMonthBeforeDate | Source/Native/Date.js:399-421 | as written, on January 31st the handler of '%m/%d' reads '02/15' as March 15th |
| Handlers.HandlerFixedMonthDate | Source/Native/Date.js:399-421 | with the date first set to the 1st, a month-first text reads as the month and date it writes, in the current year, whatever today is |
| Registry.RunHandler | Source/Native/Date.js:399-405 | the loop over `parsed` on a fresh date, after clearTime, ends where Handlers.Handler says |
| Registry.DateRegistry.constructor | Source/Native/Date.js:326-347 | no pattern yet defined and the default window from 1970, together with the default formats of lines 214-221 and the five default patterns of lines 442-448, not yet compiled; no language |
| Registry.DateRegistry.DefineFormat | Source/Native/Date.js:316-319 | defineFormat stores the template under the name and changes nothing else |
| Registry.DateRegistry.DefineParser | Source/Native/Date.js:328-331 | defineParser appends one pattern: a ready one as given, a format compiled for the current language, and nothing else changes |
| Registry.DateRegistry.DefineParsers | Source/Native/Date.js:333-336 | defineParsers appends the patterns in order, keeping the old ones in front |
| Registry.DateRegistry.Define2DigitYearStart | Source/Native/Date.js:338-342 | the window becomes the one starting at the year |
| Registry.DateRegistry.LangChange | Source/Native/Date.js:450-458 | a language with date messages becomes current and every entry with a non-empty format is rebuilt for it, in place, while ready entries and entries with an empty format are kept; a language without them changes nothing |
| Registry.DateRegistry.Parse | Source/Native/Date.js:281-295 | Date.parse returns what ParseInput describes: the loop tries the patterns in order |
| Registry.DateRegistry.ParseInto | Source/Native/Date.js:158-161 | date.parse(str) sets the date to what Date.parse gives, or throws its error and leaves the date alone |
| Registry.ParsedTime | Source/Native/Date.js:159 | set('time', ...) throws exactly for a thrown parse, takes a parsed date's instant, and takes 0 for null and for an invalid date |
| Registry.DecideAppend | Source/Native/Date.js:289-292 | the first pattern that decides wins: a list with more patterns after it decides as the list does when the list decides, and as the later patterns otherwise |
| Registry.DecideShift | Source/Native/Date.js:289-292 | once the search is past the front patterns they play no part |
| Registry.DecideNeverNull | Source/Native/Date.js:289-292 | no pattern gives null: what decides is a date or an error |
| Registry.DefinedLaterKeepsEarlier | Source/Native/Date.js:289-294 | a pattern defined later never changes the parse of a text an earlier pattern accepts |
| Registry.FirstAcceptingWins | Source/Native/Date.js:289-292 | a compiled pattern that matches decides with its handler's result |
| Registry.NoMatchPassesOver | Source/Native/Date.js:289-292 | a pattern that does not match, or a ready one whose handler gives nothing, is passed over |
| Registry.ParseBlank | Source/Native/Date.js:285-286 | parse gives null exactly for text that is all whitespace |
| Registry.ParseBeforeLanguage | Source/Native/Date.js:289-290 | before a language is set, every non-blank text throws at the first pattern, which was never compiled |
| Registry.TextNeverUnchanged | Source/Native/Date.js:281-295 | a string is never handed back unchanged by Date.parse |
| Registry.DiffParsed | Source/Native/Date.js:104-117 | diff of a parsed string gives a number only for a date, and null or a thrown parse always throws |
| Registry.DiffTextMeaning | Source/Native/Date.js:104-106 | diff of a string is a number exactly when the string parses to a date and diff of that date succeeds, and then it is that diff; NaN exactly for an invalid date with a known resolution; blank text throws at null's `get` |
| Registry.ParseFallsBack | Source/Native/Date.js:294 | when no pattern decides, the text goes to the host's parse, and NaN there gives an invalid date |
| Registry.RebuiltKeepsList | Source/Native/Date.js:454-456 | the rebuild keeps the length and the order, leaves ready patterns and patterns with an empty format alone, and compiles each other one from its own format with one group per captured letter |
| Registry.RebuiltIdempotent | Source/Native/Date.js:450-458 | rebuilding twice for the same language gives the list rebuilding once gives |

## Left out

- The regular expression engine is abstract (`Registry.Matcher`), and so is its case-insensitive flag. Nothing is proved about which texts a compiled pattern matches, only about the source it compiles to and about how its captures are used.
- The host's own `Date.parse`, `Date.UTC` and `parseUTC` (lines 223, 294, 305-310): the fallback parse is a parameter, and `parseUTC` is not part of this model.
- `getTimezone`, `%Z` and `%c` read the host's `toString()`: they come from the `Host` parameter of the formatter.
- Time zones are one fixed offset. There is no daylight saving time, and there is no NaN or `TimeClip` range: an instant is any integer.
- `Registry.DateRegistry.ParseInto`: an invalid date from the host's parse becomes instant 0, the model's stand-in for NaN. Both are falsy, so `isValid` and `format` treat them alike, but arithmetic on NaN is not modelled.
- Wall-clock reads: `new Date()` in the handler and in `units.month`/`units.year` (lines 263-270, 400). "Now" is a parameter, and the two clock-dependent units are not part of `CalendarRules.UnitMs`.
- `Handlers.FractionMs`: `('0.' + value) * 1000` is read in exact decimal arithmetic as the first three digits after the point; floating-point rounding is not modelled.
- `Patterns.CapturingOpens` counts every '(' not followed by '?'. It does not tell escaped or bracketed parentheses apart, which the default formats and fragments do not contain.
- `Text.StartsWithIgnoringCase`: the word is used in `new RegExp('^' + word, 'i')` as plain text; words with regex metacharacters are not modelled.
- A format given to `build` as a regular expression (`format.source`, line 377): formats are strings here. `defineParsers` takes a flat sequence; `Array.flatten` of nested arrays is not modelled.
- `defineFormats` (lines 321-324) reads `formats[f]` with an undefined `f`, so it throws a ReferenceError before storing anything; it has no member of its own.
- `Date.prototype.isLeapYear` (lines 96-98) is `CalendarRules.IsLeapYear` of `Fields.YearAt`; it has no member of its own.
- `getDayOfYear` and `getLastMonth` are not defined in this file. The day of the year is derived from the calendar, and `lastmonth` is a TypeError.
- `Formatter.Expand`: nested `%x`/`%X` formatting carries a depth allowance (`MaxNesting`). `NestingSuffices` proves that one level gives what any deeper allowance gives when the short templates hold no `%x` or `%X`; a self-nesting template is reported as a cycle instead of the host's stack overflow.
- `Native.genericize`, `Date.alias`, `MooTools.lang.get` and the `langChange` event wiring (lines 17-19, 211-212, 252-254, 450-451, 458). Only the rebuild loop is modelled, as the explicit operation `LangChange`; a language without date messages is `None`.
- `Patterns.Keys` is `parsed` without its leading `null`: capture j of a match belongs to `parsed[j - 1]` in the model, where the source has `parsed[j]`.
- `Text.Zeroize` with a negative repeat count: `String.repeat` belongs to another file, and the model pads nothing there.
- `Text.Lower`, `Text.Upper` and `Text.StartsWithIgnoringCase` map only the ASCII letters; JavaScript's `toLowerCase`, `toUpperCase` and the `i` flag also fold other letters, so a locale name such as "März" does not match "MÄRZ" in the model.
- `Names.Matching`: names are compared ignoring the case of ASCII letters only, as in `Text.StartsWithIgnoringCase`; Unicode case folding is not modelled.
- `Names.ParseTextWord`: its three outcomes are proved for the ASCII case-blind comparison; a prefix that differs from a name only in the case of a non-ASCII letter is rejected by the model and accepted by the source.
- `Text.IsSpace` is the `\s` class of current ECMAScript; older engines that also counted U+180E as a space are not modelled.
- `Names.Word`: `$type` of a Date is taken to be 'date', as MooTools Core gives it, so a Date passed to parseDay or parseMonth takes no branch and gives -1. An object's `get(type)` is taken to return an integer or nothing; a non-integer index is not modelled.
- `Fields.NumberOf` raises `NotANumber` where the source goes on with NaN; in the handlers the date then becomes invalid without an exception.
- `Registry.DiffParsed`: the NaN that diff gives for an invalid date is `None`; NaN arithmetic beyond that is not modelled.
- `Arithmetic.IncrementSupported`: `Date.units` is a plain object, so it also answers the keys it inherits from `Object.prototype`. The model treats those keys as absent. In the source, increment('hasOwnProperty') multiplies by `false` and leaves the date alone; increment('toString') makes the date NaN. The model throws `UnsupportedInterval` for both.
- `Arithmetic.DiffUnknownResolution`: for the same reason, diff(d, 'toString') is NaN and diff(d, 'hasOwnProperty') is ±Infinity in the source, where the model throws a TypeError.
- `Fields.LookupExamples`: `Date.Methods` is a plain object too. get and set of 'constructor' or '__proto__' find an inherited value, build an accessor name that does not exist and throw a TypeError; the model finds no accessor there.
- `Formatter.FormatLiteral`: `formats` is a plain object too. format('constructor') or format('__proto__') picks up an inherited value and throws at `f.replace`; the model returns the text unchanged.

## Findings

| source | as written | input that shows it | evidently intended | confidence | as-written member | corrected member |
|---|---|---|---|---|---|---|
| Source/Native/Date.js:262 | `week: $lambda(608400000)`, seven days and one hour | two dates 85 weeks apart: diff(…, 'week') gives 84, as for 84 weeks | 604800000, seven days, so that diff('week') counts the weeks increment('week') moves | high; not executed | Arithmetic.DiffWeeksAsWritten | Arithmetic.DiffFixedOfIncrementWeeks |
| Source/Native/Date.js:141 | minutes are `zeroize(off % 60, 2)`, negative east of UTC | offset -330 (India) gives '+05-30' | minutes from the magnitude: '+0530' | high; not executed | Fields.GMTOffsetHalfHourEast | Fields.GMTOffsetCorrectedDigits |
| Source/Native/Date.js:434-436 | the new time is `this + (hours·60 + minutes + tz)·60000`, with unsigned minutes | '+05:00' on a UTC host moves 12:00 to 17:00 UTC; '-05:30' moves it by -270 minutes | take the local clock reading as one in the written zone: `this - (sign·(h·60 + m) + tz)·60000` | high; not executed | Handlers.ZoneTimeEastExample | Handlers.ZoneTimeFixedMeaning |
| Source/Native/Date.js:399-421 | the handler starts from today and sets the month before the date | on January 31st, '02/15' for '%m/%d' is read as March 15th | set the date to the 1st first when a date is captured | high; not executed | Handlers.HandlerMonthBeforeDate | Handlers.HandlerFixedMonthDate |
| Source/Native/Date.js:117 | `(Δ / unit).round()`, with Math.round sending halves up | dates a day and a half apart: diff gives 2 one way and -1 the other | halves rounded away from zero, so that swapping the dates negates diff | low; not executed | Arithmetic.DiffHalfDayExample | Arithmetic.DiffSymmetricAntisymmetric |
