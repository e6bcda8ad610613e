# ExopiteDate, modelled in Dafny

ExopiteDate is a PHP class built on the `DateTime` primitive. It adds a fluent date API.
It has named constructors from a date, a time, a date and time, or a string whose format
is recognised from a table of 18 regular expressions. It also has the start and end of a
day, week and month, and a family of add and minus operations. Fractional amounts in that
family cascade to a finer unit: half a year becomes 6 months. There are also dynamic
getters, setters and testers dispatched by `__call`, and differences and relative dates
("2 minutes ago"). Finally there are range tests and a configurable week start.

The model has these modules:

- `Calendar` is the proleptic Gregorian calendar the primitive uses. An instant is a count
  of wall-clock seconds. Its fields are read back through a day number, and both round
  trips between dates and day numbers are proved. `SetDate` and `SetTime` roll values out
  of range over into the next unit, as `DateTime::setDate` and `setTime` do.
- `Cascade` is the unit cascade of `modifyYears` ... `modifySeconds`. It decides which single
  interval an amount is applied as.
- `Accessors` holds the pure pieces of the accessors:
  - the prefix dispatch of `__call`;
  - the attribute switches;
  - `setWeekStartDay`'s parsing and the day-of-week index;
  - the format aliases of `getDate` and `getDateTime`.
- `FormatDetector` is the format table of `makeFromString`. Each pattern is stated over
  characters, with the anchoring it has as written, and the first-match scan is a method
  with a loop.
- `Differences` covers `getDifferenceIn*` over the parts of a `DateInterval`, and the
  scaling loop of `getRelativeDate`.
- `Dates` holds the `ExopiteDate` class. Its fields are the instant, the week start and the
  default format, and its methods update them in place. The module also holds the named
  constructors and the lemmas about applying intervals and about weeks.

The current time is a parameter `now`, and `DateTime::createFromFormat` is a parameter
`parse`.

## Model

| member | source | states |
|---|---|---|
| Dates.ExopiteDate.constructor | ExopiteDate.php:64-85 | a new date is at the current time, its week starts on Sunday (0), and its default format is `jS F, Y \a\t g:ia` |
| Dates.MakeFromDateTime | ExopiteDate.php:139-163 | a fresh date at `MadeInstant`: the date is set from the arguments, and a null or 0 argument takes the current value. The hour comes from its argument or from now. The minute and second come from their arguments; when they are missing they come from now if no hour was passed, and are 0 if an hour was passed |
| Dates.MakeFromDate | ExopiteDate.php:108-111 | makeFromDateTime with only the date |
| Dates.MakeFromTime | ExopiteDate.php:122-125 | makeFromDateTime with only the time |
| Dates.MadeFromNothingIsNow | ExopiteDate.php:139-163 | with no arguments, the date made is now |
| Dates.MadeFromDate | ExopiteDate.php:108-111 | makeFromDate sets the date, and a year 0 stands for the current year; the time of day of now is kept |
| Dates.MadeFromTime | ExopiteDate.php:122-125 | makeFromTime keeps today's date and sets the time; an hour 0 stands for the current hour |
| Dates.MadeWithoutDate | ExopiteDate.php:139-163 | with an hour but no date, the date of now is kept, and a missing minute or second is 0 |
| Dates.MadeFromFields | ExopiteDate.php:231-234 | the padded fields of a parsed date and time give exactly that date and time |
| Dates.MakeFromString | ExopiteDate.php:178-235 | over a given format table (the source's is `FormatDetector.Templates`): fails with FormatNotRecognized when no format is given and none is detected, and with ParseFailed when the parser refuses; otherwise a fresh date at the instant `StringInstant` gives |
| Dates.ResolvedFormat | ExopiteDate.php:178-228 | a given format is used as it is. Otherwise there is no format exactly when no template of the table matches, and a format found is the name of the first template that matches |
| Dates.StringInstantOutcome | ExopiteDate.php:178-235 | for any table, the "format not recognised" failure happens exactly when no format is given and no template matches; when a valid date and time is parsed, the result has those fields |
| Dates.StringRoundTrip | ExopiteDate.php:178-235 | with the table as written, a date written with '-' or '/', with or without a time, and read back with no format comes back unchanged. The exception is a month-first date with a day up to 12 |
| Dates.StringDotAsWritten | ExopiteDate.php:178-235 | with the table as written, a year.month.day date with '.' and a common year fails with FormatNotRecognized, and a day-first or month-first '.' date of a common year that also reads month-first is parsed as `Y.m.d` |
| Dates.IntendedStringRoundTrip | ExopiteDate.php:178-235 | with every pattern anchored, a date written in any of the 18 formats and read back with no format comes back unchanged, with the same month-first exception |
| Dates.ExopiteDate.SetDate | ExopiteDate.php:1354-1362 | the instant is DateTime::setDate's, with rollover, and nothing else changes |
| Dates.ExopiteDate.SetTime | ExopiteDate.php:1363-1371 | the instant is DateTime::setTime's, with rollover, and nothing else changes |
| Dates.ExopiteDate.SetAttribute | ExopiteDate.php:1350-1375 | each case calls setDate or setTime with the other fields passed through as they are |
| Dates.ExopiteDate.SetDateAttribute | ExopiteDate.php:1350-1375 | an unknown attribute is an UnknownAttribute error and leaves the date unchanged; a known one sets that field |
| Dates.ExopiteDate.GetDateAttribute | ExopiteDate.php:1269-1318 | fails, with UnknownAttribute, exactly when the name is not in the switch; DayOfWeekAsNumeric returns the day-of-week index |
| Dates.ExopiteDate.IsDateAttribute | ExopiteDate.php:1326-1342 | fails exactly when the name is not LeapYear, AmOrPm or DaylightSavings; LeapYear is the Gregorian leap-year test of the year |
| Dates.TestValue | ExopiteDate.php:1326-1342 | LeapYear holds exactly when the date's year has 366 days from its 1 January to the next; AmOrPm is "AM" exactly when the second of the day is before 43200 (noon), and "PM" otherwise; DaylightSavings depends on the zone |
| Calendar.YearLength | ExopiteDate.php:1331-1333 | a leap year lasts 366 days from 1 January to 1 January, and any other year 365 |
| Dates.ExopiteDate.Call | ExopiteDate.php:1507-1532 | a name with no get, set or is prefix is an UnhandledCall error. get and is return the getter's or tester's outcome. set with a known field sets it, to 0 when there is no argument, and returns the object. Only a successful set changes the date |
| Dates.ExopiteDate.DayOfWeekAsNumeric | ExopiteDate.php:1294-1296 | the index lies strictly between -7 and 7. For a week start 0..7 it is 0..6, and the week start plus the index is the weekday modulo 7 |
| Dates.YearText | ExopiteDate.php:1279-1281 | the `Y` token is the digits of the year, after a minus sign for a year before year 0 |
| Dates.YearDigits | ExopiteDate.php:1279-1281 | a year 0..9999 has exactly four digits, and every year reads back as its own number |
| Dates.OrdinalSuffix | ExopiteDate.php:1303-1305 | the `S` token is two letters. For a day 1..31 it is "st" exactly for days ending in 1 other than 11, "nd" for days ending in 2 other than 12, "rd" for days ending in 3 other than 13, and "th" for all the rest |
| Dates.AttributeValue | ExopiteDate.php:1269-1318 | only the three zone attributes depend on the zone, and only DayOfWeekAsNumeric is a number; the day, month, minute and second are two digits that read as that field |
| Dates.DayOfYearCounts | ExopiteDate.php:1300-1302 | DayOfYear is the number of days since 1 January of the date's year |
| Dates.GetFieldReadsIt | ExopiteDate.php:1273-1290 | the getter of each of the six fields returns the digits of that field |
| Dates.SetFieldChangesOnlyIt | ExopiteDate.php:1350-1375 | setting a field to a value in range changes that field and no other field |
| Dates.SetThenGet | ExopiteDate.php:1350-1375 | a field set to a value in range reads back as that value |
| Dates.SetDayRollsOver | ExopiteDate.php:1354-1356 | setDay(31) in February of a common year gives 3 March |
| Dates.SetTimeInSteps | ExopiteDate.php:315-320 | setHour, then setMinute, then setSecond, each in range, set the time of day in one step |
| Dates.ExopiteDate.StartOfDay | ExopiteDate.php:315-320 | the date becomes midnight of the same day |
| Dates.MidnightFields | ExopiteDate.php:315-320 | midnight of a day keeps the date and reads 00:00:00 |
| Dates.ExopiteDate.EndOfDay | ExopiteDate.php:327-332 | the date becomes the last second of the same day |
| Dates.LastSecondFields | ExopiteDate.php:327-332 | the last second of a day keeps the date and reads 23:59:59 |
| Dates.ExopiteDate.StartOfMonth | ExopiteDate.php:363-368 | the fields become the first of the month at 00:00:00, with the year and month kept |
| Dates.ExopiteDate.EndOfMonth | ExopiteDate.php:375-380 | the fields become the last day of the month at 23:59:59, with the year and month kept |
| Dates.ExopiteDate.StartOfWeek | ExopiteDate.php:339-344 | fails exactly when the day-of-week index is negative, and then changes nothing. Otherwise the date becomes midnight of the day `index` days earlier, and the index of that day is 0 |
| Dates.ExopiteDate.EndOfWeek | ExopiteDate.php:351-356 | the date becomes the last second of the day `6 - index` days later; for a week start 0..7 that day's index is 6 |
| Dates.BackToWeekStart | ExopiteDate.php:339-344 | going back as many days as the index lands on a day whose index is 0, for every week start |
| Dates.OnToWeekEnd | ExopiteDate.php:351-356 | for a week start 0..7, going on `6 - index` days lands on a day whose index is 6 |
| Dates.WholeDaysApplied | ExopiteDate.php:432-443 | a whole number of days is applied as that many days, and moves the day number by exactly that count |
| Dates.TruncModCongruent | ExopiteDate.php:1294-1296 | PHP's `%` is congruent to its dividend modulo 7 |
| Dates.TruncModOfMultiple | ExopiteDate.php:1294-1296 | PHP's `%` of a multiple of 7 is 0, for negative multiples too |
| Dates.ExopiteDate.ModifyFromInterval | ExopiteDate.php:832-844 | the instant becomes the old one with the interval added, or subtracted when it is inverted |
| Dates.ExopiteDate.Modify | ExopiteDate.php:432-822 | fails with InvalidInterval exactly when the amount is negative or is a fraction of a second, and then changes nothing; otherwise it applies the interval the cascade chooses |
| Dates.ExopiteDate.Add | ExopiteDate.php:388-823 | addX and addOneX: Modify forward |
| Dates.ExopiteDate.Minus | ExopiteDate.php:388-823 | minusX and minusOneX: Modify backward |
| Dates.ApplyIntervalLength | ExopiteDate.php:832-844 | for weeks and smaller units, adding or subtracting moves the instant by exactly the interval's length in seconds |
| Dates.ApplyIntervalNothing | ExopiteDate.php:832-844 | an interval of 0 units of any unit leaves the instant where it is |
| Dates.ApplyIntervalUndone | ExopiteDate.php:832-844 | for weeks and smaller units, subtracting an interval undoes adding it |
| Dates.MoveMonthsKeepsDay | ExopiteDate.php:496-507 | on a day up to 28, moving by months changes only the month, carrying into the year |
| Dates.AddMonthsKeepsDay | ExopiteDate.php:496-507 | on a day up to 28, adding or subtracting months changes only the month, carrying into the year |
| Dates.MoveMonthsBack | ExopiteDate.php:496-507 | from the date n months on, moving back n months returns to the original instant |
| Dates.MonthIntervalsCompose | ExopiteDate.php:496-507 | two month intervals in a row move the date by their two signed counts in turn |
| Dates.MoveMonthsUndone | ExopiteDate.php:496-507 | on a day up to 28, moving n months and then -n months restores the instant |
| Dates.AddMonthsUndone | ExopiteDate.php:496-507 | on a day up to 28, subtracting the months that were added restores the instant |
| Dates.AddMonthRollsOver | ExopiteDate.php:496-507 | one month after 31 January of a common year is 3 March |
| Dates.ExopiteDate.SetWeekStartDay | ExopiteDate.php:1239-1251 | the stored week start is `WeekStartOf` of the argument, and nothing else changes |
| Dates.ExopiteDate.SetDefaultDateFormat | ExopiteDate.php:1226-1231 | the default format becomes the argument, and nothing else changes |
| Dates.ExopiteDate.Between | ExopiteDate.php:1483-1486 | a date between two others lies in a range whose start is before its end, and is neither of the two ends |
| Dates.ExopiteDate.BetweenEqualTo | ExopiteDate.php:1483-1498 | betweenEqualTo holds exactly when between holds, or when the date is an end of a range that is not reversed |
| Dates.ExopiteDate.GetRelativeDate | ExopiteDate.php:1005-1046 | the text is the relative text of the two instants |
| Accessors.ParseCall | ExopiteDate.php:1507-1532 | a getter or setter is the prefix plus the attribute, and a tester is "is" plus the attribute. A name starting with get or set is never read as a tester |
| Accessors.ParseCallName | ExopiteDate.php:1507-1532 | every getter, setter and tester name is dispatched back to its own kind and attribute |
| Accessors.PrefixIsHandled | ExopiteDate.php:1509-1517 | a name made of a prefix and an attribute is handled |
| Accessors.ParseCallNotHandled | ExopiteDate.php:1519-1522 | a call is refused exactly when the name has none of the prefixes get, set and is |
| Accessors.LookupGetAttribute | ExopiteDate.php:1269-1318 | an attribute that is found bears the name it was looked up by |
| Accessors.LookupGetAttributeName | ExopiteDate.php:1269-1318 | each of the 14 attributes is found under its name |
| Accessors.LookupTestAttribute | ExopiteDate.php:1326-1342 | an attribute that is found bears the name it was looked up by |
| Accessors.LookupTestAttributeName | ExopiteDate.php:1326-1342 | each of the 3 testers is found under its name |
| Accessors.LookupField | ExopiteDate.php:1350-1375 | a field that is found bears the name it was looked up by |
| Accessors.FieldsAreReadable | ExopiteDate.php:1350-1375 | every settable field is found under its name, and can also be read under that name |
| Accessors.Lower | ExopiteDate.php:1247 | strtolower maps A..Z to a..z, character by character, and keeps the length |
| Accessors.LowerIdempotent | ExopiteDate.php:1247 | lowering twice is lowering once |
| Accessors.WeekStartOf | ExopiteDate.php:1239-1251 | a number is stored as it is, and so is the value of a non-empty text of decimal digits. Any other text gives 0 exactly for "sunday" and 1 exactly for "monday", in any case, and false exactly when it is neither |
| Accessors.WeekStartIgnoresCase | ExopiteDate.php:1247 | a day name is recognised in any mix of cases |
| Accessors.AccessorExamples | ExopiteDate.php:1239-1296 | the numeric text "1" is stored as the number 1, and a week start of 8 on a Sunday gives the index -1 |
| Accessors.TruncMod | ExopiteDate.php:1294-1296 | PHP's `%` takes the sign of the dividend, and its size is below the divisor |
| Accessors.DayOfWeekIndex | ExopiteDate.php:1294-1296 | the index lies strictly between -7 and 7 |
| Accessors.DayOfWeekIndexCounts | ExopiteDate.php:1294-1296 | for a week start 0..7, the index is 0..6 and counts the days since the week's first day |
| Accessors.DateFormatFor | ExopiteDate.php:1053-1072 | an empty format (null, "" or "0") gives `Y-m-d` |
| Accessors.DateTimeFormatFor | ExopiteDate.php:1081-1101 | an empty format gives `Y-m-d H:i:s` |
| Accessors.FormatAliases | ExopiteDate.php:1053-1101 | each alias, and the empty format, gives one of the detection table's formats; getDateTime's format is getDate's with ` H:i:s`. Any other format is passed on unchanged |
| Cascade.ScaleOfFiner | ExopiteDate.php:496-822 | each unit is its multiplier times the finer unit: 12 months, 4 weeks, 7 days, 24 hours, 60 minutes, 60 seconds |
| Cascade.IsFloatFractional | ExopiteDate.php:1550-1553 | an amount is a float exactly when no integer equals it |
| Cascade.ModificationPreservesLength | ExopiteDate.php:432-822 | the interval the cascade settles on has the length of the amount asked for |
| Cascade.ModificationUnit | ExopiteDate.php:432-822 | the interval keeps the direction, and is in the unit asked for exactly when the amount is whole; otherwise it is in a finer unit |
| Cascade.ModificationUnsupported | ExopiteDate.php:752-759 | the cascade fails exactly when the amount is not a whole number of seconds |
| Cascade.ModificationDirection | ExopiteDate.php:432-822 | add and minus choose the same unit and count, or both fail; only the direction differs |
| Cascade.SignedCountReversed | ExopiteDate.php:832-844 | reversing an interval negates its signed count |
| Cascade.ModificationExamples | ExopiteDate.php:432-822 | 0.5 years is 6 months, 1.5 months is 6 weeks, a tenth of a day back is 144 minutes back, and 0.01 minutes is unsupported |
| Calendar.MonthLengths | ExopiteDate.php:1297-1299 | months 1, 3, 5, 7, 8, 10 and 12 have 31 days, months 4, 6, 9 and 11 have 30, and February has 29 exactly in a leap year |
| Calendar.DaysInMonth | ExopiteDate.php:1297-1299 | the `t` token is 28..31, and it is 29 exactly for February of a leap year |
| Calendar.DaysCivilRoundTrip | ExopiteDate.php:1273-1281 | every day number names a valid date, and that date converts back to the day number |
| Calendar.CivilDaysRoundTrip | ExopiteDate.php:1273-1281 | every valid date converts to a day number that converts back to the same date |
| Calendar.FieldsOf | ExopiteDate.php:1273-1290 | the fields of every instant are a valid date and a time in range |
| Calendar.NormalizeMonth | ExopiteDate.php:1357-1359 | a month out of range rolls over into a month 1..12 of another year, keeping the count of months |
| Calendar.SetDateFields | ExopiteDate.php:1354-1362 | setting a valid date keeps the time of day and reads back as that date |
| Calendar.SetTimeFields | ExopiteDate.php:1363-1371 | setting a time in range keeps the date and reads back as that time |
| Calendar.FieldsDetermineInstant | ExopiteDate.php:1350-1375 | setting an instant's own date and time gives the instant back |
| Calendar.DaysSinceNewYear | ExopiteDate.php:1300-1302 | a day lies DaysBeforeMonth + day - 1 days after 1 January |
| Calendar.February31 | ExopiteDate.php:1354-1356 | in a common year, 31 February is 3 March |
| Calendar.SetDateRolled | ExopiteDate.php:1357-1359 | setting a date whose month rolls over reads back as the rolled-over date |
| Calendar.NormalizeMonthBack | ExopiteDate.php:496-507 | rolling a month forward by n and back by n returns to it |
| FormatDetector.YearTextIsGregorian | ExopiteDate.php:182-216 | the leap-year half of every pattern lists exactly the Gregorian leap years 1001..2999, and the common-year half lists exactly the common years 1001..2999 |
| FormatDetector.LeapYearTextIsGregorian | ExopiteDate.php:182-216 | the leap-year alternation accepts exactly the four-digit leap years 1001..2999 |
| FormatDetector.CommonYearTextIsGregorian | ExopiteDate.php:182-216 | the common-year alternation accepts exactly the four-digit common years 1001..2999 |
| FormatDetector.DateTextIsValidDate | ExopiteDate.php:182-216 | a date pattern accepts a ten-character text exactly when the separators are in place and the fields are the digits of a valid Gregorian date of a year 1001..2999 |
| FormatDetector.Detect | ExopiteDate.php:219-228 | the scan returns a format exactly when some template matches, and then the format of the first template that matches |
| FormatDetector.FirstMatchFromWinner | ExopiteDate.php:219-228 | the first match is the format of the one template that matches with no earlier match |
| FormatDetector.FirstMatchFromNone | ExopiteDate.php:219-228 | the scan finds nothing exactly when no template matches |
| FormatDetector.FirstMatchFromSome | ExopiteDate.php:219-228 | a format the scan finds is the name of the template that wins: it matches and no template before it does |
| FormatDetector.FirstMatch | ExopiteDate.php:178-228 | with the table as written, no format is found exactly when none of the 18 patterns matches, and a format found is the name of the first pattern that matches |
| FormatDetector.TemplatesLayout | ExopiteDate.php:182-216 | the table has 18 templates, one per field order, separator and time flag. They are grouped year-first, then day-first, then month-first, and only indices 2 and 3 are split |
| FormatDetector.TemplateAt | ExopiteDate.php:182-216 | each field order, separator and time flag has its template at its position |
| FormatDetector.YearFirstNames | ExopiteDate.php:182-191 | the year-first formats without a time are Y-m-d, Y.m.d and Y/m/d, in that order |
| FormatDetector.YearFirstTimedNames | ExopiteDate.php:184-193 | the year-first formats with a time are Y-m-d, Y.m.d and Y/m/d with ` H:i:s`, in that order |
| FormatDetector.DayFirstNames | ExopiteDate.php:194-203 | the day-first formats without a time are d.m.Y, d-m-Y and d/m/Y, in that order |
| FormatDetector.DayFirstTimedNames | ExopiteDate.php:196-205 | the day-first formats with a time are d.m.Y, d-m-Y and d/m/Y with ` H:i:s`, in that order |
| FormatDetector.MonthFirstNames | ExopiteDate.php:206-215 | the month-first formats without a time are m.d.Y, m-d-Y and m/d/Y, in that order |
| FormatDetector.MonthFirstTimedNames | ExopiteDate.php:208-216 | the month-first formats with a time are m.d.Y, m-d-Y and m/d/Y with ` H:i:s`, in that order |
| FormatDetector.RenderedAnchored | ExopiteDate.php:182-216 | a whole-text pattern accepts a written date exactly when it has the same separator and time part, and its field order reads the date as a date |
| FormatDetector.RenderedDateText | ExopiteDate.php:182-216 | a written date is a date in another field order exactly when that order reads it, which for day and month means the day is at most 12 |
| FormatDetector.ReadOrder | ExopiteDate.php:182-216 | the earliest field order in the table that reads a written date as a date |
| FormatDetector.NoEarlierReading | ExopiteDate.php:182-228 | no whole-text template that accepts a written date sits before the one for the order it first reads as |
| FormatDetector.DetectRendered | ExopiteDate.php:182-228 | on a table laid out like the original whose templates are all whole-text, a written date is detected with its own separator and time part, in the order it first reads as |
| FormatDetector.DetectsRenderedWithoutDot | ExopiteDate.php:182-228 | the table as written detects dates written with '-' or '/' in the same way |
| FormatDetector.SplitYmdNeedsDot | ExopiteDate.php:186-188 | a text without a '.' matches neither half of the `Y.m.d` patterns as written |
| FormatDetector.RenderedYmdSuffix | ExopiteDate.php:186-188 | the only suffix of a written year-first date that a year-first pattern matches is the whole text |
| FormatDetector.DotYmdCommonYearUndetected | ExopiteDate.php:186-188 | as written, a year.month.day date with '.' and a common year is not detected at all |
| FormatDetector.DotDayFirstReadAsYmd | ExopiteDate.php:186-188 | as written, a day-first or month-first date with '.' and a common year that also reads month-first is detected as `Y.m.d` |
| FormatDetector.DotMonthFirstMatchesYmd | ExopiteDate.php:186 | as written, such a date matches the first `Y.m.d` pattern |
| FormatDetector.DotExamples | ExopiteDate.php:186-188 | as written, "2023.03.05" is not detected, and "05.03.2023" with or without " 12:00:00" is detected as `Y.m.d` |
| FormatDetector.IntendedTemplates | ExopiteDate.php:182-216 | the table with every pattern anchored as a whole, the `Y.m.d` pair included |
| FormatDetector.IntendedDetectsRendered | ExopiteDate.php:178-228 | with the anchored table, a date written in any of the 18 formats is detected as that format. The exception is a month-first date with a day up to 12, which is detected as day-first with the same separator and time part |
| Differences.TruncDiv | ExopiteDate.php:938-946 | integer division rounds toward zero |
| Differences.Sign | ExopiteDate.php:902-946 | `%r1` is 1 or -1 |
| Differences.DifferenceInYears | ExopiteDate.php:902-910 | `%r%y` is 0 exactly when there are no whole years, and negative exactly for a backward interval of at least a year |
| Differences.DifferenceInMonths | ExopiteDate.php:918-930 | the months are 0 exactly when there are no whole years or months, and negative exactly for a backward interval that is not 0 |
| Differences.DifferenceInDays | ExopiteDate.php:938-946 | `%r%a` is 0 exactly when there are no whole days, and negative exactly for a backward interval of at least a day |
| Differences.DifferenceInSeconds | ExopiteDate.php:976-997 | the seconds are 0 exactly when the day and time parts are all 0, and negative exactly for a backward interval that is not 0 |
| Differences.DifferenceInMinutes | ExopiteDate.php:965-968 | sixty times the minutes is the difference in seconds |
| Differences.DifferenceInHours | ExopiteDate.php:954-957 | 3600 times the hours is the difference in seconds |
| Differences.DifferenceInSecondsIsElapsed | ExopiteDate.php:954-997 | the difference in seconds is the signed time elapsed; the minutes and hours are that time over 60 and 3600 |
| Differences.DifferenceInDaysTruncates | ExopiteDate.php:938-946 | the difference in days is the elapsed time in whole days, rounded toward zero |
| Differences.DifferenceInYearsFromMonths | ExopiteDate.php:902-930 | the difference in years is the difference in months in whole years, rounded toward zero |
| Differences.Span | ExopiteDate.php:1013-1022 | each relative-date unit lasts at least one second |
| Differences.InNextUnit | ExopiteDate.php:1019-1022 | dividing by a divisor counts the same time in the next unit |
| Differences.Scaled | ExopiteDate.php:1019-1022 | the loop stops at a unit no finer than the one it starts from, and no coarser than years |
| Differences.ScaledCounts | ExopiteDate.php:1019-1022 | the scaled difference is the elapsed time counted in its unit: at least 1 unless in seconds, and less than the next divisor unless in years |
| Differences.ScaledMonotonic | ExopiteDate.php:1019-1022 | a longer time is never told in a smaller unit |
| Differences.Round | ExopiteDate.php:1025 | round() is within half a unit of its argument |
| Differences.Decimal | ExopiteDate.php:1045 | a whole number is printed as its decimal digits, with no leading zero: 0 is "0", and any other number starts with a digit other than 0 |
| Differences.RelativeOf | ExopiteDate.php:1005-1046 | "from now" is said exactly when the compared date is earlier |
| Differences.RelativeAmount | ExopiteDate.php:1005-1046 | the amount is the elapsed time in its unit, rounded: at least one unit unless in seconds, and under one of the next unit unless in years |
| Differences.RelativeSymmetric | ExopiteDate.php:1005-1046 | seen from either side, two dates are the same amount of the same unit apart, in opposite directions |
| Differences.RelativeTextShape | ExopiteDate.php:1025-1045 | the text starts with the amount in decimal and a space, and ends with " from now" exactly for a date in the future and with " ago" exactly otherwise |
| Differences.RelativeDate | ExopiteDate.php:1005-1046 | the loop, the rounding, the unit name with its "s", and the suffix give the relative text |
| Differences.RelativeExamples | ExopiteDate.php:1005-1046 | 90 seconds is "2 minutes ago" or "2 minutes from now", 1 second is "1 second ago", and 3 days is "3 days ago" |

## Left out

- Time zones and daylight saving time are not modelled. This covers the `$timezone` arguments, parseSuppliedTimezone, setTimezone and getTimezone. Instants are wall-clock seconds.
- GmtDifference, SecondsSinceEpoch, TimezoneName and DaylightSavings return `ZoneDependent`, because their values depend on the zone.
- The clock is the parameter `now`. The `$time` string of the constructor and of make, which DateTime parses in free form, is not modelled; a date is made at `now`.
- DateTime::createFromFormat is the parameter `parse`, with no constraint on how it reads a text.
- DateTime::diff is taken as given. Its year and month parts are inputs, and only its day and time parts and its sign are tied to the two instants.
- Floating point is not modelled. Amounts and relative-date quotients are exact rationals, so rounding errors of floats (for example 0.1 * 24) do not appear.
- The regular-expression engine is not modelled. Each pattern is restated as a predicate over characters, including the final-newline behaviour of `$` without the D modifier.
- Formatted output beyond the tokens the getters use (`d m Y G i s l w t z S L A`) is not modelled. getDate and getDateTime are modelled only as the format string they choose, not the text DateTime::format produces.
- The locale names of IntlDateFormatter (createFormatter, getDayName, getMonthName), getWeekNumber, getDayOfTheWeek and getDayOfTheYear are not modelled, because they format through ICU.
- copy, __toString, getDefaultDate, getShortDate, getLongDate and getTime are left out. They only format or clone.
- now, today, tomorrow, yesterday and setTimestampFromString are left out. They parse free-form strings with the clock.
- isWeekday and isWeekend are left out.
- The comparisons equalTo, greaterThan, lessThan and the others are left out. Only their use inside between and betweenEqualTo is modelled, as comparisons of instants.
- Accessors.WeekStartOf: only a plain string of decimal digits counts as numeric. PHP's is_numeric also accepts signs, decimals, exponents and leading whitespace, and those texts are treated here as day names.
- Dates.MakeFromString: when nothing matches, the source hands a null format to createFromFormat. This is modelled as the error FormatNotRecognized.
- Dates.ExopiteDate.Call: a setter called with no argument is modelled as setting 0. PHP reads the missing `$parameters[0]` as null, which setDate and setTime take as 0.
- Dates.ExopiteDate.DayOfWeekAsNumeric: for a week start outside 0..7, only the bound -7 < index < 7 is stated. The index is still computed exactly as the source does.

## Findings

| source | as written | input that shows it | evidently intended | confidence | as-written member | corrected member |
|---|---|---|---|---|---|---|
| ExopiteDate.php:186-188 | The `Y.m.d` and `Y.m.d H:i:s` patterns are `^(A)\|(B)$`. The anchors bind to the halves, not to the alternation. The common-year half A is written month.day.year, and it has no end anchor. | "2023.03.05" is not detected at all, because its year is common. "05.03.2023" and "05.03.2023 12:00:00" are detected as `Y.m.d`. | An anchored year.month.day pattern like the other 16: `^(LEAP Y.m.d \| COMMON Y.m.d)$` | not executed | FormatDetector.DotYmdCommonYearUndetected, FormatDetector.DotDayFirstReadAsYmd, FormatDetector.DotExamples, Dates.StringDotAsWritten | FormatDetector.IntendedDetectsRendered, Dates.IntendedStringRoundTrip |
