# go-jalaali in Dafny

A model of the core of go-jalaali, a Go library for the Jalaali (Persian
solar hijri) calendar. The model covers four things:

- **Conversion.** The library converts dates between the Gregorian and the
  Jalaali calendars through Julian Day Numbers. The Jalaali side comes from
  a table of "break" years at which the 33-year leap cadence shifts.
- **Queries.** It answers leap-year, month-length and validity queries.
- **Formatting.** It formats a moment with Go's reference-time layouts, such
  as "2006-01-02 15:04". The output uses Persian digits, month names and
  weekday names.
- **Legacy package.** An older sub-package, `jalaali/jalaali.go`, repeats the
  conversion on `int64` with a few slips of its own.

The modules follow the files of the library:

| module | models |
|---|---|
| `GoInt` | Go's integer division and remainder, which truncate toward zero (`div` and `mod` of convertion.go) |
| `Errors` | the `(value, error)` results, the error values and calendar dates |
| `Decimal` | decimal numerals over ASCII and Persian digits; `strconv.Itoa` |
| `BreakTable` | the break table and `jalCal`: the leap count, the day of March of 1 Farvardin, the leap indicator |
| `JulianDay` | `g2d` and `d2g`, the Gregorian side, with a calendar-level description of both |
| `Conversion` | `j2d`, `d2j`, `ToJalaali` and `ToGregorian` |
| `Utils` | `IsLeapYear`, `MonthLength` and `IsValidDate` of utils.go |
| `Names` | the `Month` and `Weekday` enumerations and their `String` methods |
| `Layout` | the layout tokens, their integer codes and `nextStdChunk` |
| `Format` | `appendInt`, `formatNano`, `jAppendFormat` and `JFormat` |
| `Legacy` | the older `jalaali` sub-package |

Each operation has a partner property, stated as an all-inputs lemma or a
contract:

- **Round trips.** `j2d`/`d2j` and `ToGregorian`/`ToJalaali` invert each
  other except on shifted dates (from 1 January on, in a year five years
  before a break) and on the days of Jalaali 3177 that fall in Gregorian
  3799; both exceptions are stated below. `g2d`/`d2g` invert each other from
  Julian Day -34839655 on, and `Itoa` reads back.
- **Calendar meaning.** The corrected leap indicator is 0 exactly when the
  year has 366 days. The indicator as written departs from it exactly four
  and five years before a break.
- **Lazy equals eager.** Formatting with the cache of computed date and
  clock fields gives the same text as formatting every token from the full
  fields.
- **Legacy vs root.** Each legacy function is compared with the root
  package.

The model follows the code as written. `jalCal` computes its leap indicator
with a sign slip (convertion.go:105-107; the first finding below), and every
public operation is modelled on that indicator as written,
`BreakTable.JalCalAsWritten`:

- `ToJalaali` and `d2j`;
- `IsLeapYear`, `MonthLength` and `IsValidDate`;
- the formatter, which calls `ToJalaali`.

Their contracts state where the answers depart from the calendar. The years
four and five years before a break are misreported. The days from 1 January
on in a year five years before a break decode one day early.

The corrected indicator is `BreakTable.JalCal`, and `Conversion.D2JCorrected`
is `d2j` on it. The round trips without those exceptions are proved for
these corrected versions; nothing else in the model uses them.

## Model

| member | source | states |
|---|---|---|
| GoInt.Truncation | convertion.go:134-140 | Go's `div` and `mod` truncate: the quotient times the divisor plus the remainder gives the dividend back. The remainder is smaller than the divisor in size and takes the dividend's sign. The quotient's multiple never passes the dividend on its own side of zero. |
| GoInt.NonNegativeAgrees | convertion.go:134-140 | for a non-negative dividend and a positive divisor, `div` and `mod` are Euclidean division and remainder |
| GoInt.TruncationUnique | convertion.go:134-140 | those bounds define `div`: any quotient whose multiple of the divisor lies where truncation puts it is `div(a, b)`, and what is left over is `mod(a, b)` |
| GoInt.TruncationVersusFloor | convertion.go:134-140 | for a positive divisor, `div` and `mod` equal floor division and remainder unless the dividend is negative and not a multiple; then `div` is one more and `mod` one divisor less (the March shift `div(gm-8, 6)` is such a case) |
| Decimal.DigitsRoundTrip | format.go:274-284 | the digits of `n`, written most significant first, are all digits of the chosen alphabet and read back as `n`; only the numeral of 0 starts with the zero digit |
| Decimal.ValueOfConcat | format.go:286-291 | reading a numeral in two parts: the second part is the low places, so zero padding in front changes nothing |
| Decimal.Itoa | jalaali.go:53 | `strconv.Itoa`: the text starts with '-' exactly when the number is negative, the rest is ASCII digits, and `Atoi` reads it back as the number |
| Decimal.ItoaRoundTrip | jalaali.go:53 | `strconv.Itoa` loses nothing: a leading '-' exactly for negative numbers, then digits that read back as the magnitude |
| Decimal.ItoaInjective | jalaali.go:77 | distinct integers get distinct `Itoa` text |
| BreakTable.BreaksAscending | convertion.go:5-8 | the table has 20 breaks in strictly increasing order |
| BreakTable.JumpShapeAt | convertion.go:5-8 | every interval between breaks is at least 29 years long, and its length is 4 or 29 more than a multiple of 33 |
| BreakTable.Locate | convertion.go:79-88 | the interval walk stops at the unique interval `Breaks[k-1] <= jy < Breaks[k]`; its start, length and the leap days of all earlier intervals are reported |
| BreakTable.LocateUnique | convertion.go:80-85 | the interval holding a year is unique |
| BreakTable.JalCalAsWritten | convertion.go:71-114 | `jalCal` as written: an error (with zeros) exactly outside -61..3177; otherwise `gy = jy + 621`, the day of March of 1 Farvardin, and an indicator in -3..4 that is never -1 |
| BreakTable.JalCal | convertion.go:71-114 | `jalCal` with the sign slip of lines 105-107 corrected: same error cases, same `gy` and day of March, and an indicator in 0..4 |
| BreakTable.LocatedIndicator | convertion.go:104-111 | the corrected indicator of every year of the table lies in 0..4 |
| BreakTable.LeapYearGainsDay | convertion.go:89-111 | with the corrected indicator, a year adds a leap day to the count of the next exactly when its indicator is 0, and the next year's indicator is 1 exactly then: the indicator is the time since the last leap year |
| BreakTable.JalaaliLeapsRate | convertion.go:86-96 | the leap count stays within a few days of the mean rate of 8 leap years in 33 across the whole table |
| BreakTable.AsWrittenMissesLeapYear | convertion.go:105-111 | year 4 gains a leap day (the count rises by one to year 5), yet the as-written indicator calls year 4 non-leap (4) and year 5 leap (0); the corrected one says 0 and 1 |
| BreakTable.YearsToBreak | convertion.go:89-107 | the distance `jump - n` from a year to the next break: at least 1, and the year plus it is that break |
| BreakTable.ZoneIndicators | convertion.go:104-111 | within five years of a break, the corrected indicator is 5 minus the distance; the one as written is 4, -2, -3, 0 and 4 at distances 1 to 5 |
| BreakTable.AsWrittenLeapTest | convertion.go:104-111 | the as-written and the corrected indicator agree on `== 0` exactly when the year is not four or five years before a break, and on `== 1` exactly when it is not four years before. Four and five years before a break the corrected indicator is 1 and 0, the as-written one 0 and 4. From six years before a break on, the two `jalCal` results are equal |
| BreakTable.LastTableYear | convertion.go:71-114 | `jalCal(3177)`, as written and corrected alike, reports indicator 4, Gregorian year 3798 and 20 March |
| BreakTable.Year1393 | convertion.go:71-114 | `jalCal(1393)`, as written and corrected alike, reports indicator 2, Gregorian year 2014 and 21 March |
| JulianDay.G2DClosedForm | convertion.go:116-122 | `g2d` is the day count of the March-based Gregorian year plus the month offset plus the day, for years from -100100 on |
| JulianDay.D2GRoundTrip | convertion.go:124-132 | `d2g` yields a valid Gregorian date, and `g2d` maps it back to the same day number |
| JulianDay.G2DRoundTrip | convertion.go:116-132 | a valid Gregorian date goes through `g2d` and comes back unchanged from `d2g` |
| JulianDay.D2GMarchDay | convertion.go:124-132 | `d2g` finds the March year holding the day and the day's position within it, and the month that position falls in |
| JulianDay.D2GFindsDate | convertion.go:124-132 | `d2g` returns the one valid date at the given day number |
| JulianDay.NewYearDayIsFirstJanuary | convertion.go:116-132 | the first day of each year is 1 January both ways |
| JulianDay.D2GYearBracket | convertion.go:124-132 | the year `d2g` reports is the one whose 1 January is at or before the day, with the next 1 January after it |
| JulianDay.D2GYear | convertion.go:124-132 | conversely, any year bracketing the day is the year `d2g` reports |
| JulianDay.MarchYearLength | convertion.go:116-122 | a March-based year has 366 days exactly when the February it ends is leap |
| Conversion.GregorianLeapsCount | convertion.go:99 | `leapG` counts the Gregorian leap years through `gy`, less 150 |
| Conversion.MarchBounds | convertion.go:102 | 1 Farvardin falls between 19 and 24 March for every year of the table |
| Conversion.FarvardinFirstDay | convertion.go:41 | `g2d(jy+621, 3, march)` is the day number of 1 Farvardin |
| Conversion.FarvardinYearLength | convertion.go:71-122 | consecutive 1 Farvardins are 366 days apart when the year is leap and 365 when not |
| Conversion.J2D | convertion.go:29-35 | `j2d` fails with zero exactly outside the table; otherwise it is 1 Farvardin plus the day's place in the Jalaali year |
| Conversion.MonthDays | convertion.go:34 | `(jm-1)*31 - div(jm,7)*(jm-7)` is the number of days before month `jm`: six months of 31, then months of 30 |
| Conversion.D2J | convertion.go:37-69 | `d2j` as written fails with zeros exactly when `d2g`'s year less 621 is outside the table |
| Conversion.D2JCorrected | convertion.go:37-69 | `d2j` on the corrected `jalCal`: the same error cases |
| Conversion.ToGregorian | convertion.go:19-27 | fails with a zero date exactly outside the table |
| Conversion.J2DThenD2J | convertion.go:29-69 | `d2j` as written undoes `j2d` on a valid Jalaali date exactly when the date is not shifted, that is not from 1 January on in a year five years before a break (such a year is always leap). A shifted date comes back as the day before it. The dates of 3177 that fall in Gregorian 3799 fail instead: `d2j` looks up Jalaali year 3178 for them and returns that year's error. |
| Conversion.J2DThenD2JCorrected | convertion.go:29-69 | `d2j` on the corrected `jalCal` undoes `j2d` on every valid Jalaali date, with the same 3177 exception |
| Conversion.DecodeEarly | convertion.go:37-69 | `d2j` as written decodes the day number of a shifted date without error to the day before that date |
| Conversion.D2JThenJ2D | convertion.go:29-69 | a day `d2j` as written decodes into a year of the table is a valid date. `j2d` maps it back to the same day, or to the day before on a shifted day: a day before 1 Farvardin of a year four years before a break. |
| Conversion.D2JThenJ2DCorrected | convertion.go:29-69 | a day `d2j` on the corrected `jalCal` decodes into a year of the table is a valid date, and `j2d` maps it back to the same day |
| Conversion.D2JAgrees | convertion.go:37-69 | `d2j` as written and `d2j` on the corrected `jalCal` give the same result on a day exactly when it is not a shifted day |
| Conversion.ToGregorianThenToJalaali | convertion.go:12-27 | a valid Jalaali date converts to a valid Gregorian date. That date converts back to the Jalaali date exactly when the date is not shifted; a shifted date comes back as the day before. The same 3177 exception applies. |
| Conversion.ToJalaaliThenToGregorian | convertion.go:12-27 | a Gregorian date that converts into the table converts to a valid Jalaali date. That date converts back to the Gregorian date exactly when the day is not shifted. |
| Conversion.ToJalaaliThenToGregorianShifted | convertion.go:12-27 | a shifted Gregorian day converts to a Jalaali date that converts back to the Gregorian day before it |
| Conversion.ToJalaali | convertion.go:12-15 | on a valid Gregorian date, `ToJalaali` fails, with a zero date and the year's error, exactly when the Gregorian year less 621 is outside the table |
| Conversion.SameDayConverts | convertion.go:12-27 | when a Gregorian and a Jalaali date name the same day, `ToGregorian` turns the Jalaali date into the Gregorian one. `ToJalaali` turns the Gregorian date into the Jalaali one exactly when the Jalaali date is not shifted. |
| Conversion.Example1981 | jalaali_test.go:9 | 17 August 1981 is 26 Mordad 1360, both ways |
| Conversion.Example2013 | jalaali_test.go:10 | 10 January 2013 is 21 Dey 1391, both ways |
| Conversion.Example2014 | jalaali_test.go:11 | 4 August 2014 is 13 Mordad 1393, both ways |
| Conversion.AsWrittenDecodesYear4 | convertion.go:105-107 | 11 Dey 4 is 1 January 626: `d2j` as written reads it back as 10 Dey 4, `d2j` on the corrected `jalCal` as 11 Dey 4 |
| Utils.IsLeapYear | utils.go:50-53 | fails exactly outside the table, returning `true` beside the error, because the zero indicator reads as leap. On a year of the table the answer is the calendar's exactly when the year is not four or five years before a break. |
| Utils.LeapYearIsLong | utils.go:50-53 | consecutive 1 Farvardins are 366 days apart for a leap year and 365 otherwise. `IsLeapYear` says "leap" exactly for the 366-day years unless the year is four or five years before a break. |
| Utils.MonthLength | utils.go:32-46 | fails only for Esfand (or a larger month) of a year outside the table. Every month up to 6, zero and negative months included, has 31 days and months 7 to 11 have 30, whatever the year, so each month ends where the next begins. Esfand and larger months have 30 days when `IsLeapYear` says leap and 29 otherwise, which is the calendar's length exactly when the year is not four or five years before a break. |
| Utils.EsfandEndsYear | utils.go:32-46 | Esfand, as `MonthLength` counts it, ends where the next year's 1 Farvardin begins exactly when the year is not four or five years before a break |
| Utils.IsValidDate | utils.go:20-28 | agrees with the calendar's validity of the date (a year of the table, a month 1..12, a day within the month) except on 30 Esfand of a year four or five years before a break |
| Utils.ValidDateConverts | utils.go:20-28 | an accepted date converts to a valid Gregorian date |
| Utils.Years4And5Misreported | utils.go:20-53 | year 4 has 366 days, yet `IsLeapYear(4)` is false, its Esfand has 29 days and 30 Esfand 4 is rejected; year 5 has 365 days, yet it is reported leap and 30 Esfand 5 is accepted |
| Utils.LeapFixtures | jalaali_test.go:86-89 | 1395 is leap; 1393, 1394 and 1396 are not |
| Utils.MonthLengthFixtures | jalaali_test.go:110-117 | the month lengths the tests expect for 1393, 1394 and 1395 |
| Utils.ValidDateTestTable | jalaali_test.go:54-62 | months and days just outside and just inside their ranges are rejected and accepted as the tests expect |
| Utils.ValidDateFixtures | utils.go:20-28 | the first and last years of the table, and 30 Esfand in a common and in a leap year |
| Names.MonthString | jalaali.go:49-54 | a month 1..12 gets one of the month names, and any other value text starting with '%', so a caller can tell them apart by the first character. The fallback text is `%!Month(`, the value in decimal and `)`, and the number reads back as the value. |
| Names.WeekdayString | jalaali.go:73-78 | a weekday 0..6 gets one of the day names, and any other value text starting with '%'. The fallback text is `%!Weekday(`, the value in decimal and `)`, and the number reads back as the value. |
| Names.NamesDistinct | jalaali.go:42-71 | the twelve month names and the seven day names are pairwise distinct, and none starts with '%' |
| Names.UnnamedReadsBack | jalaali.go:53 | the number inside `%!Kind(n)` reads back as `n` |
| Names.MonthStringInjective | jalaali.go:49-54 | distinct months, in range or not, print differently |
| Names.WeekdayStringInjective | jalaali.go:73-78 | distinct weekdays print differently |
| Names.StringFixtures | jalaali.go:49-78 | Esfand's name, and the fallback text for 13, 0 and -1 |
| Layout.CodeRoundTrip | format.go:3-32 | every token's integer code decodes back to the token. Its `stdNeedDate` bit is set exactly for the date tokens and its `stdNeedClock` bit exactly for the others. |
| Layout.NextStdChunk | format.go:155-243 | a found token splits the layout into the prefix, the token's own text and the suffix, and the suffix is shorter. The token is what the switch finds at the first position where it finds anything, and no earlier position panics. The result is "no token" exactly when the switch finds nothing anywhere and nothing panics. A slice panic comes from the first 'M' with fewer than three bytes left. |
| Layout.ScanFrom | format.go:156-242 | the same, for the scan from any position the loop reaches |
| Layout.ScanAt | format.go:157-240 | a token found at a position splits the layout there, or one character later behind a literal '_'; a digit 1-5 always starts a token where it stands |
| Layout.ScanAtReacts | format.go:157-240 | the switch finds a token at a position exactly when the text there is a month or weekday name (the short one not followed by a lower-case letter), "01" to "06", a digit 1 to 5, "_2", "PM" or "pm", or a dot and a run of '0's or '9's followed by no digit |
| Layout.ShortNameEnds | format.go:247-253 | where "Jan" or "Mon" stands without its long form, it is a token exactly when `startsWithLowerCase` is false for the text after it |
| Layout.FractionEnds | format.go:256-262 | a dot followed by a run of '0's or '9's is a token exactly when `isDigit` is false just after the run |
| Layout.QuietScan | format.go:156-242 | text without any character the switch reacts to holds no token |
| Layout.RunEnd | format.go:226-229 | the run of the repeated fraction digit ends at the first other character or at the end |
| Layout.JanuaryIsLongMonth | format.go:158-166 | "January" is the long-month token |
| Layout.JanIsShortMonth | format.go:163-164 | "Jan 2" starts with the short-month token |
| Layout.MondayIsLongWeekday | format.go:168-172 | "Monday" is the long-weekday token |
| Layout.MonthIsNoToken | format.go:173-175 | "Month" holds no token: "Mon" followed by a lower-case letter is text |
| Layout.FifteenIsHour | format.go:183-186 | "15:04" starts with the 24-hour token |
| Layout.OneIsMonth | format.go:187 | a lone "1" is the numeric month |
| Layout.UnderscoreThenLongYear | format.go:197-199 | in "x_2006" the '_' is literal text before the long year |
| Layout.UnderscoreTwoIsDay | format.go:195-201 | "_2" is the space-padded day |
| Layout.ZerosAreFraction | format.go:223-237 | ".000Z" starts with a three-digit fraction that keeps zeros |
| Layout.NinesAreTrimmedFraction | format.go:223-237 | ".99" is a two-digit fraction that drops zeros |
| Layout.FractionMustEndDigits | format.go:230-231 | in ".0001" the run of zeros is followed by a digit, so it is no fraction, and the scan finds "01" later |
| Layout.TrailingMPanics | format.go:169 | "xM" panics: the 'M' case slices three bytes without a length check |
| Layout.MBeforeTwoByteLetter | format.go:169 | an 'M' followed by a two-byte letter has three bytes left, so it does not panic |
| Format.AppendInt | format.go:267-292 | the output is the input followed by '-' exactly for a negative number, then digits that read back as the magnitude, zero-padded to the width |
| Format.AppendIntWidth | format.go:286-289 | the digits are never fewer than the width, and padding is added only below it |
| Format.AppendIntInjective | format.go:267-292 | distinct numbers give distinct text at any width |
| Format.NanoBuffer | format.go:297-303 | the nine-digit buffer reads back as the nanoseconds modulo 10^9 |
| Format.FormatNano | format.go:296-318 | without trimming: '.' then `n` (at most 9) digits, the leading digits of the nanoseconds. With trimming: nothing, or '.' followed by digits ending in a non-zero one. |
| Format.Render | format.go:88-148 | the text of one token is appended to the buffer, which is kept unchanged in front |
| Format.TrimDropsZeros | format.go:308-315 | trimming only drops trailing zeros: the untrimmed text is the trimmed text plus zero digits, or all zeros when nothing is written |
| Format.Hour12Of | format.go:118-124 | the 12-hour clock shows a value in 1..12 congruent to the hour modulo 12 |
| Format.ClockFaceRecoversHour | format.go:118-145 | the 12-hour value together with the half of the day determines the hour |
| Format.RenderReads | format.go:88-148 | a token reads only the half (date or clock) its code says it needs |
| Format.UnderDaySpacePadded | format.go:109-113 | "_2" writes a space in front exactly when the day is below 10, then digits that read back as the day; days 0 to 99 take two characters |
| Format.TwinTokens | format.go:97-145 | tokens that share a case write the same text: "Jan" and "January" the full month name, "Mon" and "Monday" the same weekday name, "pm" and "PM" the same marker; "03" writes the 12-hour value of "3" in two digits |
| Format.NumericTokenReadsBack | format.go:89-139 | the digits a numeric token writes read back as its field, padded to its width |
| Format.ShortYear | format.go:89-93 | "06" writes two digits: the year's magnitude modulo 100 |
| Format.TwelveHourClockRecoversHour | format.go:118-145 | equal "3" and "PM" text means the same hour |
| Format.MarkerReadsBack | format.go:140-145 | the AM/PM marker tells which half of the day the hour is in |
| Format.WeekdayFollowsGo | format.go:104-106 | the weekday names follow Go's numbering shifted by one, so Go's Saturday (6) is Shanbe and Friday (5) is Jome |
| Format.AppendFormat | format.go:54-151 | the output always extends the buffer; an error is always `ToJalaali`'s |
| Format.DateFor | format.go:74-80 | only a fresh conversion can fail, and then with `ToJalaali`'s error; while the cache holds nothing false, a token that needs the date or finds one cached sees the true Jalaali date |
| Format.ClockFor | format.go:83-85 | the date half is untouched, a truthful cache stays truthful, and a token that needs the clock or finds one cached sees the moment's clock |
| Format.LazyIsEager | format.go:54-151 | when the date converts, the lazily cached fields give the same outcome as rendering every token from the full Jalaali date and clock, panic included |
| Format.JFormat | format.go:39-50 | an error is always `ToJalaali`'s |
| Format.JFormatIsExpand | format.go:39-50 | `JFormat` is the full-field rendering of the layout from an empty buffer |
| Format.ClockOnlyLayout | format.go:74-81 | a layout without date tokens never converts the date: the Gregorian date does not matter and no error is reported |
| Format.DateErrorSurfaces | format.go:75-81 | when the date does not convert and the layout needs it, formatting panics or reports the conversion's error |
| Format.DateErrorText | format.go:54-86 | when the date does not convert, the text returned beside the error is exact. It is the buffer, then the literal text and clock tokens before the first date token, then the text in front of that token. If the scanner panics first, the result is a panic. |
| Format.JFormatDateError | format.go:39-86 | the same for `JFormat`, from an empty buffer |
| Format.FormatsIsoDate | format.go:39-151 | 4 August 2014 in the layout "2006-01-02" is "۱۳۹۳-۰۵-۱۳" with no error |
| Legacy.LegacyJalCal | jalaali/jalaali.go:118-159 | fails with "Wrong Jalaali year" and zeros exactly outside the table. Otherwise the Gregorian year stays 0, and the indicator is the root package's as-written one. |
| Legacy.LegacyMarchLate | jalaali/jalaali.go:143-147 | the reported day of March exceeds the root's by the number of Gregorian leap years through `jy + 621` |
| Legacy.LegacyG2D | jalaali/jalaali.go:161-168 | the legacy `g2d` equals the root `g2d` on every input |
| Legacy.LegacyD2G | jalaali/jalaali.go:170-180 | the legacy `d2g` equals the root `d2g` on every input |
| Legacy.LegacyIsLeap | jalaali/jalaali.go:71-74 | fails exactly outside the table, with `true` beside the error; otherwise leap exactly when the as-written indicator is 0 |
| Legacy.LegacyMonthLength | jalaali/jalaali.go:55-69 | gives the root `MonthLength`'s length for every year and month, and fails exactly when the root one fails, with the legacy error. Esfand has 30 or 29 days by the as-written indicator. |
| Legacy.LegacyIsValidDate | jalaali/jalaali.go:47-53 | rejects every date |
| Legacy.LegacyRejectsValidDate | jalaali/jalaali.go:47-53 | 1 Farvardin 1393 is valid for the root package and rejected by the legacy one |
| Legacy.LegacyJ2D | jalaali/jalaali.go:76-82 | fails exactly outside the table; otherwise it counts from Gregorian year 0 with the inflated day of March |
| Legacy.LegacyToGregorian | jalaali/jalaali.go:37-45 | fails with a zero date exactly outside the table |
| Legacy.LegacyToGregorianYear | jalaali/jalaali.go:37-45 | every valid Jalaali date converts without error into a Gregorian year between 0 and 3, before the root package's year |
| Legacy.TrueYear | convertion.go:19-27 | the root package puts a valid Jalaali year `jy` into Gregorian year `jy + 621` or `jy + 622` |
| Legacy.LegacyD2JFromCal | jalaali/jalaali.go:84-116 | with the same `jalCal` values, the legacy decoding step agrees with the root's except before 1 Farvardin when the indicator is 1, that is after a leap year. There it gives the root's date for two days earlier. |
| Legacy.LegacyMissesEsfand30 | jalaali/jalaali.go:105-111 | for the decoding step on its own, given the same `jalCal` values with indicator 1, the day before 1 Farvardin is 30 Esfand for the root step and 28 Esfand for the legacy one |
| Legacy.LegacyD2J | jalaali/jalaali.go:84-116 | fails exactly when `d2g`'s year less 621 is outside the table. The named results keep that year beside a zero month and day. |
| Legacy.LegacyToJalaali | jalaali/jalaali.go:32-35 | fails exactly when the root `ToJalaali` fails |
| Legacy.LegacyExample2014 | jalaali/jalaali.go:32-35 | 4 August 2014 is 13 Mordad 1393 for the root package; the legacy one returns (1392, 2, -22) with no error |

## Left out

- The `Jalaali` struct wrapping `time.Time`, `From` and `Now` (jalaali.go:10-22) are left out: reading the clock is I/O. The formatter instead takes a `Moment`, the fields of `time.Time` it reads: the Gregorian date, the clock, the nanosecond and Go's weekday.
- The legacy `Jalaali` struct and `New` (jalaali/jalaali.go:25-30) are empty and do nothing.
- `enToFa` (utils.go:5-16) is a digit replacer that no modelled function uses.
- The `Error()` message texts of errors.go are left out. The errors are modelled as values carrying the year. `ErrorNilReference` is never produced by the core.
- Go strings are byte sequences; the layout is modelled as a sequence of characters. Every character the scanner compares against is ASCII, and every byte of a multi-byte UTF-8 sequence is 0x80 or above, so the comparisons agree. The byte length that decides the 'M' slice panic is computed explicitly by `Layout.Utf8Length`.
- Format.AppendInt, Conversion.J2D, JulianDay.D2GRoundTrip: Go's `int` is 64 bits wide and the model's integers are unbounded. Day numbers and years large enough to overflow are not modelled. `appendInt` of the most negative `int` is also not modelled; Go handles it through `uint` wrap-around.
- JulianDay.G2DRoundTrip, JulianDay.D2GRoundTrip: proved only from Julian Day -34839655 (1 March of year -100100) on. Below it, Go's truncating division stops agreeing with floor division and the two formulas no longer invert each other.
- Conversion.J2DThenD2J, Conversion.ToGregorianThenToJalaali: the round trip fails for the dates of Jalaali 3177 that fall in Gregorian 3799. `d2j` looks up year 3178 for them, which is outside the table. The lemmas state that failure instead of the round trip.
- Format.FormatNano: with trimming, the contract states only the shape of the text. Its value is tied to the untrimmed text by Format.TrimDropsZeros.
- Format.AppendFormat, Format.JFormat: on their own, the contracts state only the buffer prefix and where errors come from. Format.LazyIsEager and Format.JFormatIsExpand give the text when the date converts. Format.DateErrorText and Format.JFormatDateError give the text returned beside a conversion error. Format.ClockOnlyLayout covers layouts without date tokens.
- Format.Render: the contract states only that the buffer is kept in front. What each token writes is stated by Format.NumericTokenReadsBack, Format.UnderDaySpacePadded, Format.ShortYear, Format.MarkerReadsBack, Format.TwelveHourClockRecoversHour, Format.WeekdayFollowsGo, Format.FormatNano and, for the tokens that share a case with another, Format.TwinTokens.
- The capacity of the buffer `JFormat` allocates is left out. The computed `bufSize` is never used, but capacity has no effect on the result.
- jalaali_test.go also calls `FromYMD` (lines 9-20) and takes two results from `IsValidDate` (line 65). Neither matches the library: no `FromYMD` exists and `IsValidDate` returns one boolean. Only the fixed dates of those tests are modelled.

## Findings

| source | as written | input that shows it | evidently intended | confidence | as-written member | corrected member |
|---|---|---|---|---|---|---|
| convertion.go:105-107 | `n -= jump + div(jump+4, 33)*33` subtracts the whole-cycle shift instead of adding it. Near the end of an interval the leap indicator then takes the values -3 and -2, and leap years are misreported. | Jalaali year 4 has 366 days (its 1 Farvardin is 21 March 625, the next is 22 March 626), yet `jalCal(4)` reports indicator 4 (not leap) and `jalCal(5)` reports 0. So `IsLeapYear(4)` is false, and `d2j` turns 1 January 626, which `j2d` computes for 11 Dey 4, into 10 Dey 4. | `n = n - jump + div(jump+4, 33)*33`: count from the end of the interval, shifted forward by whole 33-year cycles | not executed | BreakTable.JalCalAsWritten, BreakTable.AsWrittenMissesLeapYear, BreakTable.AsWrittenLeapTest, Conversion.AsWrittenDecodesYear4, Utils.Years4And5Misreported | BreakTable.JalCal, BreakTable.LeapYearGainsDay, Conversion.J2DThenD2JCorrected, Conversion.D2JThenJ2DCorrected |
| jalaali/jalaali.go:118-159 | the named result `gy` is never assigned. `leapG` (line 144) is computed for year 0, the day of March is too large by hundreds of days, and `j2d` counts from Gregorian year 0. | `toGregorian(1393, 5, 13)` gives a date in Gregorian year 0..3 instead of 4 August 2014. `toJalaali(2014, 8, 4)` gives (1392, 2, -22) with no error. | `gy = jy + 621`, as in convertion.go:72 | not executed | Legacy.LegacyToGregorianYear, Legacy.LegacyExample2014 | Conversion.ToGregorianThenToJalaali, Conversion.Example2014 |
| jalaali/jalaali.go:47-53 | `err != nil &&` accepts a date only when the month-length lookup fails, and then the length is 0, so no date is valid | `isValidJalaaliDate(1393, 1, 1)` is false | `err == nil`, as in utils.go:21-24 | not executed | Legacy.LegacyIsValidDate, Legacy.LegacyRejectsValidDate | Utils.IsValidDate, Utils.ValidDateConverts |
| jalaali/jalaali.go:109-111 | before 1 Farvardin after a leap year, `k--` steps back one day where it should step forward | the decoding step on its own, given `jalCal` values with indicator 1 (as for 1396, after the leap year 1395): the day before that 1 Farvardin decodes to 28 Esfand instead of 30 Esfand. Through the legacy `d2j` this exact day is not reached, because its late `march` sends it to the next year's `jalCal`; what is reached is that every day taking the `k < 0` branch with indicator 1 decodes two days early against the root step | `k++`, as in convertion.go:62-64 | not executed | Legacy.LegacyMissesEsfand30, Legacy.LegacyD2JFromCal | Conversion.D2JThenJ2DCorrected, Conversion.J2DThenD2JCorrected |
