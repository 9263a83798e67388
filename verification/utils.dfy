/**
 * The query helpers of utils.go: whether a Jalaali year is leap, how long a
 * month is, and whether a (year, month, day) triple is a date of the table.
 */
module Utils {
  import opened Errors
  import opened BreakTable
  import opened JulianDay
  import opened Conversion

  /**
   * `IsLeapYear` of utils.go:50-53: leap when `jalCal` reports the indicator
   * 0. On an invalid year `jalCal` returns the indicator 0 beside its error,
   * so the boolean that comes with the error is `true`. Through the sign
   * slip of `jalCal` the answer is wrong exactly four and five years before
   * a break of the table.
   */
  function IsLeapYear(jy: int): (r: Fallible<bool>)
    ensures r.Failed() <==> !InTable(jy)
    ensures r.Failed() ==> r == Fallible(true, Some(ErrorInvalidYear(jy)))
    ensures InTable(jy) ==> (r.value == IsJalaaliLeap(jy) <==> YearsToBreak(jy) != 4 && YearsToBreak(jy) != 5)
  {
    var c := JalCalAsWritten(jy);
    if InTable(jy) then
      AsWrittenLeapTest(jy);
      Fallible(c.value.leap == 0, c.err)
    else
      Fallible(c.value.leap == 0, c.err)
  }

  /**
   * What `IsLeapYear` tells about the length of the year: it answers "leap"
   * exactly for the years of 366 days, from one 1 Farvardin to the next,
   * unless the year lies four or five years before a break.
   */
  lemma LeapYearIsLong(jy: int)
    requires InTable(jy) && InTable(jy + 1)
    ensures IsLeapYear(jy).err == None
    ensures FarvardinFirst(jy + 1) - FarvardinFirst(jy) == if IsJalaaliLeap(jy) then 366 else 365
    ensures (IsLeapYear(jy).value <==> FarvardinFirst(jy + 1) - FarvardinFirst(jy) == 366)
            <==> YearsToBreak(jy) != 4 && YearsToBreak(jy) != 5
  {
    FarvardinYearLength(jy);
  }

  /**
   * `MonthLength` of utils.go:33-46: the first six months have 31 days and
   * the next five 30, whatever the year; only Esfand asks `IsLeapYear`, and
   * only there can an invalid year fail. Months outside 1..12 are not
   * rejected: those below 7 count as 31 days, those above 11 as Esfand.
   * Each of the first eleven months ends where the next one begins; Esfand
   * has its true length unless the year lies four or five years before a
   * break.
   */
  function MonthLength(jy: int, jm: int): (r: Fallible<int>)
    ensures r.Failed() <==> 12 <= jm && !InTable(jy)
    ensures r.Failed() ==> r == Fallible(0, Some(ErrorInvalidYear(jy)))
    ensures InTable(jy) && 1 <= jm <= 12 ==>
              (r == Fallible(JalaaliMonthDays(jy, jm), None) <==> jm < 12 || (YearsToBreak(jy) != 4 && YearsToBreak(jy) != 5))
    ensures 1 <= jm < 12 ==> DayOfJalaaliYear(jm, 1) + r.value == DayOfJalaaliYear(jm + 1, 1)
    ensures jm <= 6 ==> r == Fallible(31, None)
    ensures 7 <= jm <= 11 ==> r == Fallible(30, None)
    ensures 12 <= jm && InTable(jy) ==> r == Fallible(if IsLeapYear(jy).value then 30 else 29, None)
  {
    if jm <= 6 then Fallible(31, None)
    else if jm <= 11 then Fallible(30, None)
    else
      var leap := IsLeapYear(jy);
      if leap.Failed() then Fallible(0, leap.err)
      else if leap.value then Fallible(30, None)
      else Fallible(29, None)
  }

  /** Esfand, as `MonthLength` counts it, ends where the next year's 1 Farvardin begins, except four and five years before a break. */
  lemma EsfandEndsYear(jy: int)
    requires InTable(jy) && InTable(jy + 1)
    ensures FarvardinFirst(jy) + DayOfJalaaliYear(12, 1) + MonthLength(jy, 12).value == FarvardinFirst(jy + 1)
            <==> YearsToBreak(jy) != 4 && YearsToBreak(jy) != 5
  {
    FarvardinYearLength(jy);
  }

  /**
   * `IsValidDate` of utils.go:20-29: a failing `MonthLength` makes the date
   * invalid rather than raising the error; otherwise the year must lie in
   * the table and the month and day in range. It agrees with the calendar
   * except on Esfand 30 four and five years before a break.
   */
  function IsValidDate(jy: int, jm: int, jd: int): (r: bool)
    ensures r != ValidJalaali(Date(jy, jm, jd))
            <==> jm == 12 && jd == 30 && InTable(jy) && (YearsToBreak(jy) == 4 || YearsToBreak(jy) == 5)
  {
    var d := MonthLength(jy, jm);
    if d.Failed() then false
    else -61 <= jy <= 3177 && 1 <= jm <= 12 && 1 <= jd <= d.value
  }

  /** A date `IsValidDate` accepts converts to a valid Gregorian date. */
  lemma ValidDateConverts(jy: int, jm: int, jd: int)
    requires IsValidDate(jy, jm, jd)
    ensures !ToGregorian(jy, jm, jd).Failed()
    ensures ValidGregorian(ToGregorian(jy, jm, jd).value)
  {
    MarchBounds(jy);
    MarchZeroNonNegative(jy + 621);
    D2GRoundTrip(J2D(jy, jm, jd).value);
  }

  /**
   * The sign slip seen through utils.go: year 4 has 366 days, yet
   * `IsLeapYear` calls it common, `MonthLength` gives its Esfand 29 days and
   * `IsValidDate` rejects its Esfand 30; year 5 has 365 days and is called
   * leap.
   */
  lemma Years4And5Misreported()
    ensures FarvardinFirst(5) - FarvardinFirst(4) == 366 && IsLeapYear(4) == Fallible(false, None)
    ensures FarvardinFirst(6) - FarvardinFirst(5) == 365 && IsLeapYear(5) == Fallible(true, None)
    ensures MonthLength(4, 12) == Fallible(29, None) && MonthLength(5, 12) == Fallible(30, None)
    ensures ValidJalaali(Date(4, 12, 30)) && !IsValidDate(4, 12, 30)
    ensures !ValidJalaali(Date(5, 12, 30)) && IsValidDate(5, 12, 30)
  {
    AsWrittenMissesLeapYear(4);
    FarvardinYearLength(4);
    FarvardinYearLength(5);
  }

  // Fixed points of the repository's tests (jalaali_test.go:50-63, 86-89, 110-117).

  lemma LeapFixtures()
    ensures IsLeapYear(1393) == Fallible(false, None)
    ensures IsLeapYear(1394) == Fallible(false, None)
    ensures IsLeapYear(1395) == Fallible(true, None)
    ensures IsLeapYear(1396) == Fallible(false, None)
  {
    Year1393();
    Year1394();
    Year1395();
    Year1396();
    LeapFixtureDistances();
  }

  /** 1393 through 1396 lie more than five years before the break of 1635. */
  lemma LeapFixtureDistances()
    ensures YearsToBreak(1393) == 242 && YearsToBreak(1394) == 241
    ensures YearsToBreak(1395) == 240 && YearsToBreak(1396) == 239
  {
    YearsToBreakAt(1393, 11);
    YearsToBreakAt(1394, 11);
    YearsToBreakAt(1395, 11);
    YearsToBreakAt(1396, 11);
  }

  lemma MonthLengthFixtures()
    ensures MonthLength(1393, 1) == MonthLength(1393, 4) == MonthLength(1393, 6) == Fallible(31, None)
    ensures MonthLength(1393, 7) == MonthLength(1393, 10) == Fallible(30, None)
    ensures MonthLength(1393, 12) == MonthLength(1394, 12) == Fallible(29, None)
    ensures MonthLength(1395, 12) == Fallible(30, None)
  {
    LeapFixtures();
  }

  /** The table of jalaali_test.go:54-62: months and days just outside and just inside their ranges. */
  lemma ValidDateTestTable()
    ensures !IsValidDate(1393, 0, 1) && !IsValidDate(1393, 13, 1)
    ensures !IsValidDate(1393, 1, 0) && !IsValidDate(1393, 1, 32) && IsValidDate(1393, 1, 31)
    ensures !IsValidDate(1393, 11, 31) && IsValidDate(1393, 11, 30)
    ensures !IsValidDate(1393, 12, 30) && IsValidDate(1393, 12, 29)
  {
    LeapFixtures();
  }

  /** The first and last years of the table, and Esfand 30 in a common and in a leap year. */
  lemma ValidDateFixtures()
    ensures !IsValidDate(-62, 12, 29) && IsValidDate(-61, 1, 1)
    ensures !IsValidDate(3178, 1, 1) && IsValidDate(3177, 12, 29)
    ensures !IsValidDate(1393, 12, 30) && IsValidDate(1393, 12, 29) && IsValidDate(1395, 12, 30)
  {
    LastTableYear();
    LeapFixtures();
  }
}
