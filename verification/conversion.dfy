/**
 * Conversion between Jalaali dates and Julian Day Numbers, and from there
 * to and from Gregorian dates (convertion.go:10-69).
 *
 * A Jalaali year starts on 1 Farvardin, which falls on day `March(jy)` of
 * March in Gregorian year `jy + 621`. Its first six months have 31 days,
 * the next five 30, and Esfand 29, or 30 in a leap year.
 */
module Conversion {
  import opened GoInt
  import opened Errors
  import opened BreakTable
  import opened JulianDay

  // ---------------------------------------------------------------------
  // The Jalaali calendar, stated independently of the conversion code.

  /** The Julian Day Number of 1 Farvardin of `jy`. */
  function FarvardinFirst(jy: int): int
    requires InTable(jy)
  {
    MarchZero(jy + 621) + March(jy)
  }

  predicate IsJalaaliLeap(jy: int)
    requires InTable(jy)
  {
    JalCal(jy).value.leap == 0
  }

  function JalaaliYearLength(jy: int): int
    requires InTable(jy)
  {
    if IsJalaaliLeap(jy) then 366 else 365
  }

  function JalaaliMonthDays(jy: int, jm: int): int
    requires InTable(jy) && 1 <= jm <= 12
  {
    if jm <= 6 then 31
    else if jm <= 11 then 30
    else if IsJalaaliLeap(jy) then 30
    else 29
  }

  /** A date of the Jalaali calendar inside the years the break table covers. */
  predicate ValidJalaali(d: Date) {
    InTable(d.year) && 1 <= d.month <= 12 && 1 <= d.day <= JalaaliMonthDays(d.year, d.month)
  }

  /**
   * Whether a Jalaali date falls on or after 1 January, in Gregorian year
   * `d.year + 622` rather than the year `d.year + 621` in which it starts.
   */
  predicate InNextGregorianYear(d: Date)
    requires InTable(d.year)
  {
    March(d.year) + DayOfJalaaliYear(d.month, d.day) > MonthOffset(10)
  }

  /** Days from 1 Farvardin to the given month and day. */
  function DayOfJalaaliYear(jm: int, jd: int): int {
    if jm <= 6 then 31 * (jm - 1) + jd - 1 else 186 + 30 * (jm - 7) + jd - 1
  }

  // ---------------------------------------------------------------------
  // Where 1 Farvardin falls.

  /** `leapG` of `jalCal` counts the Gregorian leap years up to `gy`, less 150. */
  lemma {:induction false} GregorianLeapsCount(gy: int)
    requires 0 <= gy
    ensures GregorianLeaps(gy) == LeapsThrough(gy) - 150
  {
    NonNegativeAgrees(gy, 4);
    NonNegativeAgrees(gy, 100);
    var h := gy / 100;
    NonNegativeAgrees((h + 1) * 3, 4);
    assert ((h + 1) * 3) / 4 == h - h / 4;
    assert h / 4 == gy / 400;
  }

  lemma LeapsThroughRate(gy: int)
    requires 0 <= gy
    ensures 97 * gy - 699 <= 400 * LeapsThrough(gy) <= 97 * gy + 396
  {
    assert gy - 3 <= 4 * (gy / 4) <= gy;
    assert gy - 99 <= 100 * (gy / 100) <= gy;
    assert gy - 399 <= 400 * (gy / 400) <= gy;
  }

  /** Throughout the table, 1 Farvardin falls between 19 and 24 March. */
  lemma {:induction false} MarchBounds(jy: int)
    requires InTable(jy)
    ensures 19 <= March(jy) <= 24
  {
    JalaaliLeapsRate(jy);
    GregorianLeapsCount(jy + 621);
    LeapsThroughRate(jy + 621);
  }

  /** `g2d(gy, 3, march)` in `j2d` and `d2j` is the day number of 1 Farvardin. */
  lemma {:induction false} FarvardinFirstDay(jy: int)
    requires InTable(jy)
    ensures G2D(jy + 621, 3, March(jy)) == FarvardinFirst(jy)
  {
    G2DClosedForm(jy + 621, 3, March(jy));
  }

  /** From one 1 Farvardin to the next is the length of the Jalaali year. */
  lemma {:induction false} FarvardinYearLength(jy: int)
    requires InTable(jy) && InTable(jy + 1)
    ensures FarvardinFirst(jy + 1) - FarvardinFirst(jy) == JalaaliYearLength(jy)
  {
    GregorianLeapsCount(jy + 621);
    GregorianLeapsCount(jy + 622);
    LeapYearGainsDay(jy);
  }

  // ---------------------------------------------------------------------
  // The conversion code.

  /**
   * `j2d` of convertion.go:29-35: the Julian Day Number of a Jalaali date.
   * Month and day are not checked; only a year outside the table fails. It
   * uses only the Gregorian year and the day of March that `jalCal` returns,
   * which the sign slip in the leap indicator does not touch.
   */
  function J2D(jy: int, jm: int, jd: int): (r: Fallible<int>)
    ensures r.Failed() <==> !InTable(jy)
    ensures r.Failed() ==> r == Fallible(0, Some(ErrorInvalidYear(jy)))
    ensures !r.Failed() && 1 <= jm <= 12 ==> r.value == FarvardinFirst(jy) + DayOfJalaaliYear(jm, jd)
  {
    var c := JalCalAsWritten(jy);
    if c.Failed() then Fallible(0, c.err)
    else
      FarvardinFirstDay(jy);
      MonthDays(jm);
      Fallible(G2D(c.value.gy, 3, c.value.march) + (jm - 1) * 31 - GoDiv(jm, 7) * (jm - 7) + jd - 1, None)
  }

  /** `j2d` of a date in the table is 1 Farvardin plus the day of the year. */
  lemma J2DValue(jy: int, jm: int, jd: int, n: int)
    requires InTable(jy) && 1 <= jm <= 12 && n == FarvardinFirst(jy) + DayOfJalaaliYear(jm, jd)
    ensures J2D(jy, jm, jd) == Fallible(n, None)
  {
    var r := J2D(jy, jm, jd);
    assert !r.Failed() && r.value == n;
  }

  /** The month term of `j2d`: whole months before `jm`, 31 days each for the first six and 30 after. */
  lemma MonthDays(jm: int)
    ensures 1 <= jm <= 12 ==> (jm - 1) * 31 - GoDiv(jm, 7) * (jm - 7) == DayOfJalaaliYear(jm, 1)
  {
    if 1 <= jm <= 6 {
      assert GoDiv(jm, 7) == 0;
    } else if 7 <= jm <= 12 {
      assert GoDiv(jm, 7) == 1;
    }
  }

  /**
   * `d2j` of convertion.go:37-69 as written: the Jalaali date of a Julian
   * Day Number. It takes the Gregorian year of the day and goes on in
   * `D2JFromYear`.
   */
  function D2J(jdn: int): (r: Fallible<Date>)
    ensures r.Failed() <==> !InTable(D2G(jdn).year - 621)
    ensures r.Failed() ==> r == Fallible(Date(0, 0, 0), Some(ErrorInvalidYear(D2G(jdn).year - 621)))
  {
    D2JFromYear(jdn, D2G(jdn).year)
  }

  /**
   * The rest of `d2j` (convertion.go:39-68), given the Gregorian year `gy`
   * of the day: it asks `jalCal`, as written, about the Jalaali year that
   * starts in `gy` and carries on in `D2JFromCal`.
   */
  function D2JFromYear(jdn: int, gy: int): (r: Fallible<Date>)
    ensures r.Failed() <==> !InTable(gy - 621)
    ensures r.Failed() ==> r == Fallible(Date(0, 0, 0), Some(ErrorInvalidYear(gy - 621)))
  {
    var c := JalCalAsWritten(gy - 621);
    if c.Failed() then Fallible(Date(0, 0, 0), c.err)
    else Fallible(D2JFromCal(jdn, gy, c.value), None)
  }

  /** `d2j` with the corrected `jalCal`: the same steps, with the leap indicator of `JalCal`. */
  function D2JCorrected(jdn: int): (r: Fallible<Date>)
    ensures r.Failed() <==> !InTable(D2G(jdn).year - 621)
    ensures r.Failed() ==> r == Fallible(Date(0, 0, 0), Some(ErrorInvalidYear(D2G(jdn).year - 621)))
  {
    D2JCorrectedFromYear(jdn, D2G(jdn).year)
  }

  function D2JCorrectedFromYear(jdn: int, gy: int): (r: Fallible<Date>)
    ensures r.Failed() <==> !InTable(gy - 621)
    ensures r.Failed() ==> r == Fallible(Date(0, 0, 0), Some(ErrorInvalidYear(gy - 621)))
  {
    var c := JalCal(gy - 621);
    if c.Failed() then Fallible(Date(0, 0, 0), c.err)
    else Fallible(D2JFromCal(jdn, gy, c.value), None)
  }

  /**
   * convertion.go:41-68 once `jalCal` has succeeded: the day is counted
   * from 1 Farvardin of `jy = gy - 621`; a day before it belongs to the last
   * six months of the year before. Like the Go code it tests `leap == 1` on
   * the later year, which with the corrected indicator is the same as the
   * earlier year being leap.
   */
  function D2JFromCal(jdn: int, gy: int, c: CalInfo): Date {
    var jy := gy - 621;
    var jdn1f := G2D(gy, 3, c.march);
    var k := jdn - jdn1f;
    if k >= 0 && k <= 185 then
      Date(jy, 1 + GoDiv(k, 31), GoMod(k, 31) + 1)
    else
      var y := if k >= 0 then jy else jy - 1;
      var k' := if k >= 0 then k - 186 else k + 179 + (if c.leap == 1 then 1 else 0);
      Date(y, 7 + GoDiv(k', 30), GoMod(k', 30) + 1)
  }

  /**
   * `ToJalaali` of convertion.go:12-15. On a valid Gregorian date it fails
   * exactly when the Jalaali year starting in that Gregorian year, `gy - 621`,
   * lies outside the table.
   */
  function ToJalaali(gy: int, gm: int, gd: int): (r: Fallible<Date>)
    ensures ValidGregorian(Date(gy, gm, gd)) && -100100 <= MarchYear(gy, gm) ==>
              (r.Failed() <==> !InTable(gy - 621))
    ensures ValidGregorian(Date(gy, gm, gd)) && -100100 <= MarchYear(gy, gm) && r.Failed() ==>
              r == Fallible(Date(0, 0, 0), Some(ErrorInvalidYear(gy - 621)))
  {
    RoundTripWhenValid(Date(gy, gm, gd));
    D2J(G2D(gy, gm, gd))
  }

  /** `G2DRoundTrip` stated for every date, as a promise about the valid ones. */
  lemma RoundTripWhenValid(g: Date)
    ensures ValidGregorian(g) && -100100 <= MarchYear(g.year, g.month) ==>
              InCodecRange(G2D(g.year, g.month, g.day)) && D2G(G2D(g.year, g.month, g.day)) == g
  {
    if ValidGregorian(g) && -100100 <= MarchYear(g.year, g.month) {
      G2DRoundTrip(g);
    }
  }

  /** `ToGregorian` of convertion.go:19-27: on error all three fields are zero. */
  function ToGregorian(jy: int, jm: int, jd: int): (r: Fallible<Date>)
    ensures r.Failed() <==> !InTable(jy)
    ensures r.Failed() ==> r == Fallible(Date(0, 0, 0), Some(ErrorInvalidYear(jy)))
  {
    var x := J2D(jy, jm, jd);
    if x.Failed() then Fallible(Date(0, 0, 0), x.err)
    else Fallible(D2G(x.value), None)
  }

  // ---------------------------------------------------------------------
  // Round trips.

  /** How `d2j` reads a day of the Jalaali year back into month and day. */
  lemma DayOfYearDecodes(jm: int, jd: int)
    requires 1 <= jm <= 12 && 1 <= jd && (jm <= 6 ==> jd <= 31) && (jm > 6 ==> jd <= 30)
    ensures DayOfJalaaliYear(jm, jd) <= 185 <==> jm <= 6
    ensures jm <= 6 ==> 1 + GoDiv(DayOfJalaaliYear(jm, jd), 31) == jm && GoMod(DayOfJalaaliYear(jm, jd), 31) + 1 == jd
    ensures jm > 6 ==> 7 + GoDiv(DayOfJalaaliYear(jm, jd) - 186, 30) == jm && GoMod(DayOfJalaaliYear(jm, jd) - 186, 30) + 1 == jd
  {
    var off := DayOfJalaaliYear(jm, jd);
    if jm <= 6 {
      NonNegativeAgrees(off, 31);
    } else {
      NonNegativeAgrees(off - 186, 30);
    }
  }

  /** Day `k` of the first six months, read back `d2j`-style, is a valid date that counts back to `k`. */
  lemma FirstHalfEncodes(jy: int, k: int)
    requires InTable(jy) && 0 <= k <= 185
    ensures var d := Date(jy, 1 + GoDiv(k, 31), GoMod(k, 31) + 1);
            ValidJalaali(d) && DayOfJalaaliYear(d.month, d.day) == k
  {
    NonNegativeAgrees(k, 31);
  }

  /** Day `k = 186 + b` of the last six months, read back `d2j`-style, is a valid date that counts back to `k`. */
  lemma SecondHalfEncodes(jy: int, k: int, b: int)
    requires InTable(jy) && 186 <= k < JalaaliYearLength(jy) && b == k - 186
    ensures var d := Date(jy, 7 + GoDiv(b, 30), GoMod(b, 30) + 1);
            ValidJalaali(d) && DayOfJalaaliYear(d.month, d.day) == k
  {
    NonNegativeAgrees(b, 30);
  }

  lemma MarchZeroNonNegative(gy: int)
    requires 0 <= gy
    ensures 1721119 <= MarchZero(gy)
  {
    assert gy / 100 <= gy / 4;
  }

  /** A valid date is a day of its year, and its month and day are in the ranges `d2j` produces. */
  lemma ValidDayOfYear(d: Date)
    requires ValidJalaali(d)
    ensures 0 <= DayOfJalaaliYear(d.month, d.day) < JalaaliYearLength(d.year)
    ensures 1 <= d.day && (d.month <= 6 ==> d.day <= 31) && (d.month > 6 ==> d.day <= 30)
  {
  }

  /** The 1 January on or before day `off` of Jalaali year `jy`, which is day `n`. */
  lemma {:induction false} FarvardinDayBracket(jy: int, off: int, n: int, g: int)
    requires InTable(jy) && 0 <= off < JalaaliYearLength(jy)
    requires n == FarvardinFirst(jy) + off
    requires g == if March(jy) + off > MonthOffset(10) then jy + 622 else jy + 621
    ensures InCodecRange(n)
    ensures NewYearDay(g) <= n < NewYearDay(g + 1)
  {
    MarchBounds(jy);
    MarchZeroNonNegative(jy + 621);
    MarchYearLength(jy + 620);
    MarchYearLength(jy + 621);
  }

  /**
   * Day `off` of Jalaali year `jy` falls in Gregorian year `jy + 621` until
   * 31 December and in the year after from 1 January on.
   */
  lemma {:induction false} GregorianYearOfDay(jy: int, off: int, n: int)
    requires InTable(jy) && 0 <= off < JalaaliYearLength(jy)
    requires n == FarvardinFirst(jy) + off
    ensures InCodecRange(n)
    ensures D2G(n).year == if March(jy) + off > MonthOffset(10) then jy + 622 else jy + 621
  {
    var g := if March(jy) + off > MonthOffset(10) then jy + 622 else jy + 621;
    FarvardinDayBracket(jy, off, n, g);
    D2GYear(n, g);
  }

  /** `d2j` once `jalCal` has succeeded on `jy = gy - 621`, as written and corrected. */
  lemma D2JFromYearSucceeds(jdn: int, gy: int, jy: int)
    requires InTable(jy) && gy == jy + 621
    ensures D2JFromYear(jdn, gy) == Fallible(D2JFromCal(jdn, gy, JalCalAsWritten(jy).value), None)
    ensures D2JCorrectedFromYear(jdn, gy) == Fallible(D2JFromCal(jdn, gy, JalCal(jy).value), None)
  {
    assert gy - 621 == jy;
  }

  // What `D2JFromCal` returns in each of its three branches, with the day
  // counted from a given 1 Farvardin `f`.

  lemma DecodeFirstHalf(jdn: int, gy: int, jy: int, c: CalInfo, f: int, k: int)
    requires G2D(gy, 3, c.march) == f && jy == gy - 621
    requires k == jdn - f && 0 <= k <= 185
    ensures D2JFromCal(jdn, gy, c) == Date(jy, 1 + GoDiv(k, 31), GoMod(k, 31) + 1)
  {
  }

  lemma DecodeSecondHalf(jdn: int, gy: int, jy: int, c: CalInfo, f: int, b: int)
    requires G2D(gy, 3, c.march) == f && jy == gy - 621
    requires b == jdn - f - 186 && 0 <= b
    ensures D2JFromCal(jdn, gy, c) == Date(jy, 7 + GoDiv(b, 30), GoMod(b, 30) + 1)
  {
  }

  lemma DecodeBack(jdn: int, gy: int, prev: int, c: CalInfo, f: int, b: int)
    requires G2D(gy, 3, c.march) == f && prev == gy - 622
    requires jdn - f < 0 && b == jdn - f + 179 + (if c.leap == 1 then 1 else 0)
    ensures D2JFromCal(jdn, gy, c) == Date(prev, 7 + GoDiv(b, 30), GoMod(b, 30) + 1)
  {
  }

  /**
   * Before 1 Farvardin, a `jalCal` result that fails the `leap == 1` test
   * reads each day as one that passes it reads the day before.
   */
  lemma DecodeShifted(jdn: int, gy: int, ca: CalInfo, cc: CalInfo)
    requires ca.march == cc.march && ca.leap != 1 && cc.leap == 1
    requires jdn < G2D(gy, 3, ca.march)
    ensures D2JFromCal(jdn, gy, ca) == D2JFromCal(jdn - 1, gy, cc)
  {
  }

  /** A valid month and day, counted from a 1 Farvardin in the same Gregorian year, decode to themselves. */
  lemma {:induction false} DecodeInYear(d: Date, gy: int, c: CalInfo, f: int, n: int)
    requires 1 <= d.month <= 12 && 1 <= d.day && (d.month <= 6 ==> d.day <= 31) && (d.month > 6 ==> d.day <= 30)
    requires gy == d.year + 621 && G2D(gy, 3, c.march) == f
    requires n == f + DayOfJalaaliYear(d.month, d.day)
    ensures D2JFromCal(n, gy, c) == d
  {
    var k := DayOfJalaaliYear(d.month, d.day);
    DayOfYearDecodes(d.month, d.day);
    if d.month <= 6 {
      DecodeFirstHalf(n, gy, d.year, c, f, k);
    } else {
      DecodeSecondHalf(n, gy, d.year, c, f, k - 186);
    }
  }

  /**
   * A day of the last months of a year, counted back from the next 1
   * Farvardin `f1`, decodes to itself when the year is 365 days long plus
   * one for a leap indicator of 1 on the next year.
   */
  lemma {:induction false} DecodeFromNextYear(d: Date, gy: int, c: CalInfo, f: int, f1: int, n: int)
    requires 7 <= d.month <= 12 && 1 <= d.day <= 30
    requires gy == d.year + 622 && G2D(gy, 3, c.march) == f1
    requires f1 - f == 365 + if c.leap == 1 then 1 else 0
    requires n == f + DayOfJalaaliYear(d.month, d.day) && n < f1
    ensures D2JFromCal(n, gy, c) == d
  {
    DayOfYearDecodes(d.month, d.day);
    DecodeBack(n, gy, d.year, c, f1, DayOfJalaaliYear(d.month, d.day) - 186);
  }

  /** Day `n` of Jalaali year `jy` that still falls in Gregorian year `jy + 621` decodes to itself, as written and corrected. */
  lemma {:induction false} DecodeSameGregorianYear(d: Date, n: int, gy: int)
    requires InTable(d.year) && 1 <= d.month <= 12 && 1 <= d.day && (d.month <= 6 ==> d.day <= 31) && (d.month > 6 ==> d.day <= 30)
    requires n == FarvardinFirst(d.year) + DayOfJalaaliYear(d.month, d.day) && gy == d.year + 621
    ensures D2JFromYear(n, gy) == Fallible(d, None)
    ensures D2JCorrectedFromYear(n, gy) == Fallible(d, None)
  {
    D2JFromYearSucceeds(n, gy, d.year);
    FarvardinFirstDay(d.year);
    DecodeInYear(d, gy, JalCal(d.year).value, FarvardinFirst(d.year), n);
    DecodeInYear(d, gy, JalCalAsWritten(d.year).value, FarvardinFirst(d.year), n);
  }

  /**
   * From one 1 Farvardin to the next, stated with the leap indicator of the
   * later year that `d2j` tests.
   */
  lemma FarvardinToNext(jy: int, next: int)
    requires InTable(jy) && InTable(next) && next == jy + 1
    ensures FarvardinFirst(next) - FarvardinFirst(jy) == 365 + if JalCal(next).value.leap == 1 then 1 else 0
    ensures FarvardinFirst(next) - FarvardinFirst(jy) == JalaaliYearLength(jy)
  {
    FarvardinYearLength(jy);
    LeapYearGainsDay(jy);
  }

  /**
   * Day `n` of Jalaali year `d.year` that falls in Gregorian year
   * `d.year + 622`, read with a `jalCal` result `c` for the next year whose
   * `leap == 1` test agrees with the corrected one.
   */
  lemma {:induction false} DecodeNextGregorianYear(d: Date, n: int, gy: int, c: CalInfo)
    requires ValidJalaali(d) && InTable(d.year + 1)
    requires March(d.year) + DayOfJalaaliYear(d.month, d.day) > MonthOffset(10)
    requires n == FarvardinFirst(d.year) + DayOfJalaaliYear(d.month, d.day) && gy == d.year + 622
    requires c.march == March(d.year + 1) && (c.leap == 1 <==> JalCal(d.year + 1).value.leap == 1)
    ensures D2JFromCal(n, gy, c) == d
  {
    var next := d.year + 1;
    ValidDayOfYear(d);
    MarchBounds(d.year);
    DayOfYearDecodes(d.month, d.day);
    FarvardinToNext(d.year, next);
    FarvardinFirstDay(next);
    DecodeFromNextYear(d, gy, c, FarvardinFirst(d.year), FarvardinFirst(next), n);
  }

  /** `e` is the day just before `d` in the same Jalaali year. */
  predicate DayBefore(e: Date, d: Date) {
    ValidJalaali(e) && e.year == d.year && DayOfJalaaliYear(e.month, e.day) + 1 == DayOfJalaaliYear(d.month, d.day)
  }

  /**
   * The dates `d2j` as written reads one day early: those from 1 January on
   * in a year five years before a break, which is always leap. The next
   * year's indicator as written fails to report that leap year.
   */
  predicate ShiftedDate(d: Date)
    requires InTable(d.year)
  {
    InNextGregorianYear(d) && InTable(d.year + 1) && YearsToBreak(d.year + 1) == 4
  }

  /** The same days seen from their day numbers: before 1 Farvardin of a year four years before a break. */
  predicate ShiftedDay(jdn: int) {
    var jy := D2G(jdn).year - 621;
    InTable(jy) && jdn < FarvardinFirst(jy) && YearsToBreak(jy) == 4
  }

  /** `d2j` as written on a shifted date: the day before it. */
  lemma {:induction false} DecodeEarly(d: Date, n: int, gy: int)
    requires ValidJalaali(d) && ShiftedDate(d)
    requires n == FarvardinFirst(d.year) + DayOfJalaaliYear(d.month, d.day) && gy == d.year + 622
    ensures D2JFromYear(n, gy).err == None && DayBefore(D2JFromYear(n, gy).value, d)
  {
    var e := EarlierDay(d);
    D2JFromYearSucceeds(n, gy, d.year + 1);
    ShiftedDecodesEarlier(d, e, n, gy);
    var r := D2JFromYear(n, gy);
    assert r.err == None && r.value == e;
  }

  /** The decoding step of `DecodeEarly`: the as-written `jalCal` result reads a shifted date as the day before it. */
  lemma {:induction false} ShiftedDecodesEarlier(d: Date, e: Date, n: int, gy: int)
    requires ValidJalaali(d) && ShiftedDate(d) && DayBefore(e, d) && 7 <= e.month <= 12 && 1 <= e.day <= 30
    requires n == FarvardinFirst(d.year) + DayOfJalaaliYear(d.month, d.day) && gy == d.year + 622
    ensures D2JFromCal(n, gy, JalCalAsWritten(d.year + 1).value) == e
  {
    var next := d.year + 1;
    var f, f1 := FarvardinFirst(d.year), FarvardinFirst(next);
    ShiftedCal(next);
    FarvardinToNext(d.year, next);
    assert n < f1;
    EarlyDecodes(e, n, gy, JalCalAsWritten(next).value, JalCal(next).value, f, f1);
  }

  /**
   * Before 1 Farvardin `f1` of a year whose predecessor is leap, a `jalCal`
   * result that fails the `leap == 1` test reads day `n` as the date `e`
   * that is day `n - 1`.
   */
  lemma {:induction false} EarlyDecodes(e: Date, n: int, gy: int, ca: CalInfo, cc: CalInfo, f: int, f1: int)
    requires 7 <= e.month <= 12 && 1 <= e.day <= 30 && gy == e.year + 622
    requires ca.march == cc.march && ca.leap != 1 && cc.leap == 1 && G2D(gy, 3, cc.march) == f1 && f1 - f == 366
    requires n - 1 == f + DayOfJalaaliYear(e.month, e.day) && n < f1
    ensures D2JFromCal(n, gy, ca) == e
  {
    DecodeShifted(n, gy, ca, cc);
    DecodeFromNextYear(e, gy, cc, f, f1, n - 1);
  }

  /** The day before a date from 1 January on lies in the last six months of the same year. */
  lemma {:induction false} EarlierDay(d: Date) returns (e: Date)
    requires ValidJalaali(d) && InNextGregorianYear(d)
    ensures DayBefore(e, d) && 7 <= e.month <= 12 && 1 <= e.day <= 30
    ensures DayOfJalaaliYear(d.month, d.day) < JalaaliYearLength(d.year)
  {
    var off := DayOfJalaaliYear(d.month, d.day);
    ValidDayOfYear(d);
    MarchBounds(d.year);
    SecondHalfEncodes(d.year, off - 1, off - 187);
    NonNegativeAgrees(off - 187, 30);
    e := Date(d.year, 7 + GoDiv(off - 187, 30), GoMod(off - 187, 30) + 1);
  }

  /** Four years before a break, the two `jalCal`s agree on March and part on the `leap == 1` test. */
  lemma ShiftedCal(jy: int)
    requires InTable(jy) && YearsToBreak(jy) == 4
    ensures JalCalAsWritten(jy).value.march == JalCal(jy).value.march == March(jy)
    ensures JalCalAsWritten(jy).value.leap == 0 && JalCal(jy).value.leap == 1
    ensures G2D(jy + 621, 3, March(jy)) == FarvardinFirst(jy)
  {
    AsWrittenLeapTest(jy);
    FarvardinFirstDay(jy);
  }

  /**
   * `d2j` as written undoes `j2d` on every valid date but two kinds. The
   * days of 3177 from 1 January 3799 on fail: `d2j` looks up the Jalaali
   * year 3178, past the table. And the shifted dates come back as the day
   * before.
   */
  lemma {:induction false} J2DThenD2J(d: Date)
    requires ValidJalaali(d)
    ensures d.year < 3177 || !InNextGregorianYear(d) ==>
              (D2J(J2D(d.year, d.month, d.day).value) == Fallible(d, None) <==> !ShiftedDate(d))
    ensures ShiftedDate(d) ==>
              D2J(J2D(d.year, d.month, d.day).value).err == None
              && DayBefore(D2J(J2D(d.year, d.month, d.day).value).value, d)
    ensures d.year == 3177 && InNextGregorianYear(d) ==>
              D2J(J2D(d.year, d.month, d.day).value) == Fallible(Date(0, 0, 0), Some(ErrorInvalidYear(d.year + 1)))
  {
    var off := DayOfJalaaliYear(d.month, d.day);
    var n := J2D(d.year, d.month, d.day).value;
    ValidDayOfYear(d);
    GregorianYearOfDay(d.year, off, n);
    var gy := D2G(n).year;
    if March(d.year) + off > MonthOffset(10) {
      if d.year == 3177 {
        D2JPastTable(n, gy);
      } else if ShiftedDate(d) {
        DecodeEarly(d, n, gy);
      } else {
        var next := d.year + 1;
        AsWrittenLeapTest(next);
        D2JFromYearSucceeds(n, gy, next);
        DecodeNextGregorianYear(d, n, gy, JalCalAsWritten(next).value);
      }
    } else {
      DecodeSameGregorianYear(d, n, gy);
    }
  }

  /**
   * `d2j` with the corrected `jalCal` undoes `j2d` on every valid date,
   * except for the days of 3177 from 1 January 3799 on.
   */
  lemma {:induction false} J2DThenD2JCorrected(d: Date)
    requires ValidJalaali(d)
    ensures d.year < 3177 || !InNextGregorianYear(d) ==> D2JCorrected(J2D(d.year, d.month, d.day).value) == Fallible(d, None)
    ensures d.year == 3177 && InNextGregorianYear(d) ==>
              D2JCorrected(J2D(d.year, d.month, d.day).value) == Fallible(Date(0, 0, 0), Some(ErrorInvalidYear(d.year + 1)))
  {
    var off := DayOfJalaaliYear(d.month, d.day);
    var n := J2D(d.year, d.month, d.day).value;
    ValidDayOfYear(d);
    GregorianYearOfDay(d.year, off, n);
    var gy := D2G(n).year;
    if March(d.year) + off > MonthOffset(10) {
      if d.year < 3177 {
        D2JFromYearSucceeds(n, gy, d.year + 1);
        DecodeNextGregorianYear(d, n, gy, JalCal(d.year + 1).value);
      } else {
        D2JPastTable(n, gy);
      }
    } else {
      DecodeSameGregorianYear(d, n, gy);
    }
  }

  /** `d2j` of a day whose Gregorian year `gy` starts no Jalaali year of the table. */
  lemma D2JPastTable(jdn: int, gy: int)
    requires D2G(jdn).year == gy && !InTable(gy - 621)
    ensures D2J(jdn) == Fallible(Date(0, 0, 0), Some(ErrorInvalidYear(gy - 621)))
    ensures D2JCorrected(jdn) == D2J(jdn)
  {
  }

  /** Day number `jdn` lies between -83 and 287 days from 1 Farvardin of the Jalaali year starting in its Gregorian year. */
  lemma {:induction false} DayAroundFarvardin(jdn: int, gy: int, jy: int)
    requires InTable(jy) && gy == jy + 621
    requires NewYearDay(gy) <= jdn < NewYearDay(gy + 1)
    ensures -83 <= jdn - FarvardinFirst(jy) <= 306 - March(jy)
  {
    MarchBounds(jy);
    MarchYearLength(gy - 1);
  }

  /** `d2j` on a day at or after 1 Farvardin of the year it tries: the day's date, which `j2d` maps back. */
  lemma {:induction false} EncodeFromFarvardin(jdn: int, gy: int, jy: int, c: CalInfo, f: int, r: Date)
    requires InTable(jy) && gy == jy + 621 && c.march == March(jy) && f == FarvardinFirst(jy)
    requires 0 <= jdn - f <= 306 - March(jy)
    requires r == D2JFromCal(jdn, gy, c)
    ensures ValidJalaali(r) && r.year == jy && jdn == f + DayOfJalaaliYear(r.month, r.day)
  {
    var k := jdn - f;
    MarchBounds(jy);
    FarvardinFirstDay(jy);
    if k <= 185 {
      DecodeFirstHalf(jdn, gy, jy, c, f, k);
      FirstHalfEncodes(jy, k);
    } else {
      var b := k - 186;
      DecodeSecondHalf(jdn, gy, jy, c, f, b);
      SecondHalfEncodes(jy, k, b);
    }
  }

  /**
   * `d2j` on a day before 1 Farvardin of the year it tries: a date of the
   * year before, which `j2d` maps back. It counts back as if the year before
   * had 366 days when `c` passes the `leap == 1` test and 365 otherwise, so
   * a `c` that fails the test on a leap year gives the date of the day
   * before.
   */
  lemma {:induction false} EncodeBeforeFarvardin(jdn: int, gy: int, jy: int, prev: int, c: CalInfo, f: int, r: Date)
    requires InTable(jy) && InTable(prev) && gy == jy + 621 && prev == jy - 1
    requires c.march == March(jy) && (c.leap == 1 ==> JalCal(jy).value.leap == 1) && f == FarvardinFirst(jy)
    requires -179 <= jdn - f < 0
    requires r == D2JFromCal(jdn, gy, c)
    ensures ValidJalaali(r) && r.year == prev
    ensures jdn + (if c.leap == 1 then 1 else 0) - (if JalCal(jy).value.leap == 1 then 1 else 0)
            == FarvardinFirst(prev) + DayOfJalaaliYear(r.month, r.day)
  {
    var b := jdn - f + 179 + if c.leap == 1 then 1 else 0;
    FarvardinFirstDay(jy);
    DecodeBack(jdn, gy, prev, c, f, b);
    FarvardinToNext(prev, jy);
    SecondHalfEncodes(prev, b + 186, b);
  }

  /**
   * `j2d` undoes `d2j` as written: every day number from Julian Day
   * -34839655 on whose Jalaali date lies in the table decodes to a valid
   * date, which converts back to the same day number, or, on a shifted day,
   * to the day before.
   */
  lemma {:induction false} D2JThenJ2D(jdn: int)
    requires InCodecRange(jdn) && !D2J(jdn).Failed() && InTable(D2J(jdn).value.year)
    ensures ValidJalaali(D2J(jdn).value)
    ensures var r := D2J(jdn).value;
            J2D(r.year, r.month, r.day) == Fallible(if ShiftedDay(jdn) then jdn - 1 else jdn, None)
  {
    var gy := D2G(jdn).year;
    var jy := gy - 621;
    var f := FarvardinFirst(jy);
    var ca := JalCalAsWritten(jy).value;
    var r := D2J(jdn).value;
    assert InTable(jy);
    assert r == D2JFromCal(jdn, gy, ca) by {
      D2JFromYearSucceeds(jdn, gy, jy);
    }
    assert -83 <= jdn - f <= 306 - March(jy) by {
      D2GYearBracket(jdn);
      DayAroundFarvardin(jdn, gy, jy);
    }
    if jdn - f >= 0 {
      assert !ShiftedDay(jdn);
      EncodeFromFarvardin(jdn, gy, jy, ca, f, r);
      J2DValue(r.year, r.month, r.day, jdn);
    } else {
      assert ShiftedDay(jdn) <==> YearsToBreak(jy) == 4;
      assert r.year == jy - 1 by {
        FarvardinFirstDay(jy);
      }
      EncodeBeforeFarvardinAsWritten(jdn, gy, jy, f, r);
    }
  }

  /**
   * `d2j` as written on a day before 1 Farvardin of the year it tries: a
   * date of the year before, which `j2d` maps back to the same day, or to
   * the day before four years before a break.
   */
  lemma {:induction false} EncodeBeforeFarvardinAsWritten(jdn: int, gy: int, jy: int, f: int, r: Date)
    requires InTable(jy) && InTable(jy - 1) && gy == jy + 621 && f == FarvardinFirst(jy)
    requires -83 <= jdn - f < 0
    requires r == D2JFromCal(jdn, gy, JalCalAsWritten(jy).value)
    ensures ValidJalaali(r) && r.year == jy - 1
    ensures J2D(r.year, r.month, r.day) == Fallible(if YearsToBreak(jy) == 4 then jdn - 1 else jdn, None)
  {
    var ca := JalCalAsWritten(jy).value;
    AsWrittenLeapTest(jy);
    EncodeBeforeFarvardin(jdn, gy, jy, jy - 1, ca, f, r);
    J2DValue(r.year, r.month, r.day, if YearsToBreak(jy) == 4 then jdn - 1 else jdn);
  }

  /**
   * `j2d` undoes `d2j` with the corrected `jalCal`: every day number from
   * Julian Day -34839655 on whose Jalaali date lies in the table decodes to
   * a valid date, which converts back to the same day number.
   */
  lemma {:induction false} D2JThenJ2DCorrected(jdn: int)
    requires InCodecRange(jdn) && !D2JCorrected(jdn).Failed() && InTable(D2JCorrected(jdn).value.year)
    ensures ValidJalaali(D2JCorrected(jdn).value)
    ensures var r := D2JCorrected(jdn).value; J2D(r.year, r.month, r.day) == Fallible(jdn, None)
  {
    var gy := D2G(jdn).year;
    var jy := gy - 621;
    D2GYearBracket(jdn);
    D2JFromYearSucceeds(jdn, gy, jy);
    DayAroundFarvardin(jdn, gy, jy);
    var c := JalCal(jy).value;
    var f := FarvardinFirst(jy);
    var r := D2JCorrected(jdn).value;
    if jdn - f >= 0 {
      EncodeFromFarvardin(jdn, gy, jy, c, f, r);
      J2DValue(r.year, r.month, r.day, jdn);
    } else {
      assert r.year == jy - 1 by {
        FarvardinFirstDay(jy);
      }
      EncodeBeforeFarvardin(jdn, gy, jy, jy - 1, c, f, r);
      J2DValue(r.year, r.month, r.day, jdn);
    }
  }

  /** The code as written and the corrected code decode a day alike exactly when it is not a shifted day. */
  lemma {:induction false} D2JAgrees(jdn: int)
    requires InCodecRange(jdn)
    ensures D2J(jdn) == D2JCorrected(jdn) <==> !ShiftedDay(jdn)
  {
    var gy := D2G(jdn).year;
    var jy := gy - 621;
    if InTable(jy) {
      D2GYearBracket(jdn);
      D2JFromYearSucceeds(jdn, gy, jy);
      DayAroundFarvardin(jdn, gy, jy);
      AsWrittenLeapTest(jy);
      FarvardinFirstDay(jy);
      var ca, cc := JalCalAsWritten(jy).value, JalCal(jy).value;
      var f := FarvardinFirst(jy);
      if jdn < f && YearsToBreak(jy) == 4 {
        var b := jdn - f + 179;
        DecodeBack(jdn, gy, jy - 1, ca, f, b);
        DecodeBack(jdn, gy, jy - 1, cc, f, b + 1);
        NextDayDiffers(b);
        assert D2JFromCal(jdn, gy, ca) != D2JFromCal(jdn, gy, cc);
        assert ShiftedDay(jdn);
      } else {
        DecodeAlike(jdn, gy, ca, cc);
        assert !ShiftedDay(jdn);
      }
    } else {
      assert D2J(jdn) == D2JCorrected(jdn);
    }
  }

  /** Two `jalCal` results with the same March decode alike from 1 Farvardin on, and before it when their `leap == 1` tests agree. */
  lemma DecodeAlike(jdn: int, gy: int, ca: CalInfo, cc: CalInfo)
    requires ca.march == cc.march
    requires jdn >= G2D(gy, 3, ca.march) || (ca.leap == 1 <==> cc.leap == 1)
    ensures D2JFromCal(jdn, gy, ca) == D2JFromCal(jdn, gy, cc)
  {
  }

  /** Two consecutive day counts of the last six months read as different month-and-day pairs. */
  lemma NextDayDiffers(b: int)
    requires 0 <= b
    ensures (GoDiv(b, 30), GoMod(b, 30)) != (GoDiv(b + 1, 30), GoMod(b + 1, 30))
  {
    NonNegativeAgrees(b, 30);
    NonNegativeAgrees(b + 1, 30);
  }

  /**
   * `ToGregorian` then `ToJalaali` gives back every valid Jalaali date but
   * two kinds: from 1 January 3799 on, the days of 3177 fall in a Gregorian
   * year whose Jalaali year, 3178, is past the table, and the way back
   * fails; the shifted dates come back as the day before.
   */
  lemma {:induction false} ToGregorianThenToJalaali(d: Date)
    requires ValidJalaali(d)
    ensures !ToGregorian(d.year, d.month, d.day).Failed()
    ensures var g := ToGregorian(d.year, d.month, d.day).value; ValidGregorian(g)
    ensures var g := ToGregorian(d.year, d.month, d.day).value;
            d.year < 3177 || !InNextGregorianYear(d) ==>
              (ToJalaali(g.year, g.month, g.day) == Fallible(d, None) <==> !ShiftedDate(d))
    ensures var g := ToGregorian(d.year, d.month, d.day).value;
            ShiftedDate(d) ==> ToJalaali(g.year, g.month, g.day).err == None && DayBefore(ToJalaali(g.year, g.month, g.day).value, d)
    ensures var g := ToGregorian(d.year, d.month, d.day).value;
            d.year == 3177 && InNextGregorianYear(d) ==>
              g.year == d.year + 622 && ToJalaali(g.year, g.month, g.day) == Fallible(Date(0, 0, 0), Some(ErrorInvalidYear(d.year + 1)))
  {
    var n := J2D(d.year, d.month, d.day).value;
    ValidDayOfYear(d);
    GregorianYearOfDay(d.year, DayOfJalaaliYear(d.month, d.day), n);
    D2GRoundTrip(n);
    J2DThenD2J(d);
  }

  /**
   * `ToJalaali` then `ToGregorian` gives back every valid Gregorian date
   * whose Jalaali date lies in the table, except a shifted day, which comes
   * back as the day before.
   */
  lemma {:induction false} ToJalaaliThenToGregorian(g: Date)
    requires ValidGregorian(g) && -100100 <= MarchYear(g.year, g.month)
    requires !ToJalaali(g.year, g.month, g.day).Failed() && InTable(ToJalaali(g.year, g.month, g.day).value.year)
    ensures var j := ToJalaali(g.year, g.month, g.day).value; ValidJalaali(j)
    ensures var j := ToJalaali(g.year, g.month, g.day).value;
            ToGregorian(j.year, j.month, j.day) == Fallible(g, None) <==> !ShiftedDay(G2D(g.year, g.month, g.day))
  {
    var n := G2D(g.year, g.month, g.day);
    G2DRoundTrip(g);
    ToGregorianOfDecoded(n, ToJalaali(g.year, g.month, g.day).value);
  }

  /** On a shifted day, the round trip through `ToJalaali` and `ToGregorian` lands on the Gregorian date of the day before. */
  lemma {:induction false} ToJalaaliThenToGregorianShifted(g: Date)
    requires ValidGregorian(g) && -100100 <= MarchYear(g.year, g.month)
    requires !ToJalaali(g.year, g.month, g.day).Failed() && InTable(ToJalaali(g.year, g.month, g.day).value.year)
    ensures var j := ToJalaali(g.year, g.month, g.day).value;
            ShiftedDay(G2D(g.year, g.month, g.day)) ==>
              ToGregorian(j.year, j.month, j.day) == Fallible(D2G(G2D(g.year, g.month, g.day) - 1), None)
  {
    RoundTripWhenValid(g);
    ToGregorianOfShifted(G2D(g.year, g.month, g.day));
  }

  /** The shifted-day case of `ToGregorianOfDecoded` on its own, stated as an implication. */
  lemma ToGregorianOfShifted(n: int)
    ensures InCodecRange(n) && !D2J(n).Failed() && InTable(D2J(n).value.year) && ShiftedDay(n) ==>
              var j := D2J(n).value; ToGregorian(j.year, j.month, j.day) == Fallible(D2G(n - 1), None)
  {
    if InCodecRange(n) && !D2J(n).Failed() && InTable(D2J(n).value.year) && ShiftedDay(n) {
      ToGregorianOfDecoded(n, D2J(n).value);
    }
  }

  /**
   * `ToGregorian` of what `d2j` decodes: the Gregorian date of the same day,
   * except on a shifted day, where it is the date of the day before.
   */
  lemma ToGregorianOfDecoded(n: int, j: Date)
    requires InCodecRange(n) && !D2J(n).Failed() && j == D2J(n).value && InTable(j.year)
    ensures ValidJalaali(j)
    ensures ToGregorian(j.year, j.month, j.day) == Fallible(D2G(n), None) <==> !ShiftedDay(n)
    ensures ShiftedDay(n) ==> ToGregorian(j.year, j.month, j.day) == Fallible(D2G(n - 1), None)
  {
    D2JThenJ2D(n);
    var m := if ShiftedDay(n) then n - 1 else n;
    assert J2D(j.year, j.month, j.day) == Fallible(m, None);
    var r := ToGregorian(j.year, j.month, j.day);
    assert !r.Failed() && r.value == D2G(m);
    if ShiftedDay(n) {
      ShiftedDayDiffers(n);
    }
  }

  /** A day from Gregorian year 560 on and the day before it lie in the codec's range and have different Gregorian dates. */
  lemma ShiftedDayDiffers(n: int)
    requires InCodecRange(n) && 560 <= D2G(n).year
    ensures InCodecRange(n - 1) && D2G(n - 1) != D2G(n)
  {
    D2GYearBracket(n);
    MarchZeroNonNegative(D2G(n).year - 1);
    DistinctDays(n - 1, n);
  }

  /** `d2g` gives two different day numbers of the codec's range two different dates. */
  lemma DistinctDays(a: int, b: int)
    requires InCodecRange(a) && InCodecRange(b) && a != b
    ensures D2G(a) != D2G(b)
  {
    D2GRoundTrip(a);
    D2GRoundTrip(b);
  }

  /**
   * A Gregorian date and a Jalaali date name the same day when the Julian Day
   * Number of the first is 1 Farvardin of the second's year plus its day of
   * the year; then `ToGregorian` turns the second into the first, and
   * `ToJalaali` the first into the second unless the second is shifted.
   */
  lemma {:induction false} SameDayConverts(g: Date, j: Date)
    requires ValidJalaali(j) && (j.year < 3177 || !InNextGregorianYear(j))
    requires ValidGregorian(g) && -100100 <= MarchYear(g.year, g.month)
    requires G2D(g.year, g.month, g.day) == FarvardinFirst(j.year) + DayOfJalaaliYear(j.month, j.day)
    ensures ToGregorian(j.year, j.month, j.day) == Fallible(g, None)
    ensures ToJalaali(g.year, g.month, g.day) == Fallible(j, None) <==> !ShiftedDate(j)
  {
    var n := G2D(g.year, g.month, g.day);
    G2DRoundTrip(g);
    J2DValue(j.year, j.month, j.day, n);
    J2DThenD2J(j);
  }

  /** 17 August 1981 is 26 Mordad 1360, and back. */
  lemma Example1981(g: Date, j: Date)
    requires g == Date(1981, 8, 17) && j == Date(1360, 5, 26)
    ensures ToJalaali(g.year, g.month, g.day) == Fallible(j, None)
    ensures ToGregorian(j.year, j.month, j.day) == Fallible(g, None)
  {
    Year1360();
    Values1981();
    SameDayConverts(g, j);
  }

  lemma Values1981()
    ensures G2D(1981, 8, 17) == 2444834 && MarchZero(1981) + 21 + 4 * 31 + 25 == 2444834
    ensures ValidGregorian(Date(1981, 8, 17)) && -100100 <= MarchYear(1981, 8)
  {
    assert G2D(1981, 8, 17) == 2444834 by {
      G2DClosedForm(1981, 8, 17);
      assert MarchZero(1981) == 2444664;
    }
    assert ValidGregorian(Date(1981, 8, 17)) by {}
  }

  /** 10 January 2013 is 21 Dey 1391, and back; 1391 ends 243 years before a break. */
  lemma Example2013(g: Date, j: Date)
    requires g == Date(2013, 1, 10) && j == Date(1391, 10, 21)
    ensures ToJalaali(g.year, g.month, g.day) == Fallible(j, None)
    ensures ToGregorian(j.year, j.month, j.day) == Fallible(g, None)
  {
    Dates2013(g, j);
    SameDayConverts(g, j);
  }

  lemma Dates2013(g: Date, j: Date)
    requires g == Date(2013, 1, 10) && j == Date(1391, 10, 21)
    ensures ValidJalaali(j) && !ShiftedDate(j)
    ensures ValidGregorian(g) && -100100 <= MarchYear(g.year, g.month)
    ensures G2D(g.year, g.month, g.day) == FarvardinFirst(j.year) + DayOfJalaaliYear(j.month, j.day)
  {
    Year1391();
    assert March(1391) == 20;
    assert InNextGregorianYear(j);
    Distance1392();
    Values2013();
  }

  lemma Distance1392()
    ensures InTable(1392) && YearsToBreak(1392) == 243
  {
    YearsToBreakAt(1392, 11);
  }

  lemma Values2013()
    ensures G2D(2013, 1, 10) == 2456303 && MarchZero(2012) + 20 + 6 * 31 + 3 * 30 + 20 == 2456303
    ensures ValidGregorian(Date(2013, 1, 10)) && -100100 <= MarchYear(2013, 1)
  {
    assert G2D(2013, 1, 10) == 2456303 by {
      G2DClosedForm(2013, 1, 10);
      assert MarchZero(2012) == 2455987;
    }
    assert ValidGregorian(Date(2013, 1, 10)) by {}
  }

  /** 4 August 2014 is 13 Mordad 1393, and back. */
  lemma Example2014(g: Date, j: Date)
    requires g == Date(2014, 8, 4) && j == Date(1393, 5, 13)
    ensures ToJalaali(g.year, g.month, g.day) == Fallible(j, None)
    ensures ToGregorian(j.year, j.month, j.day) == Fallible(g, None)
  {
    Year1393();
    Values2014();
    SameDayConverts(g, j);
  }

  lemma Values2014()
    ensures G2D(2014, 8, 4) == 2456874 && MarchZero(2014) + 21 + 4 * 31 + 12 == 2456874
    ensures ValidGregorian(Date(2014, 8, 4)) && -100100 <= MarchYear(2014, 8)
  {
    assert G2D(2014, 8, 4) == 2456874 by {
      G2DClosedForm(2014, 8, 4);
      assert MarchZero(2014) == 2456717;
    }
    assert ValidGregorian(Date(2014, 8, 4)) by {}
  }

  /**
   * The sign error of convertion.go:105-107 seen from the outside: 11 Dey 4
   * is 1 January 626, and `d2j` turns it back into 10 Dey 4, because it
   * takes year 5, not year 4, for the leap year. The corrected `d2j` gives
   * back 11 Dey 4.
   */
  lemma AsWrittenDecodesYear4(jy: int, n: int)
    requires jy == 4 && n == FarvardinFirst(jy) + DayOfJalaaliYear(10, 11)
    ensures D2G(n) == Date(626, 1, 1)
    ensures D2J(n) == Fallible(Date(jy, 10, 10), None)
    ensures D2JCorrected(n) == Fallible(Date(jy, 10, 11), None)
  {
    AsWrittenMissesLeapYear(jy);
    FirstJanuary626(jy, n);
    FarvardinYearLength(jy);
    J2DValue(jy, 10, 11, n);
    J2DThenD2JCorrected(Date(jy, 10, 11));
    AsWrittenDecodesLate(n, jy + 622, jy + 1, FarvardinFirst(jy + 1));
  }

  lemma FirstJanuary626(jy: int, n: int)
    requires jy == 4 && March(jy) == 21 && n == FarvardinFirst(jy) + DayOfJalaaliYear(10, 11)
    ensures InNextGregorianYear(Date(jy, 10, 11))
    ensures D2G(n) == Date(626, 1, 1)
  {
    assert MonthOffset(10) == 306;
    assert n == NewYearDay(jy + 622);
    NewYearDayIsFirstJanuary(jy + 622, Date(626, 1, 1));
  }

  lemma AsWrittenDecodesLate(n: int, gy: int, next: int, f1: int)
    requires next == 5 && gy == next + 621 && f1 == FarvardinFirst(next) && n == f1 - 80
    requires D2G(n).year == gy && JalCalAsWritten(next).value.leap == 0
    ensures D2J(n) == Fallible(Date(4, 10, 10), None)
  {
    FarvardinFirstDay(next);
    NonNegativeAgrees(99, 30);
  }
}
