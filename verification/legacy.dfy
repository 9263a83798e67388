/**
 * The older `jalaali` sub-package (jalaali/jalaali.go): the same algorithms
 * as the root package, on `int64`, as methods of an empty struct, with the
 * error "Wrong Jalaali year". It is modelled as written, and compared with
 * the root package.
 *
 * Three slips make it disagree with the root package:
 * - its `jalCal` never assigns the named result `gy`, so the Gregorian leap
 *   count is taken at year 0 and 1 Farvardin lands hundreds of days late;
 * - `isValidJalaaliDate` requires the month-length call to FAIL;
 * - its `d2j` steps back one day where the root steps forward one.
 * It shares the root's sign slip in the leap indicator.
 */
module Legacy {
  import opened GoInt
  import opened Errors
  import opened BreakTable
  import opened JulianDay
  import opened Conversion
  import Utils

  /**
   * `jalCal` of jalaali/jalaali.go:118-159. The breaks, the interval walk,
   * the leap counts and the indicator are those of the root package; `gy`
   * stays 0, so `leapG` is that of year 0.
   */
  function LegacyJalCal(jy: int): (r: Fallible<CalInfo>)
    ensures r.Failed() <==> !InTable(jy)
    ensures r.Failed() ==> r == Fallible(CalInfo(0, 0, 0), Some(WrongJalaaliYear(jy)))
    ensures !r.Failed() ==> r.value.gy == 0 && r.value.leap == JalCalAsWritten(jy).value.leap
  {
    if jy < Breaks[0] || Breaks[|Breaks| - 1] <= jy then
      Fallible(CalInfo(0, 0, 0), Some(WrongJalaaliYear(jy)))
    else
      var s := Locate(jy);
      var gy := 0;
      Fallible(CalInfo(LeapIndicatorAsWritten(jy - s.start, s.jump), gy, 20 + JalaaliLeaps(jy) - GregorianLeaps(gy)), None)
  }

  /**
   * The legacy `march` is late by the Gregorian leap years from year 1 to
   * the year the Jalaali year starts in.
   */
  lemma LegacyMarchLate(jy: int)
    requires InTable(jy)
    ensures LegacyJalCal(jy).value.march == JalCal(jy).value.march + LeapsThrough(jy + 621)
  {
    GregorianLeapsCount(jy + 621);
    assert GregorianLeaps(0) == -150;
  }

  /**
   * `g2d` of jalaali/jalaali.go:161-168: the root's `g2d` with its two
   * constants folded into one, so it equals the root's on every input.
   */
  function LegacyG2D(gy: int, gm: int, gd: int): (r: int)
    ensures r == G2D(gy, gm, gd)
  {
    var a := GoDiv(gm - 8, 6);
    var y := gy + a + 100100;
    var d := gd - 34839656;
    assert gy + 100100 + a == y;
    GoDiv(y * 1461, 4) + GoDiv(153 * GoMod(gm + 9, 12) + 2, 5) - GoDiv(GoDiv(y, 100) * 3, 4) + d
  }

  /** `d2g` of jalaali/jalaali.go:170-180, which equals the root's on every input. */
  function LegacyD2G(jdn: int): (r: Date)
    ensures r == D2G(jdn)
  {
    var jdn4 := 4 * jdn;
    var i := jdn4 + 139361631 + GoDiv(GoDiv(jdn4 + 183187720, 146097) * 3, 4) * 4 - 3908;
    var k := GoDiv(GoMod(i, 1461), 4) * 5 + 308;
    var gd := GoDiv(GoMod(k, 153), 5) + 1;
    var gm := GoMod(GoDiv(k, 153), 12) + 1;
    var gy := GoDiv(i, 1461) - 100100 + GoDiv(8 - gm, 6);
    assert i == QuarterCount(jdn);
    assert Date(gy, gm, gd) == DateOfCount(i);
    Date(gy, gm, gd)
  }

  /** `isLeapJalaaliYear` of jalaali/jalaali.go:71-74: leap when the as-written indicator is 0. */
  function LegacyIsLeap(jy: int): (r: Fallible<bool>)
    ensures r.Failed() <==> !InTable(jy)
    ensures r.Failed() ==> r == Fallible(true, Some(WrongJalaaliYear(jy)))
    ensures !r.Failed() ==> (r.value <==> JalCalAsWritten(jy).value.leap == 0)
  {
    var c := LegacyJalCal(jy);
    Fallible(c.value.leap == 0, c.err)
  }

  /** `jalaaliMonthLength` of jalaali/jalaali.go:55-69: the root's month lengths, with the legacy error. */
  function LegacyMonthLength(jy: int, jm: int): (r: Fallible<int>)
    ensures r.Failed() <==> 12 <= jm && !InTable(jy)
    ensures r.Failed() ==> r == Fallible(0, Some(WrongJalaaliYear(jy)))
    ensures jm < 12 ==> r == Utils.MonthLength(jy, jm)
    ensures r.value == Utils.MonthLength(jy, jm).value && (r.Failed() <==> Utils.MonthLength(jy, jm).Failed())
    ensures 12 <= jm && InTable(jy) ==> r.value == (if JalCalAsWritten(jy).value.leap == 0 then 30 else 29)
  {
    if jm <= 6 then Fallible(31, None)
    else if jm <= 11 then Fallible(30, None)
    else
      var leap := LegacyIsLeap(jy);
      if leap.Failed() then Fallible(0, leap.err)
      else if leap.value then Fallible(30, None)
      else Fallible(29, None)
  }

  /**
   * `isValidJalaaliDate` of jalaali/jalaali.go:47-53. It asks for the month
   * length call to have failed, which only happens outside the range it
   * then requires, so it accepts no date at all.
   */
  function LegacyIsValidDate(jy: int, jm: int, jd: int): (r: bool)
    ensures !r
  {
    var d := LegacyMonthLength(jy, jm);
    d.Failed() && -61 <= jy <= 3177 && 1 <= jm <= 12 && 1 <= jd <= d.value
  }

  /** 1 Farvardin 1393 is a date, which the corrected check accepts and the legacy one rejects. */
  lemma LegacyRejectsValidDate()
    ensures Utils.IsValidDate(1393, 1, 1) && !LegacyIsValidDate(1393, 1, 1)
  {
  }

  /**
   * `j2d` of jalaali/jalaali.go:76-82: the root's formula, fed the year 0
   * that `jalCal` returns and its late `march`. On error the named result
   * `jdn` is 0.
   */
  function LegacyJ2D(jy: int, jm: int, jd: int): (r: Fallible<int>)
    ensures r.Failed() <==> !InTable(jy)
    ensures r.Failed() ==> r == Fallible(0, Some(WrongJalaaliYear(jy)))
    ensures !r.Failed() && 1 <= jm <= 12 ==>
              r.value == MarchZero(0) + LegacyJalCal(jy).value.march + DayOfJalaaliYear(jm, jd)
  {
    var c := LegacyJalCal(jy);
    if c.Failed() then Fallible(0, c.err)
    else
      MonthDays(jm);
      G2DClosedForm(c.value.gy, 3, c.value.march);
      Fallible(LegacyG2D(c.value.gy, 3, c.value.march) + (jm - 1) * 31 - GoDiv(jm, 7) * (jm - 7) + jd - 1, None)
  }

  /** `toGregorian` of jalaali/jalaali.go:37-45: zeros beside the error. */
  function LegacyToGregorian(jy: int, jm: int, jd: int): (r: Fallible<Date>)
    ensures r.Failed() <==> !InTable(jy)
    ensures r.Failed() ==> r == Fallible(Date(0, 0, 0), Some(WrongJalaaliYear(jy)))
  {
    var x := LegacyJ2D(jy, jm, jd);
    if x.Failed() then Fallible(Date(0, 0, 0), x.err)
    else Fallible(LegacyD2G(x.value), None)
  }

  /**
   * Every valid Jalaali date converts, but into one of the Gregorian years 0
   * to 3, whereas the root package gives the year 621 or 622 after the
   * Jalaali one.
   */
  lemma LegacyToGregorianYear(jy: int, jm: int, jd: int)
    requires ValidJalaali(Date(jy, jm, jd))
    ensures !LegacyToGregorian(jy, jm, jd).Failed()
    ensures 0 <= LegacyToGregorian(jy, jm, jd).value.year <= 3
    ensures LegacyToGregorian(jy, jm, jd).value.year < ToGregorian(jy, jm, jd).value.year
  {
    var n := LegacyJ2D(jy, jm, jd).value;
    var off := DayOfJalaaliYear(jm, jd);
    Conversion.ValidDayOfYear(Date(jy, jm, jd));
    LegacyMarchLate(jy);
    LegacyYearBounds(jy, off, n);
    TrueYear(jy, jm, jd);
  }

  /** Day `off` of a legacy Jalaali year lies in Gregorian year 0 to 3. */
  lemma LegacyYearBounds(jy: int, off: int, n: int)
    requires InTable(jy) && 0 <= off <= 365
    requires n == MarchZero(0) + LegacyJalCal(jy).value.march + off
    ensures InCodecRange(n)
    ensures 0 <= D2G(n).year <= 3
  {
    JalaaliLeapsRate(jy);
    assert -14 <= JalaaliLeaps(jy) <= 773;
    assert GregorianLeaps(0) == -150;
    assert NewYearDay(0) == MarchZero(0) - 59;
    assert NewYearDay(4) == MarchZero(0) + 1402;
    D2GYearBracket(n);
    var gy := D2G(n).year;
    if gy < 0 {
      NewYearDayGrows(gy, 0);
    } else if 3 < gy {
      NewYearDayGrows(3, gy);
    }
  }

  /** The root package puts a valid Jalaali date in Gregorian year 621 or 622 after it. */
  lemma TrueYear(jy: int, jm: int, jd: int)
    requires ValidJalaali(Date(jy, jm, jd))
    ensures jy + 621 <= ToGregorian(jy, jm, jd).value.year <= jy + 622
  {
    var off := DayOfJalaaliYear(jm, jd);
    Conversion.ValidDayOfYear(Date(jy, jm, jd));
    var n := J2D(jy, jm, jd).value;
    GregorianYearOfDay(jy, off, n);
  }

  /**
   * convertion.go:41-68's counterpart jalaali/jalaali.go:91-115 once `jalCal`
   * has succeeded: the same steps, except that a day before 1 Farvardin
   * steps back one day when `leap == 1`, where the root steps forward. With
   * the same year and `jalCal` result it therefore agrees with the root's
   * decoding everywhere except before 1 Farvardin after a leap year, where
   * it gives the date the root gives two days earlier.
   */
  function LegacyD2JFromCal(jdn: int, gy: int, c: CalInfo): (r: Date)
    ensures var k := jdn - G2D(gy, 3, c.march);
            r == if k < 0 && c.leap == 1 then D2JFromCal(jdn - 2, gy, c) else D2JFromCal(jdn, gy, c)
  {
    var jy := gy - 621;
    var jdn1f := LegacyG2D(gy, 3, c.march);
    var k := jdn - jdn1f;
    if k >= 0 && k <= 185 then
      Date(jy, 1 + GoDiv(k, 31), GoMod(k, 31) + 1)
    else
      var y := if k >= 0 then jy else jy - 1;
      var k' := if k >= 0 then k - 186 else k + 179 - (if c.leap == 1 then 1 else 0);
      Date(y, 7 + GoDiv(k', 30), GoMod(k', 30) + 1)
  }

  /**
   * The decoding step alone, given `jalCal` values with indicator 1 (the
   * year follows a leap year): the day before 1 Farvardin is 30 Esfand, and
   * the legacy step calls it 28 Esfand. The legacy `d2j` does not reach
   * this day with these values, since its late `march` moves the day into
   * the next Gregorian year.
   */
  lemma LegacyMissesEsfand30(jdn: int, gy: int, c: CalInfo)
    requires c.leap == 1 && jdn == G2D(gy, 3, c.march) - 1
    ensures D2JFromCal(jdn, gy, c) == Date(gy - 622, 12, 30)
    ensures LegacyD2JFromCal(jdn, gy, c) == Date(gy - 622, 12, 28)
  {
    NonNegativeAgrees(179, 30);
    NonNegativeAgrees(177, 30);
  }

  /**
   * `d2j` of jalaali/jalaali.go:84-116. On error the named results keep
   * `jy = gy - 621` beside zeros for the month and day.
   */
  function LegacyD2J(jdn: int): (r: Fallible<Date>)
    ensures r.Failed() <==> !InTable(D2G(jdn).year - 621)
    ensures r.Failed() ==> r == Fallible(Date(D2G(jdn).year - 621, 0, 0), Some(WrongJalaaliYear(D2G(jdn).year - 621)))
  {
    var gy := LegacyD2G(jdn).year;
    var c := LegacyJalCal(gy - 621);
    if c.Failed() then Fallible(Date(gy - 621, 0, 0), c.err)
    else Fallible(LegacyD2JFromCal(jdn, gy, c.value), None)
  }

  /** `toJalaali` of jalaali/jalaali.go:32-35. */
  function LegacyToJalaali(gy: int, gm: int, gd: int): (r: Fallible<Date>)
    ensures r.Failed() <==> ToJalaali(gy, gm, gd).Failed()
  {
    LegacyD2J(LegacyG2D(gy, gm, gd))
  }

  /**
   * 4 August 2014 is 13 Mordad 1393; the legacy `toJalaali` makes it the
   * 22nd day before the first of Ordibehesht 1392.
   */
  lemma LegacyExample2014()
    ensures ToJalaali(2014, 8, 4) == Fallible(Date(1393, 5, 13), None)
    ensures LegacyToJalaali(2014, 8, 4) == Fallible(Date(1392, 2, -22), None)
  {
    Example2014(Date(2014, 8, 4), Date(1393, 5, 13));
    Day2014(2456874);
    Legacy2014Day(2456874);
  }

  lemma Legacy2014Day(n: int)
    requires n == 2456874
    ensures LegacyD2J(n) == Fallible(Date(1392, 2, -22), None)
  {
    var c := CalInfo(2, 0, 509);
    assert D2G(n).year == 2014 by { Day2014(n); }
    assert LegacyJalCal(2014 - 621) == Fallible(c, None) by { Legacy1393(1393); }
    assert LegacyD2JFromCal(n, 2014, c) == Date(1392, 2, -22) by { LegacyDecode2014(n, 2014, c); }
    LegacyD2JOfCal(n, 2014, c);
  }

  lemma Day2014(n: int)
    requires n == 2456874
    ensures D2G(n) == Date(2014, 8, 4) && G2D(2014, 8, 4) == n
  {
    Values2014();
    G2DRoundTrip(Date(2014, 8, 4));
  }

  /** `d2j` once the Gregorian year of the day and the legacy `jalCal` of the year before are known. */
  lemma LegacyD2JOfCal(n: int, gy: int, c: CalInfo)
    requires D2G(n).year == gy && LegacyJalCal(gy - 621) == Fallible(c, None)
    ensures LegacyD2J(n) == Fallible(LegacyD2JFromCal(n, gy, c), None)
  {
  }

  /** 4 August 2014 is 352 days before the legacy 1 Farvardin 1393. */
  lemma LegacyDecode2014(n: int, gy: int, c: CalInfo)
    requires n == 2456874 && gy == 2014 && c == CalInfo(2, 0, 509)
    ensures LegacyD2JFromCal(n, gy, c) == Date(1392, 2, -22)
  {
    assert n - LegacyG2D(gy, 3, c.march) == -352 by {
      Values2014();
      G2DClosedForm(gy, 3, c.march);
    }
    assert GoDiv(-173, 30) == -5 && GoMod(-173, 30) == -23;
  }

  lemma Legacy1393(jy: int)
    requires jy == 1393
    ensures LegacyJalCal(jy) == Fallible(CalInfo(2, 0, 509), None)
  {
    assert SpanLeaps(Span(11, 1210, 425, 294), 1393) == 339;
    assert LeapIndicatorAsWritten(1393 - 1210, 425) == 2;
    LegacyCalAt(jy, 11, Span(11, 1210, 425, 294), 339, 2);
  }

  /** The legacy `jalCal` of a year once its interval, leap count and indicator are known. */
  lemma LegacyCalAt(jy: int, k: nat, s: Span, leapJ: int, leap: int)
    requires InTable(jy) && 1 <= k < |Breaks| && Breaks[k - 1] <= jy < Breaks[k]
    requires s == Span(k, Breaks[k - 1], Breaks[k] - Breaks[k - 1], LeapsAtBreak[k - 1])
    requires SpanLeaps(s, jy) == leapJ && LeapIndicatorAsWritten(jy - s.start, s.jump) == leap
    ensures LegacyJalCal(jy) == Fallible(CalInfo(leap, 0, 170 + leapJ), None)
  {
    LocateAt(jy, k);
    LegacyCalOfSpan(jy, s);
  }

  lemma LegacyCalOfSpan(jy: int, s: Span)
    requires InTable(jy) && Locate(jy) == s
    ensures LegacyJalCal(jy) == Fallible(CalInfo(LeapIndicatorAsWritten(jy - s.start, s.jump), 0, 170 + SpanLeaps(s, jy)), None)
  {
    LegacyCalFields(jy, s);
  }

  lemma LegacyCalFields(jy: int, s: Span)
    requires InTable(jy) && Locate(jy) == s
    ensures LegacyJalCal(jy).err == None && LegacyJalCal(jy).value.gy == 0
    ensures LegacyJalCal(jy).value.leap == LeapIndicatorAsWritten(jy - s.start, s.jump)
    ensures LegacyJalCal(jy).value.march == 20 + SpanLeaps(s, jy) - GregorianLeaps(0)
  {
  }

}
