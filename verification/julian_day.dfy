/**
 * The Julian Day Number codec of the Gregorian calendar (convertion.go:116-132).
 *
 * `G2D` maps a Gregorian (year, month, day) to its Julian Day Number and `D2G`
 * maps a Julian Day Number back. Both count years from March, so that the leap
 * day is the last day of the counted year: a date in January or February
 * belongs to the "March year" before its calendar year.
 */
module JulianDay {
  import opened GoInt
  import opened Errors

  /** `g2d` of convertion.go:116-122, with Go's truncating division. */
  function G2D(gy: int, gm: int, gd: int): int {
    var shift := GoDiv(gm - 8, 6);
    var d := GoDiv((gy + shift + 100100) * 1461, 4) + GoDiv(153 * GoMod(gm + 9, 12) + 2, 5) + gd - 34840408;
    d - GoDiv(GoDiv(gy + 100100 + shift, 100) * 3, 4) + 752
  }

  /** `d2g` of convertion.go:124-132, with Go's truncating division. */
  function D2G(jdn: int): Date {
    DateOfCount(QuarterCount(jdn))
  }

  /**
   * The first two steps of `d2g` (convertion.go:125-126): four times the day
   * count from a far-off origin, plus three, with the Gregorian century
   * correction folded in.
   */
  function QuarterCount(jdn: int): int {
    var j := 4 * jdn + 139361631;
    j + GoDiv(GoDiv(4 * jdn + 183187720, 146097) * 3, 4) * 4 - 3908
  }

  /** The rest of `d2g` (convertion.go:127-131): year, month and day out of the count. */
  function DateOfCount(j: int): Date {
    var i := GoDiv(GoMod(j, 1461), 4) * 5 + 308;
    var gd := GoDiv(GoMod(i, 153), 5) + 1;
    var gm := GoMod(GoDiv(i, 153), 12) + 1;
    var gy := GoDiv(j, 1461) - 100100 + GoDiv(8 - gm, 6);
    Date(gy, gm, gd)
  }

  // The Gregorian calendar, stated independently of the codec.

  predicate IsGregorianLeap(y: int) {
    y % 4 == 0 && (y % 100 != 0 || y % 400 == 0)
  }

  function GregorianMonthLength(y: int, m: int): int
    requires 1 <= m <= 12
  {
    if m == 2 then (if IsGregorianLeap(y) then 29 else 28)
    else if m == 4 || m == 6 || m == 9 || m == 11 then 30
    else 31
  }

  predicate ValidGregorian(d: Date) {
    1 <= d.month <= 12 && 1 <= d.day <= GregorianMonthLength(d.year, d.month)
  }

  /** Leap years among the years 1 through `y` (less those of `y + 1` through 0 when `y` is negative). */
  function LeapsThrough(y: int): int {
    y / 4 - y / 100 + y / 400
  }

  /**
   * The Julian Day Number of the last day of February that ends the March
   * year `y - 1`; day `d` of March of year `y` is `MarchZero(y) + d`.
   */
  function MarchZero(y: int): int {
    365 * y + LeapsThrough(y) + 1721119
  }

  /** Days from 1 March to the first of the month `m` months later. */
  function MonthOffset(m: int): int
    requires 0 <= m < 12
  {
    (153 * m + 2) / 5
  }

  /** The March year a date belongs to, and the month counted from March (0 for March, 11 for February). */
  function MarchYear(y: int, m: int): int {
    if m <= 2 then y - 1 else y
  }

  function MarchMonth(m: int): int
    requires 1 <= m <= 12
  {
    if m <= 2 then m + 9 else m - 3
  }

  lemma {:induction false} MonthShift(gm: int)
    requires 1 <= gm <= 12
    ensures GoDiv(gm - 8, 6) == if gm <= 2 then -1 else 0
    ensures GoMod(gm + 9, 12) == MarchMonth(gm)
    ensures GoDiv(8 - gm, 6) == if gm <= 2 then 1 else 0
  {
    NonNegativeAgrees(gm + 9, 12);
    if gm <= 2 {
      assert GoDiv(gm - 8, 6) == -1;
    } else {
      assert GoDiv(gm - 8, 6) == 0;
      assert GoDiv(8 - gm, 6) == 0;
    }
  }

  lemma {:induction false} YearTerms(y: int)
    requires -100100 <= y
    ensures GoDiv((y + 100100) * 1461, 4) == 365 * y + y / 4 + 36561525
    ensures GoDiv(GoDiv(y + 100100, 100) * 3, 4) == y / 100 - y / 400 + 750
  {
    NonNegativeAgrees((y + 100100) * 1461, 4);
    NonNegativeAgrees(y + 100100, 100);
    var h := (y + 100100) / 100;
    assert h == y / 100 + 1001;
    NonNegativeAgrees(h * 3, 4);
    assert (h * 3) / 4 == (3 * (y / 100) + 3) / 4 + 750;
    assert (3 * (y / 100) + 3) / 4 == y / 100 - (y / 100) / 4;
    assert (y / 100) / 4 == y / 400;
  }

  /**
   * `G2D` counts days from a fixed origin: a date is the start of its March
   * year plus the days of the preceding months of that year plus its day.
   */
  lemma {:induction false} G2DClosedForm(gy: int, gm: int, gd: int)
    requires 1 <= gm <= 12 && -100100 <= MarchYear(gy, gm)
    ensures G2D(gy, gm, gd) == MarchZero(MarchYear(gy, gm)) + MonthOffset(MarchMonth(gm)) + gd
  {
    MonthShift(gm);
    var y := MarchYear(gy, gm);
    YearTerms(y);
    NonNegativeAgrees(153 * MarchMonth(gm) + 2, 5);
  }

  /** The days `d2g` handles as Go computes them without going below zero: from Julian Day -34839655 on. */
  predicate InCodecRange(jdn: int) {
    -34839655 <= jdn
  }

  /**
   * The count of `QuarterCount` falls into the 400-year cycle `cycle`, its
   * remainder modulo 4 is 3, and a quarter of it is the day number shifted by
   * the century correction.
   */
  lemma {:induction false} QuarterCountShape(jdn: int, cycle: int)
    requires InCodecRange(jdn)
    requires cycle == (4 * jdn + 183187720) / 146097 - 300
    ensures 0 <= cycle
    ensures cycle * 146100 <= QuarterCount(jdn) < cycle * 146100 + 146100
    ensures QuarterCount(jdn) - cycle * 146100 == 146099 ==> cycle % 4 == 0
    ensures QuarterCount(jdn) % 4 == 3
    ensures QuarterCount(jdn) / 4 == jdn + 34839655 + (3 * cycle) / 4
  {
    var a := 4 * jdn + 183187720;
    NonNegativeAgrees(a, 146097);
    NonNegativeAgrees(a / 146097 * 3, 4);
    CountInCycle(jdn, cycle, QuarterCount(jdn));
  }

  /** `QuarterCountShape` with Go's divisions already read as Euclidean ones. */
  lemma CountInCycle(jdn: int, cycle: int, j: int)
    requires InCodecRange(jdn)
    requires cycle == (4 * jdn + 183187720) / 146097 - 300
    requires j == 4 * jdn + 139361631 + (4 * jdn + 183187720) / 146097 * 3 / 4 * 4 - 3908
    ensures 0 <= cycle
    ensures cycle * 146100 <= j < cycle * 146100 + 146100
    ensures j - cycle * 146100 == 146099 ==> cycle % 4 == 0
    ensures j % 4 == 3
    ensures j / 4 == jdn + 34839655 + (3 * cycle) / 4
  {
    var a := 4 * jdn + 183187720;
    var c := a / 146097;
    var e := a % 146097;
    assert a == 146097 * c + e;
    assert j == 4 * jdn + 139357723 + 4 * ((3 * c) / 4);
    assert 4 * ((3 * c) / 4) == 3 * c - (3 * c) % 4;
    var w := e + 3 - (3 * c) % 4;
    assert j == 146100 * cycle + w;
    assert (3 * c) / 4 == (3 * cycle) / 4 + 225;
    QuarterAndThree(j, jdn + 34839655 + (3 * cycle) / 4);
  }

  lemma QuarterAndThree(j: int, q: int)
    requires j == 4 * q + 3
    ensures j % 4 == 3 && j / 4 == q
  {
  }

  /** The month, counted from March, that day `q` of a March year falls in. */
  function MonthOfDay(q: int): int {
    (5 * q + 2) / 153
  }

  lemma MonthOfDayBounds(q: int)
    requires 0 <= q <= 365
    ensures 0 <= MonthOfDay(q) < 12
    ensures MonthOffset(MonthOfDay(q)) <= q
    ensures MonthOfDay(q) < 11 ==> q < MonthOffset(MonthOfDay(q) + 1)
  {
  }

  /** `DateOfCount` splits the count into a March year and a day of it, then the day into month and day. */
  lemma {:induction false} DateOfCountShape(j: int)
    requires 0 <= j && j % 4 == 3
    ensures 1 <= DateOfCount(j).month <= 12
    ensures MarchYear(DateOfCount(j).year, DateOfCount(j).month) == j / 1461 - 100100
    ensures MarchMonth(DateOfCount(j).month) == MonthOfDay((j % 1461) / 4)
    ensures MonthOffset(MarchMonth(DateOfCount(j).month)) + DateOfCount(j).day - 1 == (j % 1461) / 4
  {
    var q := (j % 1461) / 4;
    var m := MonthOfDay(q);
    NonNegativeAgrees(j, 1461);
    NonNegativeAgrees(j % 1461, 4);
    MonthOfDayBounds(q);
    var gm := CountMonth(j, q, m);
    CountDay(j, q, m, gm);
    CountYear(j, gm);
  }

  /** The month of `DateOfCount`: the month `m` counted from March, as a calendar month. */
  lemma CountMonth(j: int, q: int, m: int) returns (gm: int)
    requires 0 <= q <= 365 && GoDiv(GoMod(j, 1461), 4) == q && m == MonthOfDay(q) && 0 <= m < 12
    ensures gm == DateOfCount(j).month && 1 <= gm <= 12 && MarchMonth(gm) == m
  {
    var i := q * 5 + 308;
    NonNegativeAgrees(i, 153);
    DivideBy(i, 153, m + 2, 5 * q + 2 - 153 * m);
    NonNegativeAgrees(m + 2, 12);
    gm := (m + 2) % 12 + 1;
    assert gm == if m <= 9 then m + 3 else m - 9;
  }

  /** The day of `DateOfCount`: what is left of day `q` past the first of month `m`. */
  lemma CountDay(j: int, q: int, m: int, gm: int)
    requires 0 <= q <= 365 && GoDiv(GoMod(j, 1461), 4) == q && m == MonthOfDay(q) && 0 <= m < 12
    requires MonthOffset(m) <= q && gm == DateOfCount(j).month && MarchMonth(gm) == m
    ensures MonthOffset(m) + DateOfCount(j).day - 1 == q
  {
    var i := q * 5 + 308;
    NonNegativeAgrees(i, 153);
    DivideBy(i, 153, m + 2, 5 * q + 2 - 153 * m);
    NonNegativeAgrees(5 * q + 2 - 153 * m, 5);
  }

  /** The year of `DateOfCount`: the March year, plus one for January and February. */
  lemma CountYear(j: int, gm: int)
    requires 0 <= j && gm == DateOfCount(j).month && 1 <= gm <= 12
    ensures MarchYear(DateOfCount(j).year, gm) == j / 1461 - 100100
  {
    NonNegativeAgrees(j, 1461);
    MonthShift(gm);
  }

  lemma StepDiv(y: int)
    ensures (y + 1) / 4 - y / 4 == if (y + 1) % 4 == 0 then 1 else 0
    ensures (y + 1) / 100 - y / 100 == if (y + 1) % 100 == 0 then 1 else 0
    ensures (y + 1) / 400 - y / 400 == if (y + 1) % 400 == 0 then 1 else 0
  {
  }

  /** A March year is 365 days long, 366 when the February that ends it has a leap day. */
  lemma {:induction false} MarchYearLength(y: int)
    ensures MarchZero(y + 1) - MarchZero(y) == if IsGregorianLeap(y + 1) then 366 else 365
  {
    StepDiv(y);
    Divisibility(y + 1);
  }

  lemma Divisibility(x: int)
    ensures x % 400 == 0 ==> x % 100 == 0
    ensures x % 100 == 0 ==> x % 4 == 0
  {
    if x % 400 == 0 {
      DivideBy(x, 100, 4 * (x / 400), 0);
    }
    if x % 100 == 0 {
      DivideBy(x, 4, 25 * (x / 100), 0);
    }
  }

  lemma {:induction false} QuarterSplit(j: int)
    requires 0 <= j && j % 4 == 3
    ensures (j / 1461 * 1461) / 4 + (j % 1461) / 4 == j / 4
  {
    var y, r := j / 1461, j % 1461;
    var a, b, c, e := y / 4, y % 4, r / 4, r % 4;
    DivideBy(y * 1461, 4, 365 * y + a, b);
    assert j == 4 * (365 * y + a + c) + (b + e);
    DivideBy(j, 4, 365 * y + a + c + (b + e) / 4, (b + e) % 4);
    DivideBy(j, 4, 365 * y + a + c, b + e);
  }

  lemma {:induction false} DayFromCount(j: int, cycle: int, jdn: int)
    requires 0 <= j && j % 4 == 3
    requires cycle * 146100 <= j < cycle * 146100 + 146100
    requires j / 4 == jdn + 34839655 + (3 * cycle) / 4
    ensures jdn == MarchZero(j / 1461 - 100100) + (j % 1461) / 4 + 1
  {
    var big := j / 1461;
    assert big / 100 == cycle by {
      assert big / 100 == j / 146100;
    }
    YearTerms(big - 100100);
    QuarterSplit(j);
  }

  lemma {:induction false} LeapDayFromCount(j: int, cycle: int)
    requires 0 <= j && j % 4 == 3
    requires cycle * 146100 <= j < cycle * 146100 + 146100
    requires j - cycle * 146100 == 146099 ==> cycle % 4 == 0
    ensures (j % 1461) / 4 < MarchZero(j / 1461 - 100099) - MarchZero(j / 1461 - 100100)
  {
    var big := j / 1461;
    var r := j % 1461;
    assert j == 1461 * big + r;
    assert big / 100 == cycle by {
      assert big / 100 == j / 146100;
    }
    MarchYearLength(big - 100100);
    if r / 4 == 365 {
      LastDayIsLeap(big, cycle);
    }
  }

  lemma {:induction false} LastDayIsLeap(big: int, cycle: int)
    requires 0 <= big && big / 100 == cycle
    requires (1461 * big + 1460) % 4 == 3
    requires 1461 * big + 1460 - cycle * 146100 == 146099 ==> cycle % 4 == 0
    ensures IsGregorianLeap(big - 100099)
  {
    DivideBy(1461 * big + 1460, 4, 365 * big + 365 + big / 4, big % 4);
    assert big % 4 == 3;
    var k := big % 100;
    DivideBy(big, 100, cycle, k);
    DivideBy(big + 1, 4, big / 4 + 1, 0);
    DivideBy(big - 100099, 4, big / 4 + 1 - 25025, 0);
    if k == 99 {
      assert cycle % 4 == 0;
      DivideBy(cycle - 1000, 4, cycle / 4 - 250, 0);
      DivideBy(big - 100099, 400, cycle / 4 - 250, 0);
      DivideBy(big - 100099, 100, cycle - 1000, 0);
    } else {
      DivideBy(big - 100099, 100, cycle - 1001, k + 1);
    }
  }

  /** The day of its March year a valid date falls on, counted from 0 for 1 March. */
  function DayOfMarchYear(d: Date): int
    requires 1 <= d.month <= 12
  {
    MonthOffset(MarchMonth(d.month)) + d.day - 1
  }

  /**
   * What `D2G` computes, in calendar terms: the March year `y` that holds the
   * day and the day `q` of that year, `jdn == MarchZero(y) + q + 1`.
   */
  lemma {:induction false} D2GMarchDay(jdn: int)
    requires InCodecRange(jdn)
    ensures 1 <= D2G(jdn).month <= 12
    ensures -100100 <= MarchYear(D2G(jdn).year, D2G(jdn).month)
    ensures jdn == MarchZero(MarchYear(D2G(jdn).year, D2G(jdn).month)) + DayOfMarchYear(D2G(jdn)) + 1
    ensures 0 <= DayOfMarchYear(D2G(jdn))
            < MarchZero(MarchYear(D2G(jdn).year, D2G(jdn).month) + 1) - MarchZero(MarchYear(D2G(jdn).year, D2G(jdn).month))
    ensures MarchMonth(D2G(jdn).month) == MonthOfDay(DayOfMarchYear(D2G(jdn)))
  {
    var cycle := (4 * jdn + 183187720) / 146097 - 300;
    QuarterCountShape(jdn, cycle);
    var j := QuarterCount(jdn);
    DateOfCountShape(j);
    DayFromCount(j, cycle, jdn);
    LeapDayFromCount(j, cycle);
  }

  /** A valid date lies inside its March year, in the month `MonthOfDay` finds. */
  lemma {:induction false} ValidDayOfYear(d: Date)
    requires ValidGregorian(d)
    ensures 0 <= DayOfMarchYear(d) < MarchZero(MarchYear(d.year, d.month) + 1) - MarchZero(MarchYear(d.year, d.month))
    ensures MonthOfDay(DayOfMarchYear(d)) == MarchMonth(d.month)
  {
    MarchYearLength(MarchYear(d.year, d.month));
  }

  /** Conversely, a day of a March year inside the year's length makes a valid date. */
  lemma {:induction false} DayOfYearValid(d: Date)
    requires 1 <= d.month <= 12
    requires 0 <= DayOfMarchYear(d) < MarchZero(MarchYear(d.year, d.month) + 1) - MarchZero(MarchYear(d.year, d.month))
    requires MonthOfDay(DayOfMarchYear(d)) == MarchMonth(d.month)
    ensures ValidGregorian(d)
  {
    MarchYearLength(MarchYear(d.year, d.month));
    MonthOfDayBounds(DayOfMarchYear(d));
  }

  lemma {:induction false} MarchZeroGrows(a: int, b: int)
    requires a < b
    ensures MarchZero(a + 1) <= MarchZero(b)
    decreases b - a
  {
    if a + 1 < b {
      MarchZeroGrows(a + 1, b);
      MarchYearLength(a + 1);
    }
  }

  /** Only one March year and day of it give a Julian Day Number. */
  lemma {:induction false} MarchDayUnique(y1: int, q1: int, y2: int, q2: int)
    requires 0 <= q1 < MarchZero(y1 + 1) - MarchZero(y1)
    requires 0 <= q2 < MarchZero(y2 + 1) - MarchZero(y2)
    requires MarchZero(y1) + q1 == MarchZero(y2) + q2
    ensures y1 == y2 && q1 == q2
  {
    if y1 < y2 {
      MarchZeroGrows(y1, y2);
    } else if y2 < y1 {
      MarchZeroGrows(y2, y1);
    }
  }

  /** The first day `G2D` and `D2G` handle with Go's arithmetic is 1 March of year -100100. */
  lemma CodecRangeStart()
    ensures MarchZero(-100100) + 1 == -34839655
  {
  }

  /**
   * `D2G` yields a valid Gregorian date, and `G2D` maps it back to the day
   * it came from.
   */
  lemma {:induction false} D2GRoundTrip(jdn: int)
    requires InCodecRange(jdn)
    ensures ValidGregorian(D2G(jdn))
    ensures G2D(D2G(jdn).year, D2G(jdn).month, D2G(jdn).day) == jdn
  {
    var d := D2G(jdn);
    D2GMarchDay(jdn);
    DayOfYearValid(d);
    G2DClosedForm(d.year, d.month, d.day);
  }

  /** A date is fixed by its March year and its day of that year. */
  lemma {:induction false} SameMarchDay(d: Date, e: Date)
    requires 1 <= d.month <= 12 && 1 <= e.month <= 12
    requires MarchYear(d.year, d.month) == MarchYear(e.year, e.month)
    requires DayOfMarchYear(d) == DayOfMarchYear(e)
    requires MonthOfDay(DayOfMarchYear(d)) == MarchMonth(d.month)
    requires MonthOfDay(DayOfMarchYear(e)) == MarchMonth(e.month)
    ensures d == e
  {
  }

  lemma {:induction false} G2DInCodecRange(d: Date)
    requires 1 <= d.month <= 12 && -100100 <= MarchYear(d.year, d.month) && 0 <= DayOfMarchYear(d)
    ensures G2D(d.year, d.month, d.day) == MarchZero(MarchYear(d.year, d.month)) + DayOfMarchYear(d) + 1
    ensures InCodecRange(G2D(d.year, d.month, d.day))
  {
    var y := MarchYear(d.year, d.month);
    G2DClosedForm(d.year, d.month, d.day);
    if y > -100100 {
      MarchZeroGrows(-100100, y);
      MarchYearLength(-100100);
    }
    CodecRangeStart();
  }

  /** Two dates at the same day number, one valid and one as `D2G` describes its result, coincide. */
  lemma {:induction false} SameDay(d: Date, e: Date, jdn: int)
    requires ValidGregorian(d) && 1 <= e.month <= 12
    requires jdn == MarchZero(MarchYear(d.year, d.month)) + DayOfMarchYear(d) + 1
    requires jdn == MarchZero(MarchYear(e.year, e.month)) + DayOfMarchYear(e) + 1
    requires 0 <= DayOfMarchYear(e) < MarchZero(MarchYear(e.year, e.month) + 1) - MarchZero(MarchYear(e.year, e.month))
    requires MarchMonth(e.month) == MonthOfDay(DayOfMarchYear(e))
    ensures d == e
  {
    ValidDayOfYear(d);
    SameYearPosition(d, e, MarchYear(d.year, d.month), DayOfMarchYear(d), MarchYear(e.year, e.month), DayOfMarchYear(e));
  }

  /** `SameDay` with the March years and days of the two dates named. */
  lemma SameYearPosition(d: Date, e: Date, y1: int, q1: int, y2: int, q2: int)
    requires 1 <= d.month <= 12 && 1 <= e.month <= 12
    requires y1 == MarchYear(d.year, d.month) && q1 == DayOfMarchYear(d)
    requires y2 == MarchYear(e.year, e.month) && q2 == DayOfMarchYear(e)
    requires 0 <= q1 < MarchZero(y1 + 1) - MarchZero(y1) && MonthOfDay(q1) == MarchMonth(d.month)
    requires 0 <= q2 < MarchZero(y2 + 1) - MarchZero(y2) && MonthOfDay(q2) == MarchMonth(e.month)
    requires MarchZero(y1) + q1 == MarchZero(y2) + q2
    ensures d == e
  {
    MarchDayUnique(y1, q1, y2, q2);
    SameMarchDay(d, e);
  }

  /** `D2G` finds the valid date that lies at a given day of a given March year. */
  lemma {:induction false} D2GFindsDate(jdn: int, d: Date)
    requires ValidGregorian(d) && InCodecRange(jdn)
    requires jdn == MarchZero(MarchYear(d.year, d.month)) + DayOfMarchYear(d) + 1
    ensures D2G(jdn) == d
  {
    D2GMarchDay(jdn);
    SameDay(d, D2G(jdn), jdn);
  }

  /**
   * `G2D` maps a valid Gregorian date from 1 March of year -100100 on to a day
   * `D2G` maps back to the same date.
   */
  lemma {:induction false} G2DRoundTrip(d: Date)
    requires ValidGregorian(d) && -100100 <= MarchYear(d.year, d.month)
    ensures InCodecRange(G2D(d.year, d.month, d.day))
    ensures D2G(G2D(d.year, d.month, d.day)) == d
  {
    ValidDayOfYear(d);
    G2DInCodecRange(d);
    D2GFindsDate(G2D(d.year, d.month, d.day), d);
  }

  /** The Julian Day Number of 1 January of Gregorian year `y`. */
  function NewYearDay(y: int): int {
    MarchZero(y - 1) + MonthOffset(10) + 1
  }

  /** `NewYearDay` is 1 January, and `d2g` reads it back as such. */
  lemma {:induction false} NewYearDayIsFirstJanuary(y: int, d: Date)
    requires -100100 <= y - 1 && d == Date(y, 1, 1)
    ensures G2D(y, 1, 1) == NewYearDay(y)
    ensures D2G(NewYearDay(y)) == d
  {
    G2DClosedForm(y, 1, 1);
    G2DRoundTrip(d);
  }

  lemma MonthOfDayInYear(q: int)
    requires 0 <= q <= 365
    ensures MonthOfDay(q) >= 10 <==> q >= MonthOffset(10)
  {
  }

  /** A date that lies at its March year's day is in the calendar year between two 1 Januaries. */
  lemma {:induction false} YearBracket(e: Date, jdn: int)
    requires 1 <= e.month <= 12
    requires jdn == MarchZero(MarchYear(e.year, e.month)) + DayOfMarchYear(e) + 1
    requires 0 <= DayOfMarchYear(e) < MarchZero(MarchYear(e.year, e.month) + 1) - MarchZero(MarchYear(e.year, e.month))
    requires MarchMonth(e.month) == MonthOfDay(DayOfMarchYear(e))
    ensures NewYearDay(e.year) <= jdn < NewYearDay(e.year + 1)
  {
    var q := DayOfMarchYear(e);
    MarchYearLength(MarchYear(e.year, e.month));
    MonthOfDayInYear(q);
    assert MonthOffset(10) == 306;
    if e.month <= 2 {
      assert q >= 306;
      var z := MarchZero(e.year - 1);
      assert jdn == z + q + 1;
      assert MarchZero(e.year) - z >= q + 1;
    } else {
      assert q < 306;
      MarchYearLength(e.year - 1);
      assert jdn == MarchZero(e.year) + q + 1;
    }
  }

  /** The year `D2G` reports is the one whose 1 January comes last on or before the day. */
  lemma {:induction false} D2GYearBracket(jdn: int)
    requires InCodecRange(jdn)
    ensures NewYearDay(D2G(jdn).year) <= jdn < NewYearDay(D2G(jdn).year + 1)
  {
    D2GMarchDay(jdn);
    YearBracket(D2G(jdn), jdn);
  }

  lemma {:induction false} NewYearDayGrows(a: int, b: int)
    requires a < b
    ensures NewYearDay(a + 1) <= NewYearDay(b)
  {
    if a + 1 < b {
      MarchZeroGrows(a, b - 1);
    }
  }

  /** Conversely, a day between two consecutive 1 Januaries belongs to the first one's year. */
  lemma {:induction false} D2GYear(jdn: int, y: int)
    requires InCodecRange(jdn)
    requires NewYearDay(y) <= jdn < NewYearDay(y + 1)
    ensures D2G(jdn).year == y
  {
    var gy := D2G(jdn).year;
    D2GYearBracket(jdn);
    if gy < y {
      NewYearDayGrows(gy, y);
    } else if y < gy {
      NewYearDayGrows(y, gy);
    }
  }
}
