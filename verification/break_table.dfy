/**
 * The break table and the Jalaali calendar calculator `jalCal`
 * (convertion.go:5-8 and 71-114).
 *
 * For a Jalaali year `jy`, `jalCal` reports the years elapsed since the last
 * leap year (the leap indicator: 0 means `jy` itself is leap), the Gregorian
 * year `jy + 621` in which the year starts, and the day of March of that
 * Gregorian year on which Farvardin 1 falls.
 */
module BreakTable {
  import opened GoInt
  import opened Errors

  /** Jalaali years at which the 33-year leap cadence shifts. */
  const Breaks: seq<int> := [-61, 9, 38, 199, 426, 686, 756, 818, 1111, 1181, 1210,
    1635, 2060, 2097, 2192, 2262, 2324, 2394, 2456, 3178]

  /** What `jalCal` returns besides its error: (leap, gy, march). */
  datatype CalInfo = CalInfo(leap: int, gy: int, march: int)

  /** The years `jalCal` accepts: from the first break up to, excluding, the last. */
  predicate InTable(jy: int) {
    Breaks[0] <= jy < Breaks[|Breaks| - 1]
  }

  lemma BreaksAscending()
    ensures |Breaks| == 20
    ensures forall i :: 0 < i < |Breaks| ==> Breaks[i - 1] < Breaks[i]
  {
  }

  /** Every interval of the table is at least 29 years long and is 4 or 29 years past a multiple of 33. */
  lemma JumpShapeAt(k: nat)
    requires 0 < k < |Breaks|
    ensures JumpShape(Breaks[k] - Breaks[k - 1])
  {
    var jumps := [70, 29, 161, 227, 260, 70, 62, 293, 70, 29, 425, 425, 37, 95, 70, 62, 70, 62, 722];
    assert Breaks[k] - Breaks[k - 1] == jumps[k - 1];
    JumpShapeValues();
  }

  lemma JumpShapeValues()
    ensures JumpShape(29) && JumpShape(37) && JumpShape(62) && JumpShape(70) && JumpShape(95)
    ensures JumpShape(161) && JumpShape(227) && JumpShape(260) && JumpShape(293)
    ensures JumpShape(425) && JumpShape(722)
  {
  }

  predicate JumpShape(jump: int) {
    || (jump % 33 == 29 && 29 <= jump)
    || (jump % 33 == 4 && 37 <= jump)
  }

  lemma {:induction false} BreaksMonotone(i: nat, j: nat)
    requires i <= j < |Breaks|
    ensures Breaks[i] <= Breaks[j]
    decreases j - i
  {
    BreaksAscending();
    if i < j {
      BreaksMonotone(i, j - 1);
    }
  }

  /** The leap days a complete interval of `jump` years adds to the count (convertion.go:86). */
  function IntervalLeaps(jump: int): int {
    GoDiv(jump, 33) * 8 + GoDiv(GoMod(jump, 33), 4)
  }

  /** The leap days of the complete intervals that run from `prev` through the breaks `t`. */
  function RunLeaps(prev: int, t: seq<int>): int
    decreases |t|
  {
    if |t| == 0 then 0 else IntervalLeaps(t[0] - prev) + RunLeaps(t[0], t[1..])
  }

  /**
   * Where a year falls in the table: the interval `index` with
   * `Breaks[index-1] <= jy < Breaks[index]`, its first year `start`, its
   * length `jump`, and the leap count `leapJ` accumulated before it.
   */
  datatype Span = Span(index: nat, start: int, jump: int, leapJ: int)

  /**
   * The loop of convertion.go:80-88 over the breaks `rest` still ahead, with
   * `jp` and `leapJ` the values the loop carries; the loop stops at the first
   * break above `jy`. The returned index counts into `rest`.
   */
  function Walk(jy: int, rest: seq<int>, jp: int, leapJ: int): (s: Span)
    requires |rest| > 0 && jp <= jy < rest[|rest| - 1]
    decreases |rest|
    ensures s.index < |rest|
    ensures s.start <= jy < s.start + s.jump == rest[s.index]
    ensures s.start == if s.index == 0 then jp else rest[s.index - 1]
    ensures s.leapJ == leapJ + RunLeaps(jp, rest[..s.index])
  {
    var jm := rest[0];
    var jump := jm - jp;
    if jy < jm then Span(0, jp, jump, leapJ)
    else
      var s := Walk(jy, rest[1..], jm, leapJ + IntervalLeaps(jump));
      assert rest[..s.index + 1][1..] == rest[1..][..s.index];
      s.(index := s.index + 1)
  }

  /** The interval of the table holding `jy`, found by walking from the first break. */
  function Locate(jy: int): (s: Span)
    requires InTable(jy)
    ensures 1 <= s.index < |Breaks|
    ensures s.start == Breaks[s.index - 1] <= jy < Breaks[s.index]
    ensures s.jump == Breaks[s.index] - s.start
    ensures s.leapJ == -14 + RunLeaps(Breaks[0], Breaks[1..s.index])
  {
    var s := Walk(jy, Breaks[1..], Breaks[0], -14);
    assert Breaks[1..][..s.index] == Breaks[1..s.index + 1];
    s.(index := s.index + 1)
  }

  /** Only one interval holds a given year. */
  lemma {:induction false} LocateUnique(jy: int, k: nat)
    requires InTable(jy)
    requires 1 <= k < |Breaks| && Breaks[k - 1] <= jy < Breaks[k]
    ensures Locate(jy).index == k
  {
    var s := Locate(jy);
    if s.index < k {
      BreaksMonotone(s.index, k - 1);
    } else if k < s.index {
      BreaksMonotone(k, s.index - 1);
    }
  }

  /** Leap days gained after `n` years into an interval, by the 33-year rule (convertion.go:93). */
  function CycleLeaps(n: int): int {
    GoDiv(n, 33) * 8 + GoDiv(GoMod(n, 33) + 3, 4)
  }

  /** The tie-break of convertion.go:94-96. */
  function Correction(jump: int, n: int): int {
    if GoMod(jump, 33) == 4 && jump - n == 4 then 1 else 0
  }

  /** `leapJ`: Jalaali leap years from AD 621 to the start of `jy` (convertion.go:79-96). */
  function JalaaliLeaps(jy: int): int
    requires InTable(jy)
  {
    SpanLeaps(Locate(jy), jy)
  }

  /** The leap count at the start of `jy`, counted from the start of the interval `s`. */
  function SpanLeaps(s: Span, jy: int): int {
    var n := jy - s.start;
    s.leapJ + CycleLeaps(n) + Correction(s.jump, n)
  }

  /** `leapG`: the same count on the Gregorian side (convertion.go:99). */
  function GregorianLeaps(gy: int): int {
    GoDiv(gy, 4) - GoDiv((GoDiv(gy, 100) + 1) * 3, 4) - 150
  }

  /** Day of March of Gregorian year jy + 621 on which Farvardin 1 of `jy` falls (convertion.go:102). */
  function March(jy: int): int
    requires InTable(jy)
  {
    20 + JalaaliLeaps(jy) - GregorianLeaps(jy + 621)
  }

  /**
   * The leap indicator exactly as convertion.go:105-111 computes it: near the
   * end of an interval it subtracts `div(jump+4, 33)*33` where it should add it.
   */
  function LeapIndicatorAsWritten(n: int, jump: int): int {
    IndicatorOf(if jump - n < 6 then n - (jump + GoDiv(jump + 4, 33) * 33) else n)
  }

  /** The leap indicator with the sign of the end-of-interval shift corrected. */
  function LeapIndicator(n: int, jump: int): int {
    IndicatorOf(if jump - n < 6 then n - jump + GoDiv(jump + 4, 33) * 33 else n)
  }

  /** convertion.go:108-111: the position of the (shifted) year count in its leap cycle, -1 read as 4. */
  function IndicatorOf(n: int): int {
    var leap := GoMod(GoMod(n + 1, 33) - 1, 4);
    if leap == -1 then 4 else leap
  }

  lemma LocatedShape(jy: int)
    requires InTable(jy)
    ensures JumpShape(Locate(jy).jump)
    ensures 0 <= jy - Locate(jy).start < Locate(jy).jump
  {
    var s := Locate(jy);
    JumpShapeOf(s.index, s.start, s.jump);
  }

  /** `JumpShapeAt` for the `k`th interval, which starts at `start` and lasts `jump` years. */
  lemma JumpShapeOf(k: nat, start: int, jump: int)
    requires 1 <= k < |Breaks| && start == Breaks[k - 1] && jump == Breaks[k] - start
    ensures JumpShape(jump)
  {
    JumpShapeAt(k);
  }

  /** Inside an interval of the table's shape, the corrected indicator lies in 0..4. */
  lemma IndicatorRange(n: int, jump: int)
    requires JumpShape(jump) && 0 <= n < jump
    ensures 0 <= LeapIndicator(n, jump) <= 4
  {
    if jump - n < 6 {
      NonNegativeAgrees(jump + 4, 33);
      assert n - jump + GoDiv(jump + 4, 33) * 33 >= 0;
    }
  }

  lemma LocatedIndicator(jy: int)
    requires InTable(jy)
    ensures 0 <= LeapIndicator(jy - Locate(jy).start, Locate(jy).jump) <= 4
  {
    LocatedShape(jy);
    IndicatorRange(jy - Locate(jy).start, Locate(jy).jump);
  }

  /** `jalCal` of convertion.go:71-114 exactly as written. */
  function JalCalAsWritten(jy: int): (r: Fallible<CalInfo>)
    ensures r.Failed() <==> jy < -61 || 3178 <= jy
    ensures r.Failed() ==> r == Fallible(CalInfo(0, 0, 0), Some(ErrorInvalidYear(jy)))
    ensures !r.Failed() ==> r.value.gy == jy + 621 && r.value.march == March(jy)
    ensures !r.Failed() ==> r.value.leap != -1 && -3 <= r.value.leap <= 4
  {
    if jy < Breaks[0] || jy >= Breaks[|Breaks| - 1] then
      Fallible(CalInfo(0, 0, 0), Some(ErrorInvalidYear(jy)))
    else
      var s := Locate(jy);
      Fallible(CalInfo(LeapIndicatorAsWritten(jy - s.start, s.jump), jy + 621, March(jy)), None)
  }

  /**
   * `jalCal` with the leap indicator corrected. It differs from
   * `JalCalAsWritten` only in the indicator; the public operations run on
   * `JalCalAsWritten`, and this one backs the corrected round trips.
   */
  function JalCal(jy: int): (r: Fallible<CalInfo>)
    ensures r.Failed() <==> jy < -61 || 3178 <= jy
    ensures r.Failed() ==> r == Fallible(CalInfo(0, 0, 0), Some(ErrorInvalidYear(jy)))
    ensures !r.Failed() ==> r.value.gy == jy + 621 && 0 <= r.value.leap <= 4
    ensures !r.Failed() ==> r.value.march == March(jy) == JalCalAsWritten(jy).value.march
  {
    if jy < Breaks[0] || jy >= Breaks[|Breaks| - 1] then
      Fallible(CalInfo(0, 0, 0), Some(ErrorInvalidYear(jy)))
    else
      var s := Locate(jy);
      LocatedIndicator(jy);
      Fallible(CalInfo(LeapIndicator(jy - s.start, s.jump), jy + 621, March(jy)), None)
  }

  // Where the two indicators part: only in the last five years of an
  // interval, and there the `leap == 0` test differs exactly four and five
  // years before the next break, the `leap == 1` test exactly four years before.

  /** Years from `jy` to the next break of the table: 1 for the last year of an interval. */
  function YearsToBreak(jy: int): (t: int)
    requires InTable(jy)
    ensures 1 <= t && jy + t == Breaks[Locate(jy).index]
  {
    Locate(jy).start + Locate(jy).jump - jy
  }

  lemma RemainderBy33(q: int, r: int)
    requires 0 <= q && 0 <= r < 33
    ensures GoMod(33 * q + r, 33) == r
    ensures GoMod(-(33 * q + r), 33) == -r
  {
    NonNegativeAgrees(33 * q + r, 33);
    DivideBy(33 * q + r, 33, q, r);
  }

  /**
   * Both indicators `t = jump - n` years before the end of an interval, for
   * `t` in 1..5: the corrected one counts down 4, 3, 2, 1, 0 towards the
   * break; the one as written reads 4, 0, -3, -2, 4.
   */
  lemma ZoneIndicators(n: int, jump: int)
    requires JumpShape(jump) && 0 <= n < jump && jump - n < 6
    ensures LeapIndicator(n, jump) == 5 - (jump - n)
    ensures LeapIndicatorAsWritten(n, jump)
            == match jump - n
               case 1 => 4
               case 2 => -2
               case 3 => -3
               case 4 => 0
               case _ => 4
  {
    var t := jump - n;
    var q := GoDiv(jump + 4, 33);
    NonNegativeAgrees(jump + 4, 33);
    if jump % 33 == 29 {
      DivideBy(jump + 4, 33, jump / 33 + 1, 0);
    } else {
      DivideBy(jump + 4, 33, jump / 33, 8);
    }
    CorrectedZone(n - jump + q * 33, q, t);
    AsWrittenZone(n - (jump + q * 33), q, t);
  }

  /** The corrected indicator `t` years before a break, from the shifted count `c`. */
  lemma CorrectedZone(c: int, q: int, t: int)
    requires 1 <= t <= 5 && 1 <= q && c + t == 33 * q
    ensures IndicatorOf(c) == 5 - t
  {
    if t == 1 {
      RemainderBy33(q, 0);
      TruncationVersusFloor(-1, 4);
    } else {
      RemainderBy33(q - 1, 34 - t);
      NonNegativeAgrees(33 - t, 4);
    }
  }

  /** The indicator as written `t` years before a break, from its count `w` that the sign error took below zero. */
  lemma AsWrittenZone(w: int, q: int, t: int)
    requires 1 <= t <= 5 && 1 <= q && w + 1 == -(33 * q + (t - 1))
    ensures IndicatorOf(w)
            == match t
               case 1 => 4
               case 2 => -2
               case 3 => -3
               case 4 => 0
               case _ => 4
  {
    RemainderBy33(q, t - 1);
    TruncationVersusFloor(-t, 4);
  }

  /**
   * What the sign error costs: the leap test `leap == 0` of the code as
   * written disagrees with the corrected one exactly four and five years
   * before a break, the test `leap == 1` exactly four years before; from six
   * years out the two calculators agree outright.
   */
  lemma {:induction false} AsWrittenLeapTest(jy: int)
    requires InTable(jy)
    ensures TestsCompared(JalCalAsWritten(jy).value.leap, JalCal(jy).value.leap, YearsToBreak(jy))
    ensures 6 <= YearsToBreak(jy) ==> JalCalAsWritten(jy) == JalCal(jy)
  {
    var s := Locate(jy);
    LocatedShape(jy);
    LeapFields(jy);
    IndicatorsCompared(jy - s.start, s.jump, JalCalAsWritten(jy).value.leap, JalCal(jy).value.leap, YearsToBreak(jy));
  }

  /** The two indicators `jalCal` returns for a year of the table, in terms of its interval. */
  lemma LeapFields(jy: int)
    requires InTable(jy)
    ensures JalCalAsWritten(jy).value.leap == LeapIndicatorAsWritten(jy - Locate(jy).start, Locate(jy).jump)
    ensures JalCal(jy).value.leap == LeapIndicator(jy - Locate(jy).start, Locate(jy).jump)
  {
  }

  /**
   * How the two leap tests compare for a year `t` years before the next
   * break, whose indicators are `a` as written and `c` corrected: the
   * `leap == 0` tests differ exactly four and five years out and the
   * `leap == 1` tests exactly four years out. There the corrected indicator
   * is `5 - t` and the as-written one is 0 or 4. Further out the two are equal.
   */
  predicate TestsCompared(a: int, c: int, t: int) {
    && ((a == 0) == (c == 0) <==> t != 4 && t != 5)
    && ((a == 1) == (c == 1) <==> t != 4)
    && (t <= 5 ==> c == 5 - t)
    && (t == 4 ==> a == 0) && (t == 5 ==> a == 4) && (6 <= t ==> a == c)
  }

  /**
   * `AsWrittenLeapTest` for the year `n` of an interval of length `jump`,
   * `t` years before its end, whose indicators are `a` as written and `c`
   * corrected.
   */
  lemma IndicatorsCompared(n: int, jump: int, a: int, c: int, t: int)
    requires JumpShape(jump) && 0 <= n < jump && t == jump - n
    requires a == LeapIndicatorAsWritten(n, jump) && c == LeapIndicator(n, jump)
    ensures TestsCompared(a, c, t)
  {
    if jump - n < 6 {
      ZoneIndicators(n, jump);
    } else {
      IndicatorRange(n, jump);
    }
  }

  lemma JalCalAsWrittenLeap(jy: int)
    requires InTable(jy)
    ensures JalCalAsWritten(jy) == Fallible(CalInfo(LeapIndicatorAsWritten(jy - Locate(jy).start, Locate(jy).jump), jy + 621, March(jy)), None)
    ensures JalCal(jy) == Fallible(CalInfo(LeapIndicator(jy - Locate(jy).start, Locate(jy).jump), jy + 621, March(jy)), None)
  {
  }

  /** The distance to the next break, for a year in the `k`th interval. */
  lemma YearsToBreakAt(jy: int, k: nat)
    requires InTable(jy) && 1 <= k < |Breaks| && Breaks[k - 1] <= jy < Breaks[k]
    ensures YearsToBreak(jy) == Breaks[k] - jy
  {
    LocateUnique(jy, k);
  }

  // The leap cycle: each year gains one leap day over the previous exactly
  // when the corrected indicator marks the previous year leap.

  /** The indicator computed with Euclidean arithmetic on an already shifted, non-negative `m`. */
  function IndicatorOfShifted(m: nat): int {
    var r := (m + 1) % 33;
    if r == 0 then 4 else (r - 1) % 4
  }

  function Shifted(n: int, jump: int): int {
    if jump - n < 6 then n - jump + (jump + 4) / 33 * 33 else n
  }

  lemma IndicatorEuclidean(n: int, jump: int)
    requires JumpShape(jump) && 0 <= n < jump
    ensures Shifted(n, jump) >= 0
    ensures LeapIndicator(n, jump) == IndicatorOfShifted(Shifted(n, jump))
  {
    ShiftedAgrees(n, jump);
    IndicatorOfCount(Shifted(n, jump));
  }

  lemma ShiftedAgrees(n: int, jump: int)
    requires JumpShape(jump) && 0 <= n < jump
    ensures Shifted(n, jump) >= 0
    ensures (if jump - n < 6 then n - jump + GoDiv(jump + 4, 33) * 33 else n) == Shifted(n, jump)
  {
    NonNegativeAgrees(jump + 4, 33);
  }

  lemma IndicatorOfCount(m: nat)
    ensures IndicatorOf(m) == IndicatorOfShifted(m)
  {
    NonNegativeAgrees(m + 1, 33);
    var r := (m + 1) % 33;
    if r == 0 {
      assert GoMod(-1, 4) == -1;
    } else {
      NonNegativeAgrees(r - 1, 4);
    }
  }

  /** `CycleLeaps` with Euclidean arithmetic, for a non-negative year count. */
  function CycleOf(n: nat): int {
    (n / 33) * 8 + (n % 33 + 3) / 4
  }

  lemma CycleEuclidean(n: int, jump: int)
    requires 0 <= n && 0 <= jump
    ensures CycleLeaps(n) == CycleOf(n)
    ensures Correction(jump, n) == if jump % 33 == 4 && jump - n == 4 then 1 else 0
  {
    NonNegativeAgrees(n, 33);
    NonNegativeAgrees(n % 33 + 3, 4);
    NonNegativeAgrees(jump, 33);
  }

  /** Away from the end of an interval the 33-year rule gains a day exactly after a leap year. */
  lemma PlainStep(n: nat)
    ensures CycleOf(n + 1) - CycleOf(n) == if IndicatorOfShifted(n) == 0 then 1 else 0
    ensures IndicatorOfShifted(n + 1) == 1 <==> IndicatorOfShifted(n) == 0
  {
    var q, m := n / 33, n % 33;
    if m == 32 {
      CycleWraps(n, q);
    } else if m == 31 {
      CycleEnds(n, q);
    } else {
      CycleInside(n, q, m);
    }
  }

  /** The step from the last year of a 33-year cycle into the next cycle. */
  lemma CycleWraps(n: nat, q: int)
    requires n == 33 * q + 32
    ensures CycleOf(n + 1) - CycleOf(n) == 0 && IndicatorOfShifted(n) == 4
    ensures IndicatorOfShifted(n + 1) == 0
  {
    DivideBy(n, 33, q, 32);
    DivideBy(n + 1, 33, q + 1, 0);
    DivideBy(n + 2, 33, q + 1, 1);
  }

  /** The step into the last year of a 33-year cycle. */
  lemma CycleEnds(n: nat, q: int)
    requires n == 33 * q + 31
    ensures CycleOf(n + 1) - CycleOf(n) == 0 && IndicatorOfShifted(n) == 3
    ensures IndicatorOfShifted(n + 1) == 4
  {
    DivideBy(n, 33, q, 31);
    DivideBy(n + 1, 33, q, 32);
    DivideBy(n + 2, 33, q + 1, 0);
  }

  lemma CycleInside(n: nat, q: int, m: int)
    requires n == 33 * q + m && 0 <= m <= 30
    ensures CycleOf(n + 1) - CycleOf(n) == if IndicatorOfShifted(n) == 0 then 1 else 0
    ensures IndicatorOfShifted(n + 1) == 1 <==> IndicatorOfShifted(n) == 0
  {
    DivideBy(n, 33, q, m);
    DivideBy(n + 1, 33, q, m + 1);
    DivideBy(n + 2, 33, q, m + 2);
    QuarterStep(m);
  }

  /** Inside a 33-year cycle a day is gained, and the indicator restarts, every fourth year. */
  lemma QuarterStep(m: int)
    requires 0 <= m
    ensures (m + 4) / 4 - (m + 3) / 4 == if m % 4 == 0 then 1 else 0
    ensures (m + 1) % 4 == 1 <==> m % 4 == 0
  {
    var p, u := m / 4, m % 4;
    DivideBy(m + 4, 4, p + 1, u);
    if u == 0 {
      DivideBy(m + 3, 4, p, 3);
      DivideBy(m + 1, 4, p, 1);
    } else {
      DivideBy(m + 3, 4, p + 1, u - 1);
      if u == 3 {
        DivideBy(m + 1, 4, p + 1, 0);
      } else {
        DivideBy(m + 1, 4, p, u + 1);
      }
    }
  }

  /** The last five years of an interval of length 33a + 29. */
  lemma TailStep29(n: nat, jump: int)
    requires jump % 33 == 29 && 29 <= jump && jump - 6 <= n && n + 1 < jump
    ensures CycleOf(n + 1) - CycleOf(n) == if IndicatorOfShifted(Shifted(n, jump)) == 0 then 1 else 0
    ensures IndicatorOfShifted(Shifted(n + 1, jump)) == 1 <==> IndicatorOfShifted(Shifted(n, jump)) == 0
  {
    var a := jump / 33;
    DivideBy(jump + 4, 33, a + 1, 0);
    TailStep29At(n, jump, a, n - 33 * a);
  }

  lemma TailStep29At(n: nat, jump: int, a: int, t: int)
    requires jump == 33 * a + 29 && n == 33 * a + t && 23 <= t <= 27 && (jump + 4) / 33 == a + 1
    ensures CycleOf(n + 1) - CycleOf(n) == if IndicatorOfShifted(Shifted(n, jump)) == 0 then 1 else 0
    ensures IndicatorOfShifted(Shifted(n + 1, jump)) == 1 <==> IndicatorOfShifted(Shifted(n, jump)) == 0
  {
    DivideBy(n, 33, a, t);
    DivideBy(n + 1, 33, a, t + 1);
    if t == 23 {
      assert Shifted(n, jump) == n && Shifted(n + 1, jump) == n + 5;
      DivideBy(n + 6, 33, a, 29);
    } else {
      assert Shifted(n, jump) == n + 4 && Shifted(n + 1, jump) == n + 5;
      DivideBy(n + 5, 33, a, t + 5);
      if t == 27 {
        DivideBy(n + 6, 33, a + 1, 0);
      } else {
        DivideBy(n + 6, 33, a, t + 6);
      }
    }
  }

  /** The last five years of an interval of length 33a + 4, where the tie-break applies. */
  lemma TailStep4(n: nat, jump: int)
    requires jump % 33 == 4 && 37 <= jump && jump - 6 <= n && n + 1 < jump
    ensures CycleOf(n + 1) + (if jump - (n + 1) == 4 then 1 else 0) - CycleOf(n) - (if jump - n == 4 then 1 else 0)
            == if IndicatorOfShifted(Shifted(n, jump)) == 0 then 1 else 0
    ensures IndicatorOfShifted(Shifted(n + 1, jump)) == 1 <==> IndicatorOfShifted(Shifted(n, jump)) == 0
  {
    var a := jump / 33;
    DivideBy(jump + 4, 33, a, 8);
    if jump - n == 6 {
      TailStep4Early(n, jump, a);
    } else if jump - n == 5 {
      TailStep4Cusp(n, jump, a);
    } else {
      TailStep4Late(n, jump, a, n - 33 * a);
    }
  }

  lemma TailStep4Early(n: nat, jump: int, a: int)
    requires jump == 33 * a + 4 && n == jump - 6 && 1 <= a && (jump + 4) / 33 == a
    ensures CycleOf(n + 1) - CycleOf(n) == 0
    ensures IndicatorOfShifted(Shifted(n, jump)) == 3 && IndicatorOfShifted(Shifted(n + 1, jump)) == 0
  {
    DivideBy(n, 33, a - 1, 31);
    DivideBy(n + 1, 33, a - 1, 32);
    assert Shifted(n, jump) == n && Shifted(n + 1, jump) == n - 3;
    DivideBy(n - 2, 33, a - 1, 29);
  }

  lemma TailStep4Cusp(n: nat, jump: int, a: int)
    requires jump == 33 * a + 4 && n == jump - 5 && 1 <= a && (jump + 4) / 33 == a
    ensures CycleOf(n + 1) - CycleOf(n) == 0
    ensures IndicatorOfShifted(Shifted(n, jump)) == 0 && IndicatorOfShifted(Shifted(n + 1, jump)) == 1
  {
    DivideBy(n, 33, a - 1, 32);
    DivideBy(n + 1, 33, a, 0);
    assert Shifted(n, jump) == n - 4 && Shifted(n + 1, jump) == n - 3;
    DivideBy(n - 3, 33, a - 1, 29);
    DivideBy(n - 2, 33, a - 1, 30);
  }

  lemma TailStep4Late(n: nat, jump: int, a: int, t: int)
    requires jump == 33 * a + 4 && n == 33 * a + t && 0 <= t <= 2 && 1 <= a && (jump + 4) / 33 == a
    ensures CycleOf(n + 1) + (if jump - (n + 1) == 4 then 1 else 0) - CycleOf(n) - (if jump - n == 4 then 1 else 0)
            == if IndicatorOfShifted(Shifted(n, jump)) == 0 then 1 else 0
    ensures IndicatorOfShifted(Shifted(n + 1, jump)) == 1 <==> IndicatorOfShifted(Shifted(n, jump)) == 0
  {
    DivideBy(n, 33, a, t);
    DivideBy(n + 1, 33, a, t + 1);
    assert Shifted(n, jump) == n - 4 && Shifted(n + 1, jump) == n - 3;
    DivideBy(n - 3, 33, a - 1, t + 30);
    if t == 2 {
      DivideBy(n - 2, 33, a, 0);
    } else {
      DivideBy(n - 2, 33, a - 1, t + 31);
    }
  }

  /** One year further into the same interval. */
  lemma {:induction false} CycleStep(n: int, jump: int)
    requires JumpShape(jump) && 0 <= n && n + 1 < jump
    ensures CycleLeaps(n + 1) + Correction(jump, n + 1) - CycleLeaps(n) - Correction(jump, n)
            == if LeapIndicator(n, jump) == 0 then 1 else 0
    ensures LeapIndicator(n + 1, jump) == 1 <==> LeapIndicator(n, jump) == 0
  {
    CycleEuclidean(n, jump);
    CycleEuclidean(n + 1, jump);
    IndicatorEuclidean(n, jump);
    IndicatorEuclidean(n + 1, jump);
    if n + 6 < jump {
      PlainStep(n);
    } else if jump % 33 == 29 {
      TailStep29(n, jump);
    } else {
      TailStep4(n, jump);
    }
  }

  /** The last year of an interval gains no day on the year before. */
  lemma EndCount(jump: int)
    requires JumpShape(jump)
    ensures IntervalLeaps(jump) - CycleLeaps(jump - 1) - Correction(jump, jump - 1) == 0
  {
    CycleEuclidean(jump - 1, jump);
    NonNegativeAgrees(jump, 33);
    NonNegativeAgrees(jump % 33, 4);
    if jump % 33 == 29 {
      IntervalEnd29(jump, jump / 33);
    } else {
      IntervalEnd4(jump, jump / 33);
    }
  }

  /** The last year of an interval is never leap. */
  lemma EndIndicator(jump: int)
    requires JumpShape(jump)
    ensures LeapIndicator(jump - 1, jump) == 4
  {
    IndicatorEuclidean(jump - 1, jump);
    if jump % 33 == 29 {
      IntervalEnd29(jump, jump / 33);
    } else {
      IntervalEnd4(jump, jump / 33);
    }
  }

  lemma IntervalEnd29(jump: int, a: int)
    requires jump == 33 * a + 29 && 0 <= a
    ensures CycleOf(jump - 1) == 8 * a + 7
    ensures Shifted(jump - 1, jump) == 33 * a + 32 && IndicatorOfShifted(33 * a + 32) == 4
  {
    DivideBy(jump - 1, 33, a, 28);
    DivideBy(jump + 4, 33, a + 1, 0);
    DivideBy(33 * a + 33, 33, a + 1, 0);
  }

  lemma IntervalEnd4(jump: int, a: int)
    requires jump == 33 * a + 4 && 1 <= a
    ensures CycleOf(jump - 1) == 8 * a + 1
    ensures Shifted(jump - 1, jump) == 33 * a - 1 && IndicatorOfShifted(33 * a - 1) == 4
  {
    DivideBy(jump - 1, 33, a, 3);
    DivideBy(jump + 4, 33, a, 8);
    DivideBy(33 * a, 33, a, 0);
  }

  /** The first year of an interval is leap. */
  lemma StartIndicator(next: int)
    requires JumpShape(next)
    ensures LeapIndicator(0, next) == 0
  {
    assert 6 <= next;
    UnshiftedIndicator(0, next);
    assert IndicatorOfShifted(0) == 0;
  }

  /** The first year of an interval starts the count afresh. */
  lemma StartCount(next: int)
    requires JumpShape(next)
    ensures CycleLeaps(0) + Correction(next, 0) == 0
  {
  }

  /** Away from the last five years of an interval, the indicator is the position in the 33-year cycle, in fours. */
  lemma UnshiftedIndicator(n: int, jump: int)
    requires 0 <= n && 6 <= jump - n
    ensures LeapIndicator(n, jump) == IndicatorOfShifted(n)
  {
    IndicatorOfCount(n);
  }


  lemma {:induction false} RunLeapsSnoc(prev: int, t: seq<int>, x: int)
    ensures RunLeaps(prev, t + [x]) == RunLeaps(prev, t) + IntervalLeaps(x - (if |t| == 0 then prev else t[|t| - 1]))
    decreases |t|
  {
    if |t| > 0 {
      var t' := t + [x];
      assert t'[0] == t[0] && t'[1..] == t[1..] + [x];
      RunLeapsSnoc(t[0], t[1..], x);
      assert RunLeaps(prev, t') == IntervalLeaps(t[0] - prev) + RunLeaps(t[0], t[1..] + [x]);
    }
  }

  /** The year after `jy`, when it lies in the same interval. */
  lemma LocateSame(jy: int)
    requires InTable(jy) && InTable(jy + 1) && jy + 1 < Breaks[Locate(jy).index]
    ensures Locate(jy + 1) == Locate(jy)
  {
    LocateUnique(jy + 1, Locate(jy).index);
  }

  /** The leap count before interval `k + 1` adds that of interval `k` to the count before it. */
  lemma RunThroughBreak(k: nat)
    requires 1 <= k < |Breaks|
    ensures RunLeaps(Breaks[0], Breaks[1..k + 1]) == RunLeaps(Breaks[0], Breaks[1..k]) + IntervalLeaps(Breaks[k] - Breaks[k - 1])
  {
    assert Breaks[1..k + 1] == Breaks[1..k] + [Breaks[k]];
    RunLeapsSnoc(Breaks[0], Breaks[1..k], Breaks[k]);
  }

  /** The leap count `leapJ` that the loop of convertion.go:80-88 has reached at each break. */
  const LeapsAtBreak: seq<int> := [-14, 3, 10, 49, 104, 167, 184, 199, 270, 287, 294,
    397, 500, 509, 532, 549, 564, 581, 596, 771]

  /** Interval `k` of the table adds `LeapsAtBreak[k] - LeapsAtBreak[k - 1]` leap days. */
  lemma IntervalLeapsAt(k: nat)
    requires 0 < k < |Breaks|
    ensures IntervalLeaps(Breaks[k] - Breaks[k - 1]) == LeapsAtBreak[k] - LeapsAtBreak[k - 1]
  {
    var jumps := [70, 29, 161, 227, 260, 70, 62, 293, 70, 29, 425, 425, 37, 95, 70, 62, 70, 62, 722];
    var gains := [17, 7, 39, 55, 63, 17, 15, 71, 17, 7, 103, 103, 9, 23, 17, 15, 17, 15, 175];
    assert Breaks[k] - Breaks[k - 1] == jumps[k - 1];
    assert LeapsAtBreak[k] - LeapsAtBreak[k - 1] == gains[k - 1];
    IntervalLeapsValues();
  }

  lemma IntervalLeapsValues()
    ensures IntervalLeaps(29) == 7 && IntervalLeaps(37) == 9 && IntervalLeaps(62) == 15
    ensures IntervalLeaps(70) == 17 && IntervalLeaps(95) == 23 && IntervalLeaps(161) == 39
    ensures IntervalLeaps(227) == 55 && IntervalLeaps(260) == 63 && IntervalLeaps(293) == 71
    ensures IntervalLeaps(425) == 103 && IntervalLeaps(722) == 175
  {
  }

  /** `LeapsAtBreak` is the count the loop accumulates: the leap count of every interval's first year. */
  lemma {:induction false} LeapsAtBreakTable(k: nat)
    requires 0 < k < |Breaks|
    ensures -14 + RunLeaps(Breaks[0], Breaks[1..k]) == LeapsAtBreak[k - 1]
  {
    if k > 1 {
      LeapsAtBreakTable(k - 1);
      RunThroughBreak(k - 1);
      IntervalLeapsAt(k - 1);
    }
  }

  /** The leap count carried into a year's interval is that interval's entry of `LeapsAtBreak`. */
  lemma LocatedLeaps(jy: int)
    requires InTable(jy)
    ensures Locate(jy).leapJ == LeapsAtBreak[Locate(jy).index - 1]
  {
    LeapsAtBreakTable(Locate(jy).index);
  }

  /** `jalCal` of a year, given the interval of the table that holds it. */
  lemma JalCalOfSpan(jy: int, s: Span)
    requires InTable(jy) && Locate(jy) == s
    ensures JalCal(jy) == Fallible(CalInfo(LeapIndicator(jy - s.start, s.jump), jy + 621,
                                           20 + SpanLeaps(s, jy) - GregorianLeaps(jy + 621)), None)
  {
    JalCalFields(jy, s);
  }

  lemma JalCalFields(jy: int, s: Span)
    requires InTable(jy) && Locate(jy) == s
    ensures JalCal(jy).err == None && JalCal(jy).value.gy == jy + 621
    ensures JalCal(jy).value.leap == LeapIndicator(jy - s.start, s.jump)
    ensures JalCal(jy).value.march == 20 + SpanLeaps(s, jy) - GregorianLeaps(jy + 621)
  {
  }

  /** The interval of the table holding a year, with its leap count read off `LeapsAtBreak`. */
  lemma LocateAt(jy: int, k: nat)
    requires InTable(jy) && 1 <= k < |Breaks| && Breaks[k - 1] <= jy < Breaks[k]
    ensures Locate(jy) == Span(k, Breaks[k - 1], Breaks[k] - Breaks[k - 1], LeapsAtBreak[k - 1])
  {
    LocateUnique(jy, k);
    LocatedLeaps(jy);
  }

  /** The year after `jy`, when it opens the next interval. */
  lemma LocateNext(jy: int)
    requires InTable(jy) && InTable(jy + 1) && jy + 1 == Breaks[Locate(jy).index]
    ensures Locate(jy + 1).start == jy + 1
    ensures Locate(jy + 1).leapJ == Locate(jy).leapJ + IntervalLeaps(Locate(jy).jump)
  {
    var k := Locate(jy).index;
    assert k + 1 < |Breaks|;
    JumpShapeAt(k + 1);
    LocateUnique(jy + 1, k + 1);
    RunThroughBreak(k);
  }

  /** One year further inside the interval `s`. */
  lemma SpanStep(s: Span, jy: int)
    requires JumpShape(s.jump) && s.start <= jy && jy + 1 < s.start + s.jump
    ensures SpanLeaps(s, jy + 1) - SpanLeaps(s, jy) == if LeapIndicator(jy - s.start, s.jump) == 0 then 1 else 0
    ensures LeapIndicator(jy + 1 - s.start, s.jump) == 1 <==> LeapIndicator(jy - s.start, s.jump) == 0
  {
    CycleStep(jy - s.start, s.jump);
  }

  /** From the last year of the interval `s` to the first year of the interval `t` that follows it. */
  lemma SpanCross(s: Span, t: Span, jy: int)
    requires JumpShape(s.jump) && JumpShape(t.jump)
    requires jy + 1 == s.start + s.jump == t.start
    requires t.leapJ == s.leapJ + IntervalLeaps(s.jump)
    ensures SpanLeaps(t, jy + 1) - SpanLeaps(s, jy) == if LeapIndicator(jy - s.start, s.jump) == 0 then 1 else 0
    ensures LeapIndicator(jy + 1 - t.start, t.jump) == 1 <==> LeapIndicator(jy - s.start, s.jump) == 0
  {
    CrossCount(s, t, jy, jy - s.start);
    CrossIndicator(s, t, jy, jy - s.start);
  }

  lemma CrossCount(s: Span, t: Span, jy: int, n: int)
    requires JumpShape(s.jump) && JumpShape(t.jump)
    requires jy + 1 == s.start + s.jump == t.start && n == jy - s.start
    requires t.leapJ == s.leapJ + IntervalLeaps(s.jump)
    ensures SpanLeaps(t, jy + 1) - SpanLeaps(s, jy) == if LeapIndicator(n, s.jump) == 0 then 1 else 0
  {
    EndCount(s.jump);
    EndIndicator(s.jump);
    StartCount(t.jump);
    assert SpanLeaps(t, jy + 1) == t.leapJ + CycleLeaps(0) + Correction(t.jump, 0);
    assert SpanLeaps(s, jy) == s.leapJ + CycleLeaps(s.jump - 1) + Correction(s.jump, s.jump - 1);
  }

  lemma CrossIndicator(s: Span, t: Span, jy: int, n: int)
    requires JumpShape(s.jump) && JumpShape(t.jump)
    requires jy + 1 == s.start + s.jump == t.start && n == jy - s.start
    ensures LeapIndicator(jy + 1 - t.start, t.jump) == 1 <==> LeapIndicator(n, s.jump) == 0
  {
    EndIndicator(s.jump);
    StartIndicator(t.jump);
  }

  /**
   * The leap cycle of the whole table: the Jalaali leap count grows by one
   * from a year to the next exactly when the (corrected) indicator marks the
   * year leap, and the next year's indicator is then 1.
   */
  lemma {:induction false} LeapYearGainsDay(jy: int)
    requires -61 <= jy && jy + 1 < 3178
    ensures JalaaliLeaps(jy + 1) - JalaaliLeaps(jy) == if JalCal(jy).value.leap == 0 then 1 else 0
    ensures JalCal(jy + 1).value.leap == 1 <==> JalCal(jy).value.leap == 0
  {
    JalCalLeap(jy);
    JalCalLeap(jy + 1);
    LeapCountStep(jy);
  }

  /** The corrected indicator `JalCal` reports, in terms of the interval holding the year. */
  lemma JalCalLeap(jy: int)
    requires InTable(jy)
    ensures JalCal(jy).value.leap == LeapIndicator(jy - Locate(jy).start, Locate(jy).jump)
  {
  }

  lemma LeapCountStep(jy: int)
    requires InTable(jy) && InTable(jy + 1)
    ensures JalaaliLeaps(jy + 1) - JalaaliLeaps(jy)
            == if LeapIndicator(jy - Locate(jy).start, Locate(jy).jump) == 0 then 1 else 0
    ensures LeapIndicator(jy + 1 - Locate(jy + 1).start, Locate(jy + 1).jump) == 1
            <==> LeapIndicator(jy - Locate(jy).start, Locate(jy).jump) == 0
  {
    var s, t := Locate(jy), Locate(jy + 1);
    LocatedShape(jy);
    LocatedShape(jy + 1);
    if jy + 1 < Breaks[s.index] {
      LocateSame(jy);
    } else {
      LocateNext(jy);
    }
    SpanPairStep(s, t, jy);
    assert JalaaliLeaps(jy) == SpanLeaps(s, jy) && JalaaliLeaps(jy + 1) == SpanLeaps(t, jy + 1);
  }

  /** One year on, either inside the interval `s` or across into the interval `t` that follows it. */
  lemma SpanPairStep(s: Span, t: Span, jy: int)
    requires JumpShape(s.jump) && JumpShape(t.jump)
    requires s.start <= jy < s.start + s.jump && t.start <= jy + 1 < t.start + t.jump
    requires t == s || (t.start == jy + 1 == s.start + s.jump && t.leapJ == s.leapJ + IntervalLeaps(s.jump))
    ensures SpanLeaps(t, jy + 1) - SpanLeaps(s, jy) == if LeapIndicator(jy - s.start, s.jump) == 0 then 1 else 0
    ensures LeapIndicator(jy + 1 - t.start, t.jump) == 1 <==> LeapIndicator(jy - s.start, s.jump) == 0
  {
    if t == s {
      SpanStep(s, jy);
    } else {
      SpanCross(s, t, jy);
    }
  }

  // The leap count stays close to the mean rate of 8 leap years in 33.

  lemma IntervalLeapsRate(jump: int)
    ensures JumpShape(jump) ==> 8 * jump - 1 <= 33 * IntervalLeaps(jump) <= 8 * jump + 1
  {
    if JumpShape(jump) {
      NonNegativeAgrees(jump, 33);
      NonNegativeAgrees(jump % 33, 4);
    }
  }

  lemma RunLeapsRate(k: nat)
    requires 1 <= k < |Breaks|
    ensures -(k - 1) <= 33 * RunLeaps(Breaks[0], Breaks[1..k]) - 8 * (Breaks[k - 1] - Breaks[0]) <= k - 1
  {
    forall i | 0 < i < k
      ensures JumpShape(Breaks[i] - Breaks[i - 1])
    {
      JumpShapeAt(i);
    }
    RunRate(Breaks, k);
  }

  /** The rate bound for the first `k` breaks of any ascending run whose intervals have the table's shape. */
  lemma {:induction false} RunRate(b: seq<int>, k: nat)
    requires 1 <= k <= |b|
    requires forall i :: 0 < i < k ==> JumpShape(b[i] - b[i - 1])
    ensures -(k - 1) <= 33 * RunLeaps(b[0], b[1..k]) - 8 * (b[k - 1] - b[0]) <= k - 1
  {
    if k > 1 {
      var jump := b[k - 1] - b[k - 2];
      RunRate(b, k - 1);
      RunLeapsStep(b, k);
      IntervalLeapsRate(jump);
      RateStep(RunLeaps(b[0], b[1..k - 1]), IntervalLeaps(jump), b[k - 2] - b[0], jump, k - 1);
    }
  }

  /** The leaps over the first `k` breaks are those over the first `k - 1` and the last interval's. */
  lemma RunLeapsStep(b: seq<int>, k: nat)
    requires 2 <= k <= |b|
    ensures RunLeaps(b[0], b[1..k]) == RunLeaps(b[0], b[1..k - 1]) + IntervalLeaps(b[k - 1] - b[k - 2])
  {
    assert b[1..k] == b[1..k - 1] + [b[k - 1]];
    RunLeapsSnoc(b[0], b[1..k - 1], b[k - 1]);
    if k > 2 {
      assert b[1..k - 1][k - 3] == b[k - 2];
    }
  }

  /** One more interval keeps the run within one more leap day of the rate. */
  lemma RateStep(run: int, leaps: int, span: int, jump: int, k: int)
    requires -(k - 1) <= 33 * run - 8 * span <= k - 1
    requires 8 * jump - 1 <= 33 * leaps <= 8 * jump + 1
    ensures -k <= 33 * (run + leaps) - 8 * (span + jump) <= k
  {
  }

  lemma CycleLeapsRate(n: int)
    requires 0 <= n
    ensures 8 * n <= 33 * CycleLeaps(n) <= 8 * n + 33
  {
    NonNegativeAgrees(n, 33);
    NonNegativeAgrees(n % 33 + 3, 4);
  }

  /** Over the whole table the Jalaali leap count departs from 8 in 33 years by less than three days. */
  lemma {:induction false} JalaaliLeapsRate(jy: int)
    requires InTable(jy)
    ensures -18 <= 33 * JalaaliLeaps(jy) - 8 * (jy + 61) + 462 <= 84
  {
    var s := Locate(jy);
    var n := jy - s.start;
    RunLeapsRate(s.index);
    CycleLeapsRate(n);
    SpanRate(s.leapJ + 14, CycleLeaps(n), Correction(s.jump, n), s.start + 61, n, s.index);
  }

  /** The three parts of `SpanLeaps` added up: the run before the interval, the cycles inside it, the tie-break. */
  lemma SpanRate(run: int, cycles: int, tie: int, span: int, n: int, k: int)
    requires -(k - 1) <= 33 * run - 8 * span <= k - 1 && k < 20
    requires 8 * n <= 33 * cycles <= 8 * n + 33 && 0 <= tie <= 1
    ensures -18 <= 33 * (run + cycles + tie) - 8 * (span + n) <= 84
  {
  }

  /**
   * `jalCal` of a year in the `k`th interval, from its two leap counts and its
   * leap indicator; the fixtures below supply those three numbers.
   */
  lemma CalAt(jy: int, k: nat, s: Span, leapJ: int, leapG: int, leap: int)
    requires InTable(jy) && 1 <= k < |Breaks| && Breaks[k - 1] <= jy < Breaks[k]
    requires s == Span(k, Breaks[k - 1], Breaks[k] - Breaks[k - 1], LeapsAtBreak[k - 1])
    requires SpanLeaps(s, jy) == leapJ && GregorianLeaps(jy + 621) == leapG
    requires LeapIndicator(jy - s.start, s.jump) == leap
    ensures JalaaliLeaps(jy) == leapJ && March(jy) == 20 + leapJ - leapG
    ensures JalCal(jy) == Fallible(CalInfo(leap, jy + 621, 20 + leapJ - leapG), None)
  {
    LocateAt(jy, k);
    JalCalOfSpan(jy, s);
  }

  /** The last year of the table: the year before a leap year, starting on 20 March 3798. */
  lemma LastTableYear()
    ensures JalCal(3177) == Fallible(CalInfo(4, 3798, 20), None)
    ensures JalCalAsWritten(3177) == Fallible(CalInfo(4, 3798, 20), None)
  {
    assert SpanLeaps(Span(0, 2456, 722, 596), 3177) == 771;
    assert GregorianLeaps(3177 + 621) == 771;
    assert LeapIndicator(3177 - 2456, 722) == 4;
    CalAt(3177, 19, Span(19, 2456, 722, 596), 771, 771, 4);
    LocateAt(3177, 19);
    ZoneIndicators(721, 722);
  }

  /** 1360 is two years past a leap year and starts on 21 March 1981. */
  lemma Year1360()
    ensures JalCal(1360) == Fallible(CalInfo(2, 1981, 21), None)
  {
    assert SpanLeaps(Span(0, 1210, 425, 294), 1360) == 331;
    assert GregorianLeaps(1360 + 621) == 330;
    assert LeapIndicator(1360 - 1210, 425) == 2;
    CalAt(1360, 11, Span(11, 1210, 425, 294), 331, 330, 2);
  }

  /** 1391 is a leap year starting on 20 March 2012. */
  lemma Year1391()
    ensures JalCal(1391) == Fallible(CalInfo(0, 2012, 20), None)
  {
    assert SpanLeaps(Span(0, 1210, 425, 294), 1391) == 338;
    assert GregorianLeaps(1391 + 621) == 338;
    assert LeapIndicator(1391 - 1210, 425) == 0;
    CalAt(1391, 11, Span(11, 1210, 425, 294), 338, 338, 0);
  }

  lemma Year1393()
    ensures JalCal(1393) == Fallible(CalInfo(2, 2014, 21), None)
    ensures JalCalAsWritten(1393) == Fallible(CalInfo(2, 2014, 21), None)
  {
    assert SpanLeaps(Span(0, 1210, 425, 294), 1393) == 339;
    assert GregorianLeaps(1393 + 621) == 338;
    assert LeapIndicator(1393 - 1210, 425) == 2;
    CalAt(1393, 11, Span(11, 1210, 425, 294), 339, 338, 2);
    LocateAt(1393, 11);
    assert LeapIndicatorAsWritten(1393 - 1210, 425) == 2;
  }

  lemma Year1394()
    ensures JalCal(1394) == Fallible(CalInfo(3, 2015, 21), None)
  {
    assert SpanLeaps(Span(0, 1210, 425, 294), 1394) == 339;
    assert GregorianLeaps(1394 + 621) == 338;
    assert LeapIndicator(1394 - 1210, 425) == 3;
    CalAt(1394, 11, Span(11, 1210, 425, 294), 339, 338, 3);
  }

  /** 1395 is a leap year; 1394 before it and 1396 after it are not. */
  lemma Year1395()
    ensures JalCal(1395) == Fallible(CalInfo(0, 2016, 20), None)
  {
    assert SpanLeaps(Span(0, 1210, 425, 294), 1395) == 339;
    assert GregorianLeaps(1395 + 621) == 339;
    assert LeapIndicator(1395 - 1210, 425) == 0;
    CalAt(1395, 11, Span(11, 1210, 425, 294), 339, 339, 0);
  }

  lemma Year1396()
    ensures JalCal(1396) == Fallible(CalInfo(1, 2017, 21), None)
  {
    assert SpanLeaps(Span(0, 1210, 425, 294), 1396) == 340;
    assert GregorianLeaps(1396 + 621) == 339;
    assert LeapIndicator(1396 - 1210, 425) == 1;
    CalAt(1396, 11, Span(11, 1210, 425, 294), 340, 339, 1);
  }

  /**
   * The sign error of convertion.go:105-107 at work: year 4 gains a leap day
   * (the leap count rises by one into year 5), yet the indicator as written
   * reports 4 for it and 0, "leap", for year 5. The corrected indicator
   * reports 0 for year 4 and 1 for year 5.
   */
  lemma AsWrittenMissesLeapYear(jy: int)
    requires jy == 4
    ensures JalaaliLeaps(jy + 1) - JalaaliLeaps(jy) == 1
    ensures JalCalAsWritten(jy).value.leap == 4 && JalCalAsWritten(jy + 1).value.leap == 0
    ensures JalCal(jy).value.leap == 0 && JalCal(jy + 1).value.leap == 1
    ensures March(jy) == 21 && March(jy + 1) == 22
  {
    var s := Span(1, -61, 70, -14);
    Year4Counts();
    Indicators65();
    CalAt(jy, 1, s, 2, 1, 0);
    Year5Counts();
    Indicators66();
    CalAt(jy + 1, 1, s, 3, 1, 1);
  }

  lemma Year4Counts()
    ensures SpanLeaps(Span(1, -61, 70, -14), 4) == 2
    ensures GregorianLeaps(4 + 621) == 1
  {
  }

  lemma Year5Counts()
    ensures SpanLeaps(Span(1, -61, 70, -14), 5) == 3
    ensures GregorianLeaps(5 + 621) == 1
  {
  }

  /** Both indicators in the last two years of the first interval, which is 70 years long. */
  lemma Indicators65()
    ensures LeapIndicatorAsWritten(65, 70) == 4 && LeapIndicator(65, 70) == 0
  {
    JumpShapeValues();
    ZoneIndicators(65, 70);
  }

  lemma Indicators66()
    ensures LeapIndicatorAsWritten(66, 70) == 0 && LeapIndicator(66, 70) == 1
  {
    JumpShapeValues();
    ZoneIndicators(66, 70);
  }
}
