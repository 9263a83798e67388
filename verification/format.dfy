/**
 * The formatter of format.go: a moment of Go's `time.Time` written through a
 * Go layout, with the date in the Jalaali calendar and numbers in Persian
 * digits.
 *
 * Go builds the text as UTF-8 bytes; it is modelled as the sequence of
 * characters those bytes encode.
 */
module Format {
  import opened GoInt
  import opened Errors
  import opened Decimal
  import opened Names
  import opened Layout
  import opened Conversion

  function Max(a: int, b: int): int {
    if a < b then b else a
  }

  function Min(a: int, b: int): int {
    if a < b then a else b
  }

  /** The length of the sign `appendInt` writes: one '-' for a negative number. */
  function SignLength(x: int): nat {
    if x < 0 then 1 else 0
  }

  /**
   * `appendInt` of format.go:267-292: `b`, then '-' when `x` is negative,
   * then the Persian digits of |x| padded with leading zeros to `width`.
   * What follows the sign reads back as |x|.
   */
  function AppendInt(b: string, x: int, width: int): (r: string)
    ensures |r| == |b| + SignLength(x) + Max(width, |Digits(Abs(x), PersianZero)|)
    ensures r[..|b|] == b
    ensures x < 0 <==> r[|b|] == '-'
    ensures AllDigits(r[|b| + SignLength(x)..], PersianZero)
    ensures ValueOf(r[|b| + SignLength(x)..], PersianZero) == Abs(x)
  {
    var padded := Padded(Abs(x), width);
    var r := b + (if x < 0 then "-" else "") + padded;
    assert r[|b| + SignLength(x)..] == padded;
    assert IsDigitOf(padded[0], PersianZero);
    r
  }

  /** The digits of `n` after enough zeros to make `width` digits (format.go:275-289). */
  function Padded(n: nat, width: int): (s: string)
    ensures |s| == Max(width, |Digits(n, PersianZero)|)
    ensures AllDigits(s, PersianZero) && ValueOf(s, PersianZero) == n
  {
    var digits := Digits(n, PersianZero);
    DigitsRoundTrip(n, PersianZero);
    LeadingZeros(Max(width, |digits|) - |digits|, digits, PersianZero);
    Repeat(PersianZero, Max(width, |digits|) - |digits|) + digits
  }

  /** An unpadded number takes exactly as many digits as it has; padding never truncates. */
  lemma AppendIntWidth(b: string, x: int, width: int)
    ensures width <= |Digits(Abs(x), PersianZero)| ==> |AppendInt(b, x, width)| == |b| + SignLength(x) + |Digits(Abs(x), PersianZero)|
    ensures |AppendInt(b, x, width)| - |b| - SignLength(x) >= width
  {
  }

  /** Distinct numbers give distinct text at the same width. */
  lemma AppendIntInjective(b: string, x: int, y: int, width: int)
    requires AppendInt(b, x, width) == AppendInt(b, y, width)
    ensures x == y
  {
  }

  /**
   * The buffer of `formatNano` (format.go:297-303): the `k` low decimal
   * digits of `u`, most significant first, leading zeros included.
   */
  function NanoBuffer(u: nat, k: nat): (s: string)
    ensures |s| == k && AllDigits(s, PersianZero)
    ensures ValueOf(s, PersianZero) == u % Pow10(k)
  {
    if k == 0 then []
    else
      var s := NanoBuffer(u / 10, k - 1) + [DigitChar(u % 10, PersianZero)];
      assert s[..k - 1] == NanoBuffer(u / 10, k - 1);
      LowDigits(u, k);
      s
  }

  /** Taking `k` low digits is taking `k - 1` low digits of `u / 10` and then the last digit. */
  lemma LowDigits(u: nat, k: nat)
    requires 0 < k
    ensures (u / 10) % Pow10(k - 1) * 10 + u % 10 == u % Pow10(k)
  {
    var p := Pow10(k - 1);
    var q := (u / 10) / p;
    var r := (u / 10) % p;
    assert u / 10 == p * q + r;
    assert u == Pow10(k) * q + (r * 10 + u % 10);
    DivideBy(u, Pow10(k), q, r * 10 + u % 10);
  }

  /** The first `m` digits of a numeral are its value with the remaining places cut off. */
  lemma LeadingDigits(s: string, m: nat)
    requires m <= |s| && AllDigits(s, PersianZero)
    ensures ValueOf(s[..m], PersianZero) == ValueOf(s, PersianZero) / Pow10(|s| - m)
  {
    var hi, lo := s[..m], s[m..];
    assert AllDigits(hi, PersianZero);
    ValueOfSplit(s, m, PersianZero);
    ValueOfBound(lo, PersianZero);
    var vh, p := ValueOf(hi, PersianZero), Pow10(|lo|);
    assert vh * p == p * vh;
    DivideBy(ValueOf(s, PersianZero), p, vh, ValueOf(lo, PersianZero));
  }

  /**
   * The loop of format.go:309-311: how many of the first `n` characters of
   * `buf` remain once trailing zero digits are dropped.
   */
  function Trimmed(buf: string, n: nat): (m: nat)
    requires n <= |buf|
    ensures m <= n
    ensures m == 0 || buf[m - 1] != PersianZero
    ensures forall k :: m <= k < n ==> buf[k] == PersianZero
  {
    if n > 0 && buf[n - 1] == PersianZero then Trimmed(buf, n - 1) else n
  }

  /**
   * `formatNano` of format.go:296-318: a '.' and the first `n` (at most
   * nine) of the nine digits of the nanoseconds; with `trim`, trailing zero
   * digits are dropped, and the '.' too when no digit remains. Untrimmed,
   * the digits read back as the nanoseconds cut to `n` places.
   */
  function FormatNano(b: string, nanosec: nat, n: nat, trim: bool): (r: string)
    ensures |b| <= |r| && r[..|b|] == b
    ensures !trim ==> |r| == |b| + 1 + Min(n, 9) && r[|b|] == '.'
    ensures !trim ==> AllDigits(r[|b| + 1..], PersianZero)
    ensures !trim ==> ValueOf(r[|b| + 1..], PersianZero) == nanosec % Pow10(9) / Pow10(9 - Min(n, 9))
    ensures trim && |r| > |b| ==> r[|b|] == '.' && r[|r| - 1] != PersianZero
  {
    var buf := NanoBuffer(nanosec, 9);
    var n := Min(n, 9);
    var m := if trim then Trimmed(buf, n) else n;
    LeadingDigits(buf, m);
    assert AllDigits(buf[..m], PersianZero);
    if trim && m == 0 then b
    else
      var r := b + "." + buf[..m];
      assert r[|b| + 1..] == buf[..m];
      r
  }

  /**
   * Trimming only drops zeros: either nothing is written and the untrimmed
   * digits are all zero, or the untrimmed text is the trimmed text followed
   * by zero digits.
   */
  lemma TrimDropsZeros(b: string, nanosec: nat, n: nat)
    ensures var full := FormatNano(b, nanosec, n, false);
            var r := FormatNano(b, nanosec, n, true);
            (r == b && forall k :: |b| < k < |full| ==> full[k] == PersianZero)
            || (|b| + 1 < |r| && full == r + Repeat(PersianZero, |full| - |r|))
  {
    var buf := NanoBuffer(nanosec, 9);
    var n := Min(n, 9);
    var m := Trimmed(buf, n);
    assert buf[..n] == buf[..m] + Repeat(PersianZero, n - m);
  }

  /** The 12-hour clock of format.go:117-129: the hour modulo 12, with 0 shown as 12. */
  function Hour12Of(hour: int): (h: int)
    ensures 0 <= hour ==> 1 <= h <= 12 && h % 12 == hour % 12
  {
    var hr := GoMod(hour, 12);
    assert 0 <= hour ==> hr == hour % 12 by {
      if 0 <= hour {
        NonNegativeAgrees(hour, 12);
      }
    }
    if hr == 0 then 12 else hr
  }

  /** Together with the half of the day, the 12-hour reading gives the hour back. */
  lemma ClockFaceRecoversHour(h1: int, h2: int)
    requires 0 <= h1 < 24 && 0 <= h2 < 24
    requires Hour12Of(h1) == Hour12Of(h2) && (h1 >= 12 <==> h2 >= 12)
    ensures h1 == h2
  {
  }

  /**
   * What the formatter reads of a `time.Time`: the Gregorian date, the
   * clock, the nanosecond and Go's weekday (Sunday = 0).
   */
  datatype Moment = Moment(
    year: int, month: int, day: int,
    hour: int, minute: int, second: int,
    nanosecond: nat, weekday: int)

  /**
   * The locals of `jAppendFormat` (format.go:55-62): the Jalaali date and the
   * clock, each computed at most once; a negative year or hour means not yet.
   */
  datatype Fields = Fields(year: int, month: int, day: int, hour: int, minute: int, second: int)

  const Unset: Fields := Fields(-1, 0, 0, -1, 0, 0)

  const Afternoon: string := "بعدازظهر"
  const BeforeNoon: string := "قبل\U{200C}ازظهر"

  /**
   * The case of format.go:89-150 for one token: `b` followed by the token's
   * text. The Jalaali date and the clock come from `f`; the weekday and the
   * nanoseconds from the moment. Go's Sunday-based weekday is shifted by one
   * so that Saturday is Shanbe.
   */
  function Render(b: string, std: Std, t: Moment, f: Fields): (r: string)
    ensures |b| <= |r| && r[..|b|] == b
  {
    match std
    case Year => AppendInt(b, GoMod(Abs(f.year), 100), 2)
    case LongYear => AppendInt(b, f.year, 4)
    case Month => b + MonthString(f.month)
    case LongMonth => b + MonthString(f.month)
    case NumMonth => AppendInt(b, f.month, 0)
    case ZeroMonth => AppendInt(b, f.month, 2)
    case WeekDay => b + WeekdayString(GoMod(t.weekday + 1, 7))
    case LongWeekDay => b + WeekdayString(GoMod(t.weekday + 1, 7))
    case Day => AppendInt(b, f.day, 0)
    case UnderDay => AppendInt(if f.day < 10 then b + " " else b, f.day, 0)
    case ZeroDay => AppendInt(b, f.day, 2)
    case Hour => AppendInt(b, f.hour, 2)
    case Hour12 => AppendInt(b, Hour12Of(f.hour), 0)
    case ZeroHour12 => AppendInt(b, Hour12Of(f.hour), 2)
    case Minute => AppendInt(b, f.minute, 0)
    case ZeroMinute => AppendInt(b, f.minute, 2)
    case Second => AppendInt(b, f.second, 0)
    case ZeroSecond => AppendInt(b, f.second, 2)
    case PM => b + (if f.hour >= 12 then Afternoon else BeforeNoon)
    case Pm => b + (if f.hour >= 12 then Afternoon else BeforeNoon)
    case FracSecond0(n) => FormatNano(b, t.nanosecond, n, false)
    case FracSecond9(n) => FormatNano(b, t.nanosecond, n, true)
  }

  /** A token reads the date fields only if it needs the date, and the clock fields only if it needs the clock. */
  lemma RenderReads(b: string, std: Std, t: Moment, f: Fields, g: Fields)
    requires NeedsDate(std) ==> f.year == g.year && f.month == g.month && f.day == g.day
    requires NeedsClock(std) ==> f.hour == g.hour && f.minute == g.minute && f.second == g.second
    ensures Render(b, std, t, f) == Render(b, std, t, g)
  {
    if NeedsDate(std) {
      DateTokenReads(b, std, t, f, g);
    } else {
      ClockTokenReads(b, std, t, f, g);
    }
  }

  lemma DateTokenReads(b: string, std: Std, t: Moment, f: Fields, g: Fields)
    requires NeedsDate(std) && f.year == g.year && f.month == g.month && f.day == g.day
    ensures Render(b, std, t, f) == Render(b, std, t, g)
  {
    match std
    case Year =>
    case LongYear =>
    case Month =>
    case LongMonth =>
    case NumMonth =>
    case ZeroMonth =>
    case WeekDay =>
    case LongWeekDay =>
    case Day =>
    case UnderDay =>
    case ZeroDay =>
    case Hour =>
    case Hour12 =>
    case ZeroHour12 =>
    case Minute =>
    case ZeroMinute =>
    case Second =>
    case ZeroSecond =>
    case PM =>
    case Pm =>
    case FracSecond0(n) =>
    case FracSecond9(n) =>
  }

  lemma ClockTokenReads(b: string, std: Std, t: Moment, f: Fields, g: Fields)
    requires !NeedsDate(std) && f.hour == g.hour && f.minute == g.minute && f.second == g.second
    ensures Render(b, std, t, f) == Render(b, std, t, g)
  {
    match std
    case Year =>
    case LongYear =>
    case Month =>
    case LongMonth =>
    case NumMonth =>
    case ZeroMonth =>
    case WeekDay =>
    case LongWeekDay =>
    case Day =>
    case UnderDay =>
    case ZeroDay =>
    case Hour =>
    case Hour12 =>
    case ZeroHour12 =>
    case Minute =>
    case ZeroMinute =>
    case Second =>
    case ZeroSecond =>
    case PM =>
    case Pm =>
    case FracSecond0(n) =>
    case FracSecond9(n) =>
  }

  /** The field a numeric token writes, or none for the other tokens. */
  function NumericField(std: Std, f: Fields): Option<int> {
    match std
    case LongYear => Some(f.year)
    case NumMonth => Some(f.month)
    case ZeroMonth => Some(f.month)
    case Day => Some(f.day)
    case ZeroDay => Some(f.day)
    case Hour => Some(f.hour)
    case Minute => Some(f.minute)
    case ZeroMinute => Some(f.minute)
    case Second => Some(f.second)
    case ZeroSecond => Some(f.second)
    case _ => None
  }

  /** The number of digits a token pads to: four for "2006", two for the two-digit tokens. */
  function PadWidth(std: Std): nat {
    match std
    case LongYear => 4
    case ZeroMonth => 2
    case ZeroDay => 2
    case Hour => 2
    case ZeroMinute => 2
    case ZeroSecond => 2
    case _ => 0
  }

  /**
   * The digits of a numeric token read back as its field, and there are at
   * least as many as the token pads to.
   */
  lemma NumericTokenReadsBack(b: string, std: Std, t: Moment, f: Fields)
    requires NumericField(std, f).Some? && 0 <= NumericField(std, f).value
    ensures AllDigits(Render(b, std, t, f)[|b|..], PersianZero)
    ensures ValueOf(Render(b, std, t, f)[|b|..], PersianZero) == NumericField(std, f).value
    ensures |Render(b, std, t, f)| >= |b| + PadWidth(std)
  {
    var v := NumericField(std, f).value;
    var r := AppendInt(b, v, PadWidth(std));
    RenderNumeric(b, std, t, f);
    assert SignLength(v) == 0;
    assert r[|b|..] == r[|b| + SignLength(v)..];
  }

  /** A numeric token appends its field, padded to the token's width. */
  lemma RenderNumeric(b: string, std: Std, t: Moment, f: Fields)
    requires NumericField(std, f).Some?
    ensures Render(b, std, t, f) == AppendInt(b, NumericField(std, f).value, PadWidth(std))
  {
    match std
    case LongYear => assert Render(b, LongYear, t, f) == AppendInt(b, f.year, 4);
    case NumMonth => assert Render(b, NumMonth, t, f) == AppendInt(b, f.month, 0);
    case ZeroMonth => assert Render(b, ZeroMonth, t, f) == AppendInt(b, f.month, 2);
    case Day => assert Render(b, Day, t, f) == AppendInt(b, f.day, 0);
    case ZeroDay => assert Render(b, ZeroDay, t, f) == AppendInt(b, f.day, 2);
    case Hour => assert Render(b, Hour, t, f) == AppendInt(b, f.hour, 2);
    case Minute => assert Render(b, Minute, t, f) == AppendInt(b, f.minute, 0);
    case ZeroMinute => assert Render(b, ZeroMinute, t, f) == AppendInt(b, f.minute, 2);
    case Second => assert Render(b, Second, t, f) == AppendInt(b, f.second, 0);
    case ZeroSecond => assert Render(b, ZeroSecond, t, f) == AppendInt(b, f.second, 2);
  }

  /**
   * "_2" pads a day below 10 with one space where "02" would put a zero
   * (format.go:109-113): the text starts with a space exactly then, and
   * the digits after the space and any sign read back as the day. Days 0 to
   * 99 take exactly two characters.
   */
  lemma UnderDaySpacePadded(b: string, t: Moment, f: Fields)
    ensures var r := Render(b, UnderDay, t, f);
      && |b| < |r| && (r[|b|] == ' ' <==> f.day < 10)
      && var k := |b| + (if f.day < 10 then 1 else 0) + SignLength(f.day);
      && k <= |r| && AllDigits(r[k..], PersianZero) && ValueOf(r[k..], PersianZero) == Abs(f.day)
    ensures 0 <= f.day < 100 ==> |Render(b, UnderDay, t, f)| == |b| + 2
  {
    var b0 := if f.day < 10 then b + " " else b;
    var r := AppendInt(b0, f.day, 0);
    assert Render(b, UnderDay, t, f) == r;
    assert |b0| == |b| + (if f.day < 10 then 1 else 0);
    if f.day < 10 {
      assert r[..|b0|] == b0;
      assert r[|b|] == b0[|b|];
    } else {
      assert SignLength(f.day) == 0;
      assert r[|b0|..][0] == r[|b|];
      assert IsDigitOf(r[|b|], PersianZero);
    }
    if 0 <= f.day < 100 {
      SmallDigits(f.day);
    }
  }

  /** A number below 100 takes one digit when it is below 10 and two otherwise. */
  lemma SmallDigits(n: nat)
    requires n < 100
    ensures |Digits(n, PersianZero)| == if n < 10 then 1 else 2
  {
    assert |Digits(n / 10, PersianZero)| == 1;
  }

  /**
   * The tokens that share a case of the switch (format.go:97-99, 104-106,
   * 125-131, 140-145) write the same text as their twin: "Jan" writes the
   * full month name like "January", "Mon" the full weekday name like
   * "Monday", "pm" the same marker as "PM", and "03" the 12-hour value of
   * "3", zero-padded to two digits.
   */
  lemma TwinTokens(b: string, t: Moment, f: Fields)
    ensures Render(b, Month, t, f) == Render(b, LongMonth, t, f) == b + MonthString(f.month)
    ensures Render(b, LongWeekDay, t, f) == Render(b, WeekDay, t, f)
    ensures Render(b, Pm, t, f) == Render(b, PM, t, f)
    ensures Render(b, ZeroHour12, t, f) == AppendInt(b, Hour12Of(f.hour), 2)
  {
    MonthTwins(b, t, f);
    WeekdayTwins(b, t, f);
    MarkerTwins(b, t, f);
    ZeroHour12Renders(b, t, f);
  }

  /** "Jan" and "January" both write the month's full name. */
  lemma MonthTwins(b: string, t: Moment, f: Fields)
    ensures Render(b, Month, t, f) == Render(b, LongMonth, t, f) == b + MonthString(f.month)
  {
  }

  /** "Mon" and "Monday" both write the weekday's full name. */
  lemma WeekdayTwins(b: string, t: Moment, f: Fields)
    ensures Render(b, LongWeekDay, t, f) == Render(b, WeekDay, t, f)
  {
  }

  /** "pm" and "PM" write the same marker. */
  lemma MarkerTwins(b: string, t: Moment, f: Fields)
    ensures Render(b, Pm, t, f) == Render(b, PM, t, f)
  {
  }

  /** "03" writes the 12-hour value in two digits. */
  lemma ZeroHour12Renders(b: string, t: Moment, f: Fields)
    ensures Render(b, ZeroHour12, t, f) == AppendInt(b, Hour12Of(f.hour), 2)
  {
  }

  /** The two-digit year is the Jalaali year's magnitude modulo 100, in exactly two digits. */
  lemma ShortYear(b: string, t: Moment, f: Fields)
    ensures |Render(b, Year, t, f)| == |b| + 2
    ensures ValueOf(Render(b, Year, t, f)[|b|..], PersianZero) == Abs(f.year) % 100
  {
    NonNegativeAgrees(Abs(f.year), 100);
    var x := Abs(f.year) % 100;
    DigitsLength(x, PersianZero);
    if 10 <= x {
      assert |Digits(x, PersianZero)| <= 2;
    }
  }

  /**
   * The 12-hour number and the half-day marker together determine an hour
   * of the day.
   */
  lemma TwelveHourClockRecoversHour(b: string, t: Moment, f: Fields, g: Fields)
    requires 0 <= f.hour < 24 && 0 <= g.hour < 24
    requires Render(b, Hour12, t, f) == Render(b, Hour12, t, g)
    requires Render(b, PM, t, f) == Render(b, PM, t, g)
    ensures f.hour == g.hour
  {
    Hour12ReadsBack(b, t, f, g);
    MarkerReadsBack(b, t, f, g);
    ClockFaceRecoversHour(f.hour, g.hour);
  }

  lemma Hour12ReadsBack(b: string, t: Moment, f: Fields, g: Fields)
    requires Render(b, Hour12, t, f) == Render(b, Hour12, t, g)
    ensures Hour12Of(f.hour) == Hour12Of(g.hour)
  {
    RenderHour12(b, t, f);
    RenderHour12(b, t, g);
    AppendIntInjective(b, Hour12Of(f.hour), Hour12Of(g.hour), 0);
  }

  lemma RenderHour12(b: string, t: Moment, f: Fields)
    ensures Render(b, Hour12, t, f) == AppendInt(b, Hour12Of(f.hour), 0)
  {
  }

  lemma MarkerReadsBack(b: string, t: Moment, f: Fields, g: Fields)
    requires Render(b, PM, t, f) == Render(b, PM, t, g)
    ensures f.hour >= 12 <==> g.hour >= 12
  {
    var mf := if f.hour >= 12 then Afternoon else BeforeNoon;
    var mg := if g.hour >= 12 then Afternoon else BeforeNoon;
    assert Render(b, PM, t, f) == b + mf;
    assert Render(b, PM, t, g) == b + mg;
    assert mf == (b + mf)[|b|..];
    assert mg == (b + mg)[|b|..];
    assert Afternoon[0] != BeforeNoon[0];
  }

  /** Go's Saturday (6) is the first day of the Jalaali week, and every other day follows it. */
  lemma WeekdayFollowsGo(b: string, t: Moment, f: Fields)
    requires 0 <= t.weekday < 7
    ensures Render(b, WeekDay, t, f) == b + DayNames[(t.weekday + 1) % 7]
    ensures t.weekday == 6 ==> Render(b, WeekDay, t, f) == b + DayNames[Shanbe]
    ensures t.weekday == 5 ==> Render(b, WeekDay, t, f) == b + DayNames[Jome]
  {
    var w := (t.weekday + 1) % 7;
    assert Render(b, WeekDay, t, f) == b + DayNames[w] by {
      NonNegativeAgrees(t.weekday + 1, 7);
      assert WeekdayString(w) == DayNames[w];
    }
  }

  /** The outcome of `jAppendFormat`: the text and error it returns, or a panic. */
  datatype Rendered = Rendered(text: string, err: Option<Error>) | Panicked

  /**
   * `jAppendFormat` of format.go:54-152. Each round takes the next token,
   * appends the text before it, converts the Gregorian date the first time
   * a token needs the date and reads the clock the first time a token needs
   * the clock, then appends the token's text. A failed conversion returns
   * at once with the text so far and the conversion's error.
   */
  function AppendFormat(t: Moment, b: string, layout: string, f: Fields): (r: Rendered)
    ensures r.Rendered? ==> |b| <= |r.text| && r.text[..|b|] == b
    ensures r.Rendered? && r.err.Some? ==> r.err == ToJalaali(t.year, t.month, t.day).err
    decreases |layout|
  {
    if layout == "" then Rendered(b, None)
    else
      match NextStdChunk(layout)
      case SlicePanic(_) => Panicked
      case Literal => Rendered(b + layout, None)
      case Token(prefix, std, suffix) =>
        var b1 := b + prefix;
        var date := DateFor(t, std, f);
        if date.Failed() then Rendered(b1, date.err)
        else
          var f2 := ClockFor(t, std, f.(year := date.value.year, month := date.value.month, day := date.value.day));
          var b2 := Render(b1, std, t, f2);
          var r := AppendFormat(t, b2, suffix, f2);
          if r.Rendered? then
            assert b1[..|b|] == b;
            PrefixOfPrefix(b, b1, b2);
            PrefixOfPrefix(b, b2, r.text);
            r
          else r
  }

  /** A prefix of a prefix is a prefix. */
  lemma PrefixOfPrefix(a: string, b: string, c: string)
    requires |b| <= |c| && c[..|b|] == b
    requires |a| <= |b| && b[..|a|] == a
    ensures c[..|a|] == a
  {
    assert c[..|a|] == b[..|a|];
  }

  /**
   * The date a token sees: converted now when it needs the date and none is
   * cached (format.go:74-80). Only that fresh conversion can fail, and then
   * with the converter's error; and while the cache holds nothing false, a
   * token that needs the date, or finds one cached, sees the true Jalaali date.
   */
  function DateFor(t: Moment, std: Std, f: Fields): (d: Fallible<Date>)
    ensures d.Failed() ==> f.year < 0 && NeedsDate(std) && d == ToJalaali(t.year, t.month, t.day)
    ensures var c := ToJalaali(t.year, t.month, t.day);
      !c.Failed() && (f.year < 0 || Date(f.year, f.month, f.day) == c.value) && (0 <= f.year || NeedsDate(std))
      ==> d == c
  {
    if f.year < 0 && NeedsDate(std) then ToJalaali(t.year, t.month, t.day)
    else Fallible(Date(f.year, f.month, f.day), None)
  }

  /**
   * The clock a token sees: read now when it needs the clock and none is
   * cached (format.go:83-85). The date half is left alone, a cache that held
   * the true clock or nothing still does, and a token that needs the clock,
   * or finds one cached, sees the moment's own clock.
   */
  function ClockFor(t: Moment, std: Std, f: Fields): (g: Fields)
    ensures g.year == f.year && g.month == f.month && g.day == f.day
    ensures TrueClock(f, t) ==> TrueClock(g, t)
    ensures TrueClock(f, t) && (0 <= f.hour || NeedsClock(std)) ==> g.hour == t.hour && g.minute == t.minute && g.second == t.second
  {
    if f.hour < 0 && NeedsClock(std) then f.(hour := t.hour, minute := t.minute, second := t.second) else f
  }

  /** The clock half of a cache holds nothing or the moment's clock. */
  predicate TrueClock(f: Fields, t: Moment) {
    f.hour < 0 || (f.hour == t.hour && f.minute == t.minute && f.second == t.second)
  }

  /** `JFormat` of format.go:39-50: the formatter from an empty buffer and nothing cached. */
  function JFormat(t: Moment, layout: string): (r: Rendered)
    ensures r.Rendered? && r.err.Some? ==> r.err == ToJalaali(t.year, t.month, t.day).err
  {
    AppendFormat(t, "", layout, Unset)
  }

  /**
   * The reference reading of a layout: every token rendered from the full
   * Jalaali date and clock, with nothing cached; `None` where Go panics.
   */
  function Expand(t: Moment, f: Fields, b: string, layout: string): Option<string>
    decreases |layout|
  {
    if layout == "" then Some(b)
    else
      match NextStdChunk(layout)
      case SlicePanic(_) => None
      case Literal => Some(b + layout)
      case Token(prefix, std, suffix) => Expand(t, f, Render(b + prefix, std, t, f), suffix)
  }

  /** All fields of a moment whose Gregorian date is `d` in the Jalaali calendar. */
  function Full(t: Moment, d: Date): Fields {
    Fields(d.year, d.month, d.day, t.hour, t.minute, t.second)
  }

  /** A cache holds, for each half, either nothing or the true values. */
  predicate Agrees(f: Fields, t: Moment, d: Date) {
    (f.year < 0 || (f.year == d.year && f.month == d.month && f.day == d.day)) && TrueClock(f, t)
  }

  /** The outcome the reference reading stands for. */
  function Outcome(e: Option<string>): Rendered {
    if e.Some? then Rendered(e.value, None) else Panicked
  }

  /**
   * Caching is invisible: when the date converts, computing the fields
   * lazily gives what rendering every token from the full fields gives.
   */
  lemma {:induction false} LazyIsEager(t: Moment, d: Date, b: string, layout: string, f: Fields)
    requires ToJalaali(t.year, t.month, t.day) == Fallible(d, None)
    requires Agrees(f, t, d)
    ensures AppendFormat(t, b, layout, f) == Outcome(Expand(t, Full(t, d), b, layout))
    decreases |layout|
  {
    if layout != "" {
      match NextStdChunk(layout)
      case SlicePanic(_) =>
      case Literal =>
      case Token(prefix, std, suffix) =>
        var date := DateFor(t, std, f);
        var f2 := ClockFor(t, std, f.(year := date.value.year, month := date.value.month, day := date.value.day));
        RenderReads(b + prefix, std, t, f2, Full(t, d));
        LazyIsEager(t, d, Render(b + prefix, std, t, f2), suffix, f2);
    }
  }

  /** `JFormat` of a moment whose date converts is the reference reading from an empty buffer. */
  lemma JFormatIsExpand(t: Moment, d: Date, layout: string)
    requires ToJalaali(t.year, t.month, t.day) == Fallible(d, None)
    ensures JFormat(t, layout) == Outcome(Expand(t, Full(t, d), "", layout))
  {
    LazyIsEager(t, d, "", layout, Unset);
  }

  /** Whether some token of the layout, before any panic, needs the date. */
  predicate HasDateToken(layout: string)
    decreases |layout|
  {
    && layout != ""
    && NextStdChunk(layout).Token?
    && (NeedsDate(NextStdChunk(layout).std) || HasDateToken(NextStdChunk(layout).suffix))
  }

  /**
   * A layout with no date token never converts the date: the Gregorian
   * date does not matter and no error comes back.
   */
  lemma {:induction false} ClockOnlyLayout(t: Moment, b: string, layout: string, f: Fields, y: int, m: int, dd: int)
    requires !HasDateToken(layout)
    ensures AppendFormat(t, b, layout, f) == AppendFormat(t.(year := y, month := m, day := dd), b, layout, f)
    ensures AppendFormat(t, b, layout, f).Rendered? ==> AppendFormat(t, b, layout, f).err == None
    decreases |layout|
  {
    if layout != "" {
      match NextStdChunk(layout)
      case SlicePanic(_) =>
      case Literal =>
      case Token(prefix, std, suffix) =>
        var f2 := ClockFor(t, std, f);
        RenderIgnoresDate(b + prefix, std, t, f2, y, m, dd);
        ClockOnlyLayout(t, Render(b + prefix, std, t, f2), suffix, f2, y, m, dd);
    }
  }

  /** A token's text never reads the moment's Gregorian date, only its weekday and nanoseconds. */
  lemma RenderIgnoresDate(b: string, std: Std, t: Moment, f: Fields, y: int, m: int, dd: int)
    ensures Render(b, std, t, f) == Render(b, std, t.(year := y, month := m, day := dd), f)
  {
  }

  /**
   * A date that does not convert stops the formatting at the first date
   * token with the conversion's error, unless the scanner panics first.
   */
  lemma {:induction false} DateErrorSurfaces(t: Moment, b: string, layout: string, f: Fields)
    requires ToJalaali(t.year, t.month, t.day).Failed()
    requires f.year < 0 && HasDateToken(layout)
    ensures var r := AppendFormat(t, b, layout, f);
            r.Panicked? || r.err == ToJalaali(t.year, t.month, t.day).err
    decreases |layout|
  {
    match NextStdChunk(layout)
    case Token(prefix, std, suffix) =>
      if !NeedsDate(std) {
        var f2 := ClockFor(t, std, f);
        DateErrorSurfaces(t, Render(b + prefix, std, t, f2), suffix, f2);
      }
  }

  /**
   * The reference reading of a layout up to its first date token: every
   * token before it rendered from the moment's clock, then the text in
   * front of the date token; `None` where Go panics first.
   */
  function ExpandBeforeDate(t: Moment, b: string, layout: string): Option<string>
    decreases |layout|
  {
    if layout == "" then Some(b)
    else
      match NextStdChunk(layout)
      case SlicePanic(_) => None
      case Literal => Some(b + layout)
      case Token(prefix, std, suffix) =>
        if NeedsDate(std) then Some(b + prefix)
        else ExpandBeforeDate(t, Render(b + prefix, std, t, Full(t, Date(0, 0, 0))), suffix)
  }

  /**
   * What comes back beside a date error (format.go:65-81): the buffer, the
   * clock tokens and literal text before the first date token, and the text
   * in front of that token; or a panic, when the scanner panics before it.
   */
  lemma {:induction false} DateErrorText(t: Moment, b: string, layout: string, f: Fields)
    requires ToJalaali(t.year, t.month, t.day).Failed()
    requires f.year < 0 && Agrees(f, t, Date(0, 0, 0)) && HasDateToken(layout)
    ensures var e := ExpandBeforeDate(t, b, layout);
            AppendFormat(t, b, layout, f)
            == if e.Some? then Rendered(e.value, ToJalaali(t.year, t.month, t.day).err) else Panicked
    decreases |layout|
  {
    match NextStdChunk(layout)
    case Token(prefix, std, suffix) =>
      if !NeedsDate(std) {
        var f2 := ClockFor(t, std, f);
        RenderReads(b + prefix, std, t, f2, Full(t, Date(0, 0, 0)));
        DateErrorText(t, Render(b + prefix, std, t, f2), suffix, f2);
      }
  }

  /** `JFormat` of a moment whose date does not convert, on a layout that needs the date. */
  lemma JFormatDateError(t: Moment, layout: string)
    requires ToJalaali(t.year, t.month, t.day).Failed() && HasDateToken(layout)
    ensures var e := ExpandBeforeDate(t, "", layout);
            JFormat(t, layout) == if e.Some? then Rendered(e.value, ToJalaali(t.year, t.month, t.day).err) else Panicked
  {
    DateErrorText(t, "", layout, Unset);
  }

  /** 4 August 2014 is 13 Mordad 1393, written through the ISO layout in Persian digits. */
  lemma FormatsIsoDate(t: Moment, layout: string)
    requires t == Moment(2014, 8, 4, 15, 4, 5, 0, 1) && layout == "2006-01-02"
    ensures JFormat(t, layout) == Rendered("۱۳۹۳-۰۵-۱۳", None)
  {
    var d := Date(1393, 5, 13);
    Example2014(Date(2014, 8, 4), d);
    JFormatIsExpand(t, d, layout);
    IsoLayoutExpands(t, Full(t, d), layout);
  }

  lemma IsoLayoutExpands(t: Moment, f: Fields, layout: string)
    requires f.year == 1393 && f.month == 5 && f.day == 13 && layout == "2006-01-02"
    ensures Expand(t, f, "", layout) == Some("۱۳۹۳-۰۵-۱۳")
  {
    IsoYearStep(t, f, layout);
    IsoMonthStep(t, f, "۱۳۹۳", "-01-02");
    IsoDayStep(t, f, "۱۳۹۳-۰۵", "-02");
  }

  lemma IsoYearStep(t: Moment, f: Fields, layout: string)
    requires f.year == 1393 && layout == "2006-01-02"
    ensures Expand(t, f, "", layout) == Expand(t, f, "۱۳۹۳", "-01-02")
  {
    IsoLayoutStarts(layout);
    RenderIsoYear(t, f);
  }

  lemma IsoMonthStep(t: Moment, f: Fields, b: string, layout: string)
    requires f.month == 5 && b == "۱۳۹۳" && layout == "-01-02"
    ensures Expand(t, f, b, layout) == Expand(t, f, "۱۳۹۳-۰۵", "-02")
  {
    IsoLayoutMonth(layout);
    RenderIsoMonth(b + "-", t, f);
  }

  lemma IsoDayStep(t: Moment, f: Fields, b: string, layout: string)
    requires f.day == 13 && b == "۱۳۹۳-۰۵" && layout == "-02"
    ensures Expand(t, f, b, layout) == Some("۱۳۹۳-۰۵-۱۳")
  {
    IsoLayoutDay(layout);
    RenderIsoDay(b + "-", t, f);
  }

  lemma RenderIsoYear(t: Moment, f: Fields)
    requires f.year == 1393
    ensures Render("", LongYear, t, f) == "۱۳۹۳"
  {
    PersianNumerals();
  }

  lemma RenderIsoMonth(b: string, t: Moment, f: Fields)
    requires f.month == 5 && b == "۱۳۹۳-"
    ensures Render(b, ZeroMonth, t, f) == "۱۳۹۳-۰۵"
  {
    PersianNumerals();
  }

  lemma RenderIsoDay(b: string, t: Moment, f: Fields)
    requires f.day == 13 && b == "۱۳۹۳-۰۵-"
    ensures Render(b, ZeroDay, t, f) == "۱۳۹۳-۰۵-۱۳"
  {
    PersianNumerals();
  }

  lemma IsoLayoutStarts(layout: string)
    requires layout == "2006-01-02"
    ensures NextStdChunk(layout) == Token("", LongYear, "-01-02")
  {
    assert ScanAt(layout, 0) == Some(Token("", LongYear, "-01-02"));
    TokenAtStart(layout, Token("", LongYear, "-01-02"));
  }

  lemma IsoLayoutMonth(layout: string)
    requires layout == "-01-02"
    ensures NextStdChunk(layout) == Token("-", ZeroMonth, "-02")
  {
    assert ScanAt(layout, 0) == None;
    assert layout[1] == '0' && layout[2] == '1';
    assert Std0x[0] == ZeroMonth;
    assert layout[..1] == "-" && layout[3..] == "-02";
    assert ScanAt(layout, 1) == Some(Token("-", ZeroMonth, "-02"));
    TokenAtSecond(layout, Token("-", ZeroMonth, "-02"));
  }

  lemma IsoLayoutDay(layout: string)
    requires layout == "-02"
    ensures NextStdChunk(layout) == Token("-", ZeroDay, "")
  {
    assert ScanAt(layout, 0) == None;
    assert layout[1] == '0' && layout[2] == '2';
    assert Std0x[1] == ZeroDay;
    assert layout[..1] == "-" && layout[3..] == "";
    assert ScanAt(layout, 1) == Some(Token("-", ZeroDay, ""));
    TokenAtSecond(layout, Token("-", ZeroDay, ""));
  }

  lemma PersianNumerals()
    ensures Digits(1393, PersianZero) == "۱۳۹۳"
    ensures Digits(5, PersianZero) == "۵"
    ensures Digits(13, PersianZero) == "۱۳"
  {
  }
}
