/**
 * The month and weekday names of jalaali.go and their `String` methods.
 *
 * Go's `Month` and `Weekday` are plain integers with named constants, so the
 * model keeps them as `int`: `String` must say something for every value,
 * not only for the named ones.
 */
module Names {
  import opened Decimal

  // The months, Farvardin = 1 through Esfand = 12 (jalaali.go:25-40).
  const Farvardin: int := 1
  const Ordibehesht: int := 2
  const Khordad: int := 3
  const Tir: int := 4
  const Mordad: int := 5
  const Shahrivar: int := 6
  const Mehr: int := 7
  const Aban: int := 8
  const Azar: int := 9
  const Dey: int := 10
  const Bahman: int := 11
  const Esfand: int := 12

  // The weekdays, Shanbe (Saturday) = 0 through Jome (Friday) = 6 (jalaali.go:56-67).
  const Shanbe: int := 0
  const IekShanbe: int := 1
  const DoShanbe: int := 2
  const SeShanbe: int := 3
  const ChaharShanbe: int := 4
  const PanjShanbe: int := 5
  const Jome: int := 6

  /** The month names, Farvardin first (jalaali.go:42-47). */
  const MonthNames: seq<string> := [
    "فروردین", "اردیبهشت", "خرداد",
    "تیر", "مرداد", "شهریور",
    "مهر", "آبان", "آذر",
    "دی", "بهمن", "اسفند"
  ]

  /** The weekday names, Shanbe first; three of them hold a zero-width non-joiner (jalaali.go:69-71). */
  const DayNames: seq<string> := ["شنبه", "یک\U{200C}شنبه", "دوشنبه", "سه\U{200C}شنبه", "چهارشنبه", "پنج\U{200C}شنبه", "جمعه"]

  /** Go's text for a value a `Stringer` has no name for: `%!Kind(` and the value in decimal, then `)`. */
  function Unnamed(kind: string, n: int): string {
    "%!" + kind + "(" + Itoa(n) + ")"
  }

  /**
   * `Month.String` of jalaali.go:49-54: the name of a month 1..12, and for
   * any other value `%!Month(` with the value in decimal, which reads back.
   * A caller can tell the two apart by the first character.
   */
  function MonthString(m: int): (s: string)
    ensures |s| > 0 && (s[0] != '%' <==> Farvardin <= m <= Esfand)
    ensures Farvardin <= m <= Esfand ==> s in MonthNames
    ensures !(Farvardin <= m <= Esfand) ==> |s| > 9 && s[..8] == "%!Month(" && s[|s| - 1] == ')' && Atoi(s[8..|s| - 1]) == m
  {
    NamesDistinct();
    if Farvardin <= m && m <= Esfand then MonthNames[m - 1]
    else
      UnnamedReadsBack("Month", m);
      Unnamed("Month", m)
  }

  /**
   * `Weekday.String` of jalaali.go:73-78: the name of a weekday 0..6, and for
   * any other value `%!Weekday(` with the value in decimal, which reads back.
   */
  function WeekdayString(d: int): (s: string)
    ensures |s| > 0 && (s[0] != '%' <==> Shanbe <= d <= Jome)
    ensures Shanbe <= d <= Jome ==> s in DayNames
    ensures !(Shanbe <= d <= Jome) ==> |s| > 11 && s[..10] == "%!Weekday(" && s[|s| - 1] == ')' && Atoi(s[10..|s| - 1]) == d
  {
    NamesDistinct();
    if Shanbe <= d && d <= Jome then DayNames[d]
    else
      UnnamedReadsBack("Weekday", d);
      Unnamed("Weekday", d)
  }

  /** The fallback text names its value: the decimal between the parentheses reads back as `n`. */
  lemma UnnamedReadsBack(kind: string, n: int)
    ensures var s := Unnamed(kind, n); 3 + |kind| < |s| && Atoi(s[2 + |kind| + 1..|s| - 1]) == n
  {
    var s := Unnamed(kind, n);
    assert s[2 + |kind| + 1..|s| - 1] == Itoa(n);
    ItoaRoundTrip(n);
  }

  lemma UnnamedInjective(kind: string, a: int, b: int)
    requires Unnamed(kind, a) == Unnamed(kind, b)
    ensures a == b
  {
    UnnamedReadsBack(kind, a);
    UnnamedReadsBack(kind, b);
  }

  /** No two months and no two weekdays share a name, and no name looks like the fallback text. */
  lemma NamesDistinct()
    ensures forall i, j :: 0 <= i < j < |MonthNames| ==> MonthNames[i] != MonthNames[j]
    ensures forall i, j :: 0 <= i < j < |DayNames| ==> DayNames[i] != DayNames[j]
    ensures forall i :: 0 <= i < |MonthNames| ==> MonthNames[i][0] != '%'
    ensures forall i :: 0 <= i < |DayNames| ==> DayNames[i][0] != '%'
  {
  }

  /** `Month.String` tells every two month values apart, named or not. */
  lemma MonthStringInjective(a: int, b: int)
    requires MonthString(a) == MonthString(b)
    ensures a == b
  {
    NamesDistinct();
    if !(Farvardin <= a <= Esfand) && !(Farvardin <= b <= Esfand) {
      UnnamedInjective("Month", a, b);
    }
  }

  /** `Weekday.String` tells every two weekday values apart, named or not. */
  lemma WeekdayStringInjective(a: int, b: int)
    requires WeekdayString(a) == WeekdayString(b)
    ensures a == b
  {
    NamesDistinct();
    if !(Shanbe <= a <= Jome) && !(Shanbe <= b <= Jome) {
      UnnamedInjective("Weekday", a, b);
    }
  }

  lemma StringFixtures()
    ensures MonthString(Esfand) == "\U{0627}\U{0633}\U{0641}\U{0646}\U{062F}"
    ensures MonthString(13) == "%!Month(13)" && MonthString(0) == "%!Month(0)"
    ensures WeekdayString(-1) == "%!Weekday(-1)"
  {
    ItoaFixtures();
  }

  lemma ItoaFixtures()
    ensures Itoa(13) == "13" && Itoa(0) == "0" && Itoa(-1) == "-1"
  {
    assert Digits(13, AsciiZero) == Digits(1, AsciiZero) + ['3'];
  }
}
