/**
 * Layout tokens and the layout scanner of format.go.
 *
 * A layout is Go's reference-time notation ("2006-01-02 15:04"): each token
 * stands for a field of the date or the clock. The layout is a Go string
 * scanned byte by byte; it is modelled here as a sequence of characters.
 * Every character the scanner reacts to is ASCII, and every byte of a
 * multi-byte UTF-8 sequence is at least 0x80, so comparing characters gives
 * the same answers as comparing bytes. The one place where the byte length
 * matters is the unguarded slice of the 'M' case, which is measured with
 * `Utf8Length`.
 */
module Layout {
  import opened GoInt
  import opened Errors
  import opened Decimal

  /** The tokens of format.go:3-26; the fractional-second tokens carry their number of digits. */
  datatype Std =
    | LongMonth | Month | NumMonth | ZeroMonth | LongWeekDay | WeekDay
    | Day | UnderDay | ZeroDay
    | Hour | Hour12 | ZeroHour12 | Minute | ZeroMinute | Second | ZeroSecond
    | LongYear | Year
    | PM | Pm
    | FracSecond0(digits: nat)   // ".0", ".00", ...: trailing zeros kept
    | FracSecond9(digits: nat)   // ".9", ".99", ...: trailing zeros dropped

  /** Tokens that need the Jalaali date (`stdNeedDate`); the weekday tokens are among them. */
  predicate NeedsDate(s: Std) {
    s.LongMonth? || s.Month? || s.NumMonth? || s.ZeroMonth? || s.LongWeekDay? || s.WeekDay?
    || s.Day? || s.UnderDay? || s.ZeroDay? || s.LongYear? || s.Year?
  }

  /** Tokens that need hour, minute and second (`stdNeedClock`); the fractional seconds are among them. */
  predicate NeedsClock(s: Std) {
    !NeedsDate(s)
  }

  // The integer encoding of format.go:3-32.

  const NeedDateBit: int := 256     // 1 << 8
  const NeedClockBit: int := 512    // 2 << 8
  const ArgUnit: int := 65536       // 1 << stdArgShift
  const Mask: int := 65535          // 1 << stdArgShift - 1

  /** The position of each token in the `iota` sequence of format.go:4-26. */
  function Ordinal(s: Std): int {
    match s
    case LongMonth => 1
    case Month => 2
    case NumMonth => 3
    case ZeroMonth => 4
    case LongWeekDay => 5
    case WeekDay => 6
    case Day => 7
    case UnderDay => 8
    case ZeroDay => 9
    case Hour => 10
    case Hour12 => 11
    case ZeroHour12 => 12
    case Minute => 13
    case ZeroMinute => 14
    case Second => 15
    case ZeroSecond => 16
    case LongYear => 17
    case Year => 18
    case PM => 19
    case Pm => 20
    case FracSecond0(_) => 21
    case FracSecond9(_) => 22
  }

  /** The integer `nextStdChunk` returns for a token: ordinal, need flag, and digit count in the high bits. */
  function Code(s: Std): int {
    var arg := if s.FracSecond0? || s.FracSecond9? then s.digits else 0;
    arg * ArgUnit + Ordinal(s) + (if NeedsDate(s) then NeedDateBit else NeedClockBit)
  }

  /** The switch of format.go:88 reads a code back: `std & stdMask` picks the token, `std >> stdArgShift` its digits. */
  function Decode(code: int): (r: Option<Std>)
    requires 0 <= code
  {
    var low, arg := code % ArgUnit, code / ArgUnit;
    if low == 1 + NeedDateBit then Some(LongMonth)
    else if low == 2 + NeedDateBit then Some(Month)
    else if low == 3 + NeedDateBit then Some(NumMonth)
    else if low == 4 + NeedDateBit then Some(ZeroMonth)
    else if low == 5 + NeedDateBit then Some(LongWeekDay)
    else if low == 6 + NeedDateBit then Some(WeekDay)
    else if low == 7 + NeedDateBit then Some(Day)
    else if low == 8 + NeedDateBit then Some(UnderDay)
    else if low == 9 + NeedDateBit then Some(ZeroDay)
    else if low == 10 + NeedClockBit then Some(Hour)
    else if low == 11 + NeedClockBit then Some(Hour12)
    else if low == 12 + NeedClockBit then Some(ZeroHour12)
    else if low == 13 + NeedClockBit then Some(Minute)
    else if low == 14 + NeedClockBit then Some(ZeroMinute)
    else if low == 15 + NeedClockBit then Some(Second)
    else if low == 16 + NeedClockBit then Some(ZeroSecond)
    else if low == 17 + NeedDateBit then Some(LongYear)
    else if low == 18 + NeedDateBit then Some(Year)
    else if low == 19 + NeedClockBit then Some(PM)
    else if low == 20 + NeedClockBit then Some(Pm)
    else if low == 21 + NeedClockBit then Some(FracSecond0(arg))
    else if low == 22 + NeedClockBit then Some(FracSecond9(arg))
    else None
  }

  /**
   * The encoding loses nothing: masking and shifting a token's code gives the
   * token back with its digit count, and the need bits of the code are the
   * ones `NeedsDate` and `NeedsClock` name.
   */
  lemma CodeRoundTrip(s: Std)
    ensures 0 <= Code(s) && Decode(Code(s)) == Some(s)
    ensures (Code(s) / NeedDateBit) % 2 == 1 <==> NeedsDate(s)
    ensures (Code(s) / NeedClockBit) % 2 == 1 <==> NeedsClock(s)
  {
    var arg := if s.FracSecond0? || s.FracSecond9? then s.digits else 0;
    var o := Ordinal(s);
    assert 1 <= o <= 22;
    if NeedsDate(s) {
      DivideBy(Code(s), ArgUnit, arg, o + NeedDateBit);
      DivideBy(Code(s), NeedDateBit, 256 * arg + 1, o);
      DivideBy(Code(s), NeedClockBit, 128 * arg, o + NeedDateBit);
      DivideBy(256 * arg + 1, 2, 128 * arg, 1);
      DivideBy(128 * arg, 2, 64 * arg, 0);
    } else {
      DivideBy(Code(s), ArgUnit, arg, o + NeedClockBit);
      DivideBy(Code(s), NeedDateBit, 256 * arg + 2, o);
      DivideBy(Code(s), NeedClockBit, 128 * arg + 1, o);
      DivideBy(256 * arg + 2, 2, 128 * arg + 1, 0);
      DivideBy(128 * arg + 1, 2, 64 * arg, 1);
    }
  }

  /** `std0x` of format.go:35: the tokens "01" to "06" stand for. */
  const Std0x: seq<Std> := [ZeroMonth, ZeroDay, ZeroHour12, ZeroMinute, ZeroSecond, Year]

  /** The layout text of each token, as the comments of format.go:5-26 give it. */
  function StdText(s: Std): string {
    match s
    case LongMonth => "January"
    case Month => "Jan"
    case NumMonth => "1"
    case ZeroMonth => "01"
    case LongWeekDay => "Monday"
    case WeekDay => "Mon"
    case Day => "2"
    case UnderDay => "_2"
    case ZeroDay => "02"
    case Hour => "15"
    case Hour12 => "3"
    case ZeroHour12 => "03"
    case Minute => "4"
    case ZeroMinute => "04"
    case Second => "5"
    case ZeroSecond => "05"
    case LongYear => "2006"
    case Year => "06"
    case PM => "PM"
    case Pm => "pm"
    case FracSecond0(n) => "." + Repeat('0', n)
    case FracSecond9(n) => "." + Repeat('9', n)
  }

  /** The bytes of a string in UTF-8: one per ASCII character, up to four for the others. */
  function Utf8Length(s: string): nat {
    if |s| == 0 then 0
    else (if s[0] < '\U{0080}' then 1 else if s[0] < '\U{0800}' then 2 else if s[0] < '\U{10000}' then 3 else 4)
         + Utf8Length(s[1..])
  }

  /** A character takes one to four bytes, and exactly one when it is ASCII. */
  lemma {:induction false} Utf8Bounds(s: string)
    ensures |s| <= Utf8Length(s) <= 4 * |s|
    ensures (forall k :: 0 <= k < |s| ==> s[k] < '\U{0080}') ==> Utf8Length(s) == |s|
  {
    if |s| > 0 {
      Utf8Bounds(s[1..]);
    }
  }

  /** The characters the switch of format.go:157-240 has a case for. */
  predicate IsTrigger(c: char) {
    c == 'J' || c == 'M' || c == '0' || c == '1' || c == '2' || c == '_'
    || c == '3' || c == '4' || c == '5' || c == 'P' || c == 'p' || c == '.'
  }

  /** Text without a trigger character holds no token: the scan runs to the end and finds nothing. */
  lemma {:induction false} QuietScan(layout: string, i: nat)
    requires i <= |layout| && Quiet(layout, i)
    requires forall k :: i <= k < |layout| ==> !IsTrigger(layout[k])
    ensures ScanFrom(layout, i) == Literal
    decreases |layout| - i
  {
    if i < |layout| {
      ReactsOnTrigger(layout, i);
      QuietScan(layout, i + 1);
    }
  }

  /** `startsWithLowerCase` of format.go:247-253. */
  predicate StartsWithLowerCase(s: string) {
    0 < |s| && 'a' <= s[0] <= 'z'
  }

  /** `isDigit` of format.go:256-262: `s[i]` exists and is an ASCII digit. */
  predicate IsDigit(s: string, i: nat) {
    i < |s| && '0' <= s[i] <= '9'
  }

  /** Whether `w` occurs in `s` at `i`. */
  predicate HasAt(s: string, i: nat, w: string) {
    i + |w| <= |s| && s[i..i + |w|] == w
  }

  /** The end of the run of `ch` starting at `j` (the loop of format.go:227-229). */
  function RunEnd(s: string, j: nat, ch: char): (e: nat)
    requires j <= |s|
    ensures j <= e <= |s|
    ensures forall k :: j <= k < e ==> s[k] == ch
    ensures e == |s| || s[e] != ch
    decreases |s| - j
  {
    if j < |s| && s[j] == ch then RunEnd(s, j + 1, ch) else j
  }

  /**
   * What `nextStdChunk` returns: the text before the first token, the token
   * and the text after it; `Literal` for a layout without a token, which Go
   * returns as `(layout, 0, "")`; and `SlicePanic` where the 'M' case slices
   * past the end of the layout, which makes Go panic.
   */
  datatype Chunk =
    | Token(prefix: string, std: Std, suffix: string)
    | Literal
    | SlicePanic(at: nat)

  /** The digits that always start a token. */
  predicate AlwaysToken(c: char) {
    '1' <= c <= '5'
  }

  /**
   * Whether the switch of format.go:157-240 finds a token at `i`, described
   * by the text there rather than by the steps of the switch: a month or
   * weekday name (the short one not followed by a lower-case letter), "01"
   * to "06", a digit 1 to 5, "_2", "PM" or "pm", or a dot followed by a run
   * of '0's or '9's that no other digit follows.
   */
  predicate Reacts(layout: string, i: nat)
    requires i < |layout|
  {
    || (HasAt(layout, i, "Jan") && (HasAt(layout, i, "January") || !StartsWithLowerCase(layout[i + 3..])))
    || (HasAt(layout, i, "Mon") && (HasAt(layout, i, "Monday") || !StartsWithLowerCase(layout[i + 3..])))
    || (layout[i] == '0' && i + 1 < |layout| && '1' <= layout[i + 1] <= '6')
    || AlwaysToken(layout[i])
    || HasAt(layout, i, "_2")
    || HasAt(layout, i, "PM") || HasAt(layout, i, "pm")
    || (layout[i] == '.' && i + 1 < |layout| && (layout[i + 1] == '0' || layout[i + 1] == '9')
        && !IsDigit(layout, RunEnd(layout, i + 1, layout[i + 1])))
  }

  /** Where the 'M' case slices three bytes past the end of the layout (format.go:169). */
  predicate Panics(layout: string, i: nat)
    requires i < |layout|
  {
    layout[i] == 'M' && Utf8Length(layout[i..]) < 3
  }

  /** The scan passes every position before `i` without stopping. */
  predicate Quiet(layout: string, i: nat)
    requires i <= |layout|
  {
    forall k :: 0 <= k < i ==> !Reacts(layout, k) && !Panics(layout, k)
  }

  /**
   * Where a token was found: the end of its prefix, or the literal '_' just
   * before it when "_2006" was read as '_' and the long year.
   */
  function FoundAt(r: Chunk): nat
    requires r.Token?
  {
    if r.std == LongYear && 0 < |r.prefix| && r.prefix[|r.prefix| - 1] == '_' then |r.prefix| - 1 else |r.prefix|
  }

  /**
   * What the scan from position `i` on returns. A token is the one the
   * switch finds at the first position from `i` on where it finds any: the
   * scan passed every earlier position, and the layout is the prefix, the
   * token's text and the suffix in order. `Literal` means the switch finds
   * nothing anywhere, and a panic comes from the first position that panics.
   */
  predicate FirstChunk(layout: string, i: nat, r: Chunk)
    requires i <= |layout|
  {
    match r
    case Token(prefix, std, suffix) =>
      && i <= |prefix| && layout == prefix + StdText(std) + suffix
      && (forall k :: 0 <= k < |prefix| ==> !AlwaysToken(prefix[k]))
      && i <= FoundAt(r) < |layout| && ScanAt(layout, FoundAt(r)) == Some(r) && Quiet(layout, FoundAt(r))
      && !Quiet(layout, |layout|)
    case Literal => Quiet(layout, |layout|)
    case SlicePanic(at) => i <= at < |layout| && Panics(layout, at) && Quiet(layout, at) && !Quiet(layout, |layout|)
  }

  /**
   * `nextStdChunk` of format.go:155-243: the first token of the layout, as
   * `FirstChunk` describes it from position 0; the suffix after a token is
   * shorter than the layout.
   */
  function NextStdChunk(layout: string): (r: Chunk)
    ensures FirstChunk(layout, 0, r)
    ensures r.Token? ==> |r.suffix| < |layout|
  {
    ScanFrom(layout, 0)
  }

  /** The scan of `nextStdChunk` from position `i` on, the loop's index. */
  function ScanFrom(layout: string, i: nat): (r: Chunk)
    requires i <= |layout| && Quiet(layout, i)
    ensures FirstChunk(layout, i, r)
    decreases |layout| - i
  {
    if i == |layout| then Literal
    else
      var r := ScanAt(layout, i);
      ScanAtReacts(layout, i);
      if Panics(layout, i) then
        QuietStops(layout, i, |layout|);
        SlicePanic(i)
      else if r.Some? then
        TokenWhereScanned(layout, i);
        QuietStops(layout, i, |layout|);
        r.value
      else
        QuietStep(layout, i);
        ScanFrom(layout, i + 1)
  }

  lemma QuietStep(layout: string, i: nat)
    requires i < |layout| && Quiet(layout, i) && !Reacts(layout, i) && !Panics(layout, i)
    ensures Quiet(layout, i + 1)
  {
  }

  lemma QuietStops(layout: string, i: nat, j: nat)
    requires i < j <= |layout|
    ensures Reacts(layout, i) || Panics(layout, i) ==> !Quiet(layout, j)
  {
  }

  /** A token the switch finds where the scan stands is the scan's answer, with everything `ScanFrom` promises. */
  lemma TokenWhereScanned(layout: string, i: nat)
    requires i < |layout| && Quiet(layout, i) && ScanAt(layout, i).Some?
    ensures var r := ScanAt(layout, i).value;
            && r.Token? && i <= |r.prefix| && layout == r.prefix + StdText(r.std) + r.suffix
            && (forall k :: 0 <= k < |r.prefix| ==> !AlwaysToken(r.prefix[k]))
            && FoundAt(r) == i
  {
    var r := ScanAt(layout, i).value;
    FoundWhereScanned(layout, i);
    forall k | 0 <= k < |r.prefix|
      ensures !AlwaysToken(r.prefix[k])
    {
      assert r.prefix[k] == layout[k];
      if k < i {
        assert !Reacts(layout, k);
      }
    }
  }

  /** The switch only finds a token at a character it has a case for. */
  lemma ReactsOnTrigger(layout: string, i: nat)
    requires i < |layout|
    ensures Reacts(layout, i) ==> IsTrigger(layout[i])
  {
    if HasAt(layout, i, "Jan") || HasAt(layout, i, "Mon") || HasAt(layout, i, "_2") || HasAt(layout, i, "PM") || HasAt(layout, i, "pm") {
      assert layout[i] == layout[i..i + 2][0];
    }
  }

  /** The switch finds a token at `i` exactly when the text there `Reacts`. */
  lemma ScanAtReacts(layout: string, i: nat)
    requires i < |layout|
    ensures ScanAt(layout, i).Some? <==> Reacts(layout, i)
  {
    var c := layout[i];
    HeadAt(layout, i, "Jan");
    HeadAt(layout, i, "Mon");
    PairAt(layout, i, "_2");
    PairAt(layout, i, "PM");
    PairAt(layout, i, "pm");
    if c == 'J' {
      NameReacts(layout, i, "January", LongMonth, "Jan", Month);
    } else if c == 'M' {
      NameReacts(layout, i, "Monday", LongWeekDay, "Mon", WeekDay);
    } else if c == '.' {
      assert ScanAt(layout, i) == ScanFraction(layout, i);
    }
  }

  /** The 'J' and 'M' cases find a name exactly where `Reacts` describes one. */
  lemma NameReacts(layout: string, i: nat, long: string, longStd: Std, short: string, shortStd: Std)
    requires i < |layout| && StdText(longStd) == long && StdText(shortStd) == short
    requires |short| == 3 <= |long| && long[..3] == short
    ensures ScanName(layout, i, long, longStd, short, shortStd).Some? <==>
              HasAt(layout, i, short) && (HasAt(layout, i, long) || !StartsWithLowerCase(layout[i + 3..]))
  {
    HasLonger(layout, i, short, long);
  }

  /** A word found at `i` starts with the character at `i`. */
  lemma HeadAt(s: string, i: nat, w: string)
    ensures 0 < |w| && HasAt(s, i, w) ==> s[i] == w[0]
  {
    if 0 < |w| && HasAt(s, i, w) {
      assert s[i] == s[i..i + |w|][0];
    }
  }

  /** A two-character word is found at `i` exactly when its two characters stand there. */
  lemma PairAt(s: string, i: nat, w: string)
    ensures |w| == 2 ==> (HasAt(s, i, w) <==> i + 2 <= |s| && s[i] == w[0] && s[i + 1] == w[1])
  {
    if |w| == 2 && i + 2 <= |s| && s[i] == w[0] && s[i + 1] == w[1] {
      assert s[i..i + 2] == w;
    }
  }

  /**
   * `startsWithLowerCase` decides the short names: where "Jan" or "Mon"
   * stands without its long form, it is a token exactly when no lower-case
   * letter follows ("Month" is text, "Mon 2" a weekday).
   */
  lemma ShortNameEnds(layout: string, i: nat)
    requires i + 3 <= |layout|
    requires (HasAt(layout, i, "Jan") && !HasAt(layout, i, "January")) || (HasAt(layout, i, "Mon") && !HasAt(layout, i, "Monday"))
    ensures ScanAt(layout, i).Some? <==> !StartsWithLowerCase(layout[i + 3..])
  {
    assert layout[i] == layout[i..i + 3][0];
    ScanAtReacts(layout, i);
  }

  /**
   * `isDigit` decides the fractions: a dot followed by a run of '0's or '9's
   * is a token exactly when the character after the run is not a digit.
   */
  lemma FractionEnds(layout: string, i: nat)
    requires i + 1 < |layout| && layout[i] == '.' && (layout[i + 1] == '0' || layout[i + 1] == '9')
    ensures ScanAt(layout, i).Some? <==> !IsDigit(layout, RunEnd(layout, i + 1, layout[i + 1]))
  {
    assert ScanAt(layout, i) == ScanFraction(layout, i);
  }

  /** A word that starts with `short` holds `short` wherever it occurs. */
  lemma HasLonger(s: string, i: nat, short: string, long: string)
    requires |short| <= |long| && long[..|short|] == short
    ensures HasAt(s, i, long) ==> HasAt(s, i, short)
  {
    if HasAt(s, i, long) {
      assert s[i..i + |short|] == s[i..i + |long|][..|short|];
    }
  }

  /** A token the switch finds at a position the scan reached is reported as found there. */
  lemma FoundWhereScanned(layout: string, i: nat)
    requires i < |layout| && Quiet(layout, i) && ScanAt(layout, i).Some?
    ensures FoundAt(ScanAt(layout, i).value) == i
  {
    var r := ScanAt(layout, i).value;
    if |r.prefix| == i && r.std == LongYear && 0 < i && layout[i - 1] == '_' {
      assert r.prefix[i - 1] == layout[i - 1];
      assert layout[i] == '2';
      assert HasAt(layout, i - 1, "_2");
      assert Reacts(layout, i - 1);
      assert false;
    }
  }

  /**
   * What every case of the switch promises: a token found at `i` starts
   * there, or one character later behind a literal '_', and the layout
   * splits around it.
   */
  predicate Splits(layout: string, i: nat, r: Option<Chunk>) {
    r.Some? ==>
      && r.value.Token?
      && i <= |r.value.prefix| <= i + 1
      && layout == r.value.prefix + StdText(r.value.std) + r.value.suffix
      && r.value.prefix == layout[..|r.value.prefix|]
      && (|r.value.prefix| == i + 1 ==> i < |layout| && layout[i] == '_' && r.value.std == LongYear)
  }

  /** The token that starts at `i`, if any: the switch of format.go:157-240. */
  function ScanAt(layout: string, i: nat): (r: Option<Chunk>)
    requires i < |layout|
    ensures Splits(layout, i, r)
    ensures AlwaysToken(layout[i]) ==> r.Some? && |r.value.prefix| == i
  {
    var c := layout[i];
    if c == 'J' then ScanName(layout, i, "January", LongMonth, "Jan", Month)
    else if c == 'M' then ScanName(layout, i, "Monday", LongWeekDay, "Mon", WeekDay)
    else if c == '0' then ScanZero(layout, i)
    else if AlwaysToken(c) then Some(ScanDigit(layout, i))
    else if c == '_' then ScanUnderscore(layout, i)
    else if c == 'P' then ScanPair(layout, i, 'M', PM)
    else if c == 'p' then ScanPair(layout, i, 'm', Pm)
    else if c == '.' then ScanFraction(layout, i)
    else None
  }

  /**
   * The 'J' and 'M' cases: the long name, or the short name when no
   * lower-case letter follows it ("Month" is not "Mon" followed by "th").
   */
  function ScanName(layout: string, i: nat, long: string, longStd: Std, short: string, shortStd: Std): (r: Option<Chunk>)
    requires i < |layout| && StdText(longStd) == long && StdText(shortStd) == short
    ensures Splits(layout, i, r)
  {
    if HasAt(layout, i, long) then Some(Cut(layout, i, longStd, i + |long|))
    else if HasAt(layout, i, short) && !StartsWithLowerCase(layout[i + |short|..]) then Some(Cut(layout, i, shortStd, i + |short|))
    else None
  }

  /** The cases '1' to '5': "15" or "1", "2006" or "2", and "3", "4", "5". */
  function ScanDigit(layout: string, i: nat): (r: Chunk)
    requires i < |layout| && AlwaysToken(layout[i])
    ensures Splits(layout, i, Some(r)) && |r.prefix| == i
  {
    var c := layout[i];
    assert layout[i..i + 1] == [c];
    if c == '1' then
      if i + 2 <= |layout| && layout[i + 1] == '5' then
        assert layout[i..i + 2] == [c, '5'];
        Cut(layout, i, Hour, i + 2)
      else Cut(layout, i, NumMonth, i + 1)
    else if c == '2' then
      if HasAt(layout, i, "2006") then Cut(layout, i, LongYear, i + 4)
      else Cut(layout, i, Day, i + 1)
    else if c == '3' then Cut(layout, i, Hour12, i + 1)
    else if c == '4' then Cut(layout, i, Minute, i + 1)
    else Cut(layout, i, Second, i + 1)
  }

  /** The '0' case: "01" to "06" through `std0x`. */
  function ScanZero(layout: string, i: nat): (r: Option<Chunk>)
    requires i < |layout| && layout[i] == '0'
    ensures Splits(layout, i, r)
  {
    if i + 2 <= |layout| && '1' <= layout[i + 1] <= '6' then
      var k := layout[i + 1] as int - '1' as int;
      var std := Std0x[k];
      Std0xText(k);
      assert layout[i..i + 2] == [layout[i], layout[i + 1]];
      Some(Cut(layout, i, std, i + 2))
    else None
  }

  /** The text of `std0x[k]` is '0' followed by the digit `k + 1`. */
  lemma Std0xText(k: int)
    requires 0 <= k < 6
    ensures StdText(Std0x[k]) == ['0', ('1' as int + k) as char]
  {
  }

  /** The '_' case: "_2006" is a literal '_' followed by the long year, "_2" the space-padded day. */
  function ScanUnderscore(layout: string, i: nat): (r: Option<Chunk>)
    requires i < |layout| && layout[i] == '_'
    ensures Splits(layout, i, r)
  {
    if i + 2 <= |layout| && layout[i + 1] == '2' then
      if HasAt(layout, i + 1, "2006") then Some(Cut(layout, i + 1, LongYear, i + 5))
      else Some(Cut(layout, i, UnderDay, i + 2))
    else None
  }

  /** The 'P' and 'p' cases: "PM" and "pm". */
  function ScanPair(layout: string, i: nat, second: char, std: Std): (r: Option<Chunk>)
    requires i < |layout| && StdText(std) == [layout[i], second]
    ensures Splits(layout, i, r)
  {
    if i + 2 <= |layout| && layout[i + 1] == second then Some(Cut(layout, i, std, i + 2)) else None
  }

  /**
   * The '.' case: a run of '0's or of '9's after the dot is a fractional
   * second of that many digits, unless another digit follows the run.
   */
  function ScanFraction(layout: string, i: nat): (r: Option<Chunk>)
    requires i < |layout| && layout[i] == '.'
    ensures Splits(layout, i, r)
  {
    if i + 1 < |layout| && (layout[i + 1] == '0' || layout[i + 1] == '9') then
      var ch := layout[i + 1];
      var j := RunEnd(layout, i + 1, ch);
      if !IsDigit(layout, j) then
        var std := if ch == '9' then FracSecond9(j - (i + 1)) else FracSecond0(j - (i + 1));
        FractionSpan(layout, i, ch);
        assert StdText(std) == "." + Repeat(ch, j - (i + 1));
        CutSplits(layout, i, std, j);
        Some(Cut(layout, i, std, j))
      else None
    else None
  }

  /** A dot and the run of `ch` after it read as the dot followed by that many copies of `ch`. */
  lemma FractionSpan(s: string, i: nat, ch: char)
    requires i < |s| && s[i] == '.'
    ensures var j := RunEnd(s, i + 1, ch); s[i..j] == "." + Repeat(ch, j - (i + 1))
  {
    var j := RunEnd(s, i + 1, ch);
    var w := "." + Repeat(ch, j - (i + 1));
    forall k | 0 <= k < |w|
      ensures s[i..j][k] == w[k]
    {
      if 0 < k {
        assert w[k] == Repeat(ch, j - (i + 1))[k - 1];
      }
    }
  }

  /** The chunk whose token `std` spans `layout[i..j]`. */
  function Cut(layout: string, i: nat, std: Std, j: nat): (r: Chunk)
    requires i <= j <= |layout| && layout[i..j] == StdText(std)
    ensures r.Token? && r.prefix == layout[..i] && r.std == std && r.suffix == layout[j..]
    ensures layout == r.prefix + StdText(r.std) + r.suffix
  {
    assert layout == layout[..i] + layout[i..j] + layout[j..];
    Token(layout[..i], std, layout[j..])
  }

  /** A token cut out at `i` splits the layout as every case of the switch promises. */
  lemma CutSplits(layout: string, i: nat, std: Std, j: nat)
    requires i <= j <= |layout| && layout[i..j] == StdText(std)
    ensures Splits(layout, i, Some(Cut(layout, i, std, j)))
  {
  }

  /** A token the switch finds at the start of the layout is the first chunk. */
  lemma TokenAtStart(layout: string, r: Chunk)
    requires 0 < |layout| && layout[0] != 'M' && ScanAt(layout, 0) == Some(r)
    ensures NextStdChunk(layout) == r
  {
  }

  /** A position where the switch finds nothing and that is no 'M' is passed over. */
  lemma ScanPasses(layout: string, i: nat)
    requires i < |layout| && Quiet(layout, i) && layout[i] != 'M' && ScanAt(layout, i) == None
    ensures Quiet(layout, i + 1) && ScanFrom(layout, i) == ScanFrom(layout, i + 1)
  {
    ScanAtReacts(layout, i);
    QuietStep(layout, i);
  }

  /** A token the switch finds at the second position, after a first one it passes, is the first chunk. */
  lemma TokenAtSecond(layout: string, r: Chunk)
    requires 1 < |layout| && layout[0] != 'M' && layout[1] != 'M'
    requires ScanAt(layout, 0) == None && ScanAt(layout, 1) == Some(r)
    ensures NextStdChunk(layout) == r
  {
    ScanPasses(layout, 0);
    assert ScanFrom(layout, 1) == r;
  }

  // How the scanner reads some layouts.

  lemma JanuaryIsLongMonth()
    ensures NextStdChunk("January") == Token("", LongMonth, "")
  {
    assert HasAt("January", 0, "January");
    TokenAtStart("January", Token("", LongMonth, ""));
  }

  lemma JanIsShortMonth()
    ensures NextStdChunk("Jan 2") == Token("", Month, " 2")
  {
    var layout := "Jan 2";
    assert HasAt(layout, 0, "Jan") && !StartsWithLowerCase(layout[3..]);
    assert ScanAt(layout, 0) == Some(Token("", Month, " 2"));
    TokenAtStart(layout, Token("", Month, " 2"));
  }

  lemma MondayIsLongWeekday(layout: string)
    requires layout == "Monday"
    ensures NextStdChunk(layout) == Token("", LongWeekDay, "")
  {
    Utf8Bounds(layout);
    assert HasAt(layout, 0, "Monday");
    assert ScanAt(layout, 0) == Some(Token("", LongWeekDay, ""));
  }

  lemma MonthIsNoToken(layout: string)
    requires layout == "Month"
    ensures NextStdChunk(layout) == Literal
  {
    Utf8Bounds(layout);
    QuietScan(layout, 1);
    assert StartsWithLowerCase(layout[3..]);
    assert ScanName(layout, 0, "Monday", LongWeekDay, "Mon", WeekDay) == None;
  }

  lemma FifteenIsHour()
    ensures NextStdChunk("15:04") == Token("", Hour, ":04")
  {
    TokenAtStart("15:04", Token("", Hour, ":04"));
  }

  lemma OneIsMonth()
    ensures NextStdChunk("1") == Token("", NumMonth, "")
  {
    TokenAtStart("1", Token("", NumMonth, ""));
  }

  lemma UnderscoreThenLongYear(layout: string)
    requires layout == "x_2006"
    ensures NextStdChunk(layout) == Token("x_", LongYear, "")
  {
    assert ScanAt(layout, 0) == None;
    assert ScanAt(layout, 1) == Some(Token("x_", LongYear, "")) by {
      assert layout[1] == '_' && layout[2] == '2' && HasAt(layout, 2, "2006");
      assert layout[..2] == "x_" && layout[6..] == "";
    }
    TokenAtSecond(layout, Token("x_", LongYear, ""));
  }

  lemma UnderscoreTwoIsDay()
    ensures NextStdChunk("_2") == Token("", UnderDay, "")
  {
    TokenAtStart("_2", Token("", UnderDay, ""));
  }

  lemma ZerosAreFraction(layout: string)
    requires layout == ".000Z"
    ensures NextStdChunk(layout) == Token("", FracSecond0(3), "Z")
  {
    assert RunEnd(layout, 4, '0') == 4;
    assert RunEnd(layout, 3, '0') == 4;
    assert RunEnd(layout, 2, '0') == 4;
    assert RunEnd(layout, 1, '0') == 4;
    assert ScanFraction(layout, 0) == Some(Token("", FracSecond0(3), "Z"));
    TokenAtStart(layout, Token("", FracSecond0(3), "Z"));
  }

  lemma NinesAreTrimmedFraction(layout: string)
    requires layout == ".99"
    ensures NextStdChunk(layout) == Token("", FracSecond9(2), "")
  {
    assert RunEnd(layout, 1, '9') == 3 by {
      assert RunEnd(layout, 3, '9') == 3;
      assert RunEnd(layout, 2, '9') == 3;
    }
    assert ScanFraction(layout, 0) == Some(Token("", FracSecond9(2), ""));
    TokenAtStart(layout, Token("", FracSecond9(2), ""));
  }

  /** A run of zeros followed by another digit is no fraction; the scan goes on and finds "01". */
  lemma FractionMustEndDigits(layout: string)
    requires layout == ".0001"
    ensures NextStdChunk(layout) == Token(".00", ZeroMonth, "")
  {
    assert RunEnd(layout, 1, '0') == 4 by {
      assert RunEnd(layout, 4, '0') == 4;
      assert RunEnd(layout, 3, '0') == 4;
      assert RunEnd(layout, 2, '0') == 4;
    }
    assert ScanAt(layout, 0) == None;
    ScanPasses(layout, 0);
    assert ScanAt(layout, 1) == None;
    ScanPasses(layout, 1);
    assert ScanAt(layout, 2) == None;
    ScanPasses(layout, 2);
    assert ScanAt(layout, 3) == Some(Token(".00", ZeroMonth, "")) by {
      assert layout[3] == '0' && layout[4] == '1' && Std0x[0] == ZeroMonth;
      assert layout[..3] == ".00" && layout[5..] == "";
    }
    assert ScanFrom(layout, 3) == Token(".00", ZeroMonth, "");
  }

  /** Go slices three bytes at an 'M' unguarded: among the last two bytes it panics, before a two-byte letter it does not. */
  lemma TrailingMPanics()
    ensures NextStdChunk("xM") == SlicePanic(1)
  {
  }

  lemma MBeforeTwoByteLetter()
    ensures NextStdChunk("M\U{0627}") == Literal
  {
  }
}
