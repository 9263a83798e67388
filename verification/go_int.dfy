/**
 * Go's integer division and remainder.
 *
 * Go's `/` truncates toward zero and `%` takes the sign of the dividend,
 * whereas Dafny's `/` and `%` are Euclidean. Every piece of the calendar
 * arithmetic is written with these two functions so that negative
 * intermediate values behave as they do in the original code.
 */
module GoInt {

  function Abs(x: int): nat {
    if x < 0 then -x else x
  }

  /** `a / b` in Go: the quotient rounded toward zero. */
  function GoDiv(a: int, b: int): int
    requires b != 0
  {
    var u := Abs(a) / Abs(b);
    if (a < 0) == (b < 0) then u else -u
  }

  /** `a % b` in Go: the remainder that goes with `GoDiv`. */
  function GoMod(a: int, b: int): int
    requires b != 0
  {
    a - GoDiv(a, b) * b
  }

  lemma DivBounds(x: nat, y: nat)
    requires 0 < y
    ensures (x / y) * y <= x < (x / y) * y + y
  {
  }

  lemma NegMul(u: int, b: int)
    ensures (-u) * b == -(u * b) && u * (-b) == -(u * b)
  {
  }

  /** The bounds of `GoDiv`, stated on the quotient of the magnitudes with the sign put back. */
  lemma SignedQuotient(a: int, b: int)
    requires b != 0
    ensures var u := Abs(a) / Abs(b);
            var q := if (a < 0) == (b < 0) then u else -u;
            (0 <= a ==> 0 <= q * b <= a < q * b + Abs(b)) && (a <= 0 ==> q * b - Abs(b) < a <= q * b <= 0)
  {
    var u := Abs(a) / Abs(b);
    DivBounds(Abs(a), Abs(b));
    if 0 <= a && 0 < b {
    } else if 0 <= a {
      NegMul(u, b);
    } else if 0 < b {
      NegMul(u, b);
    } else {
      NegMul(u, -b);
    }
  }

  /**
   * The defining properties of Go's division: the quotient times the divisor
   * never overshoots the dividend in magnitude, the remainder keeps the
   * dividend's sign and is smaller than the divisor in magnitude.
   */
  lemma Truncation(a: int, b: int)
    requires b != 0
    ensures 0 <= a ==> 0 <= GoDiv(a, b) * b <= a < GoDiv(a, b) * b + Abs(b)
    ensures a <= 0 ==> GoDiv(a, b) * b - Abs(b) < a <= GoDiv(a, b) * b <= 0
    ensures GoDiv(a, b) * b + GoMod(a, b) == a
    ensures Abs(GoMod(a, b)) < Abs(b)
    ensures 0 <= a ==> 0 <= GoMod(a, b)
    ensures a <= 0 ==> GoMod(a, b) <= 0
  {
    SignedQuotient(a, b);
  }

  /**
   * The bounds of `GoDiv` pin the quotient down: any `q` whose multiple of
   * the divisor lies where truncation puts it is `GoDiv(a, b)`, and the
   * remainder left over is `GoMod(a, b)`.
   */
  lemma {:induction false} TruncationUnique(a: int, b: int, q: int)
    requires b != 0
    requires 0 <= a ==> 0 <= q * b <= a < q * b + Abs(b)
    requires a <= 0 ==> q * b - Abs(b) < a <= q * b <= 0
    ensures q == GoDiv(a, b) && a - q * b == GoMod(a, b)
  {
    var p := GoDiv(a, b);
    Truncation(a, b);
    var x, y := q * b, p * b;
    assert 0 - Abs(b) < x - y < Abs(b);
    var e := q - p;
    assert e * b == x - y by {
      Distribute(q, p, b);
    }
    if e != 0 {
      Magnitude(e, b);
    }
  }

  lemma Distribute(q: int, p: int, b: int)
    ensures (q - p) * b == q * b - p * b
  {
  }

  /** A non-zero multiple of `b` is at least `b` in size. */
  lemma Magnitude(e: int, b: int)
    requires e != 0 && b != 0
    ensures Abs(b) <= Abs(e * b)
  {
    AtLeastOnce(Abs(b), Abs(e));
    assert Abs(e * b) == Abs(e) * Abs(b) by {
      NegMul(e, b);
      NegMul(-e, b);
    }
  }

  /** On a non-negative dividend and a positive divisor Go and Dafny agree. */
  lemma NonNegativeAgrees(a: int, b: int)
    requires 0 <= a && 0 < b
    ensures GoDiv(a, b) == a / b
    ensures GoMod(a, b) == a % b
  {
  }

  /**
   * How Go's division by a positive divisor relates to Dafny's Euclidean
   * one for every dividend: they agree unless the dividend is negative and
   * not a multiple, where Go's quotient is one higher and its remainder one
   * divisor lower. The month shift `div(gm - 8, 6)` of the Julian Day codec
   * is such a case for March.
   */
  lemma {:induction false} TruncationVersusFloor(a: int, b: int)
    requires 0 < b
    ensures 0 <= a || a % b == 0 ==> GoDiv(a, b) == a / b && GoMod(a, b) == a % b
    ensures a < 0 && a % b != 0 ==> GoDiv(a, b) == a / b + 1 && GoMod(a, b) == a % b - b
  {
    var f, m := a / b, a % b;
    assert a == f * b + m && 0 <= m < b;
    if 0 <= a {
      TruncationUnique(a, b, f);
    } else if m == 0 {
      assert f * b == a;
      TruncationUnique(a, b, f);
    } else {
      assert (f + 1) * b == a - m + b;
      assert f < 0;
      assert (f + 1) * b <= 0 by {
        assert f + 1 <= 0;
        NegMul(-(f + 1), b);
      }
      TruncationUnique(a, b, f + 1);
    }
  }

  /** Euclidean division of a number written as `m * q + r`. */
  lemma DivideBy(x: int, m: int, q: int, r: int)
    requires 0 < m && x == m * q + r && 0 <= r < m
    ensures x / m == q && x % m == r
  {
    var q', r' := x / m, x % m;
    assert m * (q - q') == r' - r;
    if q > q' {
      AtLeastOnce(m, q - q');
    } else if q < q' {
      AtLeastOnce(m, q' - q);
    }
  }

  lemma AtLeastOnce(m: int, d: int)
    requires 0 < m && 1 <= d
    ensures m <= m * d
  {
  }
}
