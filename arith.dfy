/** Integer facts and the rounding rule that Python's timedelta arithmetic uses. */
module Arith {

  lemma MulMonotone(x: int, y: int, b: int)
    requires x <= y && b >= 0
    ensures x * b <= y * b
  {
    assert y * b - x * b == (y - x) * b;
  }

  /** a / b is pinned between lo and hi when a lies between lo * b and hi * b. */
  lemma DivBetween(a: int, b: int, lo: int, hi: int)
    requires b > 0 && lo * b <= a <= hi * b
    ensures lo <= a / b <= hi
  {
    var q, r := a / b, a % b;
    assert a == q * b + r && 0 <= r < b;
    if q > hi {
      MulMonotone(hi + 1, q, b);
      assert false;
    }
    if q < lo {
      MulMonotone(q + 1, lo, b);
      assert false;
    }
  }

  /** Quotient and remainder are the unique pair with a == q * b + r and 0 <= r < b. */
  lemma DivModUnique(a: int, b: int, q: int, r: int)
    requires b > 0 && a == q * b + r && 0 <= r < b
    ensures a / b == q && a % b == r
  {
    var q', r' := a / b, a % b;
    assert q' * b + r' == q * b + r;
    if q' > q {
      MulMonotone(1, q' - q, b);
      assert false;
    } else if q' < q {
      MulMonotone(1, q - q', b);
      assert false;
    }
  }

  /** Moving the numerator up by one moves the quotient up exactly when it reaches a multiple. */
  lemma DivStep(p: int, c: int)
    requires c > 0
    ensures (p + 1) / c == p / c + (if (p + 1) % c == 0 then 1 else 0)
  {
    var q, r := p / c, p % c;
    if r + 1 == c {
      DivModUnique(p + 1, c, q + 1, 0);
    } else {
      DivModUnique(p + 1, c, q, r + 1);
    }
  }

  /**
   * a / b rounded to the nearest integer, ties to the even neighbour
   * (Python's _divide_and_round, used when a timedelta is multiplied by a float):
   * q * b is within b / 2 of a, and on a tie q is even.
   */
  function RoundHalfEven(a: int, b: int): (q: int)
    requires b > 0
    ensures -b <= 2 * (a - q * b) <= b
    ensures 2 * (a - q * b) == b || 2 * (a - q * b) == -b ==> q % 2 == 0
  {
    var d, r := a / b, a % b;
    assert a == d * b + r;
    if 2 * r > b || (2 * r == b && d % 2 == 1) then
      assert a - (d + 1) * b == r - b;
      d + 1
    else
      d
  }

  /** Rounding stays between lo and hi when the exact quotient does. */
  lemma RoundHalfEvenBetween(a: int, b: int, lo: int, hi: int)
    requires b > 0 && lo * b <= a <= hi * b
    ensures lo <= RoundHalfEven(a, b) <= hi
  {
    DivBetween(a, b, lo, hi);
    var q, r := a / b, a % b;
    if q == hi {
      assert a == q * b + r;
      assert r == 0;
    }
  }

  /** Rounding never reverses the order of two numerators. */
  lemma RoundHalfEvenMonotone(a1: int, a2: int, b: int)
    requires b > 0 && a1 <= a2
    ensures RoundHalfEven(a1, b) <= RoundHalfEven(a2, b)
  {
    var q1, q2 := a1 / b, a2 / b;
    assert a1 == q1 * b + a1 % b && a2 == q2 * b + a2 % b;
    if q1 > q2 {
      MulMonotone(q2 + 1, q1, b);
      assert false;
    }
  }

  /**
   * Just below the multiple c * b, the rounded quotient reaches c exactly when the
   * distance e is at most half of b (a tie goes to c because c is even).
   */
  lemma RoundHalfEvenBelowEven(c: int, b: int, e: int)
    requires b > 0 && e > 0 && c % 2 == 0
    ensures RoundHalfEven(c * b - e, b) == c <==> 2 * e <= b
  {
    var a := c * b - e;
    if e <= b {
      assert a == (c - 1) * b + (b - e);
      DivModUnique(a, b, c - 1, b - e);
    } else {
      assert a <= (c - 1) * b;
      RoundHalfEvenBetween(a, b, a / b, c - 1);
      DivBetween(a, b, a / b, c - 1);
      MulMonotone(a / b, c - 1, b);
      assert (a / b) * b <= a;
    }
  }
}
