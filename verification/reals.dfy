/**
  Facts about real squares and square roots used by the length
  computations. Go's `math.Pow(x, 2)` is `Square(x)`; `math.Sqrt` is taken
  as a parameter constrained by `IsSquareRoot` to be the exact
  non-negative square root on non-negative reals.
 */
module Reals {

  function Square(a: real): real {
    a * a
  }

  function Abs(a: real): real {
    if a < 0.0 then -a else a
  }

  ghost predicate IsSquareRoot(sqrt: real -> real) {
    forall x: real :: 0.0 <= x ==> 0.0 <= sqrt(x) && Square(sqrt(x)) == x
  }

  lemma PositiveProduct(a: real, b: real)
    requires 0.0 < a && 0.0 < b
    ensures 0.0 < a * b
  {
  }

  /** Multiplying and dividing by the same non-zero real cancel. */
  lemma Cancel(a: real, s: real)
    requires s != 0.0
    ensures (a / s) * s == a
    ensures (a * s) / s == a
  {
  }

  /** A product of two non-zero reals is non-zero. */
  lemma NonZeroProduct(a: real, b: real)
    requires a != 0.0 && b != 0.0
    ensures a * b != 0.0
  {
  }

  /** A quotient of non-zero reals is non-zero. */
  lemma QuotientIsNonZero(a: real, s: real)
    requires a != 0.0 && s != 0.0
    ensures a / s != 0.0
  {
  }

  /** A square is never negative, and is positive exactly off zero. */
  lemma SquareSign(a: real)
    ensures Square(a) >= 0.0
    ensures Square(a) > 0.0 <==> a != 0.0
  {
    if a < 0.0 {
      PositiveProduct(-a, -a);
      calc {
        Square(a);
        == a * a;
        == (-a) * (-a);
        > 0.0;
      }
    } else if a > 0.0 {
      PositiveProduct(a, a);
      calc {
        Square(a);
        == a * a;
        > 0.0;
      }
    } else {
      calc {
        Square(a);
        == 0.0 * 0.0;
        == 0.0;
      }
    }
  }

  /** Squaring is strictly increasing on the non-negative reals. */
  lemma SquareIsIncreasing(a: real, b: real)
    requires 0.0 <= a < b
    ensures Square(a) < Square(b)
  {
    var d, e := b - a, b + a;
    PositiveProduct(d, e);
    calc {
      Square(b) - Square(a);
      == b * b - a * a;
      == (b * b - a * b) + (b * a - a * a);
      == d * b + d * a;
      == d * e;
      > 0.0;
    }
  }

  /** The square of a quotient is the quotient of the squares. */
  lemma SquareOfQuotient(a: real, m: real)
    requires m != 0.0
    ensures Square(m) != 0.0 && Square(a / m) == Square(a) / Square(m)
  {
    SquareSign(m);
    var q := a / m;
    calc {
      Square(q) * Square(m);
      == (q * q) * (m * m);
      == (q * m) * (q * m);
      == a * a;
      == Square(a);
    }
  }

  /** Dividing (a, b, c) by its own non-zero length `m` leaves a triple
      whose squares sum to one. */
  lemma ScaledToUnit(a: real, b: real, c: real, m: real)
    requires m != 0.0 && Square(m) == Square(a) + Square(b) + Square(c)
    ensures Square(a / m) + Square(b / m) + Square(c / m) == 1.0
  {
    SquareOfQuotient(a, m);
    SquareOfQuotient(b, m);
    SquareOfQuotient(c, m);
    var sm := Square(m);
    calc {
      Square(a / m) + Square(b / m) + Square(c / m);
      == Square(a) / sm + Square(b) / sm + Square(c) / sm;
      == (Square(a) + Square(b) + Square(c)) / sm;
      == sm / sm;
      == 1.0;
    }
  }

  /** Dotting (a, b, c) divided by its own non-zero length `m` with
      (a, b, c) itself gives back `m`. */
  lemma ScaledDotOriginal(a: real, b: real, c: real, m: real)
    requires m != 0.0 && Square(m) == Square(a) + Square(b) + Square(c)
    ensures (a / m) * a + (b / m) * b + (c / m) * c == m
  {
  }

  /** The square of a product is the product of the squares. */
  lemma SquareOfProduct(a: real, b: real)
    ensures Square(a * b) == Square(a) * Square(b)
  {
    calc {
      Square(a * b);
      == (a * b) * (a * b);
      == (a * a) * (b * b);
      == Square(a) * Square(b);
    }
  }

  /** Scaling (a, b, c) by `s` scales the sum of its squares by the square of `s`. */
  lemma ScaledSumOfSquares(a: real, b: real, c: real, s: real)
    ensures Square(a * s) + Square(b * s) + Square(c * s)
         == Square(s) * (Square(a) + Square(b) + Square(c))
  {
    SquareOfProduct(a, s);
    SquareOfProduct(b, s);
    SquareOfProduct(c, s);
    var ss := Square(s);
    calc {
      Square(a * s) + Square(b * s) + Square(c * s);
      == Square(a) * ss + Square(b) * ss + Square(c) * ss;
      == ss * (Square(a) + Square(b) + Square(c));
    }
  }

  /** The absolute value is non-negative and has the same square. */
  lemma AbsSquare(a: real)
    ensures 0.0 <= Abs(a) && Square(Abs(a)) == Square(a)
  {
    calc {
      Square(Abs(a));
      == Abs(a) * Abs(a);
      == a * a;
    }
  }

  /** A product of non-negative reals is non-negative. */
  lemma NonNegativeProduct(a: real, b: real)
    requires 0.0 <= a && 0.0 <= b
    ensures 0.0 <= a * b
  {
    if 0.0 < a && 0.0 < b {
      PositiveProduct(a, b);
    }
  }

  /** The non-negative root is unique: any `r >= 0` squaring to `x` is `sqrt(x)`. */
  lemma RootIsUnique(sqrt: real -> real, x: real, r: real)
    requires IsSquareRoot(sqrt)
    requires 0.0 <= r && Square(r) == x
    ensures sqrt(x) == r
  {
    SquareSign(r);
    var s := sqrt(x);
    assert 0.0 <= s && Square(s) == x;
    if s < r {
      SquareIsIncreasing(s, r);
    } else if r < s {
      SquareIsIncreasing(r, s);
    }
  }

  /** Scaling a non-negative real by the square of `s` scales its root by |s|. */
  lemma RootOfScaled(sqrt: real -> real, x: real, s: real)
    requires IsSquareRoot(sqrt)
    requires 0.0 <= x
    ensures sqrt(Square(s) * x) == Abs(s) * sqrt(x)
  {
    var m := sqrt(x);
    AbsSquare(s);
    SquareOfProduct(Abs(s), m);
    NonNegativeProduct(Abs(s), m);
    calc {
      Square(Abs(s) * m);
      == Square(Abs(s)) * Square(m);
      == Square(s) * x;
    }
    RootIsUnique(sqrt, Square(s) * x, Abs(s) * m);
  }

  /** The root of a non-negative real is zero exactly when the real is. */
  lemma RootIsZeroIff(sqrt: real -> real, x: real)
    requires IsSquareRoot(sqrt)
    requires 0.0 <= x
    ensures sqrt(x) == 0.0 <==> x == 0.0
  {
    SquareSign(sqrt(x));
  }

  /** The root of one is one. */
  lemma RootOfOne(sqrt: real -> real)
    requires IsSquareRoot(sqrt)
    ensures sqrt(1.0) == 1.0
  {
    RootIsUnique(sqrt, 1.0, 1.0);
  }
}
