/** Exact powers and geometric sums over `real`, the arithmetic behind the
    annuity formula. Python's `**` on floats is idealised here as the exact
    power with a natural-number exponent. */
module RealPowers {

  function Abs(x: real): (r: real)
    ensures r >= 0.0 && (r == x || r == -x)
  {
    if x < 0.0 then -x else x
  }

  /** `x` raised to the natural power `n`, with `Pow(x, 0) == 1`. */
  function Pow(x: real, n: nat): real
  {
    if n == 0 then 1.0 else x * Pow(x, n - 1)
  }

  /** The geometric sum `1 + x + ... + x^(n-1)`, in Horner form. */
  function GeomSum(x: real, n: nat): real
  {
    if n == 0 then 0.0 else GeomSum(x, n - 1) * x + 1.0
  }

  lemma {:induction false} PowPositive(x: real, n: nat)
    requires x > 0.0
    ensures Pow(x, n) > 0.0
  {
    if n > 0 {
      PowPositive(x, n - 1);
    }
  }

  /** A base above one keeps every positive power above one. */
  lemma {:induction false} PowAboveOne(x: real, n: nat)
    requires x > 1.0 && n >= 1
    ensures Pow(x, n) > 1.0
  {
    if n > 1 {
      PowAboveOne(x, n - 1);
      assert x * Pow(x, n - 1) > x * 1.0;
    }
  }

  /** A base in `[0, 1)` keeps every positive power below one. */
  lemma {:induction false} PowBelowOne(x: real, n: nat)
    requires 0.0 <= x < 1.0 && n >= 1
    ensures 0.0 <= Pow(x, n) < 1.0
  {
    if n > 1 {
      PowBelowOne(x, n - 1);
      assert x * Pow(x, n - 1) <= 1.0 * Pow(x, n - 1);
    }
  }

  lemma AbsProduct(x: real, y: real)
    ensures Abs(x * y) == Abs(x) * Abs(y)
  {
    if x < 0.0 && y < 0.0 {
      assert x * y == (-x) * (-y);
    } else if x < 0.0 {
      assert -(x * y) == (-x) * y;
    } else if y < 0.0 {
      assert -(x * y) == x * (-y);
    }
  }

  lemma {:induction false} PowAbs(x: real, n: nat)
    ensures Abs(Pow(x, n)) == Pow(Abs(x), n)
  {
    if n > 0 {
      PowAbs(x, n - 1);
      AbsProduct(x, Pow(x, n - 1));
    }
  }

  lemma {:induction false} PowMinusOneEven(k: nat)
    ensures Pow(-1.0, 2 * k) == 1.0
  {
    if k > 0 {
      PowMinusOneEven(k - 1);
      assert Pow(-1.0, 2 * k) == -1.0 * (-1.0 * Pow(-1.0, 2 * (k - 1)));
    }
  }

  /** For an even positive exponent, `x^n == 1` exactly when `x` is `1` or `-1`. */
  lemma PowEqualsOneEven(x: real, n: nat)
    requires n >= 2 && n % 2 == 0
    ensures Pow(x, n) == 1.0 <==> (x == 1.0 || x == -1.0)
  {
    PowAbs(x, n);
    if Abs(x) > 1.0 {
      PowAboveOne(Abs(x), n);
    } else if Abs(x) < 1.0 {
      PowBelowOne(Abs(x), n);
    } else if x == -1.0 {
      PowMinusOneEven(n / 2);
    } else {
      PowOfOne(n);
    }
  }

  lemma {:induction false} PowOfOne(n: nat)
    ensures Pow(1.0, n) == 1.0
  {
    if n > 0 {
      PowOfOne(n - 1);
    }
  }

  /** `(x - 1) * (1 + x + ... + x^(n-1)) == x^n - 1`. */
  lemma {:induction false} GeomSumTimesRate(x: real, n: nat)
    ensures GeomSum(x, n) * (x - 1.0) == Pow(x, n) - 1.0
  {
    if n > 0 {
      GeomSumTimesRate(x, n - 1);
      calc {
        GeomSum(x, n) * (x - 1.0);
        (GeomSum(x, n - 1) * x + 1.0) * (x - 1.0);
        { assert (GeomSum(x, n - 1) * x) * (x - 1.0) == x * (GeomSum(x, n - 1) * (x - 1.0)); }
        x * (Pow(x, n - 1) - 1.0) + x - 1.0;
        Pow(x, n) - 1.0;
      }
    }
  }

  /** With ratio one the geometric sum just counts its terms. */
  lemma {:induction false} GeomSumOfOne(n: nat)
    ensures GeomSum(1.0, n) == n as real
  {
    if n > 0 {
      GeomSumOfOne(n - 1);
    }
  }

  /** For a ratio above one, `1 + x + ... + x^(n-1)` is below `n * x^n`. */
  lemma {:induction false} GeomSumBelow(x: real, n: nat)
    requires x > 1.0 && n >= 1
    ensures 0.0 < GeomSum(x, n) < n as real * Pow(x, n)
  {
    PowAboveOne(x, n);
    if n > 1 {
      GeomSumBelow(x, n - 1);
      assert GeomSum(x, n - 1) * x < ((n - 1) as real * Pow(x, n - 1)) * x;
      assert ((n - 1) as real * Pow(x, n - 1)) * x == (n - 1) as real * Pow(x, n);
    }
  }

  /** For a positive ratio the geometric sum of at least one term is at least one. */
  lemma {:induction false} GeomSumAtLeastOne(x: real, n: nat)
    requires x > 0.0 && n >= 1
    ensures GeomSum(x, n) >= 1.0
  {
    if n > 1 {
      GeomSumAtLeastOne(x, n - 1);
      assert GeomSum(x, n - 1) * x > 0.0;
    }
  }

  lemma ScaleStrict(a: real, b: real, c: real)
    requires a < b && c > 0.0
    ensures a * c < b * c
  {
  }

  lemma HornerStep(s: real, a: real, b: real, p: real)
    ensures (s * a + 1.0) * (b * p) == (a * b) * (s * p) + b * p
  {
  }

  /** Powers of positive bases keep the order of the bases. */
  lemma {:induction false} PowStrictlyIncreasing(x: real, y: real, n: nat)
    requires 0.0 < x < y && n >= 1
    ensures Pow(x, n) < Pow(y, n)
  {
    if n > 1 {
      var px, py := Pow(x, n - 1), Pow(y, n - 1);
      PowStrictlyIncreasing(x, y, n - 1);
      PowPositive(x, n - 1);
      ScaleStrict(x, y, px);
      ScaleStrict(px, py, y);
      assert Pow(x, n) == x * px && Pow(y, n) == y * py;
    }
  }

  /** One step of the induction below, on plain reals: `gx, gy` are the next
      geometric sums and `wx, wy` the next powers. */
  lemma RatioStep(x: real, y: real, sx: real, sy: real, px: real, py: real, gx: real, gy: real, wx: real, wy: real)
    requires x > 0.0 && y > 0.0 && sx * py >= sy * px
    requires gx == sx * x + 1.0 && gy == sy * y + 1.0 && wx == x * px && wy == y * py
    requires wy > wx
    ensures gx * wy > gy * wx
  {
    var xy := x * y;
    HornerStep(sx, x, y, py);
    HornerStep(sy, y, x, px);
    assert y * x == xy;
    assert xy * (sx * py) >= xy * (sy * px);
  }

  /** The ratio `(1 + x + ... + x^(n-1)) / x^n` strictly decreases as the
      positive ratio `x` grows, stated without division. */
  lemma {:induction false} SumOverPowDecreasing(x: real, y: real, n: nat)
    requires 0.0 < x < y
    ensures GeomSum(x, n) * Pow(y, n) >= GeomSum(y, n) * Pow(x, n)
    ensures n >= 1 ==> GeomSum(x, n) * Pow(y, n) > GeomSum(y, n) * Pow(x, n)
  {
    if n > 0 {
      SumOverPowDecreasing(x, y, n - 1);
      PowStrictlyIncreasing(x, y, n);
      RatioStep(x, y, GeomSum(x, n - 1), GeomSum(y, n - 1), Pow(x, n - 1), Pow(y, n - 1),
                GeomSum(x, n), GeomSum(y, n), Pow(x, n), Pow(y, n));
    }
  }
}
