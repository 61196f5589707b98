/**
 * Integer rounding as the backend computes its rates: `Math.round` of a
 * quotient in the controllers and `ROUND(x, 2)` in SQL, both taken here on
 * the exact ratio, halves going up. The controllers round a floating-point
 * product instead, which can fall just below a half: `23 / 40 * 100` is
 * 57.49999999999999, so `Math.round` gives 57 where `RoundDiv(2300, 40)` is 58.
 */
module Numeric {

  /** The integer nearest to `a / b`, halves rounded up. */
  function RoundDiv(a: int, b: nat): (r: int)
    requires b > 0
    ensures a >= 0 ==> r >= 0
  {
    (2 * a + b) / (2 * b)
  }

  /** `RoundDiv` is the nearest integer: `r - 1/2 <= a / b < r + 1/2`. */
  lemma RoundDivNearest(a: int, b: nat)
    requires b > 0
    ensures var r := RoundDiv(a, b);
      2 * r * b <= 2 * a + b < 2 * r * b + 2 * b
  {
    var q := 2 * a + b;
    var d := 2 * b;
    assert q == (q / d) * d + q % d;
  }

  /** Rounding never leaves `[0, c]` when `a / b <= c`. */
  lemma {:induction false} RoundDivBounded(a: nat, b: nat, c: nat)
    requires b > 0 && a <= c * b
    ensures RoundDiv(a, b) <= c
  {
    var q, d := 2 * a + b, 2 * b;
    assert q < (c + 1) * d by {
      MulMonotone(a, c * b, 2);
      assert (c + 1) * d == 2 * (c * b) + 2 * b;
    }
    DivBelow(q, d, c + 1);
  }

  /** Euclidean division recovers `k` from `k * d + r` with `r < d`. */
  lemma DivPlus(k: nat, d: nat, r: nat)
    requires r < d
    ensures (k * d + r) / d == k
  {
    var n := k * d + r;
    if n / d > k {
      MulMonotone(k + 1, n / d, d);
      assert false;
    } else if n / d < k {
      MulMonotone(n / d + 1, k, d);
      assert false;
    }
  }

  lemma MulMonotone(x: nat, y: nat, k: nat)
    requires x <= y
    ensures k * x <= k * y
  {
  }

  /** `q < k * d` bounds the quotient `q / d` by `k`. */
  lemma DivBelow(q: nat, d: nat, k: nat)
    requires d > 0 && q < k * d
    ensures q / d < k
  {
    if q / d >= k {
      MulMonotone(k, q / d, d);
      assert false;
    }
  }

  /** `total > 0 ? Math.round((parte / total) * 100) : 0`. */
  function Porcentaje(parte: int, total: int): (r: int)
    ensures parte >= 0 ==> r >= 0
  {
    if total > 0 then RoundDiv(100 * parte, total) else 0
  }

  /** A share of a total is a percentage between 0 and 100, and 0 of an empty total. */
  lemma PorcentajeRango(parte: nat, total: nat)
    requires parte <= total
    ensures Porcentaje(parte, total) <= 100
    ensures total == 0 ==> Porcentaje(parte, total) == 0
    ensures total > 0 && parte == total ==> Porcentaje(parte, total) == 100
  {
    if total > 0 {
      MulMonotone(parte, total, 100);
      RoundDivBounded(100 * parte, total, 100);
      if parte == total {
        assert 2 * (100 * parte) + total == 100 * (2 * total) + total;
        DivPlus(100, 2 * total, total);
      }
    }
  }
}
