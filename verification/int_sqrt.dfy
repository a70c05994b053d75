/**
  The integer square root, standing for `Math.trunc(Math.sqrt(n))` on a
  non-negative integer: the unique g with g*g <= n < (g+1)*(g+1).
 */
module IntSqrt {

  /** a <= b implies a*a <= b*b on naturals. */
  lemma SquareMono(a: nat, b: nat)
    requires a <= b
    ensures a * a <= b * b
  {
    assert a * a <= a * b by { MulLeft(a, a, b); }
    assert a * b <= b * b by { MulLeft(b, a, b); }
  }

  /** Multiplying both sides of a <= b by the same natural keeps the order. */
  lemma MulLeft(k: nat, a: nat, b: nat)
    requires a <= b
    ensures k * a <= k * b
  {
  }

  /** If s is the square root of n / 4, then 2*s or 2*s + 1 is the square root of n. */
  lemma QuarterStep(n: nat, s: nat)
    requires s * s <= n / 4 < (s + 1) * (s + 1)
    ensures (2 * s) * (2 * s) <= n
    ensures n < (2 * s + 2) * (2 * s + 2)
  {
    assert (2 * s) * (2 * s) == 4 * (s * s);
    assert (2 * s + 2) * (2 * s + 2) == 4 * ((s + 1) * (s + 1));
    assert n / 4 + 1 <= (s + 1) * (s + 1);
    assert n < 4 * (n / 4) + 4;
  }

  /** Square root by halving the binary length: sqrt(n) is 2*sqrt(n/4) or one more. */
  function Isqrt(n: nat): (g: nat)
    ensures g * g <= n < (g + 1) * (g + 1)
    decreases n
  {
    if n < 4 then
      if n == 0 then 0 else 1
    else
      var s := Isqrt(n / 4);
      QuarterStep(n, s);
      var r := 2 * s;
      if (r + 1) * (r + 1) <= n then r + 1 else r
  }

  /** Any g bracketing n between consecutive squares is Isqrt(n): the root is unique. */
  lemma IsqrtUnique(n: nat, g: nat)
    requires g * g <= n < (g + 1) * (g + 1)
    ensures g == Isqrt(n)
  {
    var r := Isqrt(n);
    if g < r {
      SquareMono(g + 1, r);
      assert false;
    } else if r < g {
      SquareMono(r + 1, g);
      assert false;
    }
  }
}
