/** Integer facts shared by the arithmetic components. */
module NumberTheory {

  /** n is a prime: at least 2 and without a divisor strictly between 1 and n. */
  ghost predicate IsPrime(n: int) {
    n >= 2 && forall d {:trigger n % d} :: 2 <= d < n ==> n % d != 0
  }

  function Power(x: int, k: nat): int {
    if k == 0 then 1 else x * Power(x, k - 1)
  }

  function Factorial(n: nat): (f: nat)
    ensures f >= 1
  {
    if n == 0 then 1 else n * Factorial(n - 1)
  }

  lemma MulRearrange(a: int, b: int, c: int)
    ensures a * (b * c) == (a * c) * b
  {
  }

  lemma MulSwap(a: int, b: int, c: int)
    ensures (a * b) * c == (a * c) * b
  {
  }

  lemma MulAssoc(a: int, b: int, c: int)
    ensures (a * b) * c == a * (b * c)
  {
  }

  lemma MulAtLeast(d: int, t: int)
    requires d > 0 && t >= 1
    ensures d * t >= d
  {
    assert d * t == d * (t - 1) + d;
  }

  /** The product of two values below m is below m * m. */
  lemma MulBelow(x: int, y: int, m: int)
    requires 0 <= x < m && 0 <= y < m
    ensures 0 <= x * y < m * m
  {
    assert x * y <= x * m by {
      assert x * m - x * y == x * (m - y);
    }
    assert x * m < m * m by {
      assert m * m - x * m == (m - x) * m;
    }
  }

  /** A multiple of d leaves no remainder, and dividing it by d recovers x. */
  lemma MultipleMod(d: int, x: int)
    requires d > 0
    ensures (d * x) % d == 0 && (d * x) / d == x
  {
    var q, r := (d * x) / d, (d * x) % d;
    assert d * (x - q) == r;
    if x - q >= 1 {
      MulAtLeast(d, x - q);
      assert false;
    } else if x - q <= -1 {
      MulAtLeast(d, q - x);
      assert false;
    }
  }
}
