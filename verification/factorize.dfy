/** Prime factorisation by trial division: a map from each prime factor to
    its exponent. */
module Factorize {
  import opened NumberTheory

  /** The exponent recorded for k, 0 when k is absent (`entry(k).or_insert(0)`). */
  function Count(m: map<nat, nat>, k: nat): nat {
    if k in m then m[k] else 0
  }

  /** The product of `p^m[p]` over the keys p below b. */
  function ProductBelow(m: map<nat, nat>, b: nat): int
    decreases b
  {
    if b == 0 then 1 else ProductBelow(m, b - 1) * Power(b - 1, Count(m, b - 1))
  }

  // ---------------------------------------------------------------------
  // Facts about the product.

  /** Maps that agree below b have the same product below b. */
  lemma {:induction false} ProductBelowAgree(m1: map<nat, nat>, m2: map<nat, nat>, b: nat)
    requires forall k: nat :: k < b ==> Count(m1, k) == Count(m2, k)
    ensures ProductBelow(m1, b) == ProductBelow(m2, b)
    decreases b
  {
    if b > 0 {
      ProductBelowAgree(m1, m2, b - 1);
    }
  }

  lemma {:induction false} ProductBelowEmpty(b: nat)
    ensures ProductBelow(map[], b) == 1
    decreases b
  {
    if b > 0 {
      ProductBelowEmpty(b - 1);
    }
  }

  lemma ProductBelowBumpTop(m: map<nat, nat>, k: nat)
    ensures ProductBelow(m[k := Count(m, k) + 1], k + 1) == ProductBelow(m, k + 1) * k
  {
    var m' := m[k := Count(m, k) + 1];
    ProductBelowAgree(m', m, k);
    var c := Count(m, k);
    var below, pk := ProductBelow(m, k), Power(k, c);
    assert ProductBelow(m', k + 1) == below * (k * pk) by {
      assert Count(m', k) == c + 1;
      assert Power(k, c + 1) == k * pk;
    }
    assert ProductBelow(m, k + 1) == below * pk;
    MulRearrange(below, k, pk);
  }

  /** Recording one more factor k multiplies the product by k. */
  lemma {:induction false} ProductBelowBump(m: map<nat, nat>, k: nat, b: nat)
    requires k < b
    ensures ProductBelow(m[k := Count(m, k) + 1], b) == ProductBelow(m, b) * k
    decreases b
  {
    if b - 1 == k {
      ProductBelowBumpTop(m, k);
    } else {
      var m' := m[k := Count(m, k) + 1];
      ProductBelowBump(m, k, b - 1);
      assert Count(m', b - 1) == Count(m, b - 1);
      var x, z := ProductBelow(m, b - 1), Power(b - 1, Count(m, b - 1));
      assert ProductBelow(m', b) == (x * k) * z;
      assert ProductBelow(m, b) == x * z;
      MulSwap(x, k, z);
    }
  }

  // ---------------------------------------------------------------------
  // Divisibility.

  lemma DivisorOfFactor(n: int, i: int, d: int)
    requires n >= 0 && i >= 1 && d >= 1 && n % i == 0 && i % d == 0
    ensures n % d == 0
  {
    var a, b := n / i, i / d;
    assert n == i * a;
    assert i == d * b;
    assert n == d * (b * a);
    MultipleMod(d, b * a);
  }

  lemma DivisorOfQuotient(n: int, i: int, d: int)
    requires n >= 0 && i >= 1 && d >= 1 && n % i == 0 && (n / i) % d == 0
    ensures n % d == 0
  {
    var a, b := n / i, (n / i) / d;
    assert n == i * a;
    assert a == d * b;
    assert n == d * (i * b);
    MultipleMod(d, i * b);
  }

  /** Moving a factor i from n into the product P keeps P * n, and n shrinks. */
  lemma DivideOut(p: int, n: int, i: int)
    requires n >= 1 && i >= 2 && n % i == 0
    ensures 1 <= n / i < n
    ensures (p * i) * (n / i) == p * n
  {
    var q := n / i;
    assert n == i * q;
    MulAtLeast(q, i);
    assert q * i == q + q * (i - 1);
    MulAtLeast(q, i - 1);
    assert (p * i) * q == p * (i * q);
  }

  /** The least divisor above 1 of a number is prime. */
  lemma LeastDivisorIsPrime(n: nat, i: nat)
    requires 2 <= i && n % i == 0 && n >= 1
    requires forall d :: 2 <= d < i ==> n % d != 0
    ensures IsPrime(i)
  {
    forall d | 2 <= d < i
      ensures i % d != 0
    {
      if i % d == 0 {
        DivisorOfFactor(n, i, d);
      }
    }
  }

  /** A divisor d >= i of n < i*i leaves a cofactor in [2, i) that also divides n. */
  lemma CofactorIsSmall(n: nat, d: nat, i: nat)
    requires 2 <= d < n < i * i && i <= d && n % d == 0
    ensures 2 <= n / d < i && n % (n / d) == 0
  {
    var e := n / d;
    assert n == d * e;
    MulMonotone(d, e, i);
    MulMonotone(i, i, d);
    MultipleMod(e, d);
    assert e * d == n;
  }

  lemma MulMonotone(a: int, b: int, c: int)
    requires a >= 0
    ensures b <= c ==> a * b <= a * c
  {
    assert a * c - a * b == a * (c - b);
  }

  /** A number with no divisor below i, where n < i*i, is prime. */
  lemma NoSmallDivisorIsPrime(n: nat, i: nat)
    requires 2 <= n < i * i
    requires forall d :: 2 <= d < i ==> n % d != 0
    ensures IsPrime(n)
  {
    forall d | 2 <= d < n
      ensures n % d != 0
    {
      if n % d == 0 && d >= i {
        CofactorIsSmall(n, d, i);
      }
    }
  }

  // ---------------------------------------------------------------------
  // The algorithm.

  /** Divides out 2, 3, 4, ... while i*i <= n; a remaining n > 1 is the last
      prime factor. */
  method Factorization(n0: nat) returns (result: map<nat, nat>)
    ensures n0 <= 1 ==> result == map[]
    ensures forall p :: p in result ==> IsPrime(p) && result[p] >= 1 && p <= n0
    ensures n0 >= 1 ==> ProductBelow(result, n0 + 1) == n0
  {
    result := map[];
    ProductBelowEmpty(n0 + 1);
    var n := n0;
    var i := 2;
    while i * i <= n
      invariant 2 <= i && n <= n0
      invariant n0 >= 1 ==> 1 <= n && i <= n0 + 1
      invariant n0 == 0 ==> n == 0 && result == map[]
      invariant forall p :: p in result ==> p < i && IsPrime(p) && result[p] >= 1
      invariant forall d :: 2 <= d < i ==> n % d != 0
      invariant n0 >= 1 ==> ProductBelow(result, n0 + 1) * n == n0
      decreases n0 + 1 - i
    {
      MulAtLeast(i, i);
      while n % i == 0
        invariant 1 <= n <= n0 && 4 <= i * i <= n0
        invariant forall p :: p in result ==> p <= i && IsPrime(p) && result[p] >= 1
        invariant forall d :: 2 <= d < i ==> n % d != 0
        invariant ProductBelow(result, n0 + 1) * n == n0
        decreases n
      {
        LeastDivisorIsPrime(n, i);
        forall d | 2 <= d < i
          ensures (n / i) % d != 0
        {
          if (n / i) % d == 0 {
            DivisorOfQuotient(n, i, d);
          }
        }
        ProductBelowBump(result, i, n0 + 1);
        DivideOut(ProductBelow(result, n0 + 1), n, i);
        n := n / i;
        result := result[i := Count(result, i) + 1];
      }
      i := i + 1;
    }
    if n > 1 {
      NoSmallDivisorIsPrime(n, i);
      ProductBelowBump(result, n, n0 + 1);
      result := result[n := Count(result, n) + 1];
    }
  }

  // ---------------------------------------------------------------------
  // Uniqueness: the map is the prime factorisation.

  /** m records a factorisation of n into primes below b. */
  ghost predicate IsFactorisation(m: map<nat, nat>, n: nat, b: nat) {
    && (forall p :: p in m ==> IsPrime(p) && m[p] >= 1 && p < b)
    && ProductBelow(m, b) == n
  }

  lemma {:induction false} PowerPositive(x: int, e: nat)
    requires x >= 1
    ensures Power(x, e) >= 1
    decreases e
  {
    if e > 0 {
      PowerPositive(x, e - 1);
      MulAtLeast(Power(x, e - 1), x);
    }
  }

  lemma {:induction false} ProductBelowPositive(m: map<nat, nat>, b: nat)
    requires forall p :: p in m ==> p >= 1
    ensures ProductBelow(m, b) >= 1
    decreases b
  {
    if b > 0 {
      ProductBelowPositive(m, b - 1);
      if b - 1 in m {
        PowerPositive(b - 1, m[b - 1]);
      }
      MulAtLeast(ProductBelow(m, b - 1), Power(b - 1, Count(m, b - 1)));
    }
  }

  /** Keys at or above b do not enter the product below b. */
  lemma {:induction false} ProductBelowBeyond(m: map<nat, nat>, b: nat, b': nat)
    requires b <= b' && forall p :: p in m ==> p < b
    ensures ProductBelow(m, b') == ProductBelow(m, b)
    decreases b' - b
  {
    if b < b' {
      ProductBelowBeyond(m, b, b' - 1);
    }
  }

  lemma MultipleOfMultiple(a: int, x: int, q: int)
    requires q > 0 && a % q == 0
    ensures (a * x) % q == 0
  {
    var k := a / q;
    assert a == q * k;
    assert a * x == q * (k * x);
    MultipleMod(q, k * x);
  }

  /** Euclid's lemma for a factor below the prime. */
  lemma {:induction false} EuclidBelow(p: nat, a: nat, b: nat)
    requires IsPrime(p) && 0 < a < p && (a * b) % p == 0
    ensures b % p == 0
    decreases a
  {
    if a > 1 {
      var q, s := p / a, p % a;
      assert s != 0;
      assert p == a * q + s;
      var k := (a * b) / p;
      assert a * b == p * k;
      assert s * b == p * (b - q * k) by {
        assert s * b == p * b - q * (a * b);
      }
      MultipleMod(p, b - q * k);
      EuclidBelow(p, s, b);
    }
  }

  /** Euclid's lemma: a prime dividing a product divides a factor. */
  lemma Euclid(p: nat, a: nat, b: nat)
    requires IsPrime(p) && (a * b) % p == 0
    ensures a % p == 0 || b % p == 0
  {
    var r := a % p;
    if r != 0 {
      var t, k := a / p, (a * b) / p;
      assert a == p * t + r;
      assert a * b == p * k;
      assert r * b == p * (k - t * b) by {
        assert a * b == p * (t * b) + r * b;
      }
      MultipleMod(p, k - t * b);
      EuclidBelow(p, r, b);
    }
  }

  lemma {:induction false} PrimeDividesPower(p: nat, x: nat, e: nat)
    requires IsPrime(p) && x >= 1 && Power(x, e) % p == 0
    ensures e >= 1 && x % p == 0
    decreases e
  {
    if e > 0 {
      PowerPositive(x, e - 1);
      Euclid(p, x, Power(x, e - 1));
      if x % p != 0 {
        PrimeDividesPower(p, x, e - 1);
      }
    }
  }

  lemma PrimeDividesPrime(p: nat, q: nat)
    requires IsPrime(p) && IsPrime(q) && q % p == 0
    ensures p == q
  {
  }

  /** A prime dividing a product of prime powers is one of the primes. */
  lemma {:induction false} PrimeDividesProduct(p: nat, m: map<nat, nat>, b: nat)
    requires IsPrime(p) && (forall q :: q in m ==> IsPrime(q))
    requires ProductBelow(m, b) % p == 0
    ensures p < b && p in m
    decreases b
  {
    if b > 0 {
      var q := b - 1;
      ProductBelowPositive(m, q);
      var c := Count(m, q);
      if c >= 1 {
        PowerPositive(q, c);
      }
      Euclid(p, ProductBelow(m, q), Power(q, c));
      if ProductBelow(m, q) % p == 0 {
        PrimeDividesProduct(p, m, q);
      } else {
        PrimeDividesPower(p, q, c);
        PrimeDividesPrime(p, q);
      }
    }
  }

  /** A recorded prime divides the product. */
  lemma {:induction false} KeyDivides(m: map<nat, nat>, b: nat, q: nat)
    requires q in m && q < b && m[q] >= 1 && q >= 1
    ensures ProductBelow(m, b) % q == 0
    decreases b
  {
    if b - 1 == q {
      var below := ProductBelow(m, q);
      assert Power(q, m[q]) == q * Power(q, m[q] - 1);
      assert ProductBelow(m, b) == q * (below * Power(q, m[q] - 1)) by {
        MulRearrange(below, q, Power(q, m[q] - 1));
      }
      MultipleMod(q, below * Power(q, m[q] - 1));
    } else {
      KeyDivides(m, b - 1, q);
      MultipleOfMultiple(ProductBelow(m, b - 1), Power(b - 1, Count(m, b - 1)), q);
    }
  }

  /** m with one factor p removed. */
  function Decrement(m: map<nat, nat>, p: nat): map<nat, nat>
    requires p in m
  {
    if m[p] <= 1 then m - {p} else m[p := m[p] - 1]
  }

  /** Removing one recorded prime p divides the product by p. */
  lemma RemoveFactor(m: map<nat, nat>, n: nat, b: nat, p: nat)
    requires IsFactorisation(m, n, b) && p in m
    ensures n % p == 0 && IsFactorisation(Decrement(m, p), n / p, b) && n / p < n
    ensures m == Decrement(m, p)[p := Count(Decrement(m, p), p) + 1]
  {
    var m' := Decrement(m, p);
    assert m == m'[p := Count(m', p) + 1];
    ProductBelowBump(m', p, b);
    ProductBelowPositive(m', b);
    var r := ProductBelow(m', b);
    assert n == r * p;
    MultipleMod(p, r);
    assert n == p * r;
    DivideOut(1, n, p);
  }

  /** The prime factorisation of n is unique: two maps with prime keys,
      positive exponents and the same product are equal. */
  lemma {:induction false} FactorisationUnique(m1: map<nat, nat>, m2: map<nat, nat>, n: nat, b: nat)
    requires IsFactorisation(m1, n, b) && IsFactorisation(m2, n, b)
    ensures m1 == m2
    decreases n
  {
    if m1 == map[] {
      ProductBelowEmpty(b);
      if m2 != map[] {
        var q :| q in m2;
        KeyDivides(m2, b, q);
      }
    } else {
      var p :| p in m1;
      KeyDivides(m1, b, p);
      PrimeDividesProduct(p, m2, b);
      RemoveFactor(m1, n, b, p);
      RemoveFactor(m2, n, b, p);
      FactorisationUnique(Decrement(m1, p), Decrement(m2, p), n / p, b);
    }
  }

  /** The library's test: 36 = 2^2 * 3^2. */
  method Factorize36() returns (m: map<nat, nat>)
    ensures m == map[2 := 2, 3 := 2]
  {
    m := Factorization(36);
    var expected: map<nat, nat> := map[2 := 2, 3 := 2];
    assert IsPrime(2);
    assert IsPrime(3) by {
      assert 3 % 2 != 0;
    }
    assert ProductBelow(expected, 4) == 36;
    ProductBelowBeyond(expected, 4, 37);
    FactorisationUnique(m, expected, 36, 37);
  }
}
