/** Binomial coefficients and permutation counts modulo 1_000_000_007 from
    precomputed tables of factorials, modular inverses and inverse
    factorials. Entries are `usize`; the bound `size < MOD` keeps every
    product below MOD², far inside 64 bits. */
module Combinations {
  import opened NumberTheory
  import ModInts

  const MOD: int := ModInts.MOD

  datatype Combination = Combination(fac: seq<int>, inv: seq<int>, finv: seq<int>)

  /** Pascal's triangle: the number of r-element subsets of an n-element set. */
  function Binomial(n: nat, r: nat): nat {
    if r == 0 then 1
    else if n == 0 then 0
    else Binomial(n - 1, r - 1) + Binomial(n - 1, r)
  }

  /** n (n-1) ... (n-r+1): the number of ordered r-element selections. */
  function Falling(n: nat, r: nat): nat {
    if r == 0 then 1 else if n == 0 then 0 else n * Falling(n - 1, r - 1)
  }

  // ---------------------------------------------------------------------
  // What the tables hold.

  /** Three tables of the same length, at least 2, with residues in range;
      `inv` may hold MOD itself (see `InverseTable`). */
  predicate Shaped(c: Combination) {
    && |c.fac| == |c.inv| == |c.finv| >= 2
    && (forall j :: 0 <= j < |c.fac| ==> 0 <= c.fac[j] < MOD)
    && (forall j :: 0 <= j < |c.finv| ==> 0 <= c.finv[j] < MOD)
    && (forall j :: 0 <= j < |c.inv| ==> 0 <= c.inv[j] <= MOD)
  }

  ghost predicate FactorialTable(fac: seq<int>, upTo: nat) {
    upTo <= |fac| && forall j :: 0 <= j < upTo ==> fac[j] == Factorial(j) % MOD
  }

  ghost predicate InverseTable(inv: seq<int>, upTo: nat) {
    upTo <= |inv| && forall j :: 1 <= j < upTo ==> (j * inv[j]) % MOD == 1
  }

  ghost predicate InverseFactorialTable(fac: seq<int>, finv: seq<int>, upTo: nat) {
    upTo <= |fac| && upTo <= |finv| && forall j :: 0 <= j < upTo ==> (fac[j] * finv[j]) % MOD == 1
  }

  /** What `New` establishes: correct factorials, and, given that MOD is
      prime, correct inverses and inverse factorials. */
  ghost predicate Built(c: Combination) {
    && Shaped(c)
    && FactorialTable(c.fac, |c.fac|)
    && (IsPrime(MOD) ==> InverseTable(c.inv, |c.inv|) && InverseFactorialTable(c.fac, c.finv, |c.fac|))
  }

  // ---------------------------------------------------------------------
  // Modular facts behind the recurrences.

  /** The inverse recurrence: with MOD = q*i + s and `invS` an inverse of s,
      `MOD - invS*q % MOD` is an inverse of i. */
  lemma InverseRecurrence(i: int, s: int, q: int, invS: int)
    requires MOD == q * i + s
    requires (s * invS) % MOD == 1
    ensures (i * (MOD - (invS * q) % MOD)) % MOD == 1
  {
    var t := (invS * q) % MOD;
    var k1 := (invS * q) / MOD;
    assert invS * q == MOD * k1 + t;
    var K := i + k1 * i - invS;
    calc {
      i * (MOD - t);
      MOD * i - t * i;
      MOD * i - (invS * q - MOD * k1) * i;
      MOD * i - invS * (q * i) + MOD * (k1 * i);
      MOD * i - invS * (MOD - s) + MOD * (k1 * i);
      MOD * K + s * invS;
    }
    ModInts.AddMultiple(s * invS, K);
  }

  /** The factorial step: `fac[i-1] * i % MOD` is i! modulo MOD. */
  lemma FactorialStep(i: nat, prev: int)
    requires i >= 1 && prev == Factorial(i - 1) % MOD
    ensures (prev * i) % MOD == Factorial(i) % MOD
  {
    ModInts.MulModLeft(Factorial(i - 1), i);
    assert Factorial(i) == Factorial(i - 1) * i;
  }

  /** The inverse-factorial step: an inverse of (i-1)! times an inverse of i
      is an inverse of i!. */
  lemma InverseFactorialStep(i: nat, facPrev: int, finvPrev: int, invI: int)
    requires (facPrev * finvPrev) % MOD == 1 && (i * invI) % MOD == 1
    ensures ((facPrev * i) % MOD * ((finvPrev * invI) % MOD)) % MOD == 1
  {
    var a, b := facPrev * i, finvPrev * invI;
    ModInts.MulModLeft(a, b % MOD);
    ModInts.MulModRight(a, b);
    assert a * b == (facPrev * finvPrev) * (i * invI);
    ModInts.MulModLeft(facPrev * finvPrev, i * invI);
    ModInts.MulModRight(1, i * invI);
  }

  // ---------------------------------------------------------------------
  // Construction.

  /** The loop invariant of `New`: entries below i are final. */
  ghost predicate Filled(fac: seq<int>, inv: seq<int>, finv: seq<int>, i: nat) {
    && 2 <= i <= |fac| == |inv| == |finv|
    && Shaped(Combination(fac, inv, finv))
    && inv[0] == 0
    && FactorialTable(fac, i)
    && (IsPrime(MOD) ==> InverseTable(inv, i) && InverseFactorialTable(fac, finv, i))
  }

  /** One iteration of the table loop extends the filled prefix by one. */
  lemma FillStep(fac: seq<int>, inv: seq<int>, finv: seq<int>, i: nat)
    requires Filled(fac, inv, finv, i) && i < |fac| && i < MOD
    ensures var fac' := fac[i := fac[i - 1] * i % MOD];
      var inv' := inv[i := MOD - inv[MOD % i] * (MOD / i) % MOD];
      var finv' := finv[i := finv[i - 1] * inv'[i] % MOD];
      Filled(fac', inv', finv', i + 1)
  {
    var s, q := MOD % i, MOD / i;
    var invI := MOD - inv[s] * q % MOD;
    var fac' := fac[i := fac[i - 1] * i % MOD];
    var inv' := inv[i := invI];
    var finv' := finv[i := finv[i - 1] * invI % MOD];
    assert 0 <= s < i && MOD == q * i + s;
    assert Shaped(Combination(fac', inv', finv')) by {
      assert 0 <= invI <= MOD;
    }
    assert FactorialTable(fac', i + 1) by {
      FactorialStep(i, fac[i - 1]);
    }
    if IsPrime(MOD) {
      assert (i * invI) % MOD == 1 by {
        assert MOD % i != 0;
        InverseRecurrence(i, s, q, inv[s]);
      }
      assert InverseTable(inv', i + 1);
      assert InverseFactorialTable(fac', finv', i + 1) by {
        InverseFactorialStep(i, fac[i - 1], finv[i - 1], invI);
      }
    }
  }

  /** Builds the tables for arguments up to `size`. The library writes
      `fac[1]`, so `size` must be at least 1; it documents `size < MOD`. */
  method New(size: nat) returns (c: Combination)
    requires 1 <= size < MOD
    ensures |c.fac| == size + 1
    ensures Built(c)
  {
    var fac := seq(size + 1, _ => 0);
    var inv := seq(size + 1, _ => 0);
    var finv := seq(size + 1, _ => 0);
    fac := fac[0 := 1];
    fac := fac[1 := 1];
    inv := inv[1 := 1];
    finv := finv[0 := 1];
    finv := finv[1 := 1];
    var i := 2;
    while i <= size
      invariant i <= size + 1 && |fac| == size + 1
      invariant Filled(fac, inv, finv, i)
    {
      FillStep(fac, inv, finv, i);
      fac := fac[i := fac[i - 1] * i % MOD];
      inv := inv[i := MOD - inv[MOD % i] * (MOD / i) % MOD];
      finv := finv[i := finv[i - 1] * inv[i] % MOD];
      i := i + 1;
    }
    c := Combination(fac, inv, finv);
  }

  // ---------------------------------------------------------------------
  // Queries.

  /** nCr modulo MOD; 0 when r exceeds n. Reads `fac[n]` only when r <= n. */
  function Choose(c: Combination, n: nat, r: nat): (v: int)
    requires Shaped(c) && (n < r || n < |c.fac|)
    ensures 0 <= v < MOD
    ensures n < r ==> v == 0
  {
    if n < r then 0 else c.fac[n] * (c.finv[r] * c.finv[n - r] % MOD) % MOD
  }

  /** nPr modulo MOD; 0 when r exceeds n. */
  function Permute(c: Combination, n: nat, r: nat): (v: int)
    requires Shaped(c) && (n < r || n < |c.fac|)
    ensures 0 <= v < MOD
    ensures n < r ==> v == 0
  {
    if n < r then 0 else c.fac[n] * c.finv[n - r] % MOD
  }

  // ---------------------------------------------------------------------
  // The reference counts.

  lemma {:induction false} BinomialTimesFactorials(n: nat, r: nat)
    requires r <= n
    ensures Binomial(n, r) * Factorial(r) * Factorial(n - r) == Factorial(n)
    decreases n
  {
    if r == 0 {
    } else if r == n {
      BinomialDiagonal(n);
    } else {
      BinomialTimesFactorials(n - 1, r - 1);
      BinomialTimesFactorials(n - 1, r);
      assert Factorial(r) == r * Factorial(r - 1);
      assert Factorial(n - r) == (n - r) * Factorial(n - 1 - r);
      PascalStep(n, r, Binomial(n - 1, r - 1), Binomial(n - 1, r),
                 Factorial(r - 1), Factorial(n - 1 - r), Factorial(n - 1));
    }
  }

  /** The arithmetic of Pascal's rule: r*(n-1)! + (n-r)*(n-1)! = n*(n-1)!. */
  lemma PascalStep(n: int, r: int, a: int, b: int, fa: int, fc: int, f: int)
    requires a * fa * ((n - r) * fc) == f
    requires b * (r * fa) * fc == f
    ensures (a + b) * (r * fa) * ((n - r) * fc) == n * f
  {
    var x := (r * fa) * ((n - r) * fc);
    assert (a + b) * x == a * x + b * x;
    assert a * x == r * (a * fa * ((n - r) * fc));
    assert b * x == (n - r) * (b * (r * fa) * fc);
  }

  lemma {:induction false} BinomialDiagonal(n: nat)
    ensures Binomial(n, n) == 1
    ensures forall r :: n < r ==> Binomial(n, r) == 0
    decreases n
  {
    if n > 0 {
      BinomialDiagonal(n - 1);
    }
  }

  lemma {:induction false} FallingTimesFactorial(n: nat, r: nat)
    requires r <= n
    ensures Falling(n, r) * Factorial(n - r) == Factorial(n)
    decreases r
  {
    if r > 0 {
      FallingTimesFactorial(n - 1, r - 1);
      var f, g := Falling(n - 1, r - 1), Factorial(n - r);
      assert Falling(n, r) == n * f;
      assert Factorial(n) == n * Factorial(n - 1);
      MulAssoc(n, f, g);
    }
  }

  /** x * (f * g) is congruent to x when f and g are congruent to units with
      the given inverses. */
  lemma CancelTwo(x: int, f: int, g: int, fi: int, gi: int)
    requires (f * fi) % MOD == 1 && (g * gi) % MOD == 1
    ensures (x * f * g * (fi * gi % MOD)) % MOD == x % MOD
  {
    var u := fi * gi;
    ModInts.MulModRight(x * f * g, u);
    assert x * f * g * u == x * ((f * fi) * (g * gi));
    ModInts.MulModRight(x, (f * fi) * (g * gi));
    ModInts.MulModLeft(f * fi, g * gi);
    ModInts.MulModRight(1, g * gi);
  }

  /** Given that MOD is prime, `Choose` is the binomial coefficient modulo MOD. */
  lemma ChooseIsBinomial(c: Combination, n: nat, r: nat)
    requires Built(c) && IsPrime(MOD) && n < |c.fac|
    ensures Choose(c, n, r) == Binomial(n, r) % MOD
  {
    if n < r {
      BinomialDiagonal(n);
    } else {
      var B := Binomial(n, r);
      var fr, fs := Factorial(r), Factorial(n - r);
      BinomialTimesFactorials(n, r);
      var u := c.finv[r] * c.finv[n - r] % MOD;
      // fac[n] is n! = B * r! * (n-r)! modulo MOD ...
      ModInts.MulModLeft(B * fr * fs, u);
      // ... and r!, (n-r)! are congruent to fac[r], fac[n-r], whose inverses are finv[r], finv[n-r].
      FactorsCongruent(B, fr, fs, c.fac[r], c.fac[n - r], u);
      CancelTwo(B, c.fac[r], c.fac[n - r], c.finv[r], c.finv[n - r]);
    }
  }

  lemma FactorsCongruent(x: int, f: int, g: int, f': int, g': int, u: int)
    requires f' == f % MOD && g' == g % MOD
    ensures (x * f * g * u) % MOD == (x * f' * g' * u) % MOD
  {
    ModInts.MulModLeft(f, x * g * u);
    assert x * f * g * u == f * (x * g * u);
    assert x * f' * g * u == f' * (x * g * u);
    ModInts.MulModLeft(g, x * f' * u);
    assert x * f' * g * u == g * (x * f' * u);
    assert x * f' * g' * u == g' * (x * f' * u);
  }

  lemma {:induction false} FallingBeyond(n: nat, r: nat)
    requires n < r
    ensures Falling(n, r) == 0
    decreases n
  {
    if n > 0 {
      FallingBeyond(n - 1, r - 1);
    }
  }

  /** Multiplying x * g by an inverse of g (given as g's residue f) gives x back. */
  lemma CancelOne(x: int, g: int, f: int, w: int)
    requires f == g % MOD && (f * w) % MOD == 1
    ensures ((x * g) % MOD * w) % MOD == x % MOD
  {
    ModInts.MulModLeft(x * g, w);
    assert x * g * w == g * (x * w);
    ModInts.MulModLeft(g, x * w);
    assert f * (x * w) == x * (f * w);
    ModInts.MulModRight(x, f * w);
  }

  /** Given that MOD is prime, `Permute` is the falling factorial modulo MOD. */
  lemma PermuteIsFalling(c: Combination, n: nat, r: nat)
    requires Built(c) && IsPrime(MOD) && n < |c.fac|
    ensures Permute(c, n, r) == Falling(n, r) % MOD
  {
    if n < r {
      FallingBeyond(n, r);
    } else {
      var P := Falling(n, r);
      var fs := Factorial(n - r);
      FallingTimesFactorial(n, r);
      CancelOne(P, fs, c.fac[n - r], c.finv[n - r]);
    }
  }
}
