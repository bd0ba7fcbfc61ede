/** Arithmetic modulo the prime 1_000_000_007 on a wrapper around a signed
    machine integer (`isize`, 64 bits wide on the targets the library is
    built for). Every arithmetic step that would overflow `isize` panics in
    the library; here it is a precondition. */
module ModInts {
  import opened NumberTheory

  const MOD: int := 1_000_000_007

  newtype Isize = x: int | -0x8000_0000_0000_0000 <= x <= 0x7fff_ffff_ffff_ffff

  predicate InIsize(x: int) {
    -0x8000_0000_0000_0000 <= x <= 0x7fff_ffff_ffff_ffff
  }

  /** Rust's `a % MOD` on a signed integer: the remainder takes the sign of
      the dividend (Dafny's own `%` is Euclidean and never negative). */
  function Rem(a: int): (r: int)
    ensures a >= 0 ==> 0 <= r < MOD
    ensures a < 0 ==> -MOD < r <= 0
    ensures (a - r) % MOD == 0
  {
    if a >= 0 then
      assert a - a % MOD == MOD * (a / MOD);
      a % MOD
    else
      assert a + (-a) % MOD == -MOD * ((-a) / MOD);
      -((-a) % MOD)
  }

  datatype ModInt = ModInt(value: Isize)

  /** The range every value built by `New` lies in. */
  predicate Normalised(a: ModInt) {
    0 <= a.value as int < MOD
  }

  /** A value congruent to x and in [0, MOD) is the Euclidean residue. */
  lemma ResidueUnique(x: int, y: int)
    requires 0 <= y < MOD && (x - y) % MOD == 0
    ensures y == x % MOD
  {
    var q := (x - y) / MOD;
    assert x == MOD * q + y;
  }

  /** The normalising constructor: truncating remainder, then a sign fix-up. */
  function New(v: Isize): (r: ModInt)
    ensures Normalised(r)
    ensures r.value as int == v as int % MOD
  {
    var rem := Rem(v as int);
    var fixed := if rem < 0 then rem + MOD else rem;
    assert (v as int - fixed) % MOD == 0 by {
      if rem < 0 {
        var q := (v as int - rem) / MOD;
        assert v as int - fixed == MOD * (q - 1);
      }
    }
    ResidueUnique(v as int, fixed);
    ModInt(fixed as Isize)
  }

  /** Two integers give the same `ModInt` iff they are congruent. */
  lemma NewEqualIffCongruent(a: Isize, b: Isize)
    ensures New(a) == New(b) <==> a as int % MOD == b as int % MOD
  {
  }

  /** Normalising twice is normalising once, and a normalised value is kept. */
  lemma NewIdempotent(a: ModInt)
    ensures New(New(a.value).value) == New(a.value)
    ensures Normalised(a) ==> New(a.value) == a
  {
  }

  // ---------------------------------------------------------------------
  // Congruence facts used by the operators.

  lemma AddMultiple(a: int, k: int)
    ensures (a + MOD * k) % MOD == a % MOD
  {
  }

  /** Replacing a factor by a congruent one does not change the residue. */
  lemma MulCongruent(x: int, y: int, z: int)
    requires y % MOD == z % MOD
    ensures (x * y) % MOD == (x * z) % MOD
  {
    var k := y / MOD - z / MOD;
    assert y - z == MOD * k;
    assert x * y == x * z + MOD * (x * k);
    AddMultiple(x * z, x * k);
  }

  lemma MulModLeft(x: int, y: int)
    ensures ((x % MOD) * y) % MOD == (x * y) % MOD
  {
    MulCongruent(y, x % MOD, x);
    assert (x % MOD) * y == y * (x % MOD);
    assert x * y == y * x;
  }

  lemma MulModRight(x: int, y: int)
    ensures (x * (y % MOD)) % MOD == (x * y) % MOD
  {
    MulCongruent(x, y % MOD, y);
  }

  /** The product of two normalised values fits in `isize` (MOD² < 2^63). */
  lemma NormalisedProductFits(a: ModInt, b: ModInt)
    requires Normalised(a) && Normalised(b)
    ensures 0 <= a.value as int * b.value as int < MOD * MOD
    ensures InIsize(a.value as int * b.value as int)
  {
    MulBelow(a.value as int, b.value as int, MOD);
    assert MOD * MOD == 1_000_000_014_000_000_049;
  }

  // ---------------------------------------------------------------------
  // Operators.

  function Add(a: ModInt, b: ModInt): (r: ModInt)
    requires InIsize(a.value as int + b.value as int)
    ensures Normalised(r)
    ensures r.value as int == (a.value as int + b.value as int) % MOD
  {
    New(a.value + b.value)
  }

  function AddAssign(self: ModInt, rhs: ModInt): (r: ModInt)
    requires InIsize(self.value as int + rhs.value as int)
    ensures r == Add(self, rhs)
  {
    New(self.value + rhs.value)
  }

  /** On normalised operands the sum needs at most one subtraction of MOD. */
  lemma AddOfNormalised(a: ModInt, b: ModInt)
    requires Normalised(a) && Normalised(b)
    ensures InIsize(a.value as int + b.value as int)
    ensures var s := a.value as int + b.value as int;
      Add(a, b).value as int == if s < MOD then s else s - MOD
  {
    var s := a.value as int + b.value as int;
    if s >= MOD {
      AddMultiple(s - MOD, 1);
    }
  }

  /** The residue the library's tests write as `((d % MOD) + MOD) % MOD` with
      Rust's truncating `%` is the Euclidean residue of d. */
  lemma RustSubFormula(d: int)
    ensures Rem(Rem(d) + MOD) == d % MOD
  {
    var t := Rem(d);
    var u := Rem(t + MOD);
    var q1 := (d - t) / MOD;
    var q2 := (t + MOD - u) / MOD;
    assert d - u == MOD * (q1 + q2 - 1);
    ResidueUnique(d, u);
  }

  function Sub(a: ModInt, b: ModInt): (r: ModInt)
    requires InIsize(a.value as int - b.value as int)
    ensures Normalised(r)
    ensures r.value as int == Rem(Rem(a.value as int - b.value as int) + MOD)
  {
    RustSubFormula(a.value as int - b.value as int);
    New(a.value - b.value)
  }

  function SubAssign(self: ModInt, rhs: ModInt): (r: ModInt)
    requires InIsize(self.value as int - rhs.value as int)
    ensures r == Sub(self, rhs)
  {
    New(self.value - rhs.value)
  }

  /** Subtraction undoes addition on normalised values. */
  lemma SubUndoesAdd(a: ModInt, b: ModInt)
    requires Normalised(a) && Normalised(b)
    ensures InIsize(a.value as int + b.value as int)
    ensures InIsize(Add(a, b).value as int - b.value as int)
    ensures Sub(Add(a, b), b) == a
  {
    AddOfNormalised(a, b);
    var s := a.value as int + b.value as int;
    var d := Add(a, b).value as int - b.value as int;
    if s >= MOD {
      AddMultiple(a.value as int, -1);
      assert d == a.value as int - MOD;
    }
  }

  function Mul(a: ModInt, b: ModInt): (r: ModInt)
    requires InIsize(a.value as int * b.value as int)
    ensures Normalised(r)
    ensures r.value as int == (a.value as int * b.value as int) % MOD
  {
    New(a.value * b.value)
  }

  function MulAssign(self: ModInt, rhs: ModInt): (r: ModInt)
    requires InIsize(self.value as int * rhs.value as int)
    ensures r == Mul(self, rhs)
  {
    New(self.value * rhs.value)
  }

  lemma MulCommutes(a: ModInt, b: ModInt)
    requires InIsize(a.value as int * b.value as int)
    ensures InIsize(b.value as int * a.value as int)
    ensures Mul(a, b) == Mul(b, a)
  {
  }

  // ---------------------------------------------------------------------
  // Exponentiation.

  /** The exponent `pow` effectively uses: non-positive powers give 1. */
  function Exponent(p: Isize): nat {
    if p <= 0 then 0 else p as int
  }

  lemma {:induction false} PowerAdd(x: int, a: nat, b: nat)
    ensures Power(x, a + b) == Power(x, a) * Power(x, b)
    decreases a
  {
    if a > 0 {
      PowerAdd(x, a - 1, b);
      assert Power(x, a + b) == x * Power(x, a - 1 + b);
    }
  }

  lemma {:induction false} PowerSquare(x: int, k: nat)
    ensures Power(x * x, k) == Power(x, 2 * k)
    decreases k
  {
    if k > 0 {
      PowerSquare(x, k - 1);
      calc {
        Power(x * x, k);
        (x * x) * Power(x * x, k - 1);
        (x * x) * Power(x, 2 * k - 2);
        x * (x * Power(x, 2 * k - 2));
        x * Power(x, 2 * k - 1);
        Power(x, 2 * k);
      }
    }
  }

  lemma {:induction false} PowerMod(x: int, k: nat)
    ensures Power(x % MOD, k) % MOD == Power(x, k) % MOD
    decreases k
  {
    if k > 0 {
      PowerMod(x, k - 1);
      var p, q := Power(x % MOD, k - 1), Power(x, k - 1);
      calc {
        Power(x % MOD, k) % MOD;
        ((x % MOD) * p) % MOD;
        { MulModLeft(x, p); }
        (x * p) % MOD;
        { MulModRight(x, p); MulModRight(x, q); }
        (x * q) % MOD;
      }
    }
  }

  lemma SquaredPowerMod(a: int, h: nat)
    ensures Power((a * a) % MOD, h) % MOD == Power(a, 2 * h) % MOD
  {
    PowerMod(a * a, h);
    PowerSquare(a, h);
  }

  lemma PowStepOdd(r: int, a: int, h: nat)
    ensures (((r * a) % MOD) * Power((a * a) % MOD, h)) % MOD == (r * Power(a, 2 * h + 1)) % MOD
  {
    var sq := Power((a * a) % MOD, h);
    var pw := Power(a, 2 * h);
    SquaredPowerMod(a, h);
    MulModLeft(r * a, sq);
    MulCongruent(r * a, sq, pw);
    assert Power(a, 2 * h + 1) == a * pw;
    assert (r * a) * pw == r * (a * pw);
  }

  lemma PowStepEven(r: int, a: int, h: nat)
    ensures (r * Power((a * a) % MOD, h)) % MOD == (r * Power(a, 2 * h)) % MOD
  {
    SquaredPowerMod(a, h);
    MulCongruent(r, Power((a * a) % MOD, h), Power(a, 2 * h));
  }

  /** One round of the square-and-multiply loop keeps
      `result * accum^power (mod MOD)` unchanged. */
  lemma PowStep(r: int, a: int, p: nat)
    requires p > 0
    ensures var r' := if p % 2 == 1 then (r * a) % MOD else r;
      (r' * Power((a * a) % MOD, p / 2)) % MOD == (r * Power(a, p)) % MOD
  {
    var h := p / 2;
    if p % 2 == 1 {
      assert p == 2 * h + 1;
      PowStepOdd(r, a, h);
    } else {
      assert p == 2 * h;
      PowStepEven(r, a, h);
    }
  }

  /** The loop of `pow`, one iteration per call: multiply `result` by
      `accum` on an odd power, square `accum`, halve the power. */
  function PowLoop(result: ModInt, accum: ModInt, power: Isize): (r: ModInt)
    requires Normalised(result) && Normalised(accum)
    ensures Normalised(r)
    ensures r.value as int == (result.value as int * Power(accum.value as int, Exponent(power))) % MOD
    decreases power
  {
    if power <= 0 then
      result
    else
      NormalisedProductFits(result, accum);
      NormalisedProductFits(accum, accum);
      PowStep(result.value as int, accum.value as int, power as int);
      var result' := if power % 2 == 1 then Mul(result, accum) else result;
      PowLoop(result', Mul(accum, accum), power / 2)
  }

  /** `self^power mod MOD`, and 1 for a non-positive power. */
  function Pow(a: ModInt, power: Isize): (r: ModInt)
    ensures Normalised(r)
    ensures r.value as int == Power(a.value as int, Exponent(power)) % MOD
  {
    var r := PowLoop(New(1), New(a.value), power);
    PowerMod(a.value as int, Exponent(power));
    r
  }

  /** Fermat's little theorem for MOD, which holds because 1_000_000_007 is
      prime. It is a hypothesis of the statements about inverses. */
  ghost predicate FermatLittle() {
    forall x: int {:trigger Power(x, MOD - 1)} :: 0 < x < MOD ==> Power(x, MOD - 1) % MOD == 1
  }

  /** The Fermat inverse `self^(MOD-2)`. */
  function Inv(a: ModInt): (r: ModInt)
    ensures Normalised(r)
    ensures r.value as int == Power(a.value as int, MOD - 2) % MOD
    ensures FermatLittle() && a.value as int % MOD != 0 ==>
      (a.value as int * r.value as int) % MOD == 1
  {
    var r := Pow(a, (MOD - 2) as Isize);
    InvIsInverse(a.value as int, r.value as int);
    r
  }

  lemma InvIsInverse(x: int, y: int)
    requires y == Power(x, MOD - 2) % MOD
    ensures FermatLittle() && x % MOD != 0 ==> (x * y) % MOD == 1
  {
    if FermatLittle() && x % MOD != 0 {
      var p := Power(x, MOD - 2);
      calc {
        (x * y) % MOD;
        { MulModRight(x, p); }
        (x * p) % MOD;
        { assert Power(x, MOD - 1) == x * p; }
        Power(x, MOD - 1) % MOD;
        { PowerMod(x, MOD - 1); }
        Power(x % MOD, MOD - 1) % MOD;
        1;
      }
    }
  }

  function Div(a: ModInt, b: ModInt): (r: ModInt)
    requires InIsize(a.value as int * Inv(b).value as int)
    ensures Normalised(r)
    ensures r.value as int == (a.value as int * Inv(b).value as int) % MOD
    ensures FermatLittle() && b.value as int % MOD != 0 ==>
      (r.value as int * b.value as int) % MOD == a.value as int % MOD
  {
    var r := New(a.value * Inv(b).value);
    DivTimesDivisor(a.value as int, b.value as int, Inv(b).value as int, r.value as int);
    r
  }

  lemma DivTimesDivisor(x: int, y: int, iy: int, q: int)
    requires q == (x * iy) % MOD
    requires FermatLittle() && y % MOD != 0 ==> (y * iy) % MOD == 1
    ensures FermatLittle() && y % MOD != 0 ==> (q * y) % MOD == x % MOD
  {
    if FermatLittle() && y % MOD != 0 {
      calc {
        (q * y) % MOD;
        { MulModLeft(x * iy, y); }
        ((x * iy) * y) % MOD;
        { assert (x * iy) * y == x * (y * iy); }
        (x * (y * iy)) % MOD;
        { MulModRight(x, y * iy); }
        (x * 1) % MOD;
      }
    }
  }

  function DivAssign(self: ModInt, rhs: ModInt): (r: ModInt)
    requires InIsize(self.value as int * Inv(rhs).value as int)
    ensures r == Div(self, rhs)
  {
    New(self.value * Inv(rhs).value)
  }

  lemma CancelInverse(x: int, y: int, iy: int)
    requires (y * iy) % MOD == 1
    ensures (((x * y) % MOD) * iy) % MOD == x % MOD
  {
    MulModLeft(x * y, iy);
    assert (x * y) * iy == x * (y * iy);
    MulModRight(x, y * iy);
  }

  /** Division undoes multiplication by a non-zero normalised value. */
  lemma DivUndoesMul(a: ModInt, b: ModInt)
    requires Normalised(a) && Normalised(b) && b.value != 0
    requires FermatLittle()
    ensures InIsize(a.value as int * b.value as int)
    ensures InIsize(Mul(a, b).value as int * Inv(b).value as int)
    ensures Div(Mul(a, b), b) == a
  {
    NormalisedProductFits(a, b);
    NormalisedProductFits(Mul(a, b), Inv(b));
    var x, y, iy := a.value as int, b.value as int, Inv(b).value as int;
    assert (y * iy) % MOD == 1;
    CancelInverse(x, y, iy);
    assert Div(Mul(a, b), b).value == a.value;
  }

  // ---------------------------------------------------------------------
  // Comparison: by `value` alone.

  function Eq(a: ModInt, b: ModInt): (r: bool)
    ensures r <==> a == b
  {
    a.value == b.value
  }

  datatype Ordering = Less | Equal | Greater

  function Cmp(a: ModInt, b: ModInt): (o: Ordering)
    ensures o == Less <==> a.value < b.value
    ensures o == Equal <==> Eq(a, b)
    ensures o == Greater <==> b.value < a.value
  {
    if a.value < b.value then Less else if a.value == b.value then Equal else Greater
  }

  /** Swapping the operands reverses the ordering. */
  lemma CmpAntisymmetric(a: ModInt, b: ModInt)
    ensures Cmp(a, b) == Less <==> Cmp(b, a) == Greater
    ensures Cmp(a, b) == Equal <==> Cmp(b, a) == Equal
  {
  }

  /** For values already in [0, MOD), `ModInt` order is integer order. */
  lemma OrderMatchesIntegers(a: Isize, b: Isize)
    requires 0 <= a as int < MOD && 0 <= b as int < MOD
    ensures Cmp(New(a), New(b)) == Less <==> a < b
  {
  }
}
