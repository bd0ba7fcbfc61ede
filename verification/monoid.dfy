/** The monoid abstraction the segment tree is generic over, with the two
    instances the library ships: `Max` (identity = the type's minimum value)
    and `Min` (identity = the type's maximum value). */
module Monoids {

  /** An identity element and a combining operation on T. The algebraic laws
      are not part of the value; `IsMonoid` states them as the obligation an
      instance must discharge. */
  datatype Monoid<!T> = Monoid(mempty: T, mappend: (T, T) -> T)

  ghost predicate IsMonoid<T(!new)>(m: Monoid<T>) {
    && (forall x {:trigger m.mappend(m.mempty, x)} :: m.mappend(m.mempty, x) == x)
    && (forall x {:trigger m.mappend(x, m.mempty)} :: m.mappend(x, m.mempty) == x)
    && (forall a, b, c {:trigger m.mappend(m.mappend(a, b), c)} ::
          m.mappend(m.mappend(a, b), c) == m.mappend(a, m.mappend(b, c)))
  }

  /** Left-to-right fold of a sequence: the reference every range query is
      compared with. */
  function Fold<T>(m: Monoid<T>, s: seq<T>): T
  {
    if |s| == 0 then m.mempty else m.mappend(Fold(m, s[..|s| - 1]), s[|s| - 1])
  }

  lemma FoldSingleton<T(!new)>(m: Monoid<T>, x: T)
    requires IsMonoid(m)
    ensures Fold(m, [x]) == x
  {
    assert [x][..0] == [];
  }

  /** Folding a concatenation combines the folds of the parts, in order. */
  lemma {:induction false} FoldAppend<T(!new)>(m: Monoid<T>, a: seq<T>, b: seq<T>)
    requires IsMonoid(m)
    ensures Fold(m, a + b) == m.mappend(Fold(m, a), Fold(m, b))
    decreases |b|
  {
    if |b| == 0 {
      assert a + b == a;
    } else {
      var b' := b[..|b| - 1];
      var last := b[|b| - 1];
      assert (a + b)[..|a + b| - 1] == a + b';
      FoldAppend(m, a, b');
      calc {
        Fold(m, a + b);
        m.mappend(Fold(m, a + b'), last);
        m.mappend(m.mappend(Fold(m, a), Fold(m, b')), last);
        m.mappend(Fold(m, a), m.mappend(Fold(m, b'), last));
      }
    }
  }

  // ---------------------------------------------------------------------
  // Orders: what `T: Ord + num::Bounded` provides to the instances.

  ghost predicate IsTotalOrder<T(!new)>(le: (T, T) -> bool) {
    && (forall x :: le(x, x))
    && (forall x, y :: le(x, y) && le(y, x) ==> x == y)
    && (forall x, y, z :: le(x, y) && le(y, z) ==> le(x, z))
    && (forall x, y :: le(x, y) || le(y, x))
  }

  ghost predicate IsBottom<T(!new)>(le: (T, T) -> bool, bottom: T) {
    forall x :: le(bottom, x)
  }

  ghost predicate IsTop<T(!new)>(le: (T, T) -> bool, top: T) {
    forall x :: le(x, top)
  }

  /** Larger of two values; on a tie the second, as Rust's `Ord::max`. */
  function MaxOf<T>(le: (T, T) -> bool, a: T, b: T): T {
    if le(a, b) then b else a
  }

  /** Smaller of two values; on a tie the first, as Rust's `Ord::min`. */
  function MinOf<T>(le: (T, T) -> bool, a: T, b: T): T {
    if le(a, b) then a else b
  }

  /** The `Max` instance: identity is the minimum value of the type. */
  function Max<T>(le: (T, T) -> bool, minValue: T): Monoid<T> {
    Monoid(minValue, (a, b) => MaxOf(le, a, b))
  }

  /** The `Min` instance: identity is the maximum value of the type. */
  function Min<T>(le: (T, T) -> bool, maxValue: T): Monoid<T> {
    Monoid(maxValue, (a, b) => MinOf(le, a, b))
  }

  lemma MaxIsMonoid<T(!new)>(le: (T, T) -> bool, minValue: T)
    requires IsTotalOrder(le) && IsBottom(le, minValue)
    ensures IsMonoid(Max(le, minValue))
  {
  }

  lemma MinIsMonoid<T(!new)>(le: (T, T) -> bool, maxValue: T)
    requires IsTotalOrder(le) && IsTop(le, maxValue)
    ensures IsMonoid(Min(le, maxValue))
  {
  }

  /** `Max::mappend(a, b)` is an upper bound of both operands and is one of them. */
  lemma MaxIsLeastUpperBound<T(!new)>(le: (T, T) -> bool, minValue: T, a: T, b: T)
    requires IsTotalOrder(le)
    ensures var r := Max(le, minValue).mappend(a, b);
      le(a, r) && le(b, r) && (r == a || r == b)
  {
  }

  /** `Min::mappend(a, b)` is a lower bound of both operands and is one of them. */
  lemma MinIsGreatestLowerBound<T(!new)>(le: (T, T) -> bool, maxValue: T, a: T, b: T)
    requires IsTotalOrder(le)
    ensures var r := Min(le, maxValue).mappend(a, b);
      le(r, a) && le(r, b) && (r == a || r == b)
  {
  }

  /** Folding with `Max` gives the greatest element, or the minimum value
      when there is none: what the tests compute with `max().unwrap_or(MIN)`. */
  lemma {:induction false} FoldMaxIsGreatest<T(!new)>(le: (T, T) -> bool, minValue: T, s: seq<T>)
    requires IsTotalOrder(le) && IsBottom(le, minValue)
    ensures var r := Fold(Max(le, minValue), s);
      && (forall k :: 0 <= k < |s| ==> le(s[k], r))
      && (if |s| == 0 then r == minValue else r in s)
  {
    if |s| > 0 {
      var s' := s[..|s| - 1];
      FoldMaxIsGreatest(le, minValue, s');
      assert forall k :: 0 <= k < |s'| ==> s'[k] == s[k];
    }
  }

  /** Folding with `Min` gives the least element, or the maximum value when
      there is none: what the tests compute with `min().unwrap_or(MAX)`. */
  lemma {:induction false} FoldMinIsLeast<T(!new)>(le: (T, T) -> bool, maxValue: T, s: seq<T>)
    requires IsTotalOrder(le) && IsTop(le, maxValue)
    ensures var r := Fold(Min(le, maxValue), s);
      && (forall k :: 0 <= k < |s| ==> le(r, s[k]))
      && (if |s| == 0 then r == maxValue else r in s)
  {
    if |s| > 0 {
      var s' := s[..|s| - 1];
      FoldMinIsLeast(le, maxValue, s');
      assert forall k :: 0 <= k < |s'| ==> s'[k] == s[k];
    }
  }

  // ---------------------------------------------------------------------
  // Concrete bounded integer types used by the library's tests.

  newtype I64 = x: int | -0x8000_0000_0000_0000 <= x <= 0x7fff_ffff_ffff_ffff
  newtype U64 = x: int | 0 <= x <= 0xffff_ffff_ffff_ffff

  const I64_MIN: I64 := -0x8000_0000_0000_0000
  const I64_MAX: I64 := 0x7fff_ffff_ffff_ffff
  const U64_MIN: U64 := 0
  const U64_MAX: U64 := 0xffff_ffff_ffff_ffff

  function LeI64(a: I64, b: I64): bool { a <= b }
  function LeU64(a: U64, b: U64): bool { a <= b }

  function MaxI64(): Monoid<I64> { Max(LeI64, I64_MIN) }
  function MinI64(): Monoid<I64> { Min(LeI64, I64_MAX) }
  function MaxU64(): Monoid<U64> { Max(LeU64, U64_MIN) }
  function MinU64(): Monoid<U64> { Min(LeU64, U64_MAX) }

  /** The bounded integer instances discharge the monoid laws. */
  lemma BoundedInstancesAreMonoids()
    ensures IsMonoid(MaxI64()) && IsMonoid(MinI64())
    ensures IsMonoid(MaxU64()) && IsMonoid(MinU64())
  {
    MaxIsMonoid<I64>(LeI64, I64_MIN);
    MinIsMonoid<I64>(LeI64, I64_MAX);
    MaxIsMonoid<U64>(LeU64, U64_MIN);
    MinIsMonoid<U64>(LeU64, U64_MAX);
  }
}
