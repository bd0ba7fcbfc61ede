/** General forms of the library's property tests for `Max` and `Min`,
    their bounded integer instances, and concrete instances including
    updates. */
module SegmentTreeExamples {
  import opened Monoids
  import opened SegmentTree

  /** The fold of a slice under `Max` in terms of the whole sequence. */
  lemma MaxOfSlice<T(!new)>(le: (T, T) -> bool, minValue: T, v: seq<T>, lo: nat, hi: nat)
    requires IsTotalOrder(le) && IsBottom(le, minValue) && hi <= |v|
    ensures var r := Fold(Max(le, minValue), Slice(v, lo, hi));
      && (forall k :: lo <= k < hi ==> le(v[k], r))
      && (if lo < hi then exists k :: lo <= k < hi && v[k] == r else r == minValue)
  {
    var s := Slice(v, lo, hi);
    FoldMaxIsGreatest(le, minValue, s);
    assert forall k :: lo <= k < hi ==> v[k] == s[k - lo];
    if lo < hi {
      var r := Fold(Max(le, minValue), s);
      var k :| 0 <= k < |s| && s[k] == r;
      assert v[lo + k] == r;
    }
  }

  /** A query of a freshly built `Max` tree over any bounded total order is
      the greatest element of the range, or the minimum value when the range
      is empty. */
  lemma MaxTreeQuery<T(!new)>(le: (T, T) -> bool, minValue: T, v: seq<T>, lo: nat, hi: nat)
    requires IsTotalOrder(le) && IsBottom(le, minValue) && hi <= |v|
    ensures IsMonoid(Max(le, minValue))
    ensures var r := Query(Max(le, minValue), FromSeq(Max(le, minValue), v), lo, hi);
      && (forall k :: lo <= k < hi ==> le(v[k], r))
      && (if lo < hi then exists k :: lo <= k < hi && v[k] == r else r == minValue)
  {
    MaxIsMonoid(le, minValue);
    FromSeqQuery(Max(le, minValue), v, lo, hi);
    MaxOfSlice(le, minValue, v, lo, hi);
  }

  /** The fold of a slice under `Min` in terms of the whole sequence. */
  lemma MinOfSlice<T(!new)>(le: (T, T) -> bool, maxValue: T, v: seq<T>, lo: nat, hi: nat)
    requires IsTotalOrder(le) && IsTop(le, maxValue) && hi <= |v|
    ensures var r := Fold(Min(le, maxValue), Slice(v, lo, hi));
      && (forall k :: lo <= k < hi ==> le(r, v[k]))
      && (if lo < hi then exists k :: lo <= k < hi && v[k] == r else r == maxValue)
  {
    var s := Slice(v, lo, hi);
    FoldMinIsLeast(le, maxValue, s);
    assert forall k :: lo <= k < hi ==> v[k] == s[k - lo];
    if lo < hi {
      var r := Fold(Min(le, maxValue), s);
      var k :| 0 <= k < |s| && s[k] == r;
      assert v[lo + k] == r;
    }
  }

  /** A query of a freshly built `Min` tree is the least element of the
      range, or the maximum value when the range is empty. */
  lemma MinTreeQuery<T(!new)>(le: (T, T) -> bool, maxValue: T, v: seq<T>, lo: nat, hi: nat)
    requires IsTotalOrder(le) && IsTop(le, maxValue) && hi <= |v|
    ensures IsMonoid(Min(le, maxValue))
    ensures var r := Query(Min(le, maxValue), FromSeq(Min(le, maxValue), v), lo, hi);
      && (forall k :: lo <= k < hi ==> le(r, v[k]))
      && (if lo < hi then exists k :: lo <= k < hi && v[k] == r else r == maxValue)
  {
    MinIsMonoid(le, maxValue);
    FromSeqQuery(Min(le, maxValue), v, lo, hi);
    MinOfSlice(le, maxValue, v, lo, hi);
  }

  /** A max-query is `v[j]` when `v[j]` lies in the range and bounds it. */
  lemma MaxQueryIs<T(!new)>(le: (T, T) -> bool, minValue: T, v: seq<T>, lo: nat, hi: nat, j: nat)
    requires IsTotalOrder(le) && IsBottom(le, minValue)
    requires lo <= j < hi <= |v|
    requires forall k :: lo <= k < hi ==> le(v[k], v[j])
    ensures IsMonoid(Max(le, minValue))
    ensures Query(Max(le, minValue), FromSeq(Max(le, minValue), v), lo, hi) == v[j]
  {
    MaxTreeQuery(le, minValue, v, lo, hi);
  }

  /** A min-query is `v[j]` when `v[j]` lies in the range and bounds it. */
  lemma MinQueryIs<T(!new)>(le: (T, T) -> bool, maxValue: T, v: seq<T>, lo: nat, hi: nat, j: nat)
    requires IsTotalOrder(le) && IsTop(le, maxValue)
    requires lo <= j < hi <= |v|
    requires forall k :: lo <= k < hi ==> le(v[j], v[k])
    ensures IsMonoid(Min(le, maxValue))
    ensures Query(Min(le, maxValue), FromSeq(Min(le, maxValue), v), lo, hi) == v[j]
  {
    MinTreeQuery(le, maxValue, v, lo, hi);
  }

  /** After an update, a max-query is the bound `w[j]` of the updated values `w`. */
  lemma MaxQueryAfterUpdateIs<T(!new)>(le: (T, T) -> bool, minValue: T, v: seq<T>, i: nat, x: T,
                                      w: seq<T>, lo: nat, hi: nat, j: nat)
    requires IsTotalOrder(le) && IsBottom(le, minValue) && i < |v| && w == v[i := x]
    requires lo <= j < hi <= |v|
    requires forall k :: lo <= k < hi ==> le(w[k], w[j])
    ensures IsMonoid(Max(le, minValue)) && i < FromSeq(Max(le, minValue), v).nLeaves
    ensures Query(Max(le, minValue), Update(Max(le, minValue), FromSeq(Max(le, minValue), v), i, x), lo, hi)
         == w[j]
  {
    MaxIsMonoid(le, minValue);
    FromSeqUpdate(Max(le, minValue), v, i, x);
    MaxQueryIs(le, minValue, w, lo, hi, j);
  }

  /** After an update, a min-query is the bound `w[j]` of the updated values `w`. */
  lemma MinQueryAfterUpdateIs<T(!new)>(le: (T, T) -> bool, maxValue: T, v: seq<T>, i: nat, x: T,
                                      w: seq<T>, lo: nat, hi: nat, j: nat)
    requires IsTotalOrder(le) && IsTop(le, maxValue) && i < |v| && w == v[i := x]
    requires lo <= j < hi <= |v|
    requires forall k :: lo <= k < hi ==> le(w[j], w[k])
    ensures IsMonoid(Min(le, maxValue)) && i < FromSeq(Min(le, maxValue), v).nLeaves
    ensures Query(Min(le, maxValue), Update(Min(le, maxValue), FromSeq(Min(le, maxValue), v), i, x), lo, hi)
         == w[j]
  {
    MinIsMonoid(le, maxValue);
    FromSeqUpdate(Min(le, maxValue), v, i, x);
    MinQueryIs(le, maxValue, w, lo, hi, j);
  }

  lemma MaxI64QueryIs(v: seq<I64>, lo: nat, hi: nat, j: nat)
    requires lo <= j < hi <= |v|
    requires forall k :: lo <= k < hi ==> v[k] <= v[j]
    ensures IsMonoid(MaxI64())
    ensures Query(MaxI64(), FromSeq(MaxI64(), v), lo, hi) == v[j]
  {
    MaxQueryIs<I64>(LeI64, I64_MIN, v, lo, hi, j);
  }

  lemma MinU64QueryIs(v: seq<U64>, lo: nat, hi: nat, j: nat)
    requires lo <= j < hi <= |v|
    requires forall k :: lo <= k < hi ==> v[j] <= v[k]
    ensures IsMonoid(MinU64())
    ensures Query(MinU64(), FromSeq(MinU64(), v), lo, hi) == v[j]
  {
    MinQueryIs<U64>(LeU64, U64_MAX, v, lo, hi, j);
  }

  lemma MaxI64UpdateQueryIs(v: seq<I64>, i: nat, x: I64, w: seq<I64>, lo: nat, hi: nat, j: nat)
    requires i < |v| && w == v[i := x]
    requires lo <= j < hi <= |v|
    requires forall k :: lo <= k < hi ==> w[k] <= w[j]
    ensures IsMonoid(MaxI64()) && i < FromSeq(MaxI64(), v).nLeaves
    ensures Query(MaxI64(), Update(MaxI64(), FromSeq(MaxI64(), v), i, x), lo, hi) == w[j]
  {
    MaxQueryAfterUpdateIs<I64>(LeI64, I64_MIN, v, i, x, w, lo, hi, j);
  }

  lemma MinU64UpdateQueryIs(v: seq<U64>, i: nat, x: U64, w: seq<U64>, lo: nat, hi: nat, j: nat)
    requires i < |v| && w == v[i := x]
    requires lo <= j < hi <= |v|
    requires forall k :: lo <= k < hi ==> w[j] <= w[k]
    ensures IsMonoid(MinU64()) && i < FromSeq(MinU64(), v).nLeaves
    ensures Query(MinU64(), Update(MinU64(), FromSeq(MinU64(), v), i, x), lo, hi) == w[j]
  {
    MinQueryAfterUpdateIs<U64>(LeU64, U64_MAX, v, i, x, w, lo, hi, j);
  }

  /** Maximum over i64, built from [3, -1, 4, 1, 5, 9, 2, 6]: whole range. */
  lemma MaxI64ScenarioAll(v: seq<I64>)
    requires v == [3, -1, 4, 1, 5, 9, 2, 6]
    ensures IsMonoid(MaxI64())
    ensures Query(MaxI64(), FromSeq(MaxI64(), v), 0, 8) == 9
  {
    MaxI64QueryIs(v, 0, 8, 5);
  }

  /** The same tree, range [1, 4). */
  lemma MaxI64ScenarioPart(v: seq<I64>)
    requires v == [3, -1, 4, 1, 5, 9, 2, 6]
    ensures IsMonoid(MaxI64())
    ensures Query(MaxI64(), FromSeq(MaxI64(), v), 1, 4) == 4
  {
    MaxI64QueryIs(v, 1, 4, 2);
  }

  /** The same tree, the empty range [6, 6) yields the identity. */
  lemma MaxI64ScenarioEmpty(v: seq<I64>)
    requires v == [3, -1, 4, 1, 5, 9, 2, 6]
    ensures IsMonoid(MaxI64())
    ensures Query(MaxI64(), FromSeq(MaxI64(), v), 6, 6) == I64_MIN
  {
    MaxTreeQuery<I64>(LeI64, I64_MIN, v, 6, 6);
  }

  /** The same tree after setting position 2 to 100, whole range. */
  lemma MaxI64ScenarioUpdate(v: seq<I64>)
    requires v == [3, -1, 4, 1, 5, 9, 2, 6]
    ensures IsMonoid(MaxI64())
    ensures Query(MaxI64(), Update(MaxI64(), FromSeq(MaxI64(), v), 2, 100), 0, 8) == 100
  {
    var w: seq<I64> := [3, -1, 100, 1, 5, 9, 2, 6];
    assert v[2 := 100] == w;
    assert forall k :: 0 <= k < 8 ==> w[k] <= w[2];
    MaxI64UpdateQueryIs(v, 2, 100, w, 0, 8, 2);
  }

  /** Minimum over u64, built from [5, 3, 8, 1]: range [0, 2). */
  lemma MinU64ScenarioLow(v: seq<U64>)
    requires v == [5, 3, 8, 1]
    ensures IsMonoid(MinU64())
    ensures Query(MinU64(), FromSeq(MinU64(), v), 0, 2) == 3
  {
    MinU64QueryIs(v, 0, 2, 1);
  }

  /** The same tree, range [2, 4). */
  lemma MinU64ScenarioHigh(v: seq<U64>)
    requires v == [5, 3, 8, 1]
    ensures IsMonoid(MinU64())
    ensures Query(MinU64(), FromSeq(MinU64(), v), 2, 4) == 1
  {
    MinU64QueryIs(v, 2, 4, 3);
  }

  /** The same tree after setting position 3 to 0, whole range. */
  lemma MinU64ScenarioUpdate(v: seq<U64>)
    requires v == [5, 3, 8, 1]
    ensures IsMonoid(MinU64())
    ensures Query(MinU64(), Update(MinU64(), FromSeq(MinU64(), v), 3, 0), 0, 4) == 0
  {
    MinU64UpdateQueryIs(v, 3, 0, [5, 3, 8, 0], 0, 4, 3);
  }
}
