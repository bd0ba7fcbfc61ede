/** Segment tree over a monoid, stored as an implicit complete binary tree in
    a flat sequence: the root is node 0, node i has children 2i+1 and 2i+2,
    and the last `nLeaves` nodes are the leaves. */
module SegmentTree {
  import opened Monoids

  datatype SegTree<T> = SegTree(nLeaves: nat, nodes: seq<T>)

  predicate IsPow2(n: nat)
    decreases n
  {
    if n <= 1 then n == 1 else n % 2 == 0 && IsPow2(n / 2)
  }

  /** Smallest power of two at or above n, found by doubling from `p`. */
  function PowerAtLeast(n: nat, p: nat): (q: nat)
    requires IsPow2(p) && (p == 1 || p / 2 < n)
    ensures IsPow2(q) && n <= q && (q == 1 || q / 2 < n)
    decreases n - p
  {
    if n <= p then p else PowerAtLeast(n, 2 * p)
  }

  /** Rust's `usize::next_power_of_two`: the smallest power of two >= n, so 0
      and 1 both give 1. */
  function NextPowerOfTwo(n: nat): (p: nat)
    ensures IsPow2(p) && n <= p
    ensures p == 1 || p / 2 < n
  {
    PowerAtLeast(n, 1)
  }

  /** The array shape: a power-of-two leaf count and 2*nLeaves - 1 nodes. */
  ghost predicate Shaped<T>(t: SegTree<T>) {
    IsPow2(t.nLeaves) && |t.nodes| == 2 * t.nLeaves - 1
  }

  /** The structural invariant: every internal node combines its children. */
  ghost predicate Valid<T>(m: Monoid<T>, t: SegTree<T>) {
    && Shaped(t)
    && forall j :: 0 <= j < t.nLeaves - 1 ==>
         t.nodes[j] == m.mappend(t.nodes[2 * j + 1], t.nodes[2 * j + 2])
  }

  function Leaves<T>(t: SegTree<T>): (s: seq<T>)
    requires Shaped(t)
    ensures |s| == t.nLeaves
  {
    t.nodes[t.nLeaves - 1..]
  }

  /** The logical elements at positions [lo, hi), empty when lo >= hi. */
  function Slice<T>(s: seq<T>, lo: nat, hi: nat): seq<T>
    requires hi <= |s|
  {
    if lo < hi then s[lo..hi] else []
  }

  function MinNat(a: nat, b: nat): nat { if a <= b then a else b }
  function MaxNat(a: nat, b: nat): nat { if a <= b then b else a }

  // ---------------------------------------------------------------------
  // Construction

  /** `SegmentTree::new(n)`: nLeaves is the next power of two and all
      2*nLeaves - 1 nodes hold the identity. */
  function New<T(!new)>(m: Monoid<T>, n: nat): (t: SegTree<T>)
    ensures Shaped(t) && n <= t.nLeaves && t.nLeaves == NextPowerOfTwo(n)
    ensures t.nLeaves == 1 || t.nLeaves / 2 < n
    ensures forall j :: 0 <= j < |t.nodes| ==> t.nodes[j] == m.mempty
    ensures IsMonoid(m) ==> Valid(m, t)
  {
    var p := NextPowerOfTwo(n);
    SegTree(p, Padding(m, 2 * p - 1))
  }

  // ---------------------------------------------------------------------
  // Point update

  /** `a` is a proper ancestor of node k (reached by repeated (k-1)/2). */
  ghost predicate Above(a: nat, k: nat)
    decreases k
  {
    k > 0 && ((k - 1) / 2 == a || Above(a, (k - 1) / 2))
  }

  lemma {:induction false} AboveIsSmaller(a: nat, k: nat)
    requires Above(a, k)
    ensures a < k
    decreases k
  {
    if (k - 1) / 2 != a {
      AboveIsSmaller(a, (k - 1) / 2);
    }
  }

  /** The invariant, except possibly at the proper ancestors of node k. */
  ghost predicate ValidExceptAbove<T>(m: Monoid<T>, n: nat, nodes: seq<T>, k: nat)
    requires |nodes| == 2 * n - 1
  {
    forall j :: 0 <= j < n - 1 && !Above(j, k) ==>
      nodes[j] == m.mappend(nodes[2 * j + 1], nodes[2 * j + 2])
  }

  /** One step of the walk: node p takes the combination of its children. */
  function Recombine<T>(m: Monoid<T>, nodes: seq<T>, p: nat): seq<T>
    requires 2 * p + 2 < |nodes|
  {
    nodes[p := m.mappend(nodes[2 * p + 1], nodes[2 * p + 2])]
  }

  /** The loop of `update`: walk from node k to the root, recombining each
      ancestor from its two children. */
  function Propagate<T>(m: Monoid<T>, n: nat, nodes: seq<T>, k: nat): (r: seq<T>)
    requires n >= 1 && |nodes| == 2 * n - 1 && k < |nodes|
    ensures |r| == |nodes|
    decreases k
  {
    if k == 0 then nodes
    else
      var p := (k - 1) / 2;
      Propagate(m, n, Recombine(m, nodes, p), p)
  }

  /** The walk rewrites only proper ancestors of k. */
  lemma {:induction false} PropagateFrame<T>(m: Monoid<T>, n: nat, nodes: seq<T>, k: nat)
    requires n >= 1 && |nodes| == 2 * n - 1 && k < |nodes|
    ensures forall j :: 0 <= j < |nodes| && !Above(j, k) ==> Propagate(m, n, nodes, k)[j] == nodes[j]
    decreases k
  {
    if k > 0 {
      var p := (k - 1) / 2;
      var nodes' := Recombine(m, nodes, p);
      PropagateFrame(m, n, nodes', p);
      forall j | 0 <= j < |nodes| && !Above(j, k)
        ensures Propagate(m, n, nodes, k)[j] == nodes[j]
      {
        assert j != p && !Above(j, p);
      }
    }
  }

  /** The walk never rewrites a leaf. */
  lemma {:induction false} PropagateLeaves<T>(m: Monoid<T>, n: nat, nodes: seq<T>, k: nat)
    requires n >= 1 && |nodes| == 2 * n - 1 && k < |nodes|
    ensures forall j :: n - 1 <= j < |nodes| ==> Propagate(m, n, nodes, k)[j] == nodes[j]
    decreases k
  {
    if k > 0 {
      var p := (k - 1) / 2;
      var nodes' := Recombine(m, nodes, p);
      PropagateLeaves(m, n, nodes', p);
      assert p < n - 1;
    }
  }

  /** Recombining the parent of k moves the possibly broken nodes up one
      level: only the ancestors of the parent remain. */
  lemma RecombineParent<T>(m: Monoid<T>, n: nat, nodes: seq<T>, k: nat)
    requires n >= 1 && |nodes| == 2 * n - 1 && 0 < k < |nodes|
    requires ValidExceptAbove(m, n, nodes, k)
    ensures ValidExceptAbove(m, n, Recombine(m, nodes, (k - 1) / 2), (k - 1) / 2)
  {
    var p := (k - 1) / 2;
    var nodes' := Recombine(m, nodes, p);
    forall j | 0 <= j < n - 1 && !Above(j, p)
      ensures nodes'[j] == m.mappend(nodes'[2 * j + 1], nodes'[2 * j + 2])
    {
      if j != p {
        assert !Above(j, k);
        assert Above(j, 2 * j + 1) && Above(j, 2 * j + 2);
      }
    }
  }

  /** If only the ancestors of k break the invariant, the walk repairs
      them all. */
  lemma {:induction false} PropagateRestores<T>(m: Monoid<T>, n: nat, nodes: seq<T>, k: nat)
    requires n >= 1 && |nodes| == 2 * n - 1 && k < |nodes|
    requires ValidExceptAbove(m, n, nodes, k)
    ensures ValidExceptAbove(m, n, Propagate(m, n, nodes, k), 0)
    decreases k
  {
    if k > 0 {
      var p := (k - 1) / 2;
      var nodes' := Recombine(m, nodes, p);
      RecombineParent(m, n, nodes, k);
      PropagateRestores(m, n, nodes', p);
      assert Propagate(m, n, nodes, k) == Propagate(m, n, nodes', p);
    }
  }

  /** `update(i, x)`: write x at leaf i and restore the invariant along the
      path to the root. An i >= nLeaves is an out-of-bounds panic in the
      source, hence the precondition. */
  function Update<T>(m: Monoid<T>, t: SegTree<T>, i: nat, x: T): (t': SegTree<T>)
    requires Shaped(t) && i < t.nLeaves
    ensures Shaped(t') && t'.nLeaves == t.nLeaves
    ensures Leaves(t') == Leaves(t)[i := x]
    ensures forall j :: 0 <= j < |t.nodes| && j != i + t.nLeaves - 1 && !Above(j, i + t.nLeaves - 1) ==>
              t'.nodes[j] == t.nodes[j]
    ensures Valid(m, t) ==> Valid(m, t')
  {
    var n := t.nLeaves;
    var k := i + n - 1;
    var r := Propagate(m, n, t.nodes[k := x], k);
    WriteLeaves(m, t, i, x);
    WriteKeepsValid(m, t, k, x);
    WriteFrame(m, t, k, x);
    SegTree(n, r)
  }

  /** Writing leaf i and propagating changes leaf i to x and no other leaf. */
  lemma WriteLeaves<T>(m: Monoid<T>, t: SegTree<T>, i: nat, x: T)
    requires Shaped(t) && i < t.nLeaves
    ensures var n := t.nLeaves;
      Leaves(SegTree(n, Propagate(m, n, t.nodes[i + n - 1 := x], i + n - 1))) == Leaves(t)[i := x]
  {
    var n := t.nLeaves;
    var k := i + n - 1;
    var written := t.nodes[k := x];
    var r := Propagate(m, n, written, k);
    PropagateLeaves(m, n, written, k);
    var t' := SegTree(n, r);
    forall j | 0 <= j < n
      ensures Leaves(t')[j] == Leaves(t)[i := x][j]
    {
      assert Leaves(t')[j] == r[n - 1 + j] && Leaves(t)[j] == t.nodes[n - 1 + j];
    }
  }

  /** Writing node k and propagating restores the invariant. */
  lemma WriteKeepsValid<T>(m: Monoid<T>, t: SegTree<T>, k: nat, x: T)
    requires Shaped(t) && t.nLeaves - 1 <= k < |t.nodes|
    ensures Valid(m, t) ==> Valid(m, SegTree(t.nLeaves, Propagate(m, t.nLeaves, t.nodes[k := x], k)))
  {
    if Valid(m, t) {
      WriteLeafBreaksOnlyAbove(m, t, k, x);
      PropagateRestores(m, t.nLeaves, t.nodes[k := x], k);
      ValidExceptRoot(m, SegTree(t.nLeaves, Propagate(m, t.nLeaves, t.nodes[k := x], k)));
    }
  }

  /** Writing node k and propagating leaves every node other than k and its
      ancestors as it was. */
  lemma WriteFrame<T>(m: Monoid<T>, t: SegTree<T>, k: nat, x: T)
    requires Shaped(t) && t.nLeaves - 1 <= k < |t.nodes|
    ensures forall j :: 0 <= j < |t.nodes| && j != k && !Above(j, k) ==>
      Propagate(m, t.nLeaves, t.nodes[k := x], k)[j] == t.nodes[j]
  {
    var nodes := t.nodes[k := x];
    var r := Propagate(m, t.nLeaves, nodes, k);
    PropagateFrame(m, t.nLeaves, nodes, k);
    forall j | 0 <= j < |t.nodes| && j != k && !Above(j, k)
      ensures r[j] == t.nodes[j]
    {
      assert r[j] == nodes[j];
    }
  }

  /** Nothing is a proper ancestor of the root, so "valid except above the
      root" is valid. */
  lemma ValidExceptRoot<T>(m: Monoid<T>, t: SegTree<T>)
    requires Shaped(t) && ValidExceptAbove(m, t.nLeaves, t.nodes, 0)
    ensures Valid(m, t)
  {
    assert forall j :: !Above(j, 0);
  }

  lemma WriteLeafBreaksOnlyAbove<T>(m: Monoid<T>, t: SegTree<T>, k: nat, x: T)
    requires Shaped(t) && t.nLeaves - 1 <= k < |t.nodes|
    ensures Valid(m, t) ==> ValidExceptAbove(m, t.nLeaves, t.nodes[k := x], k)
  {
    if Valid(m, t) {
      var nodes := t.nodes[k := x];
      forall j | 0 <= j < t.nLeaves - 1 && !Above(j, k)
        ensures nodes[j] == m.mappend(nodes[2 * j + 1], nodes[2 * j + 2])
      {
        assert Above(j, 2 * j + 1) && Above(j, 2 * j + 2);
      }
    }
  }

  /** Two well-formed trees with the same leaves are the same tree: the
      invariant determines every internal node from the leaves. */
  lemma {:induction false} DeterminedByLeaves<T>(m: Monoid<T>, a: SegTree<T>, b: SegTree<T>)
    requires Valid(m, a) && Valid(m, b) && a.nLeaves == b.nLeaves
    requires Leaves(a) == Leaves(b)
    ensures a == b
  {
    forall j | 0 <= j < |a.nodes|
      ensures a.nodes[j] == b.nodes[j]
    {
      NodeDeterminedByLeaves(m, a, b, j);
    }
  }

  lemma {:induction false} NodeDeterminedByLeaves<T>(m: Monoid<T>, a: SegTree<T>, b: SegTree<T>, j: nat)
    requires Valid(m, a) && Valid(m, b) && a.nLeaves == b.nLeaves
    requires Leaves(a) == Leaves(b)
    requires j < |a.nodes|
    ensures a.nodes[j] == b.nodes[j]
    decreases |a.nodes| - j
  {
    var n := a.nLeaves;
    if j >= n - 1 {
      assert a.nodes[j] == Leaves(a)[j - (n - 1)];
      assert b.nodes[j] == Leaves(b)[j - (n - 1)];
    } else {
      NodeDeterminedByLeaves(m, a, b, 2 * j + 1);
      NodeDeterminedByLeaves(m, a, b, 2 * j + 2);
    }
  }

  /** Repeating an update changes nothing. */
  lemma UpdateIdempotent<T>(m: Monoid<T>, t: SegTree<T>, i: nat, x: T)
    requires Valid(m, t) && i < t.nLeaves
    ensures Update(m, Update(m, t, i, x), i, x) == Update(m, t, i, x)
  {
    var once := Update(m, t, i, x);
    var twice := Update(m, once, i, x);
    assert Leaves(twice) == Leaves(once);
    DeterminedByLeaves(m, twice, once);
  }

  /** Updates at different positions commute. */
  lemma UpdatesCommute<T>(m: Monoid<T>, t: SegTree<T>, i: nat, x: T, j: nat, y: T)
    requires Valid(m, t) && i < t.nLeaves && j < t.nLeaves && i != j
    ensures Update(m, Update(m, t, i, x), j, y) == Update(m, Update(m, t, j, y), i, x)
  {
    UpdateTwice(m, t, i, x, j, y);
    UpdateTwice(m, t, j, y, i, x);
    var leaves := Leaves(t);
    assert leaves[i := x][j := y] == leaves[j := y][i := x];
    DeterminedByLeaves(m, Update(m, Update(m, t, i, x), j, y), Update(m, Update(m, t, j, y), i, x));
  }

  /** Two updates in a row: a valid tree whose leaves carry both writes. */
  lemma UpdateTwice<T>(m: Monoid<T>, t: SegTree<T>, i: nat, x: T, j: nat, y: T)
    requires Valid(m, t) && i < t.nLeaves && j < t.nLeaves
    ensures var a := Update(m, Update(m, t, i, x), j, y);
      Valid(m, a) && a.nLeaves == t.nLeaves && Leaves(a) == Leaves(t)[i := x][j := y]
  {
  }

  // ---------------------------------------------------------------------
  // Range query

  /** Node i covers the leaf positions [l, r): its width w = r - l is a power
      of two and (i + 1) * w == n + l, which is the index arithmetic of the
      implicit layout (root: i = 0, w = n; leaf: w = 1, i = n - 1 + l). */
  ghost predicate Span(n: nat, i: nat, l: nat, r: nat) {
    l < r <= n && IsPow2(r - l) && (i + 1) * (r - l) == n + l
  }

  lemma MulMono(a: nat, b: nat, c: nat)
    requires b <= c
    ensures a * b <= a * c
  {
  }

  /** No node index computed by the query leaves the node array. */
  lemma SpanInBounds(n: nat, i: nat, l: nat, r: nat)
    requires Span(n, i, l, r)
    ensures i < 2 * n - 1
    ensures r - l >= 2 ==> i < n - 1
    ensures r - l == 1 ==> i == n - 1 + l
  {
    var w := r - l;
    assert (i + 2) * w <= 2 * n;
    MulMono(i + 2, 1, w);
    if w >= 2 {
      MulMono(i + 2, 2, w);
    }
  }

  /** The two halves of a node of width >= 2 are its two children. */
  lemma SpanChildren(n: nat, i: nat, l: nat, r: nat)
    requires Span(n, i, l, r) && r - l >= 2
    ensures (l + r) / 2 == l + (r - l) / 2
    ensures Span(n, 2 * i + 1, l, (l + r) / 2)
    ensures Span(n, 2 * i + 2, (l + r) / 2, r)
  {
    var w := r - l;
    var h := w / 2;
    assert w == 2 * h;
    assert (2 * i + 2) * h == (i + 1) * w;
    assert (2 * i + 3) * h == (i + 1) * w + h;
  }

  /** Every node holds the fold of the leaves it covers. */
  lemma {:induction false} NodeIsFold<T(!new)>(m: Monoid<T>, t: SegTree<T>, i: nat, l: nat, r: nat)
    requires IsMonoid(m) && Valid(m, t) && Span(t.nLeaves, i, l, r)
    ensures i < |t.nodes| && t.nodes[i] == Fold(m, Leaves(t)[l..r])
    decreases r - l
  {
    var n := t.nLeaves;
    SpanInBounds(n, i, l, r);
    if r - l == 1 {
      assert Leaves(t)[l..r] == [t.nodes[i]];
      FoldSingleton(m, t.nodes[i]);
    } else {
      var mid := (l + r) / 2;
      SpanChildren(n, i, l, r);
      NodeIsFold(m, t, 2 * i + 1, l, mid);
      NodeIsFold(m, t, 2 * i + 2, mid, r);
      assert Leaves(t)[l..r] == Leaves(t)[l..mid] + Leaves(t)[mid..r];
      FoldAppend(m, Leaves(t)[l..mid], Leaves(t)[mid..r]);
    }
  }

  /** The part of [start, end) inside the node range [l, r). */
  function Clip<T>(s: seq<T>, start: nat, end: nat, l: nat, r: nat): seq<T>
    requires r <= |s|
  {
    Slice(s, MaxNat(start, l), MinNat(end, r))
  }

  lemma ClipSplit<T>(s: seq<T>, start: nat, end: nat, l: nat, mid: nat, r: nat)
    requires l <= mid <= r <= |s|
    ensures Clip(s, start, end, l, mid) + Clip(s, start, end, mid, r) == Clip(s, start, end, l, r)
  {
    var lo := MaxNat(start, l);
    var hi := MinNat(end, r);
    if lo < hi {
      if hi <= mid {
        assert Clip(s, start, end, mid, r) == [];
      } else if mid <= lo {
        assert Clip(s, start, end, l, mid) == [];
      } else {
        assert s[lo..hi] == s[lo..mid] + s[mid..hi];
      }
    }
  }

  /** `query_rec`: the three-way split into disjoint, contained and partial
      nodes; the result is the fold of the covered part of [start, end). */
  function QueryRec<T(!new)>(m: Monoid<T>, t: SegTree<T>, start: nat, end: nat, i: nat, l: nat, r: nat): (v: T)
    requires IsMonoid(m) && Valid(m, t) && Span(t.nLeaves, i, l, r)
    ensures v == Fold(m, Clip(Leaves(t), start, end, l, r))
    decreases r - l
  {
    SpanInBounds(t.nLeaves, i, l, r);
    if r <= start || end <= l then
      assert Clip(Leaves(t), start, end, l, r) == [];
      m.mempty
    else if start <= l && r <= end then
      NodeIsFold(m, t, i, l, r);
      t.nodes[i]
    else
      var mid := (l + r) / 2;
      SpanChildren(t.nLeaves, i, l, r);
      var a := QueryRec(m, t, start, end, 2 * i + 1, l, mid);
      var b := QueryRec(m, t, start, end, 2 * i + 2, mid, r);
      FoldClipSplit(m, Leaves(t), start, end, l, mid, r);
      m.mappend(a, b)
  }

  /** The fold of a clipped range is the combination of the folds of its
      two halves. */
  lemma FoldClipSplit<T(!new)>(m: Monoid<T>, s: seq<T>, start: nat, end: nat, l: nat, mid: nat, r: nat)
    requires IsMonoid(m) && l <= mid <= r <= |s|
    ensures m.mappend(Fold(m, Clip(s, start, end, l, mid)), Fold(m, Clip(s, start, end, mid, r)))
         == Fold(m, Clip(s, start, end, l, r))
  {
    ClipSplit(s, start, end, l, mid, r);
    FoldAppend(m, Clip(s, start, end, l, mid), Clip(s, start, end, mid, r));
  }

  /** `query(start, end)`: the left-to-right fold of the leaves at positions
      [start, min(end, nLeaves)); the identity when that range is empty. */
  function Query<T(!new)>(m: Monoid<T>, t: SegTree<T>, start: nat, end: nat): (v: T)
    requires IsMonoid(m) && Valid(m, t)
    ensures v == Fold(m, Slice(Leaves(t), start, MinNat(end, t.nLeaves)))
  {
    assert Span(t.nLeaves, 0, 0, t.nLeaves);
    QueryRec(m, t, start, end, 0, 0, t.nLeaves)
  }

  /** An empty range yields the identity. */
  lemma QueryEmpty<T(!new)>(m: Monoid<T>, t: SegTree<T>, start: nat, end: nat)
    requires IsMonoid(m) && Valid(m, t) && end <= start
    ensures Query(m, t, start, end) == m.mempty
  {
  }

  /** After an update the query sees the new leaf and nothing else changes. */
  lemma QueryAfterUpdate<T(!new)>(m: Monoid<T>, t: SegTree<T>, i: nat, x: T, start: nat, end: nat)
    requires IsMonoid(m) && Valid(m, t) && i < t.nLeaves
    ensures Query(m, Update(m, t, i, x), start, end)
              == Fold(m, Slice(Leaves(t)[i := x], start, MinNat(end, t.nLeaves)))
  {
  }

  // ---------------------------------------------------------------------
  // Construction from a sequence

  /** The loop of `From<Vec<T>>`: update(k, v[k]) for k = from, from+1, ... */
  function UpdateFrom<T>(m: Monoid<T>, t: SegTree<T>, v: seq<T>, from: nat): (r: SegTree<T>)
    requires Shaped(t) && |v| <= t.nLeaves && from <= |v|
    ensures Shaped(r) && r.nLeaves == t.nLeaves
    ensures forall j :: 0 <= j < t.nLeaves ==>
              Leaves(r)[j] == if from <= j < |v| then v[j] else Leaves(t)[j]
    ensures Valid(m, t) ==> Valid(m, r)
    decreases |v| - from
  {
    if from == |v| then t
    else UpdateFrom(m, Update(m, t, from, v[from]), v, from + 1)
  }

  /** The identity-valued leaves after the last element of the vector. */
  function Padding<T>(m: Monoid<T>, k: nat): (s: seq<T>)
    ensures |s| == k && forall j :: 0 <= j < k ==> s[j] == m.mempty
  {
    seq(k, _ => m.mempty)
  }

  /** `From<Vec<T>>::from`: `new(|v|)` followed by `update(k, v[k])` in index
      order. The leaves hold v followed by identity padding. */
  function FromSeq<T(!new)>(m: Monoid<T>, v: seq<T>): (t: SegTree<T>)
    ensures Shaped(t) && t.nLeaves == NextPowerOfTwo(|v|)
    ensures Leaves(t) == v + Padding(m, t.nLeaves - |v|)
    ensures IsMonoid(m) ==> Valid(m, t)
  {
    var t0 := New(m, |v|);
    var t := UpdateFrom(m, t0, v, 0);
    FilledLeaves(m, t0, t, v);
    t
  }

  /** Leaves written from v over identity leaves hold v followed by padding. */
  lemma FilledLeaves<T>(m: Monoid<T>, t0: SegTree<T>, t: SegTree<T>, v: seq<T>)
    requires Shaped(t0) && Shaped(t) && t.nLeaves == t0.nLeaves && |v| <= t.nLeaves
    requires forall j :: 0 <= j < |t0.nodes| ==> t0.nodes[j] == m.mempty
    requires forall j :: 0 <= j < t.nLeaves ==>
               Leaves(t)[j] == if 0 <= j < |v| then v[j] else Leaves(t0)[j]
    ensures Leaves(t) == v + Padding(m, t.nLeaves - |v|)
  {
    forall j | 0 <= j < t.nLeaves
      ensures Leaves(t)[j] == (v + Padding(m, t.nLeaves - |v|))[j]
    {
      if j >= |v| {
        assert Leaves(t0)[j] == t0.nodes[t0.nLeaves - 1 + j];
      }
    }
  }

  /** A tree built from v answers every in-range query with the fold of the
      corresponding slice of v; in particular query(0, |v|) folds all of v. */
  lemma FromSeqQuery<T(!new)>(m: Monoid<T>, v: seq<T>, start: nat, end: nat)
    requires IsMonoid(m) && end <= |v|
    ensures Query(m, FromSeq(m, v), start, end) == Fold(m, Slice(v, start, end))
  {
    var t := FromSeq(m, v);
    var pad := Padding(m, t.nLeaves - |v|);
    assert Leaves(t) == v + pad;
    assert MinNat(end, t.nLeaves) == end;
    SliceOfPrefix(v, pad, start, end);
  }

  lemma SliceOfPrefix<T>(v: seq<T>, pad: seq<T>, start: nat, end: nat)
    requires end <= |v|
    ensures Slice(v + pad, start, end) == Slice(v, start, end)
  {
    if start < end {
      assert (v + pad)[start..end] == v[start..end];
    }
  }

  lemma UpdateConcat<T>(v: seq<T>, pad: seq<T>, i: nat, x: T)
    requires i < |v|
    ensures (v + pad)[i := x] == v[i := x] + pad
  {
  }

  lemma FromSeqUpdateLeaves<T(!new)>(m: Monoid<T>, v: seq<T>, i: nat, x: T)
    requires i < |v|
    ensures i < FromSeq(m, v).nLeaves
    ensures FromSeq(m, v[i := x]).nLeaves == FromSeq(m, v).nLeaves
    ensures Leaves(Update(m, FromSeq(m, v), i, x)) == Leaves(FromSeq(m, v[i := x]))
  {
    var t := FromSeq(m, v);
    var w := v[i := x];
    var t' := FromSeq(m, w);
    assert |w| == |v|;
    assert t'.nLeaves == t.nLeaves;
    var pad := Padding(m, t.nLeaves - |v|);
    assert Leaves(t) == v + pad;
    assert Leaves(t') == w + pad;
    UpdateConcat(v, pad, i, x);
    assert Leaves(Update(m, t, i, x)) == Leaves(t)[i := x];
  }

  /** Updating a tree built from v is the same as building from the updated v. */
  lemma FromSeqUpdate<T(!new)>(m: Monoid<T>, v: seq<T>, i: nat, x: T)
    requires IsMonoid(m) && i < |v|
    ensures i < FromSeq(m, v).nLeaves
    ensures Update(m, FromSeq(m, v), i, x) == FromSeq(m, v[i := x])
  {
    FromSeqUpdateLeaves(m, v, i, x);
    DeterminedByLeaves(m, Update(m, FromSeq(m, v), i, x), FromSeq(m, v[i := x]));
  }

  lemma FromSeqQueryAll<T(!new)>(m: Monoid<T>, v: seq<T>)
    requires IsMonoid(m)
    ensures Query(m, FromSeq(m, v), 0, |v|) == Fold(m, v)
  {
    FromSeqQuery(m, v, 0, |v|);
    assert Slice(v, 0, |v|) == v;
  }
}
