/** Disjoint sets as a parent-pointer forest with path compression. The
    library's `root`, `same` and `unite` take `&mut self`; here each returns
    the updated structure alongside its answer. */
module UnionFind {

  datatype UnionFind = UnionFind(parent: seq<nat>, size: seq<nat>)

  // ---------------------------------------------------------------------
  // The forest invariant.

  /** `rank` strictly decreases along every parent link that is not a
      self-loop, so following parents from any element reaches a root. */
  ghost predicate Ranked(parent: seq<nat>, rank: seq<nat>) {
    && |rank| == |parent|
    && forall x :: 0 <= x < |parent| ==> parent[x] < |parent| && (parent[x] != x ==> rank[parent[x]] < rank[x])
  }

  ghost predicate IsForest(parent: seq<nat>) {
    exists rank :: Ranked(parent, rank)
  }

  ghost predicate Valid(uf: UnionFind) {
    |uf.size| == |uf.parent| && IsForest(uf.parent)
  }

  ghost function SomeRank(parent: seq<nat>): (rank: seq<nat>)
    requires IsForest(parent)
    ensures Ranked(parent, rank)
  {
    var rank :| Ranked(parent, rank); rank
  }

  /** The representative of x: the root reached by following parents. */
  function Root(parent: seq<nat>, x: nat): (r: nat)
    requires IsForest(parent) && x < |parent|
    ensures r < |parent| && parent[r] == r
    decreases SomeRank(parent)[x]
  {
    if parent[x] == x then x else Root(parent, parent[x])
  }

  /** x and y are in the same set. */
  ghost predicate Equiv(parent: seq<nat>, x: nat, y: nat)
    requires IsForest(parent) && x < |parent| && y < |parent|
  {
    Root(parent, x) == Root(parent, y)
  }

  /** Every element keeps its representative. */
  ghost predicate SameRoots(parent: seq<nat>, parent': seq<nat>)
    requires IsForest(parent) && IsForest(parent') && |parent'| == |parent|
  {
    forall z :: 0 <= z < |parent| ==> Root(parent', z) == Root(parent, z)
  }

  /** The root of x is no higher in rank than x, and strictly lower unless x is a root. */
  lemma {:induction false} RootRank(parent: seq<nat>, rank: seq<nat>, x: nat)
    requires Ranked(parent, rank) && x < |parent|
    ensures rank[Root(parent, x)] <= rank[x]
    ensures parent[x] != x ==> rank[Root(parent, x)] < rank[x]
    decreases rank[x]
  {
    if parent[x] != x {
      RootRank(parent, rank, parent[x]);
    }
  }

  // ---------------------------------------------------------------------
  // Construction.

  /** Every element is its own parent; every `size` entry is 0. */
  function New(n: nat): (uf: UnionFind)
    ensures Valid(uf) && |uf.parent| == n
    ensures forall z :: 0 <= z < n ==> Root(uf.parent, z) == z
    ensures forall z :: 0 <= z < n ==> uf.size[z] == 0
  {
    var parent := seq(n, i => i);
    assert Ranked(parent, parent);
    UnionFind(parent, seq(n, _ => 0))
  }

  // ---------------------------------------------------------------------
  // Find with path compression.

  /** A rewrite that points some nodes of r's tree straight at r. Roots are
      never written. */
  ghost predicate CompressedFrom(parent: seq<nat>, parent': seq<nat>, r: nat)
    requires IsForest(parent)
  {
    && |parent'| == |parent|
    && forall y :: 0 <= y < |parent| ==>
         parent'[y] == parent[y] || (parent[y] != y && parent'[y] == r && Root(parent, y) == r)
  }

  /** y is reached from x by following zero or more parent links. */
  ghost predicate OnPath(parent: seq<nat>, x: nat, y: nat)
    requires IsForest(parent) && x < |parent|
    decreases SomeRank(parent)[x]
  {
    y == x || (parent[x] != x && OnPath(parent, parent[x], y))
  }

  /** Every node on the path from x has the root of x. */
  lemma {:induction false} OnPathRoot(parent: seq<nat>, x: nat, y: nat)
    requires IsForest(parent) && x < |parent| && OnPath(parent, x, y)
    ensures y < |parent| && Root(parent, y) == Root(parent, x)
    decreases SomeRank(parent)[x]
  {
    if y != x {
      OnPathRoot(parent, parent[x], y);
    }
  }

  /** What one call of `root(x)` leaves behind: every node on the path from
      x, its root included, points at r, and no other parent changes. */
  ghost predicate PathCompressed(parent: seq<nat>, parent': seq<nat>, x: nat, r: nat)
    requires IsForest(parent) && x < |parent|
  {
    && |parent'| == |parent|
    && forall y :: 0 <= y < |parent| ==> parent'[y] == if OnPath(parent, x, y) then r else parent[y]
  }

  /** Compressing the path from x is one of the rewrites `CompressedFrom` allows. */
  lemma PathCompressedIsCompression(parent: seq<nat>, parent': seq<nat>, x: nat)
    requires IsForest(parent) && x < |parent| && PathCompressed(parent, parent', x, Root(parent, x))
    ensures CompressedFrom(parent, parent', Root(parent, x))
  {
    forall y | 0 <= y < |parent| && OnPath(parent, x, y)
      ensures parent[y] == y ==> y == Root(parent, x)
      ensures Root(parent, y) == Root(parent, x)
    {
      OnPathRoot(parent, x, y);
    }
  }

  /** Compression keeps every rank witness and every representative. */
  lemma CompressionKeepsRoots(parent: seq<nat>, parent': seq<nat>, r: nat)
    requires IsForest(parent) && CompressedFrom(parent, parent', r)
    ensures forall rank :: Ranked(parent, rank) ==> Ranked(parent', rank)
    ensures IsForest(parent') && SameRoots(parent, parent')
  {
    forall rank | Ranked(parent, rank)
      ensures Ranked(parent', rank)
    {
      forall y | 0 <= y < |parent| && parent'[y] != parent[y]
        ensures rank[parent'[y]] < rank[y]
      {
        RootRank(parent, rank, y);
      }
    }
    var rank := SomeRank(parent);
    assert Ranked(parent', rank);
    forall z | 0 <= z < |parent|
      ensures Root(parent', z) == Root(parent, z)
    {
      CompressedRoot(parent, parent', r, rank, z);
    }
  }

  lemma {:induction false} CompressedRoot(parent: seq<nat>, parent': seq<nat>, r: nat, rank: seq<nat>, z: nat)
    requires IsForest(parent) && CompressedFrom(parent, parent', r)
    requires Ranked(parent, rank) && Ranked(parent', rank) && z < |parent|
    ensures Root(parent', z) == Root(parent, z)
    decreases rank[z]
  {
    if parent'[z] == parent[z] {
      if parent[z] != z {
        CompressedRoot(parent, parent', r, rank, parent[z]);
      }
    } else {
      var root := Root(parent, z);
      assert parent'[root] == root;
    }
  }

  /** `root(x)`: the representative of x, with every parent on the path
      from x redirected to it. */
  function Find(parent: seq<nat>, x: nat): (res: (seq<nat>, nat))
    requires IsForest(parent) && x < |parent|
    ensures res.1 == Root(parent, x)
    ensures PathCompressed(parent, res.0, x, res.1)
    ensures IsForest(res.0) && SameRoots(parent, res.0)
    decreases SomeRank(parent)[x]
  {
    if parent[x] == x then
      CompressionKeepsRoots(parent, parent, x);
      (parent, x)
    else
      var (p', r) := Find(parent, parent[x]);
      var p'' := p'[x := r];
      assert PathCompressed(parent, p'', x, r);
      PathCompressedIsCompression(parent, p'', x);
      CompressionKeepsRoots(parent, p'', r);
      (p'', r)
  }

  /** `same(x, y)`: whether x and y have the same representative. */
  function Same(uf: UnionFind, x: nat, y: nat): (res: (UnionFind, bool))
    requires Valid(uf) && x < |uf.parent| && y < |uf.parent|
    ensures Valid(res.0) && res.0.size == uf.size && |res.0.parent| == |uf.parent|
    ensures SameRoots(uf.parent, res.0.parent)
    ensures res.1 <==> Equiv(uf.parent, x, y)
  {
    var (p1, rx) := Find(uf.parent, x);
    var (p2, ry) := Find(p1, y);
    (UnionFind(p2, uf.size), rx == ry)
  }

  // ---------------------------------------------------------------------
  // Union.

  /** Linking root `b` under root `a` keeps a forest and sends every member
      of b's set to a. */
  lemma LinkRoots(parent: seq<nat>, a: nat, b: nat)
    requires IsForest(parent) && a < |parent| && b < |parent| && a != b
    requires parent[a] == a && parent[b] == b
    ensures IsForest(parent[b := a])
    ensures forall z :: 0 <= z < |parent| ==>
      Root(parent[b := a], z) == if Root(parent, z) == b then a else Root(parent, z)
  {
    var p' := parent[b := a];
    var rank := SomeRank(parent);
    var shift := rank[a] + 1;
    var rank' := seq(|parent|, z requires 0 <= z < |parent| =>
      if Root(parent, z) == b then rank[z] + shift else rank[z]);
    forall z | 0 <= z < |parent| && p'[z] != z
      ensures rank'[p'[z]] < rank'[z]
    {
      if z != b {
        assert Root(parent, parent[z]) == Root(parent, z);
      }
    }
    assert Ranked(p', rank');
    forall z | 0 <= z < |parent|
      ensures Root(p', z) == if Root(parent, z) == b then a else Root(parent, z)
    {
      LinkedRoot(parent, a, b, rank, rank', z);
    }
  }

  lemma {:induction false} LinkedRoot(parent: seq<nat>, a: nat, b: nat, rank: seq<nat>, rank': seq<nat>, z: nat)
    requires IsForest(parent) && a < |parent| && b < |parent| && a != b
    requires parent[a] == a && parent[b] == b
    requires Ranked(parent, rank) && Ranked(parent[b := a], rank') && z < |parent|
    ensures IsForest(parent[b := a])
    ensures Root(parent[b := a], z) == if Root(parent, z) == b then a else Root(parent, z)
    decreases rank[z]
  {
    var p' := parent[b := a];
    if z == b {
      assert Root(p', z) == Root(p', a);
    } else if parent[z] != z {
      LinkedRoot(parent, a, b, rank, rank', parent[z]);
    }
  }

  /** The partition after merging the classes of x and y. */
  ghost predicate Merged(parent: seq<nat>, parent': seq<nat>, x: nat, y: nat)
    requires IsForest(parent) && IsForest(parent') && |parent'| == |parent|
    requires x < |parent| && y < |parent|
  {
    forall a, c :: 0 <= a < |parent| && 0 <= c < |parent| ==>
      (Equiv(parent', a, c) <==>
         || Equiv(parent, a, c)
         || (Equiv(parent, a, x) && Equiv(parent, c, y))
         || (Equiv(parent, a, y) && Equiv(parent, c, x)))
  }

  /** `unite(x, y)`: false and no change to the partition when x and y are
      already together; otherwise the root with the smaller `size` entry is
      linked under the other (y's root on a tie), its `size` entry added to
      the other's, and the two classes merged. */
  function Unite(uf: UnionFind, x: nat, y: nat): (res: (UnionFind, bool))
    requires Valid(uf) && x < |uf.parent| && y < |uf.parent|
    ensures Valid(res.0) && |res.0.parent| == |uf.parent|
    ensures res.1 <==> !Equiv(uf.parent, x, y)
    ensures !res.1 ==> SameRoots(uf.parent, res.0.parent) && res.0.size == uf.size
    ensures Merged(uf.parent, res.0.parent, x, y)
    ensures var rx, ry := Root(uf.parent, x), Root(uf.parent, y);
      res.1 ==>
        if uf.size[rx] < uf.size[ry]
        then res.0.parent[rx] == ry && res.0.size == uf.size[ry := uf.size[ry] + uf.size[rx]]
        else res.0.parent[ry] == rx && res.0.size == uf.size[rx := uf.size[rx] + uf.size[ry]]
    ensures (forall z :: 0 <= z < |uf.size| ==> uf.size[z] == 0) ==> res.0.size == uf.size
  {
    var (p1, xr) := Find(uf.parent, x);
    var (p2, yr) := Find(p1, y);
    assert xr == Root(uf.parent, x) && yr == Root(uf.parent, y);
    if xr == yr then
      (UnionFind(p2, uf.size), false)
    else if uf.size[xr] < uf.size[yr] then
      (Link(uf, p2, x, y, yr, xr), true)
    else
      (Link(uf, p2, x, y, xr, yr), true)
  }

  /** The linking step of `unite`: root b goes under root a, whose entry
      takes b's. */
  function Link(uf: UnionFind, p2: seq<nat>, x: nat, y: nat, a: nat, b: nat): (res: UnionFind)
    requires Valid(uf) && IsForest(p2) && |p2| == |uf.parent| && SameRoots(uf.parent, p2)
    requires x < |uf.parent| && y < |uf.parent| && a != b
    requires (a == Root(uf.parent, x) && b == Root(uf.parent, y)) || (a == Root(uf.parent, y) && b == Root(uf.parent, x))
    ensures Valid(res) && |res.parent| == |uf.parent|
    ensures res.parent == p2[b := a] && res.size == uf.size[a := uf.size[a] + uf.size[b]]
    ensures Merged(uf.parent, res.parent, x, y)
    ensures (forall z :: 0 <= z < |uf.size| ==> uf.size[z] == 0) ==> res.size == uf.size
  {
    assert Root(p2, x) == Root(uf.parent, x) && Root(p2, y) == Root(uf.parent, y);
    LinkRoots(p2, a, b);
    var p3 := p2[b := a];
    assert Merged(uf.parent, p3, x, y) by {
      MergeByLink(uf.parent, p2, p3, x, y, a, b);
    }
    ZerosStay(uf.size, a, b);
    UnionFind(p3, uf.size[a := uf.size[a] + uf.size[b]])
  }

  /** Adding two zero entries leaves all-zero sizes as they are. */
  lemma ZerosStay(size: seq<nat>, a: nat, b: nat)
    requires a < |size| && b < |size|
    ensures (forall z :: 0 <= z < |size| ==> size[z] == 0) ==> size[a := size[a] + size[b]] == size
  {
    if forall z :: 0 <= z < |size| ==> size[z] == 0 {
      assert size[a] + size[b] == size[a];
    }
  }

  lemma MergeByLink(parent: seq<nat>, p2: seq<nat>, p3: seq<nat>, x: nat, y: nat, a: nat, b: nat)
    requires IsForest(parent) && IsForest(p2) && IsForest(p3)
    requires |p2| == |parent| && |p3| == |parent| && x < |parent| && y < |parent|
    requires SameRoots(parent, p2)
    requires (a == Root(parent, x) && b == Root(parent, y)) || (a == Root(parent, y) && b == Root(parent, x))
    requires a != b
    requires forall z :: 0 <= z < |parent| ==> Root(p3, z) == if Root(p2, z) == b then a else Root(p2, z)
    ensures Merged(parent, p3, x, y)
  {
  }

  // ---------------------------------------------------------------------
  // Set sizes. `new` starts every entry at 0 and `unite` only adds entries
  // together, so the entries never leave 0 and `size(x)` never reports the
  // number of elements in x's set. The definitions below are the structure
  // as evidently intended: entries start at 1 and the entry of a root counts
  // its set.

  /** The elements whose representative is r. */
  ghost function Members(parent: seq<nat>, r: nat): set<nat>
    requires IsForest(parent)
  {
    set z | 0 <= z < |parent| && Root(parent, z) == r
  }

  /** The `size` entry of every root is the number of elements in its set. */
  ghost predicate Counts(parent: seq<nat>, size: seq<nat>)
    requires IsForest(parent) && |size| == |parent|
  {
    forall r :: 0 <= r < |parent| && parent[r] == r ==> size[r] == |Members(parent, r)|
  }

  ghost predicate SizesCount(uf: UnionFind)
    requires Valid(uf)
  {
    Counts(uf.parent, uf.size)
  }

  /** The roots are exactly the elements that are their own representative. */
  lemma RootIsFixpoint(parent: seq<nat>, r: nat)
    requires IsForest(parent) && r < |parent|
    ensures parent[r] == r <==> Root(parent, r) == r
  {
    RootRank(parent, SomeRank(parent), r);
  }

  /** `new` with every `size` entry 1. */
  function NewCounted(n: nat): (uf: UnionFind)
    ensures Valid(uf) && |uf.parent| == n && SizesCount(uf)
    ensures forall z :: 0 <= z < n ==> Root(uf.parent, z) == z
  {
    var parent := seq(n, i => i);
    assert Ranked(parent, parent);
    var uf := UnionFind(parent, seq(n, _ => 1));
    forall r | 0 <= r < n
      ensures Members(parent, r) == {r}
    {
    }
    uf
  }

  /** `size(x)` as evidently intended: the entry of x's root. */
  function SetSize(uf: UnionFind, x: nat): (s: nat)
    requires Valid(uf) && SizesCount(uf) && x < |uf.parent|
    ensures s == |Members(uf.parent, Root(uf.parent, x))|
  {
    uf.size[Root(uf.parent, x)]
  }

  /** Counting sizes survive any change that keeps every representative. */
  lemma SameRootsKeepCounts(parent: seq<nat>, parent': seq<nat>, size: seq<nat>)
    requires IsForest(parent) && IsForest(parent') && |parent'| == |parent| == |size|
    requires SameRoots(parent, parent') && Counts(parent, size)
    ensures Counts(parent', size)
  {
    forall r | 0 <= r < |parent| && parent'[r] == r
      ensures size[r] == |Members(parent', r)|
    {
      assert Members(parent', r) == Members(parent, r);
      RootIsFixpoint(parent', r);
      RootIsFixpoint(parent, r);
    }
  }

  /** Linking root b under root a: a's entry absorbs b's, and the two sets
      are disjoint. */
  lemma LinkKeepsCounts(parent: seq<nat>, parent': seq<nat>, size: seq<nat>, a: nat, b: nat)
    requires IsForest(parent) && IsForest(parent') && |parent'| == |parent| == |size|
    requires a < |parent| && b < |parent| && a != b && parent[a] == a && parent[b] == b
    requires parent' == parent[b := a]
    requires forall z :: 0 <= z < |parent| ==>
      Root(parent', z) == if Root(parent, z) == b then a else Root(parent, z)
    requires Counts(parent, size)
    ensures Counts(parent', size[a := size[a] + size[b]])
  {
    var size' := size[a := size[a] + size[b]];
    forall r | 0 <= r < |parent| && parent'[r] == r
      ensures size'[r] == |Members(parent', r)|
    {
      if r == a {
        MembersOfLinked(parent, parent', a, b);
      } else {
        assert Members(parent', r) == Members(parent, r);
      }
    }
  }

  /** After linking root b under root a, a's set is the disjoint union of
      the two old sets. */
  lemma MembersOfLinked(parent: seq<nat>, parent': seq<nat>, a: nat, b: nat)
    requires IsForest(parent) && IsForest(parent') && |parent'| == |parent|
    requires a < |parent| && b < |parent| && a != b
    requires forall z :: 0 <= z < |parent| ==>
      Root(parent', z) == if Root(parent, z) == b then a else Root(parent, z)
    ensures |Members(parent', a)| == |Members(parent, a)| + |Members(parent, b)|
  {
    assert Members(parent', a) == Members(parent, a) + Members(parent, b);
    assert Members(parent, a) * Members(parent, b) == {};
  }

  /** Sizes that count their sets keep counting through `same`. */
  lemma SameKeepsCount(uf: UnionFind, x: nat, y: nat)
    requires Valid(uf) && SizesCount(uf) && x < |uf.parent| && y < |uf.parent|
    ensures SizesCount(Same(uf, x, y).0)
  {
    SameRootsKeepCounts(uf.parent, Same(uf, x, y).0.parent, uf.size);
  }

  /** Sizes that count their sets keep counting through `unite`. */
  lemma UniteKeepsCount(uf: UnionFind, x: nat, y: nat)
    requires Valid(uf) && SizesCount(uf) && x < |uf.parent| && y < |uf.parent|
    ensures SizesCount(Unite(uf, x, y).0)
  {
    var uf' := Unite(uf, x, y).0;
    var (p1, xr) := Find(uf.parent, x);
    var (p2, yr) := Find(p1, y);
    SameRootsKeepCounts(uf.parent, p2, uf.size);
    if xr != yr {
      var (a, b) := if uf.size[xr] < uf.size[yr] then (yr, xr) else (xr, yr);
      LinkRoots(p2, a, b);
      LinkKeepsCounts(p2, p2[b := a], uf.size, a, b);
    }
  }

  /** As written, a two-element set reports size 0. */
  lemma SizeIsNotCardinality()
    ensures var uf := Unite(New(5), 1, 2).0;
      Size(uf, 1) == 0 && |Members(uf.parent, Root(uf.parent, 1))| == 2
  {
    var uf0 := New(5);
    var uf := Unite(uf0, 1, 2).0;
    assert Members(uf.parent, Root(uf.parent, 1)) == {1, 2} by {
      forall z | 0 <= z < 5
        ensures Root(uf.parent, z) == Root(uf.parent, 1) <==> z in {1, 2}
      {
        assert Equiv(uf.parent, z, 1) <==> z == 1 || z == 2 by {
          assert Merged(uf0.parent, uf.parent, 1, 2);
        }
      }
    }
  }

  /** As intended, the same set reports size 2. */
  lemma SetSizeCounts()
    ensures var uf := Unite(NewCounted(5), 1, 2).0;
      Valid(uf) && SizesCount(uf) && SetSize(uf, 1) == 2
  {
    var uf0 := NewCounted(5);
    UniteKeepsCount(uf0, 1, 2);
    var uf := Unite(uf0, 1, 2).0;
    assert Members(uf.parent, Root(uf.parent, 1)) == {1, 2} by {
      forall z | 0 <= z < 5
        ensures Root(uf.parent, z) == Root(uf.parent, 1) <==> z in {1, 2}
      {
        assert Equiv(uf.parent, z, 1) <==> z == 1 || z == 2 by {
          assert Merged(uf0.parent, uf.parent, 1, 2);
        }
      }
    }
  }

  /** Even with counting sizes, `size(x)` reads x's own entry: after 2 goes
      under 1, `size(2)` still reports 1 for the set {1, 2}. */
  lemma SizeOfNonRootIsStale()
    ensures var uf := Unite(NewCounted(5), 1, 2).0;
      Valid(uf) && SizesCount(uf) && uf.parent[2] == 1 && Size(uf, 2) == 1 && SetSize(uf, 2) == 2
  {
    var uf0 := NewCounted(5);
    UniteKeepsCount(uf0, 1, 2);
    var uf := Unite(uf0, 1, 2).0;
    assert Members(uf.parent, Root(uf.parent, 2)) == {1, 2} by {
      forall z | 0 <= z < 5
        ensures Root(uf.parent, z) == Root(uf.parent, 2) <==> z in {1, 2}
      {
        assert Equiv(uf.parent, z, 2) <==> z == 1 || z == 2 by {
          assert Merged(uf0.parent, uf.parent, 1, 2);
        }
      }
    }
  }

  // ---------------------------------------------------------------------
  // Partitions by class tag.

  /** Two elements are together exactly when their tags agree. */
  ghost predicate PartitionIs(parent: seq<nat>, tag: seq<nat>)
    requires IsForest(parent)
  {
    && |tag| == |parent|
    && forall a, c :: 0 <= a < |parent| && 0 <= c < |parent| ==>
         (Equiv(parent, a, c) <==> tag[a] == tag[c])
  }

  /** Every element labelled `from` relabelled `to`. */
  function Relabel(tag: seq<nat>, from: nat, to: nat): (tag': seq<nat>)
    ensures |tag'| == |tag|
    ensures forall i :: 0 <= i < |tag| && tag[i] != from ==> tag'[i] == tag[i]
    ensures forall i :: 0 <= i < |tag| && tag[i] == from ==> tag'[i] == to
  {
    seq(|tag|, i requires 0 <= i < |tag| => if tag[i] == from then to else tag[i])
  }

  /** A partition that keeps every representative keeps its labelling. */
  lemma SameRootsKeepPartition(parent: seq<nat>, parent': seq<nat>, tag: seq<nat>)
    requires IsForest(parent) && IsForest(parent') && |parent'| == |parent|
    requires SameRoots(parent, parent') && PartitionIs(parent, tag)
    ensures PartitionIs(parent', tag)
  {
  }

  /** Merging the classes of x and y relabels y's class with x's tag. */
  lemma MergedRelabels(parent: seq<nat>, parent': seq<nat>, x: nat, y: nat, tag: seq<nat>)
    requires IsForest(parent) && IsForest(parent') && |parent'| == |parent|
    requires x < |parent| && y < |parent|
    requires Merged(parent, parent', x, y) && PartitionIs(parent, tag)
    ensures PartitionIs(parent', Relabel(tag, tag[y], tag[x]))
  {
  }

  /** `size(x)`: the `size` entry of x. */
  function Size(uf: UnionFind, x: nat): nat
    requires x < |uf.size|
  {
    uf.size[x]
  }
}

/** The library's own union-find test, each `same` applied to the structure
    the previous call left behind. */
module UnionFindExamples {
  import opened UnionFind

  /** A run of `same` calls: each answer is whether the pair shares a tag. */
  method SameAll(uf: UnionFind, tag: seq<nat>, pairs: seq<(nat, nat)>) returns (uf': UnionFind, answers: seq<bool>)
    requires Valid(uf) && PartitionIs(uf.parent, tag)
    requires forall j :: 0 <= j < |pairs| ==> pairs[j].0 < |uf.parent| && pairs[j].1 < |uf.parent|
    ensures Valid(uf') && |uf'.parent| == |uf.parent| && PartitionIs(uf'.parent, tag)
    ensures |answers| == |pairs|
    ensures forall j :: 0 <= j < |pairs| ==> (answers[j] <==> tag[pairs[j].0] == tag[pairs[j].1])
  {
    uf', answers := uf, [];
    for k := 0 to |pairs|
      invariant Valid(uf') && |uf'.parent| == |uf.parent| && PartitionIs(uf'.parent, tag)
      invariant |answers| == k
      invariant forall j :: 0 <= j < k ==> (answers[j] <==> tag[pairs[j].0] == tag[pairs[j].1])
    {
      var s := Same(uf', pairs[k].0, pairs[k].1);
      SameRootsKeepPartition(uf'.parent, s.0.parent, tag);
      uf', answers := s.0, answers + [s.1];
    }
  }

  /** `unite` on a tagged partition: y's class takes x's tag. */
  method UniteTagged(uf: UnionFind, tag: seq<nat>, x: nat, y: nat) returns (uf': UnionFind, tag': seq<nat>)
    requires Valid(uf) && PartitionIs(uf.parent, tag) && x < |uf.parent| && y < |uf.parent|
    ensures Valid(uf') && |uf'.parent| == |uf.parent|
    ensures tag' == Relabel(tag, tag[y], tag[x]) && PartitionIs(uf'.parent, tag')
  {
    var r := Unite(uf, x, y);
    MergedRelabels(uf.parent, r.0.parent, x, y, tag);
    uf', tag' := r.0, Relabel(tag, tag[y], tag[x]);
  }

  /** The first two unions of the library's test: {1, 2, 3} becomes one set. */
  method UniteFirstTwo() returns (uf: UnionFind, tag: seq<nat>)
    ensures Valid(uf) && |uf.parent| == 5
    ensures tag == [0, 3, 3, 3, 4] && PartitionIs(uf.parent, tag)
  {
    uf := New(5);
    tag := [0, 1, 2, 3, 4];
    assert PartitionIs(uf.parent, tag);
    uf, tag := UniteTagged(uf, tag, 1, 2);
    assert tag == [0, 1, 1, 3, 4];
    uf, tag := UniteTagged(uf, tag, 3, 2);
    assert tag == [0, 3, 3, 3, 4];
  }

  /** `root(3)` on the chain 3 -> 2 -> 1 -> 0 points all of it at 0 and
      leaves 4, a child of 1 off that path, where it was. */
  lemma FindCompressesOnlyPath()
    ensures IsForest([0, 0, 1, 2, 1])
    ensures Find([0, 0, 1, 2, 1], 3) == ([0, 0, 0, 0, 1], 0)
  {
    var parent: seq<nat> := [0, 0, 1, 2, 1];
    assert Ranked(parent, [0, 1, 2, 3, 2]);
    assert !OnPath(parent, 0, 4) && !OnPath(parent, 1, 4) && !OnPath(parent, 2, 4) && !OnPath(parent, 3, 4);
    assert OnPath(parent, 3, 2) && OnPath(parent, 3, 1) && OnPath(parent, 3, 0);
    assert Find(parent, 3).0 == [0, 0, 0, 0, 1];
  }

  method UniteThenQuery() returns (before: seq<bool>, after: seq<bool>)
    ensures before == [true, true, true, true, false, false]
    ensures after == [true, true, true, false, false]
  {
    var uf, tag := UniteFirstTwo();
    uf, before := SameAll(uf, tag, [(0, 0), (1, 2), (1, 3), (2, 3), (0, 1), (0, 4)]);
    uf, tag := UniteTagged(uf, tag, 2, 4);
    assert tag == [0, 3, 3, 3, 3];
    uf, after := SameAll(uf, tag, [(1, 4), (2, 4), (3, 4), (0, 1), (0, 4)]);
  }
}
