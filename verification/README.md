# comp_prog_lib_rs core, modelled in Dafny

This project models the core of `comp_prog_lib_rs`, a Rust library of
competitive-programming building blocks. It covers these components:

- **Monoids** (`monoid.dfy`). The `Monoid` trait has `mempty` and
  `mappend`. Its two instances are `Max` and `Min` over a bounded total
  order. The model states them generically over an ordering and instantiates
  them with `i64` and `u64`.
- **Segment tree** (`segment_tree.dfy`, `segment_tree_examples.dfy`). The
  tree is a flat array of `2 * n_leaves - 1` nodes, and `n_leaves` is the
  next power of two. It has these operations:
  - `new`
  - `update`, a leaf write followed by recomputing the ancestors bottom-up
  - `query` / `query_rec` over the half-open range `[start, end)`
  - the `From<Vec>` constructor

  The central property is that a query returns the monoid fold of the
  queried slice. For `Max` and `Min` that fold is the maximum or the
  minimum, as the library's property tests check.
- **ModInt** (`modint.dfy`). These are residues modulo `1_000_000_007` on a
  signed 64-bit `isize`:
  - the normalising `new`
  - `+`, `-`, `*` and `/`, plus their assigning forms
  - square-and-multiply `pow`
  - the Fermat inverse `inv`
  - equality and ordering
- **Combination** (`combination.dfy`). Tables of factorials, modular
  inverses (by the recurrence `inv[i] = MOD - inv[MOD % i] * (MOD / i)`) and
  inverse factorials. `combination` and `permutation` are read off these
  tables.
- **factorize** (`factorize.dfy`). Trial division, which returns a map
  from each prime factor to its exponent.
- **UnionFind** (`unionfind.dfy`). A parent array with path compression in
  `root`, plus `same`, `unite` and `size`.
- **Dijkstra** (`dijkstra.dfy`). An adjacency list, a distance array that
  starts at `usize::MAX`, and `solve`. `solve` uses a min-heap of
  `(cost, node)` pairs and skips stale entries.
- **adjacent4** (`grid.dfy`). The in-grid four-neighbours of a cell, in
  the order down, right, up, left.

`number_theory.dfy` holds the integer facts that the arithmetic components
share: primality, powers and factorials.

Some modelling conventions apply throughout:
- A `&mut self` method becomes a function or method that returns the new
  state. Where a `&mut` method also returns a value, the model returns a
  pair.
- A Rust panic becomes a precondition. This covers an index out of
  range, an empty grid, `Combination::new(0)`, and an arithmetic overflow
  of `isize` in `ModInt`.
- Rust's truncating `%` on signed integers is modelled explicitly
  (`ModInts.Rem`), because Dafny's `%` is Euclidean.

## Model

| member | source | states |
|---|---|---|
| Monoids.FoldAppend | src/math/monoid.rs:1-4 | for any lawful monoid, folding a concatenation is `mappend` of the two folds, so a fold can be split at any point |
| Monoids.FoldSingleton | src/math/monoid.rs:1-4 | folding one element gives that element back (`mempty` is a unit) |
| Monoids.MaxIsMonoid | src/math/monoid.rs:7-22 | `Max` with the least value of the order as `mempty` is associative and has `mempty` as a two-sided unit |
| Monoids.MinIsMonoid | src/math/monoid.rs:25-40 | `Min` with the greatest value of the order as `mempty` is associative and has `mempty` as a two-sided unit |
| Monoids.MaxIsLeastUpperBound | src/math/monoid.rs:19-21 | `mappend` of `Max` is at least both arguments and is one of them, so it is their maximum |
| Monoids.MinIsGreatestLowerBound | src/math/monoid.rs:37-39 | `mappend` of `Min` is at most both arguments and is one of them, so it is their minimum |
| Monoids.FoldMaxIsGreatest | src/math/monoid.rs:7-22 | the `Max` fold of a non-empty sequence is an element of it and dominates every element; the fold of the empty sequence is `min_value` |
| Monoids.FoldMinIsLeast | src/math/monoid.rs:25-40 | the `Min` fold of a non-empty sequence is an element of it and is below every element; the fold of the empty sequence is `max_value` |
| Monoids.BoundedInstancesAreMonoids | src/math/monoid.rs:7-40 | `Max`/`Min` over `i64` and `u64`, with `MIN`/`MAX` as `mempty`, are lawful monoids |
| SegmentTree.NextPowerOfTwo | src/data_structure/segment_tree.rs:16 | `next_power_of_two` gives the least power of two that is at least n: a power of two, at least n, and its half is below n unless it is 1 |
| SegmentTree.New | src/data_structure/segment_tree.rs:15-19 | `new(n)` has a power-of-two leaf count of at least n and less than 2n (or 1), holds `mempty` in every node, and satisfies the parent-is-`mappend`-of-children invariant |
| SegmentTree.Update | src/data_structure/segment_tree.rs:21-30 | `update(i, x)` changes leaf i to x and no other leaf, changes no node except that leaf and its ancestors, and restores the parent invariant |
| SegmentTree.PropagateLeaves | src/data_structure/segment_tree.rs:24-29 | the walk towards the root in `update` never rewrites a leaf |
| SegmentTree.PropagateFrame | src/data_structure/segment_tree.rs:24-29 | the walk rewrites only proper ancestors of the written node; every other node keeps its value |
| SegmentTree.RecombineParent | src/data_structure/segment_tree.rs:25-28 | recombining the parent of node k from its two children leaves only the ancestors of the parent possibly broken |
| SegmentTree.PropagateRestores | src/data_structure/segment_tree.rs:24-29 | when only the ancestors of the written node break the parent invariant, the walk to the root repairs all of them |
| SegmentTree.WriteLeaves | src/data_structure/segment_tree.rs:22-29 | writing leaf i and walking to the root leaves the leaf sequence equal to the old one with position i replaced by x |
| SegmentTree.WriteKeepsValid | src/data_structure/segment_tree.rs:22-29 | writing a leaf of a valid tree and walking to the root gives a valid tree |
| SegmentTree.WriteFrame | src/data_structure/segment_tree.rs:22-29 | writing a leaf and walking to the root changes no node other than the leaf and its ancestors |
| SegmentTree.UpdateIdempotent | src/data_structure/segment_tree.rs:21-30 | writing the same value to the same leaf twice is the same as writing it once |
| SegmentTree.UpdatesCommute | src/data_structure/segment_tree.rs:21-30 | updates to different leaves commute |
| SegmentTree.DeterminedByLeaves | src/data_structure/segment_tree.rs:3-9 | two valid trees with the same leaf count and the same leaves are the same tree |
| SegmentTree.SpanInBounds | src/data_structure/segment_tree.rs:36-47 | a node index reached by the recursion with range `[left, right)` stays in the node array; a range of width 1 is exactly leaf `n_leaves - 1 + left` |
| SegmentTree.NodeIsFold | src/data_structure/segment_tree.rs:36-47 | in a valid tree, the node covering `[left, right)` holds the fold of those leaves |
| SegmentTree.QueryRec | src/data_structure/segment_tree.rs:36-47 | `query_rec` returns the fold of the leaves in both `[left, right)` and `[start, end)` (`mempty` when they are disjoint) |
| SegmentTree.Query | src/data_structure/segment_tree.rs:32-34 | `query(start, end)` returns the fold of the leaves in `[start, min(end, n_leaves))` |
| SegmentTree.QueryEmpty | src/data_structure/segment_tree.rs:37-38 | an empty or out-of-range query returns `mempty` |
| SegmentTree.QueryAfterUpdate | src/data_structure/segment_tree.rs:21-34 | after `update(i, x)`, a query returns the fold of the old leaves with position i replaced by x |
| SegmentTree.UpdateFrom | src/data_structure/segment_tree.rs:70-72 | writing the elements of v from position k on sets those leaves to v, leaves the others unchanged, and keeps the tree valid |
| SegmentTree.FromSeq | src/data_structure/segment_tree.rs:67-74 | `From<Vec>` builds a valid tree of `next_power_of_two(len)` leaves: the vector followed by `mempty` padding |
| SegmentTree.FromSeqQuery | src/data_structure/segment_tree.rs:67-74 | querying a tree built from v over `[start, end)` returns the fold of `v[start..min(end, len)]` |
| SegmentTree.FromSeqUpdate | src/data_structure/segment_tree.rs:21-30 | updating a tree built from v at an index of v gives the tree built from the updated vector |
| SegmentTree.FromSeqQueryAll | src/data_structure/segment_tree.rs:32-34 | querying the whole of v returns the fold of v |
| SegmentTreeExamples.MaxOfSlice | src/data_structure/segment_tree.rs:87 | the `Max` fold of a slice is what `(i..j).map(..).max().unwrap_or(MIN)` computes: the slice's maximum, or `MIN` when the slice is empty |
| SegmentTreeExamples.MinOfSlice | src/data_structure/segment_tree.rs:113 | the `Min` fold of a slice is the slice's minimum, or `MAX` when the slice is empty |
| SegmentTreeExamples.MaxTreeQuery | src/data_structure/segment_tree.rs:81-105 | a `Max` tree built from v answers `query(i, j)` with the maximum of `v[i..j]`, or `min_value` for an empty range |
| SegmentTreeExamples.MinTreeQuery | src/data_structure/segment_tree.rs:107-131 | a `Min` tree built from v answers `query(i, j)` with the minimum of `v[i..j]`, or `max_value` for an empty range |
| SegmentTreeExamples.MaxQueryIs | src/data_structure/segment_tree.rs:81-105 | a `Max` query equals any element of the range that dominates the range |
| SegmentTreeExamples.MinQueryIs | src/data_structure/segment_tree.rs:107-131 | a `Min` query equals any element of the range that is below the range |
| SegmentTreeExamples.MaxQueryAfterUpdateIs | src/data_structure/segment_tree.rs:21-34 | after an update, a `Max` query equals any dominating element of the updated range |
| SegmentTreeExamples.MinQueryAfterUpdateIs | src/data_structure/segment_tree.rs:21-34 | after an update, a `Min` query equals any least element of the updated range |
| SegmentTreeExamples.MaxI64QueryIs | src/data_structure/segment_tree.rs:81-92 | the `Max<i64>` instance of `MaxQueryIs` |
| SegmentTreeExamples.MinU64QueryIs | src/data_structure/segment_tree.rs:120-131 | the `Min<u64>` instance of `MinQueryIs` |
| SegmentTreeExamples.MaxI64UpdateQueryIs | src/data_structure/segment_tree.rs:81-92 | the `Max<i64>` instance of `MaxQueryAfterUpdateIs` |
| SegmentTreeExamples.MinU64UpdateQueryIs | src/data_structure/segment_tree.rs:120-131 | the `Min<u64>` instance of `MinQueryAfterUpdateIs` |
| SegmentTreeExamples.MaxI64ScenarioAll | src/data_structure/segment_tree.rs:81-92 | a concrete `Max<i64>` tree: the whole-range query gives the maximum |
| SegmentTreeExamples.MaxI64ScenarioPart | src/data_structure/segment_tree.rs:81-92 | a concrete `Max<i64>` tree: a sub-range query gives that range's maximum |
| SegmentTreeExamples.MaxI64ScenarioEmpty | src/data_structure/segment_tree.rs:81-92 | a concrete `Max<i64>` tree: an empty range gives `i64::MIN` |
| SegmentTreeExamples.MaxI64ScenarioUpdate | src/data_structure/segment_tree.rs:21-34 | a concrete `Max<i64>` tree: after raising one leaf, the whole-range query gives the new value |
| SegmentTreeExamples.MinU64ScenarioLow | src/data_structure/segment_tree.rs:120-131 | a concrete `Min<u64>` tree: a query of the first half gives its minimum |
| SegmentTreeExamples.MinU64ScenarioHigh | src/data_structure/segment_tree.rs:120-131 | a concrete `Min<u64>` tree: a query of the second half gives its minimum |
| SegmentTreeExamples.MinU64ScenarioUpdate | src/data_structure/segment_tree.rs:21-34 | a concrete `Min<u64>` tree: after lowering one leaf to 0, the query gives 0 |
| ModInts.Rem | src/math/modint.rs:10 | Rust's `%` by MOD: the remainder takes the sign of the dividend, is below MOD in magnitude, and differs from the dividend by a multiple of MOD |
| ModInts.New | src/math/modint.rs:9-13 | `new(v)` is normalised to `[0, MOD)` and is the Euclidean residue of v |
| ModInts.NewEqualIffCongruent | src/math/modint.rs:9-13 | two integers give the same `ModInt` exactly when they are congruent modulo MOD |
| ModInts.NewIdempotent | src/math/modint.rs:9-13 | normalising is idempotent, and a normalised value is kept unchanged |
| ModInts.NormalisedProductFits | src/math/modint.rs:59-64 | the product of two normalised values is below MOD² and fits in `isize` |
| ModInts.Add | src/math/modint.rs:33-38 | `a + b` is normalised and is the residue of the integer sum |
| ModInts.AddAssign | src/math/modint.rs:40-44 | `a += b` leaves the same value as `a + b` |
| ModInts.AddOfNormalised | src/math/modint.rs:33-38 | for normalised operands the sum cannot overflow, and the result is the sum minus MOD when the sum reaches MOD |
| ModInts.RustSubFormula | src/math/modint.rs:129-136 | the tests' expected value `((d % MOD) + MOD) % MOD`, with Rust's truncating `%`, is the Euclidean residue of d |
| ModInts.Sub | src/math/modint.rs:46-51 | `a - b` is normalised and equals the tests' formula `((a - b) % MOD + MOD) % MOD` |
| ModInts.SubAssign | src/math/modint.rs:53-57 | `a -= b` leaves the same value as `a - b` |
| ModInts.SubUndoesAdd | src/math/modint.rs:33-51 | for normalised values `(a + b) - b == a`, with no overflow on the way |
| ModInts.Mul | src/math/modint.rs:59-64 | `a * b` is normalised and is the residue of the integer product |
| ModInts.MulAssign | src/math/modint.rs:66-70 | `a *= b` leaves the same value as `a * b` |
| ModInts.MulCommutes | src/math/modint.rs:59-64 | multiplication is commutative |
| ModInts.PowLoop | src/math/modint.rs:18-24 | each run of the square-and-multiply loop yields `result * accum^power mod MOD` (with `accum^0` for a non-positive power) |
| ModInts.Pow | src/math/modint.rs:15-26 | `pow(p)` is `self^p mod MOD`, and 1 for a non-positive p |
| ModInts.Inv | src/math/modint.rs:28-30 | `inv` is `self^(MOD-2) mod MOD`; given Fermat's little theorem for MOD, its product with a non-zero residue is 1 |
| ModInts.InvIsInverse | src/math/modint.rs:165-171 | given Fermat's little theorem, `x * x^(MOD-2)` is 1 modulo MOD for x not divisible by MOD |
| ModInts.Div | src/math/modint.rs:72-77 | `a / b` is `a * inv(b)` normalised; given Fermat, the quotient times b is congruent to a |
| ModInts.DivTimesDivisor | src/math/modint.rs:173-180 | multiplying `x * inv(y)` by y gives back x modulo MOD, for y not divisible by MOD |
| ModInts.DivAssign | src/math/modint.rs:79-83 | `a /= b` leaves the same value as `a / b` |
| ModInts.DivUndoesMul | src/math/modint.rs:72-77 | given Fermat, `(a * b) / b == a` for normalised a and non-zero normalised b |
| ModInts.Eq | src/math/modint.rs:85-89 | equality compares values, which is structural equality of `ModInt` |
| ModInts.Cmp | src/math/modint.rs:100-104 | the ordering is the ordering of the stored values: `Less`, `Equal` and `Greater` each hold exactly when the values compare so |
| ModInts.CmpAntisymmetric | src/math/modint.rs:100-104 | swapping the operands swaps `Less` and `Greater` and keeps `Equal` |
| ModInts.OrderMatchesIntegers | src/math/modint.rs:191-198 | for integers in `[0, MOD)`, `new(a) < new(b)` exactly when `a < b` |
| Combinations.New | src/math/combination.rs:15-32 | `new(size)` builds tables of length `size + 1`: `fac[i] = i! mod MOD`; given that MOD is prime, `inv[i]` is an inverse of i and `finv[i]` one of `i!` |
| Combinations.InverseRecurrence | src/math/combination.rs:27 | with `MOD = q*i + s` and an inverse of s, `MOD - inv[s]*q % MOD` is an inverse of i |
| Combinations.FillStep | src/math/combination.rs:25-29 | one loop iteration extends the correct prefix of the three tables by one entry |
| Combinations.Choose | src/math/combination.rs:35-41 | `combination(n, r)` is a residue, and 0 when `n < r` |
| Combinations.Permute | src/math/combination.rs:44-50 | `permutation(n, r)` is a residue, and 0 when `n < r` |
| Combinations.BinomialTimesFactorials | src/math/combination.rs:39 | `C(n, r) * r! * (n-r)! == n!`, the identity the table formula relies on |
| Combinations.BinomialDiagonal | src/math/combination.rs:36-37 | `C(n, n) == 1` and `C(n, r) == 0` for `r > n` |
| Combinations.FallingTimesFactorial | src/math/combination.rs:48 | `n (n-1) ... (n-r+1) * (n-r)! == n!` |
| Combinations.ChooseIsBinomial | src/math/combination.rs:35-41 | given that MOD is prime, `combination(n, r)` is the binomial coefficient modulo MOD, for every r |
| Combinations.PermuteIsFalling | src/math/combination.rs:44-50 | given that MOD is prime, `permutation(n, r)` is the number of ordered r-selections from n modulo MOD, for every r |
| Factorize.Factorization | src/math/factorize.rs:4-18 | every key is a prime no larger than n with exponent at least 1, the product of `p^e` is n for n ≥ 1, and 0 and 1 give the empty map |
| Factorize.LeastDivisorIsPrime | src/math/factorize.rs:7-11 | the first i that divides the remaining n is prime, since all smaller divisors are already divided out |
| Factorize.NoSmallDivisorIsPrime | src/math/factorize.rs:14-16 | the leftover n > 1 with no divisor below i, where `i*i > n`, is prime |
| Factorize.ProductBelowBump | src/math/factorize.rs:10 | `entry(i).or_insert(0) += 1` multiplies the recorded product by i |
| Factorize.Euclid | src/math/factorize.rs:48-59 | a prime dividing a product divides one of the factors |
| Factorize.PrimeDividesProduct | src/math/factorize.rs:48-59 | a prime dividing a product of prime powers is one of the recorded primes |
| Factorize.FactorisationUnique | src/math/factorize.rs:48-59 | two prime-keyed maps with positive exponents and the same product are equal, so the result is the prime factorisation of n |
| Factorize.Factorize36 | src/math/factorize.rs:25-35 | `factorize(36)` is `{2: 2, 3: 2}` |
| UnionFind.Root | src/data_structure/unionfind.rs:19-28 | following parents from x ends at a self-parented root in range (it terminates because the parent array is a forest) |
| UnionFind.RootRank | src/data_structure/unionfind.rs:19-28 | the root lies no higher in rank than x, and strictly lower when x is not a root |
| UnionFind.New | src/data_structure/unionfind.rs:11-16 | `new(n)` is a valid forest of n singletons whose `size` entries are all 0 |
| UnionFind.CompressionKeepsRoots | src/data_structure/unionfind.rs:25 | re-pointing nodes straight at their root keeps a forest and keeps every root |
| UnionFind.CompressedRoot | src/data_structure/unionfind.rs:23-26 | setting x's parent to its root changes no node's root |
| UnionFind.OnPathRoot | src/data_structure/unionfind.rs:19-28 | every node met on the way from x to its root has that same root |
| UnionFind.PathCompressedIsCompression | src/data_structure/unionfind.rs:25 | re-pointing the path from x at x's root only ever re-points non-root nodes of that tree at their own root |
| UnionFind.Find | src/data_structure/unionfind.rs:19-28 | `root(x)` returns x's root; afterwards every node on the path from x points at that root and no other parent has changed; the forest and every element's root are kept |
| UnionFind.Same | src/data_structure/unionfind.rs:31-33 | `same(x, y)` is true exactly when x and y share a root, and it keeps every element's root and all sizes |
| UnionFind.LinkedRoot | src/data_structure/unionfind.rs:45 | linking root b under root a keeps a forest, and each element's new root is a if it was b and unchanged otherwise |
| UnionFind.Unite | src/data_structure/unionfind.rs:36-48 | `unite(x, y)` returns true exactly when x and y were apart; on false every element keeps its root and all sizes are unchanged, though both paths may have been compressed; on true the two classes merge and no other class changes; the root with the smaller size goes under the other, whose size grows by it; when all sizes are 0 they stay 0 |
| UnionFind.Link | src/data_structure/unionfind.rs:45-46 | linking root b under root a merges exactly the classes of x and y, and a's size entry becomes the sum of the two; all-zero sizes stay zero |
| UnionFind.MergeByLink | src/data_structure/unionfind.rs:37-45 | compressing both sides and then linking the two roots merges exactly the classes of x and y |
| UnionFind.NewCounted | src/data_structure/unionfind.rs:11-16 | the corrected constructor, with sizes starting at 1: n singletons whose roots record their class cardinality |
| UnionFind.SetSize | src/data_structure/unionfind.rs:50-53 | under the corrected sizes, `size(root(x))` is the cardinality of x's class |
| UnionFind.SameKeepsCount | src/data_structure/unionfind.rs:31-33 | `same` keeps "each root records its class cardinality" |
| UnionFind.UniteKeepsCount | src/data_structure/unionfind.rs:36-48 | `unite` keeps "each root records its class cardinality" |
| UnionFind.SizeIsNotCardinality | src/data_structure/unionfind.rs:14 | as written: after `new(5)` and `unite(1, 2)`, `size` of 1 is 0 while its class is {1, 2} |
| UnionFind.SizeOfNonRootIsStale | src/data_structure/unionfind.rs:50-53 | as written, `size(x)` reads x's own entry: even with sizes starting at 1, after `unite(1, 2)` the entry of 2 is 1 while the entry of its root 1 is 2 |
| UnionFind.SetSizeCounts | src/data_structure/unionfind.rs:46 | corrected: the same steps, starting from sizes 1, give size 2 for the class {1, 2} |
| UnionFind.SameRootsKeepPartition | src/data_structure/unionfind.rs:31-33 | an operation that keeps every root keeps the partition described by a tag sequence |
| UnionFind.MergedRelabels | src/data_structure/unionfind.rs:36-48 | after a merge, the partition is the old one with y's tag renamed to x's |
| UnionFindExamples.SameAll | src/data_structure/unionfind.rs:31-33 | a batch of `same` queries answers each pair by whether the two tags agree |
| UnionFindExamples.UniteTagged | src/data_structure/unionfind.rs:36-48 | `unite` changes the reference partition by renaming y's tag to x's |
| UnionFindExamples.UniteThenQuery | src/data_structure/unionfind.rs:60-80 | the library's `random_unite` test: every asserted `same` answer holds before and after `unite(2, 4)` |
| UnionFindExamples.FindCompressesOnlyPath | src/data_structure/unionfind.rs:19-28 | `root(3)` on the chain 3 → 2 → 1 → 0 points 3, 2 and 1 at 0 and leaves 4, a child of 1 off the path, unchanged |
| UnionFindExamples.UniteFirstTwo | src/data_structure/unionfind.rs:62-66 | after `new(5)`, `unite(1, 2)` and `unite(3, 2)` the classes are {0}, {1, 2, 3} and {4} |
| Dijkstra.Extend | src/graph/dijkstra.rs:49-50 | a walk to u extended by an edge out of u is a walk to the edge's target, costing the edge's cost more |
| Dijkstra.RelaxedIsLowerBound | src/graph/dijkstra.rs:49-55 | when no edge can be relaxed any more, `dist[t]` is at most `dist[s]` plus the cost of any walk from s to t that does not overflow `usize::MAX` |
| Dijkstra.New | src/graph/dijkstra.rs:20-25 | `new(size)` has size empty adjacency lists and every distance at `usize::MAX` |
| Dijkstra.AddEdge | src/graph/dijkstra.rs:29-31 | `add_edge` appends one edge to `from`'s list, changes nothing else, and keeps every target in range when `to` is |
| Dijkstra.LeastEntryExists | src/graph/dijkstra.rs:45 | a non-empty heap of `Reverse((cost, node))` has an entry that is least in lexicographic order, which is the entry `pop` returns |
| Dijkstra.SumUpdate | src/graph/dijkstra.rs:52 | lowering one distance lowers the total by the same amount (the loop's termination measure) |
| Dijkstra.InvPop | src/graph/dijkstra.rs:45-48 | popping the least entry keeps the loop invariant; a stale entry (`distance < cost`) is skipped |
| Dijkstra.InvWrite | src/graph/dijkstra.rs:50-53 | writing a smaller candidate distance and pushing it keeps the loop invariant, with a walk of exactly that cost as witness |
| Dijkstra.InvDone | src/graph/dijkstra.rs:44 | an empty heap with the invariant means every reached node has all its out-edges relaxed and a walk from the start costing its distance |
| Dijkstra.Relax | src/graph/dijkstra.rs:49-55 | the relaxation loop over one node's edges keeps the invariant, and either strictly lowers the sum of distances or changes nothing |
| Dijkstra.RelaxStepWrite | src/graph/dijkstra.rs:50-53 | an edge whose candidate beats the distance of its end: writing and pushing the candidate keeps the loop invariant, relaxes one more edge and lowers the sum of distances |
| Dijkstra.RelaxStepKeep | src/graph/dijkstra.rs:50-51 | an edge whose candidate does not beat its end is already relaxed; nothing changes and the loop moves on |
| Dijkstra.SumDecreases | src/graph/dijkstra.rs:51-52 | writing a strictly smaller distance lowers the sum of all distances, the measure that makes `solve` terminate |
| Dijkstra.Solve | src/graph/dijkstra.rs:39-57 | `solve(start)` keeps the graph, sets the start to 0, never raises a distance, gives every reached node a walk from the start of exactly that cost with no edge left to relax; from fresh distances it leaves no edge in the graph relaxable, which by `RelaxedIsLowerBound` makes every distance a lower bound on walk costs |
| DijkstraExamples.StartCostsNothing | src/graph/dijkstra.rs:64-70 | the library's test: after solving from 0, the distance of 0 is 0 |
| DijkstraExamples.ShortestPathExample | src/graph/dijkstra.rs:73-88 | the library's test: the distance from 0 to 7 in the eight-node graph is 8 |
| DijkstraExamples.BuildExample | src/graph/dijkstra.rs:74-85 | `new(8)` followed by the test's eleven `add_edge` calls yields the eight-node test graph, with every edge ending inside it and all distances unset |
| DijkstraExamples.SolvedExample | src/graph/dijkstra.rs:86-87 | any relaxed distances from 0 on the test graph whose reached nodes have walks of their cost give node 7 the distance 8 |
| DijkstraExamples.PathOfCostEight | src/graph/dijkstra.rs:73-88 | the walk 0→1→2→5→7 in that graph costs 8 |
| DijkstraExamples.NoCheaperPath | src/graph/dijkstra.rs:73-88 | every walk from 0 to 7 in that graph costs at least 8 |
| Grid.OffsetOfNeighbour | src/graph.rs:12 | the four offsets lead to four different cells, so each listed cell determines its offset |
| Grid.KeepFromSound | src/graph.rs:14-22 | each cell the filter keeps is in the grid and one step away, and the cells follow the order of their offsets |
| Grid.KeepFromComplete | src/graph.rs:14-22 | a neighbour is kept exactly when it lies in the grid |
| Grid.KeepAllIsAdjacent4 | src/graph.rs:12-22 | filtering all four offsets yields exactly the in-grid neighbours, in offset order |
| Grid.AsIsize | src/graph.rs:15-16 | `x as isize` on a 64-bit `usize` is x itself up to `isize::MAX` and x - 2^64 above it |
| Grid.Adjacent4 | src/graph.rs:5-23 | `adjacent4(graph, row, col)`, for positions whose `isize` reading is neither `isize::MIN` nor `isize::MAX` (where `± 1` overflows), lists exactly the in-grid cells one step from the signed position (`row as isize`, `col as isize`), in the order down, right, up, left; height is the number of rows and width the length of row 0 |
| Grid.Adjacent4OfSmallPosition | src/graph.rs:5-23 | for row and col below `isize::MAX` the cast changes nothing, and the result is exactly the in-grid cells one step from (row, col) |
| GridExamples.Corner | src/graph.rs:30-35 | at the corner (0, 0) of a 3×3 grid the result is `[(1, 0), (0, 1)]` |
| GridExamples.Side | src/graph.rs:38-43 | at the side cell (0, 1) the result is `[(1, 1), (0, 2), (0, 0)]` |
| GridExamples.Centre | src/graph.rs:46-51 | at the centre (1, 1) the result is all four neighbours, `[(2, 1), (1, 2), (0, 1), (1, 0)]` |
| GridExamples.WrappedRow | src/graph.rs:15-17 | `usize::MAX as isize` is -1, so on a 1 × 1 grid row `usize::MAX`, column 0 has the neighbour (0, 0) |

## Left out

- Every binary target (`src/bin/main.rs`) and all I/O: they are outside the library core.
- `FromIterator` for `SegmentTree` is not modelled separately. It collects into a `Vec` and calls `From<Vec>`, which `SegmentTree.FromSeq` models.
- The `Monoid` trait becomes a datatype carrying `mempty` and `mappend`. The trait lists no laws, so `IsMonoid` states them, and the statements about trees take it as a hypothesis where they need it.
- SegmentTree.Update: an index i past `n_leaves` panics in the library; here it is a precondition. The model has no `usize` overflow in `i + n_leaves - 1`.
- ModInts.Inv, ModInts.Div, ModInts.DivUndoesMul, ModInts.InvIsInverse: the inverse property is proved under the hypothesis `FermatLittle()`, Fermat's little theorem for 1_000_000_007. Proving that from the primality of 1_000_000_007 is out of reach of the solver.
- ModInts: an arithmetic overflow of `isize` panics in a debug build and wraps in a release build. Here it is a precondition (`InIsize`), and the wrap-around is not modelled. `isize` is taken to be 64 bits wide.
- Combinations.ChooseIsBinomial, Combinations.PermuteIsFalling, Combinations.New: correctness of the inverse tables needs MOD to be prime, so `IsPrime(MOD)` is a hypothesis of these statements and is not proved.
- Combinations.New: `size == 0` panics in the library, at `fac[1]`; here `size >= 1` is a precondition. The library documents `size < MOD`, which is also a precondition. With that bound, the `usize` products stay below MOD² and cannot overflow 64 bits, so they are modelled as plain integers.
- Factorize.Factorization: `i * i` and the exponent counts are unbounded integers. The `usize` overflow of `i * i` for n close to `usize::MAX` is not modelled.
- Factorize.Factorization: the result is a Dafny `map`. `HashMap` iteration order is not observable through the modelled operations.
- Dijkstra.Solve: `distance + cost` is an unbounded integer. The library's `usize` addition can overflow for costs near `usize::MAX`, and that is not modelled. A candidate at or above `usize::MAX` is never written, as in the library, because the comparison with a `usize::MAX` entry fails.
- Dijkstra.Solve: the binary heap is modelled as a multiset that pops its lexicographically least `(cost, node)` pair, as `BinaryHeap<Reverse<_>>` does. The heap's internal layout is not modelled.
- Dijkstra.Distance and UnionFind.Size are plain accessors and carry no contract of their own. What they read is stated by `Dijkstra.Solve` and `UnionFind.SetSize`.
- Grid.Adjacent4: an empty grid panics in the library, at `graph[0]`; here `|graph| > 0` is a precondition. The casts of height and width to `isize` are exact for every grid that fits in memory and are modelled as plain integers. The casts of row and col do wrap, and `Grid.AsIsize` models that. A row or col whose cast is `isize::MAX` makes `+ 1` overflow, and one whose cast is `isize::MIN` (the value 2^63) makes `+ (-1)` overflow. Either overflow panics in a debug build and wraps in a release build. Here both cases are excluded by a precondition, and neither outcome is modelled. `usize` is taken to be 64 bits wide. The result is a sequence rather than a lazy iterator.
- UnionFind.Find: the recursion in `root` is modelled as a pure function that returns the compressed parent array. Termination rests on a ghost rank that decreases toward the root, which is the forest property every reachable state has.

## Findings

| source | as written | input that shows it | evidently intended | confidence | as-written member | corrected member |
|---|---|---|---|---|---|---|
| src/data_structure/unionfind.rs:14 | `size` starts as `vec![0; size]`, and `unite` only ever adds sizes together, so every entry stays 0. `size(x)` always returns 0 and the union-by-size swap at lines 42-44 never fires | `new(5)`, then `unite(1, 2)`, then `size(1)` returns 0, while the tree of 1 holds {1, 2} | sizes start at 1, so that the entry of a root is the number of elements in its tree (kept by `unite`, `UnionFind.UniteKeepsCount`) and the smaller tree goes under the larger. `size(x)` reads x's own entry at line 52, which is stale for a non-root x even when sizes start at 1 (`UnionFind.SizeOfNonRootIsStale`). The intended read is the entry of x's root, as `UnionFind.SetSize` does | not executed | UnionFind.SizeIsNotCardinality | UnionFind.NewCounted |
