/** The four-neighbourhood of a cell in a grid stored as rows. The height is
    the number of rows and the width is the length of row 0. */
module Grid {

  /** The four offsets (row, column), in the order the library tries them. */
  const OFFSETS: seq<(int, int)> := [(1, 0), (0, 1), (-1, 0), (0, -1)]

  /** The cell reached from (row, col) by offset d, possibly off the grid. */
  function Neighbour(row: int, col: int, d: nat): (int, int)
    requires d < 4
  {
    (row + OFFSETS[d].0, col + OFFSETS[d].1)
  }

  predicate InGrid(height: nat, width: nat, p: (int, int)) {
    0 <= p.0 < height && 0 <= p.1 < width
  }

  /** Which offset leads from (row, col) to `cell`; 3 for any cell that is not
      one of the other three neighbours. */
  function OffsetOf(row: int, col: int, cell: (nat, nat)): (d: nat)
    ensures d < 4
  {
    if cell.0 == row + 1 && cell.1 == col then 0
    else if cell.0 == row && cell.1 == col + 1 then 1
    else if cell.0 + 1 == row && cell.1 == col then 2
    else 3
  }

  /** The four neighbours are distinct cells, so `OffsetOf` recovers the offset. */
  lemma OffsetOfNeighbour(row: int, col: int, d: nat)
    requires d < 4 && Neighbour(row, col, d).0 >= 0 && Neighbour(row, col, d).1 >= 0
    ensures OffsetOf(row, col, (Neighbour(row, col, d).0 as nat, Neighbour(row, col, d).1 as nat)) == d
  {
  }

  /** `cell` differs from (row, col) by exactly 1 in exactly one coordinate. */
  predicate UnitStep(row: int, col: int, cell: (nat, nat)) {
    || (cell.0 == row && (cell.1 == col + 1 || cell.1 + 1 == col))
    || (cell.1 == col && (cell.0 == row + 1 || cell.0 + 1 == row))
  }

  /** Some listed cell comes from offset d. */
  ghost predicate Lists(cells: seq<(nat, nat)>, row: int, col: int, d: nat) {
    exists k :: 0 <= k < |cells| && OffsetOf(row, col, cells[k]) == d
  }

  /** The neighbours through offsets d, d+1, ..., 3 that lie in the grid, in
      offset order: the `filter_map` over the offsets from d on. */
  function KeepFrom(height: nat, width: nat, row: int, col: int, d: nat): seq<(nat, nat)>
    requires d <= 4
    decreases 4 - d
  {
    if d == 4 then []
    else
      var p := Neighbour(row, col, d);
      var rest := KeepFrom(height, width, row, col, d + 1);
      if InGrid(height, width, p) then [(p.0 as nat, p.1 as nat)] + rest else rest
  }

  /** Every cell of r is an in-grid neighbour through an offset from d on,
      and the offsets increase along r. */
  predicate KeptFrom(height: nat, width: nat, row: int, col: int, d: nat, r: seq<(nat, nat)>) {
    && (forall k :: 0 <= k < |r| ==>
          && d <= OffsetOf(row, col, r[k])
          && r[k].0 < height && r[k].1 < width
          && UnitStep(row, col, r[k]))
    && (forall k, k' :: 0 <= k < k' < |r| ==> OffsetOf(row, col, r[k]) < OffsetOf(row, col, r[k']))
  }

  lemma {:induction false} KeepFromSound(height: nat, width: nat, row: int, col: int, d: nat)
    requires d <= 4
    ensures KeptFrom(height, width, row, col, d, KeepFrom(height, width, row, col, d))
    decreases 4 - d
  {
    if d < 4 {
      KeepFromSound(height, width, row, col, d + 1);
      var p := Neighbour(row, col, d);
      if InGrid(height, width, p) {
        OffsetOfNeighbour(row, col, d);
        KeptFromCons(height, width, row, col, d, (p.0 as nat, p.1 as nat), KeepFrom(height, width, row, col, d + 1));
      }
    }
  }

  /** A cell through offset d may go in front of cells through later offsets. */
  lemma KeptFromCons(height: nat, width: nat, row: int, col: int, d: nat, x: (nat, nat), rest: seq<(nat, nat)>)
    requires KeptFrom(height, width, row, col, d + 1, rest)
    requires OffsetOf(row, col, x) == d && x.0 < height && x.1 < width && UnitStep(row, col, x)
    ensures KeptFrom(height, width, row, col, d, [x] + rest)
  {
    var r := [x] + rest;
    assert forall k :: 1 <= k < |r| ==> r[k] == rest[k - 1];
  }

  /** Exactly the in-grid neighbours from offset d on are kept. */
  lemma {:induction false} KeepFromComplete(height: nat, width: nat, row: int, col: int, d: nat)
    requires d <= 4
    ensures forall e :: d <= e < 4 ==>
      (InGrid(height, width, Neighbour(row, col, e)) <==> Lists(KeepFrom(height, width, row, col, d), row, col, e))
    decreases 4 - d
  {
    if d < 4 {
      KeepFromComplete(height, width, row, col, d + 1);
      var p := Neighbour(row, col, d);
      var rest := KeepFrom(height, width, row, col, d + 1);
      KeepFromSound(height, width, row, col, d + 1);
      assert forall k :: 0 <= k < |rest| ==> d + 1 <= OffsetOf(row, col, rest[k]);
      assert !Lists(rest, row, col, d);
      if InGrid(height, width, p) {
        OffsetOfNeighbour(row, col, d);
        var r := [(p.0 as nat, p.1 as nat)] + rest;
        assert Lists(r, row, col, d) by { assert OffsetOf(row, col, r[0]) == d; }
        forall e | d < e < 4
          ensures Lists(rest, row, col, e) <==> Lists(r, row, col, e)
        {
          ListsCons(rest, row, col, r[0], e);
        }
      }
    }
  }

  /** Putting a cell of another offset in front does not change what is listed
      for offset e. */
  lemma ListsCons(rest: seq<(nat, nat)>, row: int, col: int, x: (nat, nat), e: nat)
    requires OffsetOf(row, col, x) != e
    ensures Lists([x] + rest, row, col, e) <==> Lists(rest, row, col, e)
  {
    var r := [x] + rest;
    if Lists(r, row, col, e) {
      var k :| 0 <= k < |r| && OffsetOf(row, col, r[k]) == e;
      assert r[k] == rest[k - 1];
    }
    if Lists(rest, row, col, e) {
      var k :| 0 <= k < |rest| && OffsetOf(row, col, rest[k]) == e;
      assert r[k + 1] == rest[k];
    }
  }

  /** What the library promises of the listed neighbours of (row, col) in a
      grid of the given height and width: each lies in the grid one step away;
      a neighbour is listed exactly when it lies in the grid; the listing
      follows the offset order. */
  ghost predicate IsAdjacent4(height: nat, width: nat, row: int, col: int, r: seq<(nat, nat)>) {
    && (forall k :: 0 <= k < |r| ==> r[k].0 < height && r[k].1 < width && UnitStep(row, col, r[k]))
    && (forall d :: 0 <= d < 4 ==> (InGrid(height, width, Neighbour(row, col, d)) <==> Lists(r, row, col, d)))
    && (forall k, k' :: 0 <= k < k' < |r| ==> OffsetOf(row, col, r[k]) < OffsetOf(row, col, r[k']))
  }

  lemma KeepAllIsAdjacent4(height: nat, width: nat, row: int, col: int)
    ensures IsAdjacent4(height, width, row, col, KeepFrom(height, width, row, col, 0))
  {
    KeepFromSound(height, width, row, col, 0);
    KeepFromComplete(height, width, row, col, 0);
  }

  const USIZE_LIMIT: nat := 0x1_0000_0000_0000_0000
  const ISIZE_MAX: int := 0x7fff_ffff_ffff_ffff

  /** `x as isize` for a 64-bit `usize` x: the two's-complement reading of
      the same bits. */
  function AsIsize(x: nat): (v: int)
    requires x < USIZE_LIMIT
    ensures -ISIZE_MAX - 1 <= v <= ISIZE_MAX
    ensures v == x || v == x - USIZE_LIMIT
  {
    if x <= ISIZE_MAX then x else x - USIZE_LIMIT
  }

  /** `adjacent4(graph, row, col)`: the neighbours of the cell at the
      signed positions `row as isize` and `col as isize`. An empty grid
      panics in the library, which reads the width from row 0, and a
      position equal to `isize::MAX` overflows in `+ 1`, and one equal to
      `isize::MIN` overflows in `+ (-1)`. */
  function Adjacent4<T>(graph: seq<seq<T>>, row: nat, col: nat): (r: seq<(nat, nat)>)
    requires |graph| > 0
    requires row < USIZE_LIMIT && col < USIZE_LIMIT
    requires -ISIZE_MAX - 1 < AsIsize(row) < ISIZE_MAX && -ISIZE_MAX - 1 < AsIsize(col) < ISIZE_MAX
    ensures IsAdjacent4(|graph|, |graph[0]|, AsIsize(row), AsIsize(col), r)
  {
    KeepAllIsAdjacent4(|graph|, |graph[0]|, AsIsize(row), AsIsize(col));
    KeepFrom(|graph|, |graph[0]|, AsIsize(row), AsIsize(col), 0)
  }

  /** Positions below `isize::MAX` are read unchanged, so there the result
      is exactly the in-grid cells one step from (row, col). */
  lemma Adjacent4OfSmallPosition<T>(graph: seq<seq<T>>, row: nat, col: nat)
    requires |graph| > 0 && row < ISIZE_MAX && col < ISIZE_MAX
    ensures IsAdjacent4(|graph|, |graph[0]|, row, col, Adjacent4(graph, row, col))
  {
  }
}

/** The library's tests on a 3 x 3 grid. */
module GridExamples {
  import opened Grid

  lemma Corner(graph: seq<seq<int>>)
    requires graph == seq(3, _ => seq(3, _ => 0))
    ensures Adjacent4(graph, 0, 0) == [(1, 0), (0, 1)]
  {
    assert |graph| == 3 && |graph[0]| == 3;
    assert KeepFrom(3, 3, 0, 0, 2) == [];
    assert KeepFrom(3, 3, 0, 0, 1) == [(0, 1)];
  }

  lemma Side(graph: seq<seq<int>>)
    requires graph == seq(3, _ => seq(3, _ => 0))
    ensures Adjacent4(graph, 0, 1) == [(1, 1), (0, 2), (0, 0)]
  {
    assert |graph| == 3 && |graph[0]| == 3;
    assert KeepFrom(3, 3, 0, 1, 3) == [(0, 0)];
    assert KeepFrom(3, 3, 0, 1, 2) == [(0, 0)];
    assert KeepFrom(3, 3, 0, 1, 1) == [(0, 2), (0, 0)];
  }

  lemma Centre(graph: seq<seq<int>>)
    requires graph == seq(3, _ => seq(3, _ => 0))
    ensures Adjacent4(graph, 1, 1) == [(2, 1), (1, 2), (0, 1), (1, 0)]
  {
    assert |graph| == 3 && |graph[0]| == 3;
    assert KeepFrom(3, 3, 1, 1, 3) == [(1, 0)];
    assert KeepFrom(3, 3, 1, 1, 2) == [(0, 1), (1, 0)];
    assert KeepFrom(3, 3, 1, 1, 1) == [(1, 2), (0, 1), (1, 0)];
    assert KeepFrom(3, 3, 1, 1, 0) == [(2, 1), (1, 2), (0, 1), (1, 0)];
  }

  /** `usize::MAX as isize` is -1, so on a 1 x 1 grid the row `usize::MAX`
      has the cell (0, 0) below it. */
  lemma WrappedRow(graph: seq<seq<int>>)
    requires graph == [[0]]
    ensures Adjacent4(graph, USIZE_LIMIT - 1, 0) == [(0, 0)]
  {
    assert |graph| == 1 && |graph[0]| == 1;
    assert AsIsize(USIZE_LIMIT - 1) == -1;
    assert KeepFrom(1, 1, -1, 0, 1) == [];
  }
}
