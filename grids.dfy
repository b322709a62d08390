/** The grid model shared by the puzzle builder and the play session: cells,
    positions, grids as nested rows, and the conversion between a grid held
    in a two-dimensional array and its value. */
module Grids {

  /** A cell: a numbered tile, or the blank slot (`null` in the source). */
  datatype Cell = Blank | Tile(v: int)

  datatype Option<T> = None | Some(value: T)

  /** A zero-indexed (row, column) position. */
  datatype Pos = Pos(row: nat, col: nat)

  /** A grid as a value: a sequence of rows. Like the source's arrays of
      arrays, nothing forces the rows to have equal length. */
  type Grid = seq<seq<Cell>>

  function Abs(x: int): nat { if x < 0 then -x else x }

  predicate InBounds(g: Grid, p: Pos) {
    p.row < |g| && p.col < |g[p.row]|
  }

  function At(g: Grid, p: Pos): Cell
    requires InBounds(g, p)
  {
    g[p.row][p.col]
  }

  /** The grid with the cell at `p` replaced by `x`. */
  function Set(g: Grid, p: Pos, x: Cell): (r: Grid)
    requires InBounds(g, p)
    ensures |r| == |g| && forall i :: 0 <= i < |g| ==> |r[i]| == |g[i]|
    ensures forall q :: InBounds(g, q) ==> At(r, q) == if q == p then x else At(g, q)
  {
    g[p.row := g[p.row][p.col := x]]
  }

  /** Two grids of the same shape with the same cells are equal. */
  lemma SameCells(g: Grid, h: Grid)
    requires |g| == |h| && forall i :: 0 <= i < |g| ==> |g[i]| == |h[i]|
    requires forall q :: InBounds(g, q) ==> At(g, q) == At(h, q)
    ensures g == h
  {
    forall i | 0 <= i < |g| ensures g[i] == h[i] {
      forall j | 0 <= j < |g[i]| ensures g[i][j] == h[i][j] {
        assert At(g, Pos(i, j)) == At(h, Pos(i, j));
      }
    }
  }

  /** Every row has exactly `cols` cells and there are `rows` rows. */
  predicate Rectangular(g: Grid, rows: int, cols: int) {
    |g| == rows && forall i :: 0 <= i < |g| ==> |g[i]| == cols
  }

  function Width(g: Grid): nat { if g == [] then 0 else |g[0]| }

  /** All rows as long as the first one. */
  predicate IsRectangular(g: Grid) { Rectangular(g, |g|, Width(g)) }

  /** `grid.flat()`: the cells in row-major order. */
  function Flat(g: Grid): seq<Cell> {
    if g == [] then [] else g[0] + Flat(g[1..])
  }

  /** Replacing one element of the left part of a union. */
  lemma ReplaceInUnion(a: multiset<Cell>, b: multiset<Cell>, y: Cell, x: Cell)
    requires y in a
    ensures (a - multiset{y} + multiset{x}) + b == (a + b) - multiset{y} + multiset{x}
  {
  }

  /** Writing one cell replaces exactly one occurrence of the old value in the
      multiset of all cells. */
  lemma {:induction false} FlatSetMultiset(g: Grid, p: Pos, x: Cell)
    requires InBounds(g, p)
    ensures multiset(Flat(Set(g, p, x))) == multiset(Flat(g)) - multiset{At(g, p)} + multiset{x}
  {
    var r := Set(g, p, x);
    var y := At(g, p);
    assert Flat(r) == r[0] + Flat(r[1..]);
    assert Flat(g) == g[0] + Flat(g[1..]);
    var rest := multiset(Flat(g[1..]));
    if p.row == 0 {
      assert r[1..] == g[1..];
      assert r[0] == g[0][p.col := x];
      assert multiset(r[0]) == multiset(g[0]) - multiset{y} + multiset{x};
      assert y in multiset(g[0]);
      ReplaceInUnion(multiset(g[0]), rest, y, x);
    } else {
      var q := Pos(p.row - 1, p.col);
      FlatSetMultiset(g[1..], q, x);
      assert r[1..] == Set(g[1..], q, x);
      assert At(g[1..], q) == y;
      assert y in rest by {
        assert y in Flat(g[1..]) by { FlatHas(g[1..], q); }
      }
      ReplaceInUnion(rest, multiset(g[0]), y, x);
    }
  }

  /** Every cell of a grid occurs in its flattening. */
  lemma {:induction false} FlatHas(g: Grid, p: Pos)
    requires InBounds(g, p)
    ensures At(g, p) in Flat(g)
  {
    assert Flat(g) == g[0] + Flat(g[1..]);
    if p.row == 0 {
      assert g[0][p.col] in g[0];
    } else {
      FlatHas(g[1..], Pos(p.row - 1, p.col));
    }
  }

  /** A rectangular grid flattens to `rows * cols` cells. */
  lemma {:induction false} FlatLength(g: Grid, rows: nat, cols: nat)
    requires Rectangular(g, rows, cols)
    ensures |Flat(g)| == rows * cols
  {
    if rows > 0 {
      FlatLength(g[1..], rows - 1, cols);
      assert (rows - 1) * cols + cols == rows * cols;
    }
  }

  /** The value held in a two-dimensional array, row by row. */
  function Snapshot(a: array2<Cell>): (g: Grid)
    reads a
    ensures Rectangular(g, a.Length0, a.Length1)
    ensures forall p :: InBounds(g, p) ==> At(g, p) == a[p.row, p.col]
  {
    seq(a.Length0, i reads a => seq(a.Length1, j reads a =>
      if 0 <= i < a.Length0 && 0 <= j < a.Length1 then a[i, j] else Blank))
  }

  /** Two arrays of the same shape and contents have the same value. */
  lemma SnapshotCells(a: array2<Cell>, g: Grid)
    requires Rectangular(g, a.Length0, a.Length1)
    requires forall p :: InBounds(g, p) ==> At(g, p) == a[p.row, p.col]
    ensures Snapshot(a) == g
  {
    var s := Snapshot(a);
    forall i | 0 <= i < |g| ensures s[i] == g[i] {
      forall j | 0 <= j < |g[i]| ensures s[i][j] == g[i][j] {
        assert At(g, Pos(i, j)) == a[i, j];
        assert At(s, Pos(i, j)) == a[i, j];
      }
    }
  }

  /** A fresh array holding a copy of a rectangular grid: the structural clone
      that the source obtains through a JSON round trip. */
  method CopyGrid(g: Grid) returns (a: array2<Cell>)
    requires IsRectangular(g)
    ensures fresh(a)
    ensures Snapshot(a) == g
  {
    a := new Cell[|g|, Width(g)]((i, j) =>
      if 0 <= i < |g| && 0 <= j < |g[i]| then g[i][j] else Blank);
    SnapshotCells(a, g);
  }
}
