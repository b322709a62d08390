/** The save-time check of the puzzle builder: exactly one blank and as many
    distinct tile values as the declared size asks for. */
module Validation {
  import opened Grids

  /** `filter(cell => cell === null).length`: how many blanks. */
  function CountBlanks(s: seq<Cell>): nat {
    if s == [] then 0 else (if s[0] == Blank then 1 else 0) + CountBlanks(s[1..])
  }

  /** `new Set(filter(cell => cell !== null))`: the distinct tile values. */
  function TileValues(s: seq<Cell>): set<int> {
    if s == [] then {} else (if s[0].Tile? then {s[0].v} else {}) + TileValues(s[1..])
  }

  /** No tile value occurs twice. */
  predicate TilesDistinct(s: seq<Cell>) {
    forall i, j :: 0 <= i < j < |s| && s[i].Tile? ==> s[i] != s[j]
  }

  /** The check as the builder writes it: the declared `rows` and `cols` are
      trusted, the grid's own shape is not looked at. */
  function Accepts(g: Grid, rows: int, cols: int): (r: bool)
    ensures r ==> 1 <= rows * cols <= |Flat(g)|
  {
    ValuesAtMostTiles(Flat(g));
    CountBlanks(Flat(g)) == 1 && |TileValues(Flat(g))| == rows * cols - 1
  }

  /** The check with the shape test it evidently relies on: the grid really
      has `rows` rows of `cols` cells. */
  function AcceptsShaped(g: Grid, rows: int, cols: int): (r: bool)
    ensures r ==> CountBlanks(Flat(g)) == 1 && TilesDistinct(Flat(g)) && |Flat(g)| == rows * cols
  {
    if Rectangular(g, rows, cols) && Accepts(g, rows, cols) then
      FlatLength(g, rows, cols);
      FullValuesDistinct(Flat(g));
      true
    else
      false
  }

  /** The blank count is the multiplicity of the blank. */
  lemma {:induction false} CountBlanksMultiplicity(s: seq<Cell>)
    ensures CountBlanks(s) == multiset(s)[Blank]
  {
    if s != [] {
      CountBlanksMultiplicity(s[1..]);
      assert s == [s[0]] + s[1..];
    }
  }

  /** A sequence without blanks. */
  lemma {:induction false} NoBlankCounted(s: seq<Cell>)
    requires CountBlanks(s) == 0
    ensures forall i :: 0 <= i < |s| ==> s[i] != Blank
  {
    if s != [] {
      NoBlankCounted(s[1..]);
      assert forall i :: 1 <= i < |s| ==> s[i] == s[1..][i - 1];
    }
  }

  /** A sequence of tiles only has no blank to count. */
  lemma {:induction false} NoBlankIn(s: seq<Cell>)
    requires forall i :: 0 <= i < |s| ==> s[i].Tile?
    ensures CountBlanks(s) == 0
  {
    if s != [] {
      NoBlankIn(s[1..]);
    }
  }

  /** Every tile value occurs in the set of values. */
  lemma {:induction false} TileInValues(s: seq<Cell>, i: nat)
    requires i < |s| && s[i].Tile?
    ensures s[i].v in TileValues(s)
  {
    if i > 0 {
      TileInValues(s[1..], i - 1);
    }
  }

  /** There are never more distinct values than tiles. */
  lemma {:induction false} ValuesAtMostTiles(s: seq<Cell>)
    ensures |TileValues(s)| <= |s| - CountBlanks(s)
  {
    if s != [] {
      ValuesAtMostTiles(s[1..]);
    }
  }

  /** As many distinct values as tiles means no value repeats. */
  lemma {:induction false} FullValuesDistinct(s: seq<Cell>)
    requires |TileValues(s)| == |s| - CountBlanks(s)
    ensures TilesDistinct(s)
  {
    if s != [] {
      var t := s[1..];
      ValuesAtMostTiles(t);
      if s[0].Tile? {
        if s[0].v in TileValues(t) {
          assert false;
        }
        assert |TileValues(s)| == |TileValues(t)| + 1;
      }
      FullValuesDistinct(t);
      forall i, j | 0 <= i < j < |s| && s[i].Tile? ensures s[i] != s[j] {
        if i == 0 {
          if s[0] == s[j] {
            TileInValues(t, j - 1);
          }
        } else {
          assert s[i] == t[i - 1] && s[j] == t[j - 1];
        }
      }
    }
  }

  /** Distinct tiles give as many values as tiles. */
  lemma {:induction false} DistinctValuesFull(s: seq<Cell>)
    requires TilesDistinct(s)
    ensures |TileValues(s)| == |s| - CountBlanks(s)
  {
    if s != [] {
      var t := s[1..];
      assert TilesDistinct(t) by {
        forall i, j | 0 <= i < j < |t| && t[i].Tile? ensures t[i] != t[j] {
          assert t[i] == s[i + 1] && t[j] == s[j + 1];
        }
      }
      DistinctValuesFull(t);
      if s[0].Tile? {
        forall i | 0 <= i < |t| ensures t[i] != s[0] {
          assert t[i] == s[i + 1];
        }
        NotAmongValues(t, s[0].v);
      }
    }
  }

  /** A value no tile carries is not among the values. */
  lemma {:induction false} NotAmongValues(s: seq<Cell>, x: int)
    requires forall i :: 0 <= i < |s| ==> s[i] != Tile(x)
    ensures x !in TileValues(s)
  {
    if s != [] {
      NotAmongValues(s[1..], x);
    }
  }

  /** For a grid that has the shape its save asks for, the check means exactly:
      one blank and pairwise distinct tiles. With an unchecked shape this
      fails; see MismatchedShapeAccepted. */
  lemma AcceptsShapedIff(g: Grid, rows: int, cols: int)
    ensures AcceptsShaped(g, rows, cols) <==>
      Rectangular(g, rows, cols) && CountBlanks(Flat(g)) == 1 && TilesDistinct(Flat(g))
  {
    if Rectangular(g, rows, cols) {
      FlatLength(g, rows, if cols < 0 then 0 else cols);
      var s := Flat(g);
      if CountBlanks(s) == 1 {
        if Accepts(g, rows, cols) {
          FullValuesDistinct(s);
        }
        if TilesDistinct(s) {
          DistinctValuesFull(s);
        }
      }
    }
  }

  /** The check as written accepts duplicate tiles when the declared size
      disagrees with the grid: a 3 x 3 grid checked as 2 x 2. */
  lemma MismatchedShapeAccepted()
    ensures var g := [[Blank, Tile(1), Tile(1)], [Tile(1), Tile(2), Tile(2)], [Tile(2), Tile(3), Tile(3)]];
      Accepts(g, 2, 2) && !TilesDistinct(Flat(g)) && !AcceptsShaped(g, 2, 2)
  {
    var g := [[Blank, Tile(1), Tile(1)], [Tile(1), Tile(2), Tile(2)], [Tile(2), Tile(3), Tile(3)]];
    FlatThreeRows(g);
    CountAppend(g[0] + g[1], g[2]);
    CountAppend(g[0], g[1]);
    RowOfThree(g[0]);
    RowOfThree(g[1]);
    RowOfThree(g[2]);
    assert TileValues(Flat(g)) == {1, 2, 3};
    assert Flat(g)[1] == Flat(g)[2];
  }

  /** The values of a single cell. */
  function CellValue(x: Cell): set<int> {
    if x.Tile? then {x.v} else {}
  }

  /** Counting blanks and collecting values distribute over concatenation. */
  lemma {:induction false} CountAppend(a: seq<Cell>, b: seq<Cell>)
    ensures CountBlanks(a + b) == CountBlanks(a) + CountBlanks(b)
    ensures TileValues(a + b) == TileValues(a) + TileValues(b)
  {
    if a != [] {
      assert (a + b)[1..] == a[1..] + b;
      CountAppend(a[1..], b);
    } else {
      assert a + b == b;
    }
  }

  /** The blanks and values of a row of three cells. */
  lemma RowOfThree(r: seq<Cell>)
    requires |r| == 3
    ensures CountBlanks(r) == (if r[0] == Blank then 1 else 0) + (if r[1] == Blank then 1 else 0) +
                              (if r[2] == Blank then 1 else 0)
    ensures TileValues(r) == CellValue(r[0]) + CellValue(r[1]) + CellValue(r[2])
  {
    assert r[1..][1..] == r[2..];
    assert r[2..][1..] == [];
    assert CountBlanks(r[2..]) == (if r[2] == Blank then 1 else 0);
    assert TileValues(r[2..]) == CellValue(r[2]);
    assert CountBlanks(r[1..]) == (if r[1] == Blank then 1 else 0) + CountBlanks(r[2..]);
    assert TileValues(r[1..]) == CellValue(r[1]) + TileValues(r[2..]);
  }

  /** The blanks and values of a row of two cells. */
  lemma RowOfTwo(r: seq<Cell>)
    requires |r| == 2
    ensures CountBlanks(r) == (if r[0] == Blank then 1 else 0) + (if r[1] == Blank then 1 else 0)
    ensures TileValues(r) == CellValue(r[0]) + CellValue(r[1])
  {
    assert r[1..][1..] == [];
    assert CountBlanks(r[1..]) == (if r[1] == Blank then 1 else 0);
    assert TileValues(r[1..]) == CellValue(r[1]);
  }

  lemma FlatTwoRows(g: Grid)
    requires |g| == 2
    ensures Flat(g) == g[0] + g[1]
  {
    assert g[1..][1..] == [];
    assert Flat(g[1..]) == g[1] + Flat(g[1..][1..]);
  }

  lemma FlatThreeRows(g: Grid)
    requires |g| == 3
    ensures Flat(g) == g[0] + g[1] + g[2]
  {
    assert g[1..][1..] == g[2..];
    assert g[2..][1..] == [];
    assert Flat(g[2..]) == g[2] + Flat(g[2..][1..]);
    assert Flat(g[1..]) == g[1] + Flat(g[1..][1..]);
  }

  /** The blanks and values of a 2 x 2 grid, cell by cell. */
  lemma TwoByTwo(g: Grid)
    requires |g| == 2 && |g[0]| == 2 && |g[1]| == 2
    ensures CountBlanks(Flat(g)) ==
      (if g[0][0] == Blank then 1 else 0) + (if g[0][1] == Blank then 1 else 0) +
      (if g[1][0] == Blank then 1 else 0) + (if g[1][1] == Blank then 1 else 0)
    ensures TileValues(Flat(g)) ==
      CellValue(g[0][0]) + CellValue(g[0][1]) + CellValue(g[1][0]) + CellValue(g[1][1])
  {
    FlatTwoRows(g);
    CountAppend(g[0], g[1]);
    RowOfTwo(g[0]);
    RowOfTwo(g[1]);
  }

  /** Two blanks are refused. */
  lemma TwoBlanksRejected()
    ensures !Accepts([[Blank, Blank], [Tile(1), Tile(2)]], 2, 2)
  {
    TwoByTwo([[Blank, Blank], [Tile(1), Tile(2)]]);
  }

  /** A repeated value is refused: values {1, 1, 2} give a set of two. */
  lemma RepeatedValueRejected()
    ensures !Accepts([[Blank, Tile(1)], [Tile(1), Tile(2)]], 2, 2)
  {
    var g := [[Blank, Tile(1)], [Tile(1), Tile(2)]];
    TwoByTwo(g);
    assert TileValues(Flat(g)) == {1, 2};
  }
}
