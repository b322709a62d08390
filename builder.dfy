/** The puzzle builder page: the author sets the size, fills in a grid cell by
    cell, and saves it with a rule text into the catalog, which is written to
    storage as a whole on every save. */
module Builder {
  import opened Grids
  import opened Validation
  import opened Rules
  import opened Catalog

  /** What the author typed into a cell, already classified: the empty
      string, a numeric text with its value, or anything else. */
  datatype CellInput = EmptyText | Numeric(n: int) | NotANumber

  /** The cell after an edit: the empty string clears it, a positive number
      sets it, anything else leaves it as it was. */
  function AfterInput(x: Cell, input: CellInput): (y: Cell)
    ensures input == EmptyText ==> y == Blank
    ensures input.Numeric? && input.n > 0 ==> y == Tile(input.n)
    ensures (input.Numeric? && input.n <= 0) || input == NotANumber ==> y == x
  {
    match input
    case EmptyText => Blank
    case Numeric(n) => if n > 0 then Tile(n) else x
    case NotANumber => x
  }

  /** A catalog entry as the builder keeps it in memory: the record refers to
      a grid object rather than holding a copy of its cells. */
  datatype Entry = Entry(id: int, rows: int, cols: int, cellWidth: int, cellHeight: int,
                         grid: array2<Cell>, rule: string)

  /** The record an entry is written to storage as: the value its grid
      object holds now, which always has rows of equal length. */
  function Persist(e: Entry): (r: Puzzle)
    reads e.grid
    ensures Rectangular(r.grid, e.grid.Length0, e.grid.Length1) && IsRectangular(r.grid)
  {
    Puzzle(e.id, e.rows, e.cols, e.cellWidth, e.cellHeight, Snapshot(e.grid), e.rule)
  }

  /** The grid objects a list of entries refers to. */
  function GridsOf(es: seq<Entry>): set<array2<Cell>> {
    set k | 0 <= k < |es| :: es[k].grid
  }

  /** A list of entries as written to storage, entry by entry. */
  function PersistAll(es: seq<Entry>): (c: seq<Puzzle>)
    reads GridsOf(es)
    ensures |c| == |es|
  {
    seq(|es|, k requires 0 <= k < |es| reads GridsOf(es) => Persist(es[k]))
  }

  /** Every catalog the builder writes can be opened by the play page: each
      stored grid has rows of equal length, and each record keeps its
      entry's identifier. */
  lemma PersistedWellShaped(es: seq<Entry>)
    ensures WellShaped(PersistAll(es))
    ensures forall k :: 0 <= k < |es| ==> PersistAll(es)[k].id == es[k].id
  {
    forall k | 0 <= k < |es| ensures IsRectangular(PersistAll(es)[k].grid) {
      assert PersistAll(es)[k] == Persist(es[k]);
    }
  }

  /** Appending an entry adds its grid object. */
  lemma GridsOfAppend(es: seq<Entry>, e: Entry)
    ensures GridsOf(es + [e]) == GridsOf(es) + {e.grid}
  {
    var es' := es + [e];
    assert forall k :: 0 <= k < |es| ==> es'[k] == es[k];
    assert es'[|es|] == e;
  }

  /** Appending an entry appends its record. */
  lemma PersistAllAppend(es: seq<Entry>, e: Entry)
    ensures PersistAll(es + [e]) == PersistAll(es) + [Persist(e)]
  {
    var c := PersistAll(es + [e]);
    forall k | 0 <= k < |es| ensures c[k] == PersistAll(es)[k] {
      assert (es + [e])[k] == es[k];
    }
  }

  class Dashboard {
    var rows: int
    var cols: int
    var cellWidth: int
    var cellHeight: int
    var grid: array2<Cell>
    var rule: string
    var savedPuzzles: seq<Entry>
    /** What storage holds: the catalog as written by the last save. */
    var stored: seq<Puzzle>

    /** The grid objects of the saved entries. */
    function EntryGrids(): set<array2<Cell>>
      reads this
    {
      GridsOf(savedPuzzles)
    }

    /** The in-memory catalog, as it would be written to storage now. */
    function Persisted(): (c: seq<Puzzle>)
      reads this, EntryGrids()
      ensures |c| == |savedPuzzles|
    {
      PersistAll(savedPuzzles)
    }

    /** No saved entry shares the grid being edited, and storage agrees with
        the in-memory catalog. */
    ghost predicate Valid()
      reads this, EntryGrids()
    {
      grid !in EntryGrids() && stored == Persisted()
    }

    /** Opening the builder: the catalog read from storage, a 3 x 3 size,
        50 px cells, the default rule and an all-blank 3 x 3 grid. */
    constructor (loaded: seq<Entry>)
      ensures Valid()
      ensures rows == 3 && cols == 3 && cellWidth == 50 && cellHeight == 50 && rule == DefaultRuleText
      ensures savedPuzzles == loaded
      ensures fresh(grid) && grid.Length0 == 3 && grid.Length1 == 3
      ensures forall i, j :: 0 <= i < 3 && 0 <= j < 3 ==> grid[i, j] == Blank
    {
      rows, cols := 3, 3;
      cellWidth, cellHeight := 50, 50;
      rule := DefaultRuleText;
      savedPuzzles := loaded;
      grid := new Cell[3, 3]((i, j) => Blank);
      new;
      stored := Persisted();
    }

    /** The row count field; nothing else follows it until the grid is
        rebuilt. */
    method SetRows(n: int)
      modifies this`rows
      ensures rows == n
    {
      rows := n;
    }

    /** The column count field, likewise. */
    method SetCols(n: int)
      modifies this`cols
      ensures cols == n
    {
      cols := n;
    }

    /** `initializeGrid`: a new all-blank grid of the current size. A row
        count of zero or less gives a grid without rows; a negative column
        count with rows to fill makes the array constructor throw, and the
        grid stays as it was. */
    method InitializeGrid() returns (thrown: bool)
      modifies this`grid
      ensures old(Valid()) ==> Valid()
      ensures thrown <==> rows > 0 && cols < 0
      ensures thrown ==> grid == old(grid)
      ensures !thrown ==> fresh(grid) && grid.Length0 == (if rows > 0 then rows else 0)
      ensures !thrown && rows > 0 ==> grid.Length1 == cols
      ensures !thrown ==> forall i, j :: 0 <= i < grid.Length0 && 0 <= j < grid.Length1 ==> grid[i, j] == Blank
    {
      if rows > 0 && cols < 0 {
        return true;
      }
      thrown := false;
      if rows <= 0 {
        grid := new Cell[0, 0];
      } else {
        grid := new Cell[rows, cols]((i, j) => Blank);
      }
    }

    /** `handleCellInput`: the one cell is written in place, every other cell
        is kept. Saved puzzles are unaffected only as long as none of them
        shares this grid. */
    method HandleCellInput(r: nat, c: nat, input: CellInput)
      requires r < grid.Length0 && c < grid.Length1
      modifies grid
      ensures grid[r, c] == AfterInput(old(grid[r, c]), input)
      ensures forall i, j :: 0 <= i < grid.Length0 && 0 <= j < grid.Length1 && (i, j) != (r, c) ==>
        grid[i, j] == old(grid[i, j])
      ensures old(Valid()) ==> Valid() && Persisted() == old(Persisted())
    {
      grid[r, c] := AfterInput(grid[r, c], input);
    }

    /** `savePuzzle`, with the shape check and with the entry holding its own
        copy of the grid: a refused save changes nothing; an accepted one
        appends the puzzle, with the current size, cells and rule, after all
        earlier entries and writes the catalog to storage. */
    method SavePuzzle(id: int) returns (saved: bool)
      requires Valid()
      modifies this`savedPuzzles, this`stored
      ensures Valid()
      ensures saved == AcceptsShaped(Snapshot(grid), rows, cols)
      ensures !saved ==> savedPuzzles == old(savedPuzzles) && stored == old(stored)
      ensures saved ==>
        stored == old(stored) + [Puzzle(id, rows, cols, cellWidth, cellHeight, Snapshot(grid), rule)]
      ensures saved ==> CountBlanks(Flat(Snapshot(grid))) == 1 && TilesDistinct(Flat(Snapshot(grid)))
    {
      ghost var g := Snapshot(grid);
      if !AcceptsShaped(Snapshot(grid), rows, cols) {
        return false;
      }
      assert CountBlanks(Flat(g)) == 1 && TilesDistinct(Flat(g)) by {
        AcceptsShapedIff(g, rows, cols);
      }
      var copy := CopyGrid(Snapshot(grid));
      Append(Entry(id, rows, cols, cellWidth, cellHeight, copy, rule));
      saved := true;
    }

    /** `savePuzzle` as written: the size check trusts `rows` and `cols`, and
        the new entry refers to the grid being edited, so later edits reach
        into it. */
    method SavePuzzleSharingGrid(id: int) returns (saved: bool)
      modifies this`savedPuzzles, this`stored
      ensures saved == Accepts(Snapshot(grid), rows, cols)
      ensures !saved ==> savedPuzzles == old(savedPuzzles) && stored == old(stored)
      ensures saved ==>
        savedPuzzles == old(savedPuzzles) + [Entry(id, rows, cols, cellWidth, cellHeight, grid, rule)] &&
        stored == old(Persisted()) + [Puzzle(id, rows, cols, cellWidth, cellHeight, Snapshot(grid), rule)]
    {
      if !Accepts(Snapshot(grid), rows, cols) {
        return false;
      }
      Append(Entry(id, rows, cols, cellWidth, cellHeight, grid, rule));
      saved := true;
    }

    /** The tail of `savePuzzle`: the entry goes after all earlier ones and
        the whole catalog is written to storage. */
    method Append(entry: Entry)
      modifies this`savedPuzzles, this`stored
      ensures savedPuzzles == old(savedPuzzles) + [entry]
      ensures stored == old(Persisted()) + [Persist(entry)]
      ensures old(Valid()) && entry.grid != grid ==> Valid()
    {
      PersistAllAppend(savedPuzzles, entry);
      GridsOfAppend(savedPuzzles, entry);
      savedPuzzles := savedPuzzles + [entry];
      stored := PersistAll(savedPuzzles);
    }
  }

  /** The grid the author saves first in the scenarios below passes the
      check. */
  lemma FirstGridAccepted(g: Grid)
    requires g == [[Blank, Tile(1)], [Tile(2), Tile(3)]]
    ensures AcceptsShaped(g, 2, 2)
  {
    TwoByTwo(g);
    assert TileValues(Flat(g)) == {1, 2, 3};
  }

  /** So does the grid after the top row is changed to [4, _]. */
  lemma SecondGridAccepted(g: Grid)
    requires g == [[Tile(4), Blank], [Tile(2), Tile(3)]]
    ensures AcceptsShaped(g, 2, 2)
  {
    TwoByTwo(g);
    assert TileValues(Flat(g)) == {4, 2, 3};
  }

  lemma SnapshotTwoByTwo(a: array2<Cell>, x00: Cell, x01: Cell, x10: Cell, x11: Cell)
    requires a.Length0 == 2 && a.Length1 == 2
    requires a[0, 0] == x00 && a[0, 1] == x01 && a[1, 0] == x10 && a[1, 1] == x11
    ensures Snapshot(a) == [[x00, x01], [x10, x11]]
  {
    SnapshotCells(a, [[x00, x01], [x10, x11]]);
  }

  lemma CellsOfTwoByTwo(a: array2<Cell>, x00: Cell, x01: Cell, x10: Cell, x11: Cell)
    requires Snapshot(a) == [[x00, x01], [x10, x11]]
    ensures a.Length0 == 2 && a.Length1 == 2
    ensures a[0, 0] == x00 && a[0, 1] == x01 && a[1, 0] == x10 && a[1, 1] == x11
  {
    var g := Snapshot(a);
    assert |g| == a.Length0 && |g[0]| == a.Length1;
    assert At(g, Pos(0, 0)) == a[0, 0] && At(g, Pos(0, 1)) == a[0, 1];
    assert At(g, Pos(1, 0)) == a[1, 0] && At(g, Pos(1, 1)) == a[1, 1];
  }

  /** The author sets a 2 x 2 size, rebuilds the grid and fills it as
      [[_, 1], [2, 3]]. */
  method FillExample(d: Dashboard)
    requires d.Valid()
    modifies d
    ensures d.Valid() && fresh(d.grid)
    ensures d.rows == 2 && d.cols == 2 && Snapshot(d.grid) == [[Blank, Tile(1)], [Tile(2), Tile(3)]]
    ensures d.savedPuzzles == old(d.savedPuzzles) && d.stored == old(d.stored)
    ensures d.cellWidth == old(d.cellWidth) && d.cellHeight == old(d.cellHeight) && d.rule == old(d.rule)
  {
    d.SetRows(2);
    d.SetCols(2);
    var thrown := d.InitializeGrid();
    d.HandleCellInput(0, 1, Numeric(1));
    d.HandleCellInput(1, 0, Numeric(2));
    d.HandleCellInput(1, 1, Numeric(3));
    SnapshotTwoByTwo(d.grid, Blank, Tile(1), Tile(2), Tile(3));
  }

  /** The author then changes the top row to [4, _]. */
  method RetouchTopRow(d: Dashboard)
    requires Snapshot(d.grid) == [[Blank, Tile(1)], [Tile(2), Tile(3)]]
    modifies d.grid
    ensures Snapshot(d.grid) == [[Tile(4), Blank], [Tile(2), Tile(3)]]
    ensures old(d.Valid()) ==> d.Valid() && d.Persisted() == old(d.Persisted())
  {
    CellsOfTwoByTwo(d.grid, Blank, Tile(1), Tile(2), Tile(3));
    d.HandleCellInput(0, 0, Numeric(4));
    d.HandleCellInput(0, 1, EmptyText);
    SnapshotTwoByTwo(d.grid, Tile(4), Blank, Tile(2), Tile(3));
  }

  /** The author fills a 2 x 2 grid as [[_, 1], [2, 3]], saves it, changes the
      top row to [4, _] and saves again. Returns what storage holds for the
      first puzzle after each save, with the save as written. */
  method EditAfterSharedSave() returns (d: Dashboard, first: Puzzle, later: Puzzle)
    ensures first.id == 1 && later.id == 1
    ensures first.grid == [[Blank, Tile(1)], [Tile(2), Tile(3)]]
    ensures |d.stored| == 2 && later == d.stored[0]
    ensures later.grid == [[Tile(4), Blank], [Tile(2), Tile(3)]]
  {
    d := new Dashboard([]);
    FillExample(d);
    FirstGridAccepted(Snapshot(d.grid));
    var saved := d.SavePuzzleSharingGrid(1);
    ghost var entry := d.savedPuzzles[0];
    assert entry.grid == d.grid && entry.id == 1;
    first := d.stored[0];
    assert first == Persist(entry);
    RetouchTopRow(d);
    SecondGridAccepted(Snapshot(d.grid));
    saved := d.SavePuzzleSharingGrid(2);
    assert d.savedPuzzles[0] == entry;
    later := d.stored[0];
    assert later == Persist(entry);
  }

  /** The same session with the corrected save: the first puzzle stays as
      it was saved. */
  method EditAfterCopiedSave() returns (d: Dashboard, first: Puzzle, later: Puzzle)
    ensures first.id == 1 && later.id == 1
    ensures first.grid == [[Blank, Tile(1)], [Tile(2), Tile(3)]]
    ensures |d.stored| == 2 && later == d.stored[0] && later == first
  {
    d := new Dashboard([]);
    first := SaveThenRetouch(d);
    SecondGridAccepted(Snapshot(d.grid));
    var saved := d.SavePuzzle(2);
    later := d.stored[0];
  }

  /** The first half of the session above: fill, save with the copying
      save, and change the top row. */
  method SaveThenRetouch(d: Dashboard) returns (first: Puzzle)
    requires d.Valid() && d.stored == []
    modifies d
    ensures d.Valid() && d.stored == [first]
    ensures first.id == 1 && first.grid == [[Blank, Tile(1)], [Tile(2), Tile(3)]]
    ensures d.rows == 2 && d.cols == 2 && Snapshot(d.grid) == [[Tile(4), Blank], [Tile(2), Tile(3)]]
  {
    FillExample(d);
    FirstGridAccepted(Snapshot(d.grid));
    var saved := d.SavePuzzle(1);
    first := d.stored[0];
    RetouchTopRow(d);
  }
}
