/** The play page: locating the blank, the move engine, and a play session
    that holds a working copy of a saved puzzle's grid. */
module Play {
  import opened Grids
  import opened Validation
  import opened Rules
  import opened Catalog

  /** Cell (i, j) comes at or after (r, c) in row-major order. */
  predicate AtOrAfter(r: nat, c: nat, i: nat, j: nat) {
    r < i || (r == i && c <= j)
  }

  /** No cell from (r, c) on, in row-major order, is blank. */
  predicate NoBlankFrom(g: Grid, r: nat, c: nat) {
    forall i, j :: 0 <= i < |g| && 0 <= j < |g[i]| && AtOrAfter(r, c, i, j) ==> g[i][j] != Blank
  }

  /** `p` is a blank at or after (r, c), and no cell from (r, c) up to `p` is. */
  predicate FirstBlankAt(g: Grid, r: nat, c: nat, p: Pos) {
    InBounds(g, p) && At(g, p) == Blank && AtOrAfter(r, c, p.row, p.col) &&
    forall i, j :: 0 <= i < |g| && 0 <= j < |g[i]| && AtOrAfter(r, c, i, j) && !AtOrAfter(p.row, p.col, i, j)
      ==> g[i][j] != Blank
  }

  /** The first blank from (r, c) on in row-major order, if any. */
  function FirstBlankFrom(g: Grid, r: nat, c: nat): (res: Option<Pos>)
    ensures res.Some? ==> FirstBlankAt(g, r, c, res.value)
    ensures res.None? <==> NoBlankFrom(g, r, c)
    decreases |g| - r, if r < |g| && c <= |g[r]| then |g[r]| - c else 0
  {
    if r >= |g| then None
    else if c >= |g[r]| then FirstBlankFrom(g, r + 1, 0)
    else if g[r][c] == Blank then Some(Pos(r, c))
    else FirstBlankFrom(g, r, c + 1)
  }

  /** `findEmptyCell`: scans rows top to bottom and each row left to right,
      and stops at the first blank. */
  method FindEmptyCell(g: Grid) returns (pos: Option<Pos>)
    ensures pos == FirstBlankFrom(g, 0, 0)
    ensures pos.Some? ==> FirstBlankAt(g, 0, 0, pos.value)
    ensures pos.None? <==> NoBlankFrom(g, 0, 0)
  {
    var row := 0;
    while row < |g|
      invariant row <= |g|
      invariant FirstBlankFrom(g, row, 0) == FirstBlankFrom(g, 0, 0)
    {
      var col := 0;
      while col < |g[row]|
        invariant col <= |g[row]|
        invariant FirstBlankFrom(g, row, col) == FirstBlankFrom(g, 0, 0)
      {
        if g[row][col] == Blank {
          return Some(Pos(row, col));
        }
        col := col + 1;
      }
      row := row + 1;
    }
    return None;
  }

  /** The move engine's state as a value: the grid and the cached position of
      the blank (`emptyCell`), which may be unset. */
  datatype Board = Board(grid: Grid, empty: Option<Pos>)

  /** Manhattan distance one: a shared edge, no diagonal. */
  function Adjacent(e: Pos, p: Pos): (r: bool)
    ensures r <==> p in {Pos(e.row + 1, e.col), Pos(e.row, e.col + 1)} ||
                   (e.row > 0 && p == Pos(e.row - 1, e.col)) || (e.col > 0 && p == Pos(e.row, e.col - 1))
  {
    var dx := Abs(p.row - e.row);
    var dy := Abs(p.col - e.col);
    (dx == 1 && dy == 0) || (dx == 0 && dy == 1)
  }

  /** The cached blank position lies in the grid and really holds the blank. */
  predicate Coherent(b: Board) {
    b.empty.Some? ==> InBounds(b.grid, b.empty.value) && At(b.grid, b.empty.value) == Blank
  }

  /** `handleMove`: a click on a cell next to the blank slides that tile into
      the blank; any other click, including one on the blank itself or one
      while no blank is known, changes nothing. */
  function Move(b: Board, p: Pos): (r: Board)
    requires InBounds(b.grid, p)
    requires b.empty.Some? ==> InBounds(b.grid, b.empty.value)
    ensures b.empty.None? || !Adjacent(b.empty.value, p) ==> r == b
    ensures b.empty.Some? && Adjacent(b.empty.value, p) ==>
      r.empty == Some(p) && |r.grid| == |b.grid| &&
      (forall i :: 0 <= i < |b.grid| ==> |r.grid[i]| == |b.grid[i]|) &&
      forall q :: InBounds(b.grid, q) ==>
        At(r.grid, q) == if q == b.empty.value then At(b.grid, p) else if q == p then Blank else At(b.grid, q)
  {
    match b.empty
    case None => b
    case Some(e) =>
      if Adjacent(e, p) then Board(Set(Set(b.grid, e, At(b.grid, p)), p, Blank), Some(p)) else b
  }

  /** A move keeps the cached blank on the blank and only rearranges the
      cells: the multiset of cells, and so the number of blanks, is kept. */
  lemma MoveKeepsCoherent(b: Board, p: Pos)
    requires Coherent(b) && InBounds(b.grid, p)
    ensures Coherent(Move(b, p))
    ensures multiset(Flat(Move(b, p).grid)) == multiset(Flat(b.grid))
    ensures CountBlanks(Flat(Move(b, p).grid)) == CountBlanks(Flat(b.grid))
  {
    if b.empty.Some? && Adjacent(b.empty.value, p) {
      SlideKeepsCells(b.grid, b.empty.value, p);
    }
    CountBlanksMultiplicity(Flat(Move(b, p).grid));
    CountBlanksMultiplicity(Flat(b.grid));
  }

  /** Writing the tile at `p` into the blank at `e` and then the blank into
      `p` keeps the multiset of cells. */
  lemma SlideKeepsCells(g: Grid, e: Pos, p: Pos)
    requires InBounds(g, e) && InBounds(g, p) && At(g, e) == Blank
    ensures multiset(Flat(Set(Set(g, e, At(g, p)), p, Blank))) == multiset(Flat(g))
  {
    var v := At(g, p);
    var g1 := Set(g, e, v);
    FlatSetMultiset(g, e, v);
    FlatSetMultiset(g1, p, Blank);
    FlatHas(g, e);
    assert At(g1, p) == v;
    PutBack(multiset(Flat(g)), Blank, v);
  }

  /** Taking `x` out for `v` and then `v` out for `x` gives the multiset back. */
  lemma PutBack(m: multiset<Cell>, x: Cell, v: Cell)
    requires x in m
    ensures m - multiset{x} + multiset{v} - multiset{v} + multiset{x} == m
  {
  }

  /** A legal move undone by a click on the old blank restores the grid and
      the cached blank exactly. */
  lemma MoveBack(b: Board, p: Pos)
    requires Coherent(b) && InBounds(b.grid, p)
    requires b.empty.Some? && Adjacent(b.empty.value, p)
    ensures Move(Move(b, p), b.empty.value) == b
  {
    var e := b.empty.value;
    var b1 := Move(b, p);
    var b2 := Move(b1, e);
    assert Adjacent(p, e);
    SameCells(b2.grid, b.grid);
  }

  /** The cached blank is the real blank, and once a puzzle is loaded the
      board is a rearrangement of that puzzle's grid. */
  ghost predicate Playable(puzzle: Option<Puzzle>, b: Board) {
    Coherent(b) &&
    (puzzle.Some? ==> IsRectangular(puzzle.value.grid) &&
                      multiset(Flat(b.grid)) == multiset(Flat(puzzle.value.grid)))
  }

  /** Moves keep a board playable. */
  lemma MoveKeepsPlayable(puzzle: Option<Puzzle>, b: Board, p: Pos)
    requires Playable(puzzle, b) && InBounds(b.grid, p)
    ensures Playable(puzzle, Move(b, p))
  {
    MoveKeepsCoherent(b, p);
  }

  /** A play session: the puzzle being played, the working grid, the cached
      blank position and the feedback message. */
  class Session {
    var puzzle: Option<Puzzle>
    var grid: array2<Cell>
    var emptyCell: Option<Pos>
    var message: string

    /** The move engine's state held by this session. */
    function State(): Board
      reads this, grid
    {
      Board(Snapshot(grid), emptyCell)
    }

    /** The cached blank is the real blank, and once a puzzle is loaded the
        working grid is a rearrangement of that puzzle's grid. */
    ghost predicate Valid()
      reads this, grid
    {
      Playable(puzzle, State())
    }

    /** A session before any puzzle is found: an empty grid, no blank, no
        message. */
    constructor ()
      ensures Valid()
      ensures puzzle.None? && grid.Length0 == 0 && emptyCell.None? && message == ""
    {
      puzzle := None;
      grid := new Cell[0, 0];
      emptyCell := None;
      message := "";
    }

    /** Loading the puzzle named by the page address: when the catalog has an
        entry with that identifier, the first such entry is played on a
        fresh copy of its grid; otherwise the puzzle is unset and the rest of
        the session is left as it was. */
    method Open(catalog: seq<Puzzle>, id: int)
      requires Valid() && WellShaped(catalog)
      modifies this
      ensures Valid()
      ensures puzzle == Lookup(catalog, id)
      ensures message == old(message)
      ensures puzzle.Some? ==>
        fresh(grid) && Snapshot(grid) == puzzle.value.grid &&
        emptyCell == FirstBlankFrom(puzzle.value.grid, 0, 0)
      ensures puzzle.None? ==> grid == old(grid) && unchanged(grid) && emptyCell == old(emptyCell)
    {
      var found := Lookup(catalog, id);
      if found.Some? {
        var p := found.value;
        puzzle := found;
        grid := CopyGrid(p.grid);
        emptyCell := FindEmptyCell(p.grid);
      } else {
        puzzle := None;
      }
    }

    /** `handleMove` on the session's own grid: the two cells are written in
        place and the cached blank follows the tile's old position. */
    method HandleMove(row: nat, col: nat)
      requires Valid() && row < grid.Length0 && col < grid.Length1
      modifies this`emptyCell, grid
      ensures Valid()
      ensures State() == Move(old(State()), Pos(row, col))
      ensures puzzle == old(puzzle) && message == old(message)
    {
      ghost var b := State();
      var p := Pos(row, col);
      MoveKeepsPlayable(puzzle, b, p);
      if emptyCell.None? {
        return;
      }
      var e := emptyCell.value;
      var dx := Abs(row - e.row);
      var dy := Abs(col - e.col);
      if (dx == 1 && dy == 0) || (dx == 0 && dy == 1) {
        Slide(e, p);
        emptyCell := Some(p);
        assert State() == Move(b, p);
      } else {
        assert !Adjacent(e, p);
      }
    }

    /** Moves the tile at `p` into the blank at `e`, in place. */
    method Slide(e: Pos, p: Pos)
      requires e.row < grid.Length0 && e.col < grid.Length1
      requires p.row < grid.Length0 && p.col < grid.Length1
      modifies grid
      ensures Snapshot(grid) == Set(Set(old(Snapshot(grid)), e, old(grid[p.row, p.col])), p, Blank)
    {
      ghost var g := Snapshot(grid);
      ghost var target := Set(Set(g, e, At(g, p)), p, Blank);
      grid[e.row, e.col] := grid[p.row, p.col];
      grid[p.row, p.col] := Blank;
      forall q | InBounds(target, q) ensures At(target, q) == grid[q.row, q.col] {
        if q != e && q != p {
          assert At(target, q) == At(g, q);
        }
      }
      SnapshotCells(grid, target);
    }

    /** `resetPuzzle`: a fresh copy of the saved grid, the blank located again
        and the message cleared, whatever moves came before; without a
        puzzle, nothing happens. */
    method Reset()
      requires Valid()
      modifies this
      ensures Valid()
      ensures puzzle == old(puzzle)
      ensures puzzle.None? ==>
        grid == old(grid) && unchanged(grid) && emptyCell == old(emptyCell) && message == old(message)
      ensures puzzle.Some? ==>
        fresh(grid) && Snapshot(grid) == puzzle.value.grid &&
        emptyCell == FirstBlankFrom(puzzle.value.grid, 0, 0) && message == ""
    {
      if puzzle.None? {
        return;
      }
      var p := puzzle.value;
      grid := CopyGrid(p.grid);
      emptyCell := FindEmptyCell(p.grid);
      message := "";
    }

    /** `checkSolution` with the default rule text corrected (`Run`): the
        default text is run as the function it defines, every other text as
        the page runs it. Shows solved, incorrect or evaluation error for
        the working grid; the grid and the cached blank are not touched, and
        without a puzzle nothing happens. */
    method CheckSolution(interp: Interpreter)
      requires Valid()
      modifies this`message
      ensures Valid()
      ensures State() == old(State())
      ensures puzzle.None? ==> message == old(message)
      ensures puzzle.Some? ==> message == Feedback(Run(puzzle.value.rule, Snapshot(grid), interp))
    {
      if puzzle.None? {
        return;
      }
      var outcome := Run(puzzle.value.rule, Snapshot(grid), interp);
      message := Feedback(outcome);
    }

    /** `checkSolution` as written: the rule text is run as a function body,
        so the default text reports every grid as an incorrect solution. */
    method CheckSolutionAsWritten(interp: Interpreter)
      requires Valid()
      modifies this`message
      ensures Valid()
      ensures State() == old(State())
      ensures puzzle.None? ==> message == old(message)
      ensures puzzle.Some? ==> message == Feedback(RunAsWritten(puzzle.value.rule, Snapshot(grid), interp))
      ensures puzzle.Some? && puzzle.value.rule == DefaultRuleText ==> message == IncorrectMessage
    {
      if puzzle.None? {
        return;
      }
      var outcome := RunAsWritten(puzzle.value.rule, Snapshot(grid), interp);
      message := Feedback(outcome);
    }
  }
}
