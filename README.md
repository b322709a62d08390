# Sliding-grid puzzle: builder and play page

This project models the two pages of a browser sliding-tile puzzle.

On the builder page (`Dashboard`), an author:
- sets a size and rebuilds an all-blank grid;
- types numbers into the cells;
- saves the grid with its size, cell sizes and a rule text into a catalog that is written to storage as a whole.

On the play page (`Puzzle`), the puzzle named by the page address is looked up and played on a copy of its grid:
- a click next to the blank slides that tile into it;
- "reset" restores the saved arrangement;
- "submit" runs the rule text and shows one of three messages.

Modules:
- `Grids`: cells (a tile or the blank), positions, grids as values, row-major flattening, and the value of a grid held in a two-dimensional array.
- `Validation`: the save-time check, as written and with the shape test it relies on.
- `Rules`: the default rule text, what it computes, how a rule's outcome becomes the player's message, and how a rule text is run. Rule texts other than the default are author JavaScript, so the interpreter that runs them is a parameter. `RunAsWritten` runs a text the way the play page does. `Run` differs from it only on the default text, which it runs as the function that text defines; every other text goes to the same interpreter, as on the page.
- `Catalog`: the stored puzzle record and lookup by identifier.
- `Play`:
  - the row-major scan for the blank;
  - the move engine on values (`Board`, `Move`);
  - the class `Session`, which holds the working grid in an array and moves tiles in place.
- `Builder`:
  - how a typed cell text changes a cell;
  - the class `Dashboard`, which holds the grid being edited in an array, the in-memory entries (which refer to grid objects) and what storage holds;
  - two scripted author sessions that contrast the save as written with the corrected save.

Where the source has a defect, the model keeps both behaviours side by side: the code as written, and a corrected version (see "## Findings").
- Rule checking. The default rule text defines a function `evaluate` that accepts `[[_, 1], [2, 3]]`. The play page runs that text as a function body, so the arrangement is reported as incorrect (finding 1). `Play.Session.CheckSolutionAsWritten` models the page as written, with `Rules.RunAsWritten`. `Play.Session.CheckSolution` uses `Rules.Run`, which corrects only the default text, running it as the function it defines; every other text is run as the page runs it. This matches a fix that rewrites the default text so that, used as a function body, it returns the verdict.
- Saving. `Builder.Dashboard.SavePuzzleSharingGrid` is the save as written. `Builder.Dashboard.SavePuzzle` adds the shape test (finding 2) and stores a copy of the grid (finding 3).

## Model

| member | source | states |
|---|---|---|
| Grids.CopyGrid | src/components/Puzzle.js:16 | the deep copy of a stored grid is a fresh array whose value is that grid |
| Validation.Accepts | src/components/Dashboard.js:38-41 | the check as written: one blank and `rows * cols - 1` distinct values, with the size taken from the size fields; when it passes, the declared size is positive and at most the number of cells present |
| Validation.AcceptsShaped | src/components/Dashboard.js:38-41 | the check with the shape test: the grid has `rows` rows of `cols` cells and passes the check; when it passes, there is one blank, the tiles are distinct and there are `rows * cols` cells |
| Validation.AcceptsShapedIff | src/components/Dashboard.js:38-41 | for a grid of the declared shape, the check passes exactly when there is one blank and no tile value repeats |
| Validation.FullValuesDistinct | src/components/Dashboard.js:39-41 | as many distinct values as tiles means no tile value occurs twice |
| Validation.DistinctValuesFull | src/components/Dashboard.js:39-41 | tiles with pairwise different values give as many distinct values as tiles |
| Validation.MismatchedShapeAccepted | src/components/Dashboard.js:38-41 | as written, a 3 x 3 grid with repeated tiles passes when the declared size is 2 x 2, and fails the shape-checked test |
| Validation.TwoBlanksRejected | src/components/Dashboard.js:38-41 | a 2 x 2 grid with two blanks is refused |
| Validation.RepeatedValueRejected | src/components/Dashboard.js:38-41 | a 2 x 2 grid whose tiles are 1, 1, 2 is refused, because the value set has two members and not three |
| Rules.EveryFrom | src/components/Dashboard.js:10 | the `every` scan from index k succeeds exactly when every cell from k on is blank or carries its own index |
| Rules.DefaultRule | src/components/Dashboard.js:10 | what the default text computes: `every` over the row-major cells from index 0; a grid it accepts never carries the same tile twice |
| Rules.DefaultRuleSolvedArrangement | src/components/Dashboard.js:10 | with one blank and positive tiles, the default rule accepts exactly one arrangement: blank first, then tiles 1 .. n - 1 |
| Rules.SolvedExample | src/components/Dashboard.js:10 | the default rule holds for `[[_, 1], [2, 3]]` |
| Rules.UnsolvedExample | src/components/Dashboard.js:10 | the default rule fails for `[[1, 2], [3, _]]` |
| Rules.RunAsWritten | src/components/Puzzle.js:52-53 | the text run as a function body: for every text other than the default it agrees with `Run`; for the default text it is never truthy |
| Rules.Run | src/components/Puzzle.js:52-53 | corrected for the default text only: that text returns, and is truthy exactly when every position holds the blank or its own index; every other text is run by the same interpreter as in `RunAsWritten` |
| Rules.Feedback | src/components/Puzzle.js:54-56 | a truthy result gives the solved message, a falsy one the incorrect message, a throw the error message, each in both directions |
| Rules.DefaultTextNeverSolvesAsWritten | src/components/Puzzle.js:52-54 | run as a function body, the default text reports every grid as incorrect, including one the default rule accepts |
| Rules.DefaultTextVerdict | src/components/Puzzle.js:52-54 | run as the function it defines, the default text reports solved exactly when every position holds the blank or its own index, and never reports an error; for a grid with one blank and positive tiles, solved exactly in the arrangement blank, 1, .., n - 1 |
| Catalog.Lookup | src/components/Puzzle.js:13 | the result is the first entry with the identifier; there is none exactly when no entry has it |
| Play.FirstBlankFrom | src/components/Puzzle.js:24-31 | the first blank at or after a position in row-major order, or none exactly when no blank comes there |
| Play.FindEmptyCell | src/components/Puzzle.js:24-31 | the nested scan returns the first blank in row-major order, or nothing exactly when the grid has no blank |
| Play.Adjacent | src/components/Puzzle.js:36-39 | distance one in row or column but not both: exactly the four edge neighbours of the blank that lie in the non-negative quadrant |
| Play.Move | src/components/Puzzle.js:33-46 | without a known blank, or for a cell that is not edge-adjacent to it, nothing changes; otherwise the tile moves into the blank, the clicked cell becomes blank, the blank follows, and all other cells keep their values |
| Play.MoveKeepsCoherent | src/components/Puzzle.js:39-45 | after a move the cached blank still lies on the blank; the multiset of cells, and so the number of blanks, is kept |
| Play.SlideKeepsCells | src/components/Puzzle.js:41-42 | the two writes of a slide keep the multiset of cells |
| Play.MoveKeepsPlayable | src/components/Puzzle.js:39-45 | a move keeps the board a rearrangement of the loaded puzzle's grid, with the cached blank on the blank |
| Play.MoveBack | src/components/Puzzle.js:36-45 | a legal move followed by a click on the old blank restores the grid and the cached blank |
| Play.Session.CheckSolutionAsWritten | src/components/Puzzle.js:48-58 | as written: the message is the feedback for running the rule as a function body; with the default text it is always the incorrect-solution message; grid and blank are untouched; without a puzzle nothing changes |
| Play.Session.constructor | src/components/Puzzle.js:6-9 | no puzzle, an empty grid, no cached blank, an empty message |
| Play.Session.Open | src/components/Puzzle.js:11-22 | the puzzle becomes the lookup result; if one is found, a fresh copy of its grid is played and the cached blank is its first blank; if none is found, grid and blank are left as they were |
| Play.Session.HandleMove | src/components/Puzzle.js:33-46 | the new grid and cached blank are what `Move` gives for the old ones; the session stays a rearrangement of its puzzle |
| Play.Session.Slide | src/components/Puzzle.js:40-42 | in place, the clicked tile is copied into the blank and the clicked cell is cleared |
| Play.Session.Reset | src/components/Puzzle.js:60-66 | with a puzzle: a fresh copy of the saved grid, its first blank cached, the message cleared; without one: nothing changes |
| Play.Session.CheckSolution | src/components/Puzzle.js:48-58 | corrected run (`Rules.Run`: the default text is run as the function it defines, every other text as the page runs it): the message is the feedback for running the puzzle's rule on the working grid; grid and blank are untouched; without a puzzle nothing changes |
| Builder.AfterInput | src/components/Dashboard.js:29-33 | an empty text clears the cell; a positive number sets it; anything else leaves it as it was |
| Builder.Persist | src/components/Dashboard.js:59 | an entry is stored as its fields with the current value of its grid object, whose rows all have the array's width |
| Builder.PersistAll | src/components/Dashboard.js:59 | the catalog is stored entry by entry, one record per entry, in order |
| Builder.PersistedWellShaped | src/components/Dashboard.js:59 | every stored grid has rows of equal length, so the play page can open it, and each record keeps its entry's identifier |
| Builder.PersistAllAppend | src/components/Dashboard.js:58-59 | writing a catalog with an entry appended gives the earlier records followed by the new one |
| Builder.GridsOfAppend | src/components/Dashboard.js:58 | appending an entry adds exactly its grid object to the grids the catalog refers to |
| Builder.Dashboard.constructor | src/components/Dashboard.js:4-18 | size 3 x 3, 50 px cells, the default rule, the loaded catalog, and a fresh all-blank 3 x 3 grid; storage agrees with the catalog |
| Builder.Dashboard.SetRows | src/components/Dashboard.js:76 | the row count takes the typed value; the grid is not rebuilt |
| Builder.Dashboard.SetCols | src/components/Dashboard.js:86 | the column count takes the typed value; the grid is not rebuilt |
| Builder.Dashboard.InitializeGrid | src/components/Dashboard.js:20-25 | callable in any state, including after the save as written; a fresh all-blank grid of the current size; no rows when the row count is not positive; a throw, leaving the grid as it was, exactly when there are rows and the column count is negative |
| Builder.Dashboard.HandleCellInput | src/components/Dashboard.js:27-35 | only the edited cell changes, as `AfterInput` says; the saved catalog is unaffected while no entry shares the grid |
| Builder.Dashboard.SavePuzzle | src/components/Dashboard.js:37-62 | saves exactly when the shape-checked test passes, and then the grid has one blank and distinct tiles; a refused save changes nothing; an accepted one appends the record with the current size, cells and rule, and storage matches the catalog |
| Builder.Dashboard.SavePuzzleSharingGrid | src/components/Dashboard.js:37-62 | as written: saves exactly when the unchecked-shape test passes, and the new entry refers to the grid being edited |
| Builder.Dashboard.Append | src/components/Dashboard.js:58-60 | the entry goes after all earlier ones and storage becomes the earlier catalog followed by its record |
| Builder.FirstGridAccepted | src/components/Dashboard.js:38-41 | `[[_, 1], [2, 3]]` passes the check as a 2 x 2 grid |
| Builder.SecondGridAccepted | src/components/Dashboard.js:38-41 | `[[4, _], [2, 3]]` passes the check as a 2 x 2 grid |
| Builder.EditAfterSharedSave | src/components/Dashboard.js:48-59 | as written: after saving `[[_, 1], [2, 3]]`, editing the grid and saving again, the dashboard's storage holds two records, and the first one (puzzle 1) holds the edited cells |
| Builder.EditAfterCopiedSave | src/components/Dashboard.js:48-59 | with the copying save, the dashboard's storage holds two records, and the first one (puzzle 1) is the same after the second save |
| Builder.SaveThenRetouch | src/components/Dashboard.js:27-62 | the first half of that session: storage holds just the saved `[[_, 1], [2, 3]]` as puzzle 1 while the grid is edited to `[[4, _], [2, 3]]` |

## Left out

- Rendering, styles, cell widths and heights as pixels, and links: display only. The cell sizes are carried as plain numbers.
- React state hooks and effects are not modelled as such. A hook setter becomes a field assignment. The mount effect becomes the constructor. The effect on the page address becomes `Session.Open`.
- Storage and JSON:
  - the catalog the builder reads at start is a constructor parameter, and the play page receives the stored list as a parameter;
  - a parse failure of stored text is not modelled;
  - serialisation is modelled as taking the value of each entry's grid.
- Number parsing of cell text. Cell text is given already classified as empty, numeric with an integer value, or anything else. Fractional numbers and the `isNaN` corner cases are not modelled.
- Builder.Dashboard.SetRows and Builder.Dashboard.SetCols take integers, but the size fields hold whatever `Number` makes of the typed text. Fractional or NaN sizes are not modelled. With a fraction, `Array.from` truncates the row count, `Array(cols)` throws for a fractional column count when at least one row is built, and `rows * cols - 1` may or may not be a whole number, so the check and the saved size fields are affected in ways the model does not follow.
- The page address identifier is given as an integer. The `Number(id)` conversion is not modelled.
- Identifiers from the clock are a parameter of the save. The alert dialogs are not modelled.
- Running author rule text. Any text other than the default is run by an `Interpreter` parameter. A rule that changes the grid it is given is not modelled, since the interpreter returns only an outcome.
- Play.Session.Open requires every stored grid to have rows of equal length. The working grid is a two-dimensional array, which cannot hold the ragged grids plain JSON arrays could. The builder only writes rectangular grids.
- Play.Session.HandleMove requires the clicked cell to lie in the grid, since the page only offers clicks on rendered cells.
- The builder's grid is a two-dimensional array, so the shallow `[...grid]` copy that shares row arrays is modelled as an update in place of the one array.
- The application shell and router (`src/App.js`) are not part of this model.

## Findings

| source | as written | input that shows it | evidently intended | confidence | as-written member | corrected member |
|---|---|---|---|---|---|---|
| src/components/Puzzle.js:52-54 with src/components/Dashboard.js:10 | the stored rule text is used as the body of a function of `grid`; the default text only declares a nested `evaluate` and never calls it, so the result is undefined and every grid is reported incorrect | default rule with grid `[[_, 1], [2, 3]]` | the function the text defines is called on the grid, so `[[_, 1], [2, 3]]` is reported solved | high; not executed | Rules.DefaultTextNeverSolvesAsWritten | Rules.DefaultTextVerdict |
| src/components/Dashboard.js:38-41 | the check compares the number of distinct values with `rows * cols - 1` from the size fields, and never looks at the grid's own shape | size fields 2 x 2 after a 3 x 3 grid `[[_, 1, 1], [1, 2, 2], [2, 3, 3]]` was built | the grid has the declared size, and then one blank with distinct tiles | high; not executed | Validation.MismatchedShapeAccepted | Validation.AcceptsShapedIff |
| src/components/Dashboard.js:48-59 with src/components/Dashboard.js:28-30 | the saved record refers to the grid object being edited, so later edits change the saved puzzle, and the next save writes the edited cells to storage | save `[[_, 1], [2, 3]]`, change the top row to `[4, _]`, save again | each saved puzzle keeps the cells it was saved with | high; not executed | Builder.EditAfterSharedSave | Builder.EditAfterCopiedSave |
