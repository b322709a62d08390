/** Solved-state evaluation: the default rule stored with new puzzles, how an
    evaluation outcome becomes the player's message, and how a stored rule
    text is run. Rule texts other than the default one are author code that
    only a JavaScript interpreter can run; that interpreter is a parameter. */
module Rules {
  import opened Grids
  import opened Validation

  /** The rule text every new puzzle starts with. */
  const DefaultRuleText: string :=
    "function evaluate(grid) { const flat = grid.flat(); return flat.every((x, i) => x === null || x === i); }"

  /** Every cell from `k` on is blank or carries its flat index. */
  predicate IdentityFrom(flat: seq<Cell>, k: nat) {
    forall i :: k <= i < |flat| ==> flat[i] == Blank || flat[i] == Tile(i)
  }

  /** `flat.every((x, i) => x === null || x === i)`, from index `k` on: it
      succeeds exactly when every cell from `k` on is blank or carries its
      own index. */
  function EveryFrom(flat: seq<Cell>, k: nat): (r: bool)
    ensures r <==> IdentityFrom(flat, k)
    decreases |flat| - k
  {
    k >= |flat| || ((flat[k] == Blank || flat[k] == Tile(k)) && EveryFrom(flat, k + 1))
  }

  /** What the default rule text computes for a grid. A grid it accepts never
      carries the same tile twice. */
  function DefaultRule(g: Grid): (r: bool)
    ensures r ==> TilesDistinct(Flat(g))
  {
    EveryFrom(Flat(g), 0)
  }

  /** Tiles as the builder writes them: positive numbers. */
  predicate PositiveTiles(s: seq<Cell>) {
    forall i :: 0 <= i < |s| && s[i].Tile? ==> s[i].v > 0
  }

  /** The only arrangement of `n` cells the default rule calls solved when
      there is one blank: the blank first, then tiles 1 .. n - 1. */
  function SolvedCells(n: nat): seq<Cell> {
    seq(n, i => if i == 0 then Blank else Tile(i))
  }

  /** For a grid with one blank and positive tiles, the default rule accepts
      exactly one arrangement; in particular the blank must be in the top
      left corner, and a valid puzzle whose tiles are not 1 .. n - 1 can
      never be solved under it. */
  lemma {:induction false} DefaultRuleSolvedArrangement(g: Grid)
    requires CountBlanks(Flat(g)) == 1 && PositiveTiles(Flat(g))
    ensures DefaultRule(g) <==> Flat(g) == SolvedCells(|Flat(g)|)
  {
    var s := Flat(g);
    if DefaultRule(g) {
      assert s[0] == Blank;
      assert CountBlanks(s[1..]) == 0;
      NoBlankCounted(s[1..]);
      forall i | 0 <= i < |s| ensures s[i] == SolvedCells(|s|)[i] {
        if i > 0 {
          assert s[i] == s[1..][i - 1];
        }
      }
    }
  }

  /** A solved 2 x 2 arrangement: blank at flat index 0, tiles 1, 2, 3. */
  lemma SolvedExample()
    ensures DefaultRule([[Blank, Tile(1)], [Tile(2), Tile(3)]])
  {
    var g := [[Blank, Tile(1)], [Tile(2), Tile(3)]];
    assert Flat(g) == [Blank, Tile(1), Tile(2), Tile(3)] by {
      assert Flat(g[1..]) == g[1] + Flat(g[1..][1..]);
    }
  }

  /** An unsolved arrangement: tile 1 sits at flat index 0. */
  lemma UnsolvedExample()
    ensures !DefaultRule([[Tile(1), Tile(2)], [Tile(3), Blank]])
  {
    var g := [[Tile(1), Tile(2)], [Tile(3), Blank]];
    assert Flat(g)[0] == Tile(1);
  }

  /** What running a rule gives back: a value, which counts by its JavaScript
      truthiness, or a thrown error (the rule did not build or failed). */
  datatype Outcome = Returned(truthy: bool) | Threw

  /** Runs author rule text other than the default one on a grid. */
  type Interpreter = (string, Grid) -> Outcome

  const SolvedMessage: string := "Puzzle solved successfully!"
  const IncorrectMessage: string := "Incorrect solution. Try again."
  const ErrorMessage: string := "Error in evaluation function. Please check the function code."

  /** The message shown for an outcome. The three outcomes give three
      different messages, so a failed rule is never reported as an
      incorrect solution. */
  function Feedback(o: Outcome): (m: string)
    ensures m == SolvedMessage <==> o == Returned(true)
    ensures m == IncorrectMessage <==> o == Returned(false)
    ensures m == ErrorMessage <==> o == Threw
  {
    match o
    case Returned(t) => if t then SolvedMessage else IncorrectMessage
    case Threw => ErrorMessage
  }

  /** Running a stored rule as the play page does: the text becomes the BODY
      of a one-argument function of `grid`, which is then called. The default
      text, used as a body, only declares a nested function `evaluate` and
      never calls it, so the call returns undefined, which is falsy. */
  function RunAsWritten(rule: string, g: Grid, interp: Interpreter): (r: Outcome)
    ensures rule != DefaultRuleText ==> r == Run(rule, g, interp)
    ensures rule == DefaultRuleText ==> r != Returned(true)
  {
    if rule == DefaultRuleText then Returned(false) else interp(rule, g)
  }

  /** Running a stored rule with the default text corrected: that text is
      run as the function it defines, which is DefaultRule. Every other
      text is run exactly as the play page runs it, by the interpreter. */
  function Run(rule: string, g: Grid, interp: Interpreter): (r: Outcome)
    ensures rule == DefaultRuleText ==> r.Returned? && (r.truthy <==> IdentityFrom(Flat(g), 0))
  {
    if rule == DefaultRuleText then Returned(DefaultRule(g)) else interp(rule, g)
  }

  /** As written, the default rule reports every grid as an incorrect
      solution, including the arrangement it was written to accept. */
  lemma DefaultTextNeverSolvesAsWritten(g: Grid, interp: Interpreter)
    ensures Feedback(RunAsWritten(DefaultRuleText, g, interp)) == IncorrectMessage
    ensures var solved := [[Blank, Tile(1)], [Tile(2), Tile(3)]];
      DefaultRule(solved) && Feedback(RunAsWritten(DefaultRuleText, solved, interp)) != SolvedMessage
  {
    SolvedExample();
  }

  /** Run reports the default rule's verdict: solved exactly when every
      position holds the blank or its own index, incorrect otherwise, and
      never an evaluation error; for a grid the builder accepts, solved
      exactly in the blank-first arrangement 1 .. n - 1. */
  lemma DefaultTextVerdict(g: Grid, interp: Interpreter)
    ensures Feedback(Run(DefaultRuleText, g, interp)) == SolvedMessage <==> IdentityFrom(Flat(g), 0)
    ensures Feedback(Run(DefaultRuleText, g, interp)) != ErrorMessage
    ensures CountBlanks(Flat(g)) == 1 && PositiveTiles(Flat(g)) ==>
      (Feedback(Run(DefaultRuleText, g, interp)) == SolvedMessage <==> Flat(g) == SolvedCells(|Flat(g)|))
  {
    if CountBlanks(Flat(g)) == 1 && PositiveTiles(Flat(g)) {
      DefaultRuleSolvedArrangement(g);
    }
  }
}
