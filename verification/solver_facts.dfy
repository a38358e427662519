/** What `solve` promises about a puzzle string: it succeeds exactly when the clues have a
    solution, what it returns is one, and blanks of any kind are alike. */
module SolverFacts {
  import opened Wrappers
  import opened Topology
  import opened Boards
  import opened Propagation
  import opened Invariants
  import opened Parse
  import opened Solver
  import Solutions
  import SearchFacts

  /** The solution `g` agrees with every digit clue of the 81-character puzzle `str`. */
  predicate Agrees(g: Grid, str: string)
    requires |str| == 81
  {
    forall s: Square :: str[s] in DigitChars ==> g[s] == DigitOf(str[s])
  }

  /** The puzzle string whose every square is a clue, giving the digits of `g`. */
  function Render(g: Grid): (str: string)
    ensures |str| == 81 && forall s: Square :: str[s] in DigitChars && DigitOf(str[s]) == g[s]
  {
    seq(81, s requires 0 <= s < 81 => DigitChar(g[s]))
  }

  /** Soundness: a grid `solve` returns is a Sudoku solution that keeps every clue. */
  lemma SolveSound(str: string)
    requires Solve(str).Success?
    ensures |str| == 81 && ValidGrid(GridOf(Solve(str).value)) && Agrees(GridOf(Solve(str).value), str)
  {
    SolvedPropagatedValid(Solve(str).value);
  }

  lemma {:induction false} AssignCluesComplete(b: Board, clues: map<Square, char>, i: nat, g: Grid)
    requires i <= 81 && Propagated(b) && CluesHeld(b, clues, i)
    requires ValidGrid(g) && Consistent(g, b)
    requires forall s: Square :: IsClue(clues, s) ==> g[s] == ClueDigit(clues, s)
    decreases 81 - i
    ensures AssignClues(b, clues, i).Success? && Consistent(g, AssignClues(b, clues, i).value)
  {
    if i < 81 {
      if IsClue(clues, i) {
        Solutions.AssignKeepsSolution(b, i, ClueDigit(clues, i), g);
        ClueStep(b, clues, i);
        AssignCluesComplete(Assign(b, i, ClueDigit(clues, i)).value, clues, i + 1, g);
      } else {
        AssignCluesComplete(b, clues, i + 1, g);
      }
    }
  }

  /** Completeness: when some solution keeps every clue, `solve` succeeds. */
  lemma SolveComplete(str: string, g: Grid)
    requires |str| == 81 && ValidGrid(g) && Agrees(g, str)
    ensures Solve(str).Success?
  {
    var clues := SetBoard(str).value;
    FullBoardPropagated();
    assert Consistent(g, FullBoard()) by {
      forall s: Square
        ensures g[s] in FullBoard()[s]
      {
        EveryDigit(g[s]);
      }
    }
    AssignCluesComplete(FullBoard(), clues, 0, g);
    var b := FillBoard(str).value;
    SearchFacts.DfsFindsSolution(b, g);
  }

  /** `solve` succeeds on a well-formed puzzle exactly when the puzzle has a solution. */
  lemma SolveSucceedsIffSolvable(str: string)
    requires |str| == 81
    ensures Solve(str).Success? <==> exists g: Grid :: ValidGrid(g) && Agrees(g, str)
  {
    if Solve(str).Success? {
      SolveSound(str);
    }
    if g: Grid :| ValidGrid(g) && Agrees(g, str) {
      SolveComplete(str, g);
    }
  }

  /** Two equal clues in squares that share a unit make the puzzle unsatisfiable. */
  lemma ConflictingCluesUnsatisfiable(str: string, s: Square, t: Square)
    requires |str| == 81 && t in Peers(s) && str[s] in DigitChars && str[s] == str[t]
    ensures Solve(str) == Failure(Unsatisfiable)
  {
    if Solve(str).Success? {
      SolveSound(str);
    }
  }

  /** A puzzle with exactly one solution is solved to that solution. */
  lemma SolveFindsUniqueSolution(str: string, g: Grid)
    requires |str| == 81 && ValidGrid(g) && Agrees(g, str)
    requires forall h: Grid :: ValidGrid(h) && Agrees(h, str) ==> h == g
    ensures Solve(str) == Success(BoardOf(g))
  {
    SolveComplete(str, g);
    SolveSound(str);
    BoardOfGridOf(Solve(str).value);
  }

  /** The only grid that agrees with every square of `Render(g)` is `g`. */
  lemma RenderDetermines(g: Grid, h: Grid)
    requires Agrees(h, Render(g))
    ensures h == g
  {
    assert forall s: Square :: h[s] == g[s];
  }

  /** Solving a completed solution, every square given as a clue, returns it unchanged. */
  lemma SolveIdempotent(g: Grid)
    requires ValidGrid(g)
    ensures Solve(Render(g)) == Success(BoardOf(g))
  {
    var str := Render(g);
    forall h: Grid | ValidGrid(h) && Agrees(h, str)
      ensures h == g
    {
      RenderDetermines(g, h);
    }
    SolveFindsUniqueSolution(str, g);
  }

  /** `solutionArr` on a completed solution returns its digits. */
  lemma SolutionArrIdempotent(g: Grid)
    requires ValidGrid(g)
    ensures SolutionArr(Render(g)).Success? && SolutionArr(Render(g)).value == g
  {
    SolveIdempotent(g);
    SingletonDigits(SolutionArr(Render(g)).value, g, BoardOf(g));
  }

  /** The array `solutionArr` returns is laid out like the input: entry `s` is the digit of
      square `s`, every digit clue reappears at its own position, and no two peers share a
      digit. */
  lemma SolutionArrSound(str: string)
    requires SolutionArr(str).Success?
    ensures |str| == 81 && |SolutionArr(str).value| == 81
    ensures forall s: Square :: 1 <= SolutionArr(str).value[s] <= 9
    ensures forall s: Square :: str[s] in DigitChars ==> SolutionArr(str).value[s] == DigitOf(str[s])
    ensures forall s: Square, t :: t in Peers(s) ==> SolutionArr(str).value[s] != SolutionArr(str).value[t]
  {
    var out := SolutionArr(str).value;
    SolveSound(str);
    var g := GridOf(Solve(str).value);
    assert forall s: Square :: out[s] == g[s];
  }

  lemma SingletonDigits(out: seq<int>, g: Grid, b: Board)
    requires |out| == 81
    requires forall s: Square :: b[s] == {out[s]} && b[s] == {g[s]}
    ensures out == g
  {
    forall s: Square
      ensures out[s] == g[s]
    {
      assert g[s] in {out[s]};
    }
  }

  /** Two clue maps with the same digit clues lead `fillBoard`'s loop to the same result. */
  lemma {:induction false} AssignCluesSameDigits(b: Board, c1: map<Square, char>, c2: map<Square, char>, i: nat)
    requires forall s: Square :: IsClue(c1, s) <==> IsClue(c2, s)
    requires forall s: Square :: IsClue(c1, s) && IsClue(c2, s) ==> c1[s] == c2[s]
    requires i <= 81 && Propagated(b) && CluesHeld(b, c1, i)
    decreases 81 - i
    ensures CluesHeld(b, c2, i) && AssignClues(b, c1, i) == AssignClues(b, c2, i)
  {
    if i < 81 {
      if IsClue(c1, i) {
        var a := Assign(b, i, ClueDigit(c1, i));
        if a.Some? {
          ClueStep(b, c1, i);
          AssignCluesSameDigits(a.value, c1, c2, i + 1);
        }
      } else {
        AssignCluesSameDigits(b, c1, c2, i + 1);
      }
    }
  }

  /** Every non-digit character is a blank: replacing it by `.` changes nothing. This covers
      `0` and `.` as well as the characters `setBoard` drops. */
  lemma NonDigitsAreBlanks(str: string, s: Square)
    requires |str| == 81 && str[s] !in DigitChars
    ensures Solve(str[s := '.']) == Solve(str)
  {
    var c1 := SetBoard(str).value;
    var c2 := SetBoard(str[s := '.']).value;
    FullBoardPropagated();
    AssignCluesSameDigits(FullBoard(), c1, c2, 0);
    assert FillBoard(str) == FillBoard(str[s := '.']);
  }
}
