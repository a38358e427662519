/** The entry points: `fillBoard`, `solve`, `arrConvert` and `solutionArr`. */
module Solver {
  import opened Wrappers
  import opened Topology
  import opened Boards
  import opened Propagation
  import opened Invariants
  import opened Search
  import opened Parse
  import EngineFacts
  import SearchFacts

  /** Every digit clue at a square of `clues` is the only candidate left there. */
  predicate CluesHeld(b: Board, clues: map<Square, char>, upto: int) {
    forall s: Square :: s < upto && IsClue(clues, s) ==> b[s] == {ClueDigit(clues, s)}
  }

  /** The loop of `fillBoard` over the clues from square `i` on, in square order (the order
      in which `setBoard` inserted them). A clue that cannot be assigned makes the puzzle
      unsatisfiable. */
  function AssignClues(b: Board, clues: map<Square, char>, i: nat): (r: Result<Board, SolveError>)
    requires i <= 81 && Propagated(b) && CluesHeld(b, clues, i)
    decreases 81 - i
    ensures r.Success? ==> Propagated(r.value) && Narrows(b, r.value) && CluesHeld(r.value, clues, 81)
    ensures r.Failure? ==> r.error == Unsatisfiable
  {
    if i == 81 then Success(b)
    else if IsClue(clues, i) then
      var a := Assign(b, i, ClueDigit(clues, i));
      if a.None? then Failure(Unsatisfiable)
      else
        ClueStep(b, clues, i);
        var r := AssignClues(a.value, clues, i + 1);
        if r.Success? then NarrowsTransitive(b, a.value, r.value); r else r
    else AssignClues(b, clues, i + 1)
  }

  /** A clue that is assigned successfully keeps the invariant and is held from then on. */
  lemma ClueStep(b: Board, clues: map<Square, char>, i: Square)
    requires Propagated(b) && CluesHeld(b, clues, i) && IsClue(clues, i)
    requires Assign(b, i, ClueDigit(clues, i)).Some?
    ensures Propagated(Assign(b, i, ClueDigit(clues, i)).value)
    ensures CluesHeld(Assign(b, i, ClueDigit(clues, i)).value, clues, i + 1)
  {
    EngineFacts.AssignKeepsPropagated(b, i, ClueDigit(clues, i));
    CluesHeldAfter(b, Assign(b, i, ClueDigit(clues, i)).value, clues, i);
  }

  lemma CluesHeldAfter(b: Board, a: Board, clues: map<Square, char>, i: Square)
    requires CluesHeld(b, clues, i) && Narrows(b, a)
    requires IsClue(clues, i) && a[i] == {ClueDigit(clues, i)}
    ensures CluesHeld(a, clues, i + 1)
  {
    forall s: Square | s < i && IsClue(clues, s)
      ensures a[s] == {ClueDigit(clues, s)}
    {
      SingleKept(b, a, s);
    }
  }

  /** `fillBoard`: start from the grid where every digit is possible everywhere and assign the
      clues. */
  function FillBoard(str: string): (r: Result<Board, SolveError>)
    ensures r == Failure(Malformed) <==> |str| != 81
    ensures r.Success? ==> Propagated(r.value)
    ensures r.Success? ==> forall s: Square :: str[s] in DigitChars ==> r.value[s] == {DigitOf(str[s])}
  {
    var clues :- SetBoard(str);
    FullBoardPropagated();
    var r := AssignClues(FullBoard(), clues, 0);
    assert r.Success? ==> forall s: Square :: str[s] in DigitChars ==> IsClue(clues, s);
    r
  }

  /** `solve`: fill the grid, then search. */
  function Solve(str: string): (r: Result<Board, SolveError>)
    ensures r == Failure(Malformed) <==> |str| != 81
    ensures r.Success? ==> Solved(r.value) && Propagated(r.value)
    ensures r.Success? ==> forall s: Square :: str[s] in DigitChars ==> r.value[s] == {DigitOf(str[s])}
  {
    var b :- FillBoard(str);
    var found := Dfs(Some(b));
    SearchFacts.DfsKeepsPropagated(Some(b));
    if found.None? then Failure(Unsatisfiable) else Success(found.value)
  }

  /** The decimal number whose digits are `ds`, most significant first: Python's `int` of a
      string of digit characters. */
  function Decimal(ds: seq<Digit>): nat {
    if ds == [] then 0 else 10 * Decimal(ds[..|ds| - 1]) + ds[|ds| - 1]
  }

  /** `arrConvert`: each square, in row-major order, as the integer its candidate string spells.
      A square with one candidate gives its digit; a square with several gives a number of
      two or more decimal digits, so never a digit. */
  function ArrConvert(b: Board): (out: seq<int>)
    requires NoEmpty(b)
    ensures |out| == 81
    ensures forall s: Square :: 1 <= out[s] <= 9 <==> |b[s]| == 1
    ensures forall s: Square :: |b[s]| == 1 ==> b[s] == {out[s]}
  {
    seq(81, s requires 0 <= s < 81 => DecimalOfCell(b[s]))
  }

  /** The integer a non-empty candidate string spells. */
  function DecimalOfCell(c: Cell): (n: nat)
    requires c != {}
    ensures 1 <= n <= 9 <==> |c| == 1
    ensures |c| == 1 ==> c == {n}
  {
    var ds := Candidates(c);
    if |ds| == 1 then
      assert Decimal(ds) == ds[0];
      assert ds[0] in c;
      Decimal(ds)
    else
      DecimalLarge(ds);
      Decimal(ds)
  }

  lemma {:induction false} DecimalLarge(ds: seq<Digit>)
    requires |ds| >= 2
    ensures Decimal(ds) >= 10
  {
    var init := ds[..|ds| - 1];
    if |init| >= 2 {
      DecimalLarge(init);
    } else {
      assert init == [ds[0]];
      assert Decimal([ds[0]]) == ds[0] by {
        assert [ds[0]][..0] == [];
      }
    }
  }

  /** `solutionArr`: solve, then convert to integers. On a failure the source goes on to index
      the failure value and raises; here the failure is returned. */
  function SolutionArr(str: string): (r: Result<seq<int>, SolveError>)
    ensures r.Success? <==> Solve(str).Success?
    ensures r.Success? ==> |r.value| == 81 && forall s: Square :: Solve(str).value[s] == {r.value[s]}
    ensures r.Failure? ==> r.error == Solve(str).error
  {
    var b :- Solve(str);
    Success(ArrConvert(b))
  }
}
