/** A completed Sudoku grid exists: the shifted-rows pattern, in which row `r` holds the
    digits in cyclic order starting from an offset that steps by three within a band of rows
    and by one from band to band. Hence an empty puzzle is solved. */
module Pattern {
  import opened Topology
  import TopologyFacts
  import opened Invariants
  import opened Solver
  import SolverFacts

  /** `x` modulo 9, for `0 <= x < 18`. */
  function Wrap(x: int): int { if x >= 9 then x - 9 else x }

  /** The offset of row `r`: 0, 3, 6, 1, 4, 7, 2, 5, 8 for rows A to I. */
  function Shift(r: int): int { 3 * Within(r) + Band(r) }

  /** The digit the pattern puts at square `s`. */
  function PatternDigit(s: Square): Digit {
    TopologyFacts.BandWithin(Row(s));
    AtRowCol(s);
    Wrap(Shift(Row(s)) + Col(s)) + 1
  }

  lemma PatternAt(r: int, c: int)
    requires 0 <= r < 9 && 0 <= c < 9
    ensures PatternDigit(At(r, c)) == Wrap(Shift(r) + c) + 1
  {
  }

  function PatternGrid(): (g: Grid)
    ensures forall s: Square :: g[s] == PatternDigit(s)
  {
    seq(81, s requires 0 <= s < 81 => PatternDigit(s))
  }

  /** The inverse of `Shift`: the row whose offset is `t`. */
  function Unshift(t: int): (r: int)
    requires 0 <= t < 9
    ensures 0 <= r < 9 && Shift(r) == t
  {
    TopologyFacts.BandWithin(t);
    TopologyFacts.BandOf(Within(t), Band(t));
    3 * Within(t) + Band(t)
  }

  lemma ColumnHas(c: int, e: Digit)
    requires 0 <= c < 9
    ensures GridHas(PatternGrid(), ColumnUnit(c), e)
  {
    var r := Unshift(Wrap(e - 1 - c + 9));
    var y := At(r, c);
    PatternAt(r, c);
    TopologyFacts.InColumnUnit(c, y);
    assert PatternGrid()[y] == e;
  }

  lemma RowHas(r: int, e: Digit)
    requires 0 <= r < 9
    ensures GridHas(PatternGrid(), RowUnit(r), e)
  {
    TopologyFacts.BandWithin(r);
    var c := Wrap(e - 1 - Shift(r) + 9);
    var y := At(r, c);
    PatternAt(r, c);
    TopologyFacts.InRowUnit(r, y);
    assert PatternGrid()[y] == e;
  }

  /** The square of box `k` at position `t` within the box holds offset `m + t`, where `m` is
      the box's own offset. */
  lemma BoxSquare(k: int, t: int) returns (y: Square)
    requires 0 <= k < 9 && 0 <= t < 9
    ensures y in BoxUnit(k)
    ensures PatternDigit(y) == Wrap(Band(k) + 3 * Within(k) + t) + 1
  {
    TopologyFacts.BandWithin(k);
    TopologyFacts.BandWithin(t);
    var r := 3 * Band(k) + Band(t);
    var c := 3 * Within(k) + Within(t);
    TopologyFacts.BandOf(Band(k), Band(t));
    TopologyFacts.BandOf(Within(k), Within(t));
    assert Shift(r) == 3 * Band(t) + Band(k);
    assert Box(At(r, c)) == k;
    y := At(r, c);
    PatternAt(r, c);
    TopologyFacts.InBoxUnit(k, y);
  }

  lemma BoxHas(k: int, e: Digit)
    requires 0 <= k < 9
    ensures GridHas(PatternGrid(), BoxUnit(k), e)
  {
    TopologyFacts.BandWithin(k);
    var m := Band(k) + 3 * Within(k);
    var y := BoxSquare(k, Wrap(e - 1 - m + 9));
    assert PatternGrid()[y] == e;
  }

  lemma UnitAtHasAll(i: int, e: Digit)
    requires 0 <= i < 27
    ensures |UnitList()| == 27 && GridHas(PatternGrid(), UnitList()[i], e)
  {
    TopologyFacts.UnitListAt(i);
    if i < 9 {
      ColumnHas(i, e);
    } else if i < 18 {
      RowHas(i - 9, e);
    } else {
      BoxHas(i - 18, e);
    }
  }

  lemma UnitsHaveAll(u: Unit, e: Digit)
    requires u in UnitList()
    ensures GridHas(PatternGrid(), u, e)
  {
    TopologyFacts.UnitListAt(0);
    forall i | 0 <= i < 27
      ensures GridHas(PatternGrid(), UnitList()[i], e)
    {
      UnitAtHasAll(i, e);
    }
  }

  lemma ShiftInjective(r1: int, r2: int)
    requires 0 <= r1 < 9 && 0 <= r2 < 9 && r1 != r2
    ensures Shift(r1) != Shift(r2)
  {
    TopologyFacts.BandWithin(r1);
    TopologyFacts.BandWithin(r2);
  }

  /** Two different squares in one row, one column or one box get different digits. */
  lemma PatternDiffers(r1: int, c1: int, r2: int, c2: int)
    requires 0 <= r1 < 9 && 0 <= c1 < 9 && 0 <= r2 < 9 && 0 <= c2 < 9
    requires r1 != r2 || c1 != c2
    requires r1 == r2 || c1 == c2 || (Band(r1) == Band(r2) && Band(c1) == Band(c2))
    ensures Wrap(Shift(r1) + c1) != Wrap(Shift(r2) + c2)
  {
    TopologyFacts.BandWithin(r1);
    TopologyFacts.BandWithin(r2);
    TopologyFacts.BandWithin(c1);
    TopologyFacts.BandWithin(c2);
    if r1 != r2 && c1 == c2 {
      ShiftInjective(r1, r2);
    }
  }

  lemma SameBoxBands(s: Square, t: Square)
    ensures 0 <= Row(s) < 9 && 0 <= Col(s) < 9 && 0 <= Row(t) < 9 && 0 <= Col(t) < 9
    ensures Box(s) == Box(t) ==> Band(Row(s)) == Band(Row(t)) && Band(Col(s)) == Band(Col(t))
  {
    AtRowCol(s);
    AtRowCol(t);
  }

  lemma SharingSquaresDiffer(s: Square, t: Square)
    requires s != t && TopologyFacts.SharesUnit(s, t)
    ensures PatternDigit(s) != PatternDigit(t)
  {
    SameBoxBands(s, t);
    DistinctSquares(s, t);
    PatternDiffers(Row(s), Col(s), Row(t), Col(t));
  }

  lemma DistinctSquares(s: Square, t: Square)
    requires s != t
    ensures Row(s) != Row(t) || Col(s) != Col(t)
  {
    AtRowCol(s);
    AtRowCol(t);
  }

  lemma PeersDiffer(s: Square, t: Square)
    requires t in Peers(s)
    ensures PatternDigit(s) != PatternDigit(t)
  {
    TopologyFacts.PeersCharacterized(s, t);
    SharingSquaresDiffer(s, t);
  }

  /** The pattern is a Sudoku solution. */
  lemma PatternValid()
    ensures ValidGrid(PatternGrid())
  {
    var g := PatternGrid();
    forall u, e: Digit | u in UnitList()
      ensures GridHas(g, u, e)
    {
      UnitsHaveAll(u, e);
    }
    forall x: Square, y | y in Peers(x)
      ensures g[x] != g[y]
    {
      PeersDiffer(x, y);
    }
  }

  /** The puzzle with no clue: 81 blanks. */
  function EmptyPuzzle(): (str: string)
    ensures |str| == 81 && forall s: Square :: str[s] !in DigitChars
  {
    seq(81, _ => '.')
  }

  /** A puzzle of 81 blanks is solved. */
  lemma EmptyPuzzleSolved()
    ensures Solve(EmptyPuzzle()).Success?
  {
    PatternValid();
    var str := EmptyPuzzle();
    assert SolverFacts.Agrees(PatternGrid(), str);
    SolverFacts.SolveComplete(str, PatternGrid());
  }
}
