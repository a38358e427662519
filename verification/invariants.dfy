/** The properties of candidate grids that the propagation engine establishes and keeps. */
module Invariants {
  import opened Topology
  import opened Boards
  import TopologyFacts

  /** If `x` is down to one candidate, no peer of `x` still has it: the naked-single rule
      has fired for `x`. */
  predicate Settled(b: Board, x: Square) {
    |b[x]| == 1 ==> forall p :: p in Peers(x) ==> b[x] !! b[p]
  }

  /** The naked-single rule has fired for every square reduced to one candidate. */
  predicate SinglesSettled(b: Board) {
    forall x: Square :: Settled(b, x)
  }

  /** Every square whose cell differs between `b` and `r` is settled in `r`. */
  predicate ChangedSettled(b: Board, r: Board) {
    forall x: Square :: r[x] != b[x] ==> Settled(r, x)
  }

  /** Some square of `u` can still hold `e`. */
  predicate HasPlace(b: Board, u: Unit, e: Digit) {
    exists y :: y in u && e in b[y]
  }

  /** Each unit containing `x` still has a place for `e`. */
  predicate UnitsHavePlace(b: Board, x: Square, e: Digit) {
    forall u :: u in UnitsOf(x) ==> HasPlace(b, u, e)
  }

  /** Whenever a digit `e` was removed from a square `x` between `b` and `r`, every unit of `x`
      still has a place for `e` in `r`: the hidden-single check has been passed. */
  predicate RemovalsCovered(b: Board, r: Board) {
    forall x: Square, e: Digit :: e in b[x] && e !in r[x] ==> UnitsHavePlace(r, x, e)
  }

  /** Every unit has a place for every digit. */
  predicate UnitsCovered(b: Board) {
    forall u, e: Digit :: u in UnitList() ==> HasPlace(b, u, e)
  }

  /** `p` is the one square of `u` that can still hold `e`. */
  predicate OnlyPlace(b: Board, u: Unit, e: Digit, p: Square) {
    p in u && e in b[p] && forall y :: y in u && y != p ==> e !in b[y]
  }

  /** If `e` has a single place left in `u`, that square holds `e` and nothing else: the
      hidden-single rule has fired for `e` in `u`. */
  predicate Resolved(b: Board, u: Unit, e: Digit) {
    forall p: Square :: OnlyPlace(b, u, e, p) ==> b[p] == {e}
  }

  /** Each unit containing `x` is resolved for `e`. */
  predicate UnitsResolved(b: Board, x: Square, e: Digit) {
    forall u :: u in UnitsOf(x) ==> Resolved(b, u, e)
  }

  /** Whenever a digit `e` was removed from a square `x` between `b` and `r`, every unit of `x`
      is resolved for `e` in `r`: the hidden-single rule has fired where the removal asked. */
  predicate RemovalsResolved(b: Board, r: Board) {
    forall x: Square, e: Digit :: e in b[x] && e !in r[x] ==> UnitsResolved(r, x, e)
  }

  /** Every unit is resolved for every digit. */
  predicate HiddenSinglesPlaced(b: Board) {
    forall u, e: Digit :: u in UnitList() ==> Resolved(b, u, e)
  }

  /** What holds of every grid the engine hands out: no empty cell, every unit has a place for
      every digit, every single candidate has been removed from the peers, and every digit
      with one place left in a unit has been placed there. */
  predicate Propagated(b: Board) {
    NoEmpty(b) && UnitsCovered(b) && SinglesSettled(b) && HiddenSinglesPlaced(b)
  }

  lemma SettledKept(b: Board, r: Board, x: Square)
    requires Refines(r, b) && r[x] == b[x] && Settled(b, x)
    ensures Settled(r, x)
  {
  }

  lemma ChangedSettledTransitive(a: Board, b: Board, c: Board)
    requires Refines(c, b) && ChangedSettled(a, b) && ChangedSettled(b, c)
    ensures ChangedSettled(a, c)
  {
    forall x: Square | c[x] != a[x]
      ensures Settled(c, x)
    {
      if c[x] == b[x] {
        SettledKept(b, c, x);
      }
    }
  }

  /** A unit of `UnitList` that contains `y` is one of the units of `y`. */
  lemma UnitOfMember(u: Unit, y: Square)
    requires u in UnitList() && y in u
    ensures u in UnitsOf(y)
  {
  }

  lemma RemovalsCoveredTransitive(a: Board, b: Board, c: Board)
    requires Refines(b, a) && Refines(c, b)
    requires RemovalsCovered(a, b) && RemovalsCovered(b, c)
    ensures RemovalsCovered(a, c)
  {
    forall x: Square, e: Digit | e in a[x] && e !in c[x]
      ensures UnitsHavePlace(c, x, e)
    {
      if e !in b[x] {
        forall u | u in UnitsOf(x)
          ensures HasPlace(c, u, e)
        {
          assert HasPlace(b, u, e);
          var y :| y in u && e in b[y];
          if e !in c[y] {
            UnitOfMember(u, y);
            assert UnitsHavePlace(c, y, e);
          }
        }
      }
    }
  }

  /** A resolved unit stays resolved while candidates only shrink, provided every later
      removal of the digit from one of its squares is itself resolved. */
  lemma ResolvedKept(b: Board, r: Board, u: Unit, e: Digit)
    requires Refines(r, b) && u in UnitList() && Resolved(b, u, e) && RemovalsResolved(b, r)
    ensures Resolved(r, u, e)
  {
    if exists y :: y in u && e in b[y] && e !in r[y] {
      var y :| y in u && e in b[y] && e !in r[y];
      UnitOfMember(u, y);
      assert UnitsResolved(r, y, e);
    } else {
      forall p: Square | OnlyPlace(r, u, e, p)
        ensures r[p] == {e}
      {
        assert OnlyPlace(b, u, e, p);
      }
    }
  }

  lemma RemovalsResolvedTransitive(a: Board, b: Board, c: Board)
    requires Refines(b, a) && Refines(c, b)
    requires RemovalsResolved(a, b) && RemovalsResolved(b, c)
    ensures RemovalsResolved(a, c)
  {
    forall x: Square, e: Digit | e in a[x] && e !in c[x]
      ensures UnitsResolved(c, x, e)
    {
      if e !in b[x] {
        forall u | u in UnitsOf(x)
          ensures Resolved(c, u, e)
        {
          assert Resolved(b, u, e);
          ResolvedKept(b, c, u, e);
        }
      }
    }
  }

  /** The starting grid satisfies the invariant: every cell is full, so no cell is a single
      and no digit is confined to one place in a unit. */
  lemma FullBoardPropagated()
    ensures Propagated(FullBoard())
    ensures forall x: Square :: |FullBoard()[x]| != 1
    ensures forall u, e: Digit, p: Square :: u in UnitList() ==> !OnlyPlace(FullBoard(), u, e, p)
  {
    var b := FullBoard();
    assert forall x: Square :: b[x] == AllDigits;
    forall u, e: Digit | u in UnitList()
      ensures HasPlace(b, u, e)
    {
      NonEmptyUnit(u);
      EveryDigit(e);
      assert e in b[u[0]];
    }
    forall x: Square
      ensures Settled(b, x) && |b[x]| != 1
    {
      NotSingle(b[x]);
    }
    forall u, e: Digit, p: Square | u in UnitList()
      ensures !OnlyPlace(b, u, e, p)
    {
      TwoPlaces(b, u, e);
      assert u[0] in u && u[1] in u;
    }
  }

  /** On the starting grid every unit offers at least two places for every digit. */
  lemma TwoPlaces(b: Board, u: Unit, e: Digit)
    requires b == FullBoard() && u in UnitList()
    ensures |u| == 9 && u[0] != u[1] && e in b[u[0]] && e in b[u[1]]
  {
    TopologyFacts.UnitWellFormed(u);
    EveryDigit(e);
  }

  lemma EveryDigit(e: Digit)
    ensures e in AllDigits
  {
  }

  lemma NotSingle(c: Cell)
    requires c == AllDigits
    ensures |c| != 1
  {
    SubsetCard({1, 2}, c);
  }

  lemma NonEmptyUnit(u: Unit)
    requires u in UnitList()
    ensures |u| > 0
  {
    TopologyFacts.UnitWellFormed(u);
  }

  /** A solved grid written as one digit per square. */
  type Grid = g: seq<Digit> | |g| == 81 witness seq(81, _ => 1)

  /** The unit `u` contains digit `e` in `g`. */
  predicate GridHas(g: Grid, u: Unit, e: Digit) {
    exists y :: y in u && g[y] == e
  }

  /** A Sudoku solution: every unit holds every digit, and no two peers hold the same one. */
  predicate ValidGrid(g: Grid) {
    && (forall u, e: Digit :: u in UnitList() ==> GridHas(g, u, e))
    && (forall x: Square, y :: y in Peers(x) ==> g[x] != g[y])
  }

  /** The solution `g` is still allowed by the candidates of `b`. */
  predicate Consistent(g: Grid, b: Board) {
    forall x: Square :: g[x] in b[x]
  }

  /** The digits of a solved grid. */
  function GridOf(b: Board): (g: Grid)
    requires Solved(b)
    ensures forall x: Square :: b[x] == {g[x]}
  {
    seq(81, x requires 0 <= x < 81 => Sole(b[x]))
  }

  /** The candidate grid that allows exactly the digits of `g`. */
  function BoardOf(g: Grid): (b: Board)
    ensures Solved(b) && Consistent(g, b)
    ensures forall x: Square :: b[x] == {g[x]}
  {
    seq(81, x requires 0 <= x < 81 => {g[x]})
  }

  /** A solved grid is the grid of its own digits. */
  lemma BoardOfGridOf(b: Board)
    requires Solved(b)
    ensures BoardOf(GridOf(b)) == b
  {
    assert forall x: Square :: BoardOf(GridOf(b))[x] == b[x];
  }

  /** A solved grid on which the invariant holds is a Sudoku solution, and only such a grid is
      the image of a solution. */
  lemma SolvedPropagatedValid(b: Board)
    requires Solved(b)
    ensures Propagated(b) <==> ValidGrid(GridOf(b))
  {
    var g := GridOf(b);
    if Propagated(b) {
      forall u, e: Digit | u in UnitList()
        ensures GridHas(g, u, e)
      {
        assert HasPlace(b, u, e);
      }
      forall x: Square, y | y in Peers(x)
        ensures g[x] != g[y]
      {
        assert Settled(b, x);
      }
    }
    if ValidGrid(g) {
      forall u, e: Digit | u in UnitList()
        ensures HasPlace(b, u, e)
      {
        assert GridHas(g, u, e);
      }
      forall x: Square
        ensures Settled(b, x)
      {
        forall p | p in Peers(x)
          ensures b[x] !! b[p]
        {
          assert g[x] != g[p];
        }
      }
      forall u, e: Digit | u in UnitList()
        ensures Resolved(b, u, e)
      {
        forall p: Square | OnlyPlace(b, u, e, p)
          ensures b[p] == {e}
        {
          assert b[p] == {g[p]};
        }
      }
    }
  }
}
