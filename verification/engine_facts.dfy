/** What one `assign` guarantees, gathered from the three rule-by-rule lemma families. */
module EngineFacts {
  import opened Topology
  import opened Boards
  import opened Propagation
  import opened Invariants
  import NakedSingles
  import HiddenSingleRule
  import Solutions

  /** A successful `assign` keeps the invariant of propagated grids, and commits the square. */
  lemma AssignKeepsPropagated(b: Board, s: Square, d: Digit)
    requires Propagated(b)
    ensures Assign(b, s, d).Some? ==> Propagated(Assign(b, s, d).value) && Assign(b, s, d).value[s] == {d}
  {
    NakedSingles.AssignKeepsSinglesSettled(b, s, d);
    HiddenSingleRule.AssignKeepsUnitsCovered(b, s, d);
    HiddenSingleRule.AssignKeepsHiddenSinglesPlaced(b, s, d);
  }

  /** A solution allowed by the grid survives `assign` exactly when it puts `d` at `s`: then
      the assignment succeeds and the solution stays allowed. */
  lemma AssignAndSolutions(b: Board, s: Square, d: Digit, g: Grid)
    requires ValidGrid(g) && Consistent(g, b)
    ensures g[s] == d ==> Assign(b, s, d).Some? && Consistent(g, Assign(b, s, d).value)
    ensures Assign(b, s, d).Some? && Consistent(g, Assign(b, s, d).value) ==> g[s] == d
  {
    if g[s] == d {
      Solutions.AssignKeepsSolution(b, s, d, g);
    }
    assert b[s] != {} by {
      assert g[s] in b[s];
    }
  }
}
