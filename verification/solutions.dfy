/** Propagation never loses a solution: if a valid grid `g` is still allowed by the
    candidates, removing a digit `g` does not use succeeds and keeps `g` allowed, and so does
    assigning the digit `g` uses. The lemmas follow the engine's mutual recursion call for
    call, under the same termination measure. */
module Solutions {
  import opened Wrappers
  import opened Topology
  import opened Boards
  import opened Propagation
  import opened Invariants

  lemma {:induction false} EliminateKeepsSolution(b: Board, s: Square, d: Digit, g: Grid)
    requires ValidGrid(g) && Consistent(g, b) && g[s] != d
    decreases Count(b), 0, 0
    ensures Eliminate(b, s, d).Some? && Consistent(g, Eliminate(b, s, d).value)
  {
    if d in b[s] {
      var b1 := b[s := b[s] - {d}];
      CountUpdate(b, s, b[s] - {d});
      assert g[s] in b1[s];
      assert Consistent(g, b1);
      var ob2 := if |b1[s]| == 1 then EliminateFromPeers(b1, PeerList(s), Sole(b1[s])) else Some(b1);
      if |b1[s]| == 1 {
        assert Sole(b1[s]) == g[s];
        forall p | p in PeerList(s)
          ensures g[p] != g[s]
        {
          assert p in Peers(s);
        }
        EliminateFromPeersKeepsSolution(b1, PeerList(s), g[s], g);
      }
      var b2 := ob2.value;
      HiddenSinglesKeepsSolution(b2, UnitsOf(s), d, g);
    }
  }

  lemma {:induction false} EliminateEachKeepsSolution(b: Board, s: Square, ds: seq<Digit>, g: Grid)
    requires ValidGrid(g) && Consistent(g, b) && g[s] !in ds
    decreases Count(b), 1, |ds|
    ensures EliminateEach(b, s, ds).Some? && Consistent(g, EliminateEach(b, s, ds).value)
  {
    if ds != [] {
      EliminateKeepsSolution(b, s, ds[0], g);
      EliminateEachKeepsSolution(Eliminate(b, s, ds[0]).value, s, ds[1..], g);
    }
  }

  lemma {:induction false} EliminateFromPeersKeepsSolution(b: Board, ps: seq<Square>, d: Digit, g: Grid)
    requires ValidGrid(g) && Consistent(g, b) && forall p :: p in ps ==> g[p] != d
    decreases Count(b), 1, |ps|
    ensures EliminateFromPeers(b, ps, d).Some? && Consistent(g, EliminateFromPeers(b, ps, d).value)
  {
    if ps != [] {
      EliminateKeepsSolution(b, ps[0], d, g);
      EliminateFromPeersKeepsSolution(Eliminate(b, ps[0], d).value, ps[1..], d, g);
    }
  }

  lemma {:induction false} AssignKeepsSolution(b: Board, s: Square, d: Digit, g: Grid)
    requires ValidGrid(g) && Consistent(g, b) && g[s] == d
    decreases Count(b), 2, 0
    ensures Assign(b, s, d).Some? && Consistent(g, Assign(b, s, d).value)
  {
    EliminateEachKeepsSolution(b, s, Candidates(b[s] - {d}), g);
  }

  lemma {:induction false} HiddenSinglesKeepsSolution(b: Board, us: seq<Unit>, d: Digit, g: Grid)
    requires ValidGrid(g) && Consistent(g, b)
    requires forall u :: u in us ==> u in UnitList()
    decreases Count(b), 3, |us|
    ensures HiddenSingles(b, us, d).Some? && Consistent(g, HiddenSingles(b, us, d).value)
  {
    if us != [] {
      var places := Places(b, us[0], d);
      assert GridHas(g, us[0], d);
      var y := SolutionPlace(b, us[0], d, g);
      if |places| == 1 {
        AssignKeepsSolution(b, y, d, g);
        var b1 := Assign(b, y, d).value;
        HiddenSinglesKeepsSolution(b1, us[1..], d, g);
        assert HiddenSingles(b, us, d) == HiddenSingles(b1, us[1..], d);
      } else {
        HiddenSinglesKeepsSolution(b, us[1..], d, g);
        assert HiddenSingles(b, us, d) == HiddenSingles(b, us[1..], d);
      }
    }
  }

  /** The square where the solution puts `d` in unit `u` is among the places left for `d`. */
  lemma SolutionPlace(b: Board, u: Unit, d: Digit, g: Grid) returns (y: Square)
    requires GridHas(g, u, d) && Consistent(g, b)
    ensures g[y] == d && y in Places(b, u, d)
    ensures |Places(b, u, d)| == 1 ==> Places(b, u, d)[0] == y
  {
    y :| y in u && g[y] == d;
    assert y in Places(b, u, d);
  }
}
