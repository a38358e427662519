/** Soundness, completeness and search order of `dfs`. */
module SearchFacts {
  import opened Wrappers
  import opened Topology
  import opened Boards
  import opened Propagation
  import opened Invariants
  import opened Search
  import EngineFacts
  import Solutions

  lemma {:induction false} DfsKeepsPropagated(ob: Option<Board>)
    requires ob.Some? ==> Propagated(ob.value)
    decreases if ob.Some? then Count(ob.value) else 0, 1, 0
    ensures Dfs(ob).Some? ==> Propagated(Dfs(ob).value)
  {
    if ob.Some? && !Solved(ob.value) {
      var s := BranchSquare(ob.value);
      TryEachKeepsPropagated(ob.value, s, Candidates(ob.value[s]));
    }
  }

  lemma {:induction false} TryEachKeepsPropagated(b: Board, s: Square, vs: seq<Digit>)
    requires Propagated(b) && |b[s]| > 1
    decreases Count(b), 0, |vs|
    ensures TryEach(b, s, vs).Some? ==> Propagated(TryEach(b, s, vs).value)
  {
    if vs != [] {
      var a := Assign(b, s, vs[0]);
      if a.Some? {
        CountDecreases(a.value, b, s);
        EngineFacts.AssignKeepsPropagated(b, s, vs[0]);
        DfsKeepsPropagated(a);
      }
      TryEachKeepsPropagated(b, s, vs[1..]);
    }
  }

  /** Soundness: from a propagated grid, `dfs` only returns Sudoku solutions the grid allows. */
  lemma DfsSound(b: Board)
    requires Propagated(b)
    ensures Dfs(Some(b)).Some? ==>
      var r := Dfs(Some(b)).value; ValidGrid(GridOf(r)) && Consistent(GridOf(r), b)
  {
    DfsKeepsPropagated(Some(b));
    var r := Dfs(Some(b));
    if r.Some? {
      SolvedPropagatedValid(r.value);
      var g := GridOf(r.value);
      assert forall x: Square :: g[x] in r.value[x];
    }
  }

  lemma {:induction false} DfsComplete(ob: Option<Board>, g: Grid)
    requires ob.Some? && NoEmpty(ob.value) && ValidGrid(g) && Consistent(g, ob.value)
    decreases Count(ob.value), 1, 0
    ensures Dfs(ob).Some?
  {
    if !Solved(ob.value) {
      var s := BranchSquare(ob.value);
      TryEachComplete(ob.value, s, Candidates(ob.value[s]), g);
    }
  }

  lemma {:induction false} TryEachComplete(b: Board, s: Square, vs: seq<Digit>, g: Grid)
    requires NoEmpty(b) && |b[s]| > 1 && ValidGrid(g) && Consistent(g, b) && g[s] in vs
    decreases Count(b), 0, |vs|
    ensures TryEach(b, s, vs).Some?
  {
    var a := Assign(b, s, vs[0]);
    if vs[0] == g[s] {
      Solutions.AssignKeepsSolution(b, s, vs[0], g);
      CountDecreases(a.value, b, s);
      DfsComplete(a, g);
    } else if Dfs(a).None? {
      TryEachComplete(b, s, vs[1..], g);
    }
  }

  /** Completeness: `dfs` finds a solution whenever the grid allows one. */
  lemma DfsFindsSolution(b: Board, g: Grid)
    requires NoEmpty(b) && ValidGrid(g) && Consistent(g, b)
    ensures Dfs(Some(b)).Some?
  {
    DfsComplete(Some(b), g);
  }

  /** Searching below the assignment of `v` to `s` finds nothing. */
  predicate Fails(b: Board, s: Square, v: Digit)
    requires NoEmpty(b)
  {
    Dfs(Assign(b, s, v)).None?
  }

  /** One step of the loop: the first digit's search result, or else the rest of the loop. */
  lemma TryEachStep(b: Board, s: Square, vs: seq<Digit>)
    requires NoEmpty(b) && |b[s]| > 1 && vs != []
    ensures !Fails(b, s, vs[0]) ==> TryEach(b, s, vs) == Dfs(Assign(b, s, vs[0]))
    ensures Fails(b, s, vs[0]) ==> TryEach(b, s, vs) == TryEach(b, s, vs[1..])
  {
  }

  /** The loop fails exactly when every digit fails. */
  lemma {:induction false} TryEachFailsIffAll(b: Board, s: Square, vs: seq<Digit>)
    requires NoEmpty(b) && |b[s]| > 1
    decreases |vs|
    ensures TryEach(b, s, vs).None? <==> forall v :: v in vs ==> Fails(b, s, v)
  {
    if vs != [] {
      TryEachStep(b, s, vs);
      TryEachFailsIffAll(b, s, vs[1..]);
      assert forall v :: v in vs <==> v == vs[0] || v in vs[1..];
    }
  }

  lemma FailsShift(b: Board, s: Square, vs: seq<Digit>, k: nat)
    requires NoEmpty(b) && k < |vs| - 1 && Fails(b, s, vs[0])
    requires forall j :: 0 <= j < k ==> Fails(b, s, vs[1..][j])
    ensures vs[k + 1] == vs[1..][k]
    ensures forall j :: 0 <= j < k + 1 ==> Fails(b, s, vs[j])
  {
    forall j | 0 < j < k + 1
      ensures Fails(b, s, vs[j])
    {
      assert vs[j] == vs[1..][j - 1];
    }
  }

  /** The search order: a successful loop returns the result of the digit at some position
      `i` of `vs`, and every digit before position `i` fails. */
  lemma {:induction false} TryEachFirstSuccess(b: Board, s: Square, vs: seq<Digit>) returns (i: nat)
    requires NoEmpty(b) && |b[s]| > 1 && TryEach(b, s, vs).Some?
    decreases |vs|
    ensures i < |vs| && TryEach(b, s, vs) == Dfs(Assign(b, s, vs[i]))
    ensures forall j :: 0 <= j < i ==> Fails(b, s, vs[j])
  {
    TryEachStep(b, s, vs);
    if !Fails(b, s, vs[0]) {
      i := 0;
    } else {
      var k := TryEachFirstSuccess(b, s, vs[1..]);
      FailsShift(b, s, vs, k);
      i := k + 1;
    }
  }

  /** `v` is the least candidate of `s` whose search succeeds. */
  predicate LeastSuccess(b: Board, s: Square, v: Digit)
    requires NoEmpty(b)
  {
    v in b[s] && !Fails(b, s, v) && forall w :: w in b[s] && w < v ==> Fails(b, s, w)
  }

  /** How `dfs` branches on an unsolved grid: on the square `BranchSquare` picks, it fails
      exactly when the search below every candidate of that square fails, and otherwise it
      returns the search result of the least candidate whose search succeeds. */
  lemma DfsBranchOrder(b: Board)
    requires NoEmpty(b) && !Solved(b)
    ensures Dfs(Some(b)).None? <==> forall v :: v in b[BranchSquare(b)] ==> Fails(b, BranchSquare(b), v)
    ensures forall v :: LeastSuccess(b, BranchSquare(b), v) ==> Dfs(Some(b)) == Dfs(Assign(b, BranchSquare(b), v))
  {
    DfsFailsIffAll(b);
    forall v | LeastSuccess(b, BranchSquare(b), v)
      ensures Dfs(Some(b)) == Dfs(Assign(b, BranchSquare(b), v))
    {
      DfsLeastSuccess(b, v);
    }
  }

  lemma DfsFailsIffAll(b: Board)
    requires NoEmpty(b) && !Solved(b)
    ensures Dfs(Some(b)).None? <==> forall v :: v in b[BranchSquare(b)] ==> Fails(b, BranchSquare(b), v)
  {
    var s := BranchSquare(b);
    var vs := Candidates(b[s]);
    DfsUnsolved(b);
    TryEachFailsIffAll(b, s, vs);
  }

  lemma DfsLeastSuccess(b: Board, v: Digit)
    requires NoEmpty(b) && !Solved(b) && LeastSuccess(b, BranchSquare(b), v)
    ensures Dfs(Some(b)) == Dfs(Assign(b, BranchSquare(b), v))
  {
    DfsUnsolved(b);
    TryEachLeastSuccess(b, BranchSquare(b), v);
  }

  lemma DfsUnsolved(b: Board)
    requires NoEmpty(b) && !Solved(b)
    ensures Dfs(Some(b)) == TryEach(b, BranchSquare(b), Candidates(b[BranchSquare(b)]))
  {
  }

  /** Over the candidates in ascending order, the loop returns the result of the least
      candidate whose search succeeds. */
  lemma TryEachLeastSuccess(b: Board, s: Square, v: Digit)
    requires NoEmpty(b) && |b[s]| > 1 && LeastSuccess(b, s, v)
    ensures TryEach(b, s, Candidates(b[s])) == Dfs(Assign(b, s, v))
  {
    var vs := Candidates(b[s]);
    CandidatesAscending(b[s], v);
    TryEachLeastAmong(b, s, vs, v);
  }

  /** The same over any ascending list of candidates that contains `v`. */
  lemma TryEachLeastAmong(b: Board, s: Square, vs: seq<Digit>, v: Digit)
    requires NoEmpty(b) && |b[s]| > 1 && LeastSuccess(b, s, v)
    requires v in vs && forall d :: d in vs ==> d in b[s]
    requires forall i, j :: 0 <= i < j < |vs| ==> vs[i] < vs[j]
    ensures TryEach(b, s, vs) == Dfs(Assign(b, s, v))
  {
    TryEachFailsIffAll(b, s, vs);
    assert TryEach(b, s, vs).Some?;
    var i := TryEachFirstSuccess(b, s, vs);
    var failing := set w: Digit | w in b[s] && Fails(b, s, w);
    assert !Fails(b, s, vs[i]) && vs[i] !in failing;
    assert forall j :: 0 <= j < i ==> vs[j] in failing;
    FirstOutsideIsLeast(vs, failing, i, v);
  }

  /** The facts about `Candidates` that the loop lemmas need, for one member `v`. */
  lemma CandidatesAscending(c: Cell, v: Digit)
    requires v in c
    ensures v in Candidates(c) && forall d :: d in Candidates(c) ==> d in c
    ensures forall i, j :: 0 <= i < j < |Candidates(c)| ==> Candidates(c)[i] < Candidates(c)[j]
  {
  }

  /** In an ascending list, the first entry outside `failing` is the least such entry. */
  lemma FirstOutsideIsLeast(vs: seq<Digit>, failing: set<Digit>, i: nat, v: Digit)
    requires forall i, j :: 0 <= i < j < |vs| ==> vs[i] < vs[j]
    requires i < |vs| && vs[i] !in failing && forall j :: 0 <= j < i ==> vs[j] in failing
    requires v in vs && v !in failing && forall w :: w in vs && w < v ==> w in failing
    ensures vs[i] == v
  {
    var k :| 0 <= k < |vs| && vs[k] == v;
    assert !(k < i);
    assert vs[i] <= vs[k];
    assert !(vs[i] < v);
  }

  /** When the grid allows exactly one solution, `dfs` returns exactly that solution. */
  lemma DfsFindsUniqueSolution(b: Board, g: Grid)
    requires Propagated(b) && ValidGrid(g) && Consistent(g, b)
    requires forall h: Grid :: ValidGrid(h) && Consistent(h, b) ==> h == g
    ensures Dfs(Some(b)) == Some(BoardOf(g))
  {
    DfsFindsSolution(b, g);
    DfsSound(b);
    var r := Dfs(Some(b)).value;
    assert GridOf(r) == g;
    assert r == BoardOf(g);
  }
}
