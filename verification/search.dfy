/** The depth-first search `dfs`: branch on a square with the fewest candidates, try its digits
    in ascending order, and return the first solved grid found. */
module Search {
  import opened Wrappers
  import opened Topology
  import opened Boards
  import opened Propagation

  /** `s` has more than one candidate, no square has fewer candidates while still having more
      than one, and every square before `s` with more than one candidate has strictly more. */
  predicate FirstFewest(b: Board, s: Square) {
    && |b[s]| > 1
    && (forall x: Square :: |b[x]| > 1 ==> |b[s]| <= |b[x]|)
    && (forall x: Square :: x < s && |b[x]| > 1 ==> |b[s]| < |b[x]|)
  }

  /** The scan over the squares from `i` on, with `best` the pick among those before `i`: a
      square replaces the current pick only when it has strictly fewer candidates. */
  function Pick(b: Board, i: nat, best: Option<Square>): (r: Option<Square>)
    requires i <= 81
    requires best.Some? ==> best.value < i && |b[best.value]| > 1
    requires best.Some? ==> forall x: Square :: x < i && |b[x]| > 1 ==> |b[best.value]| <= |b[x]|
    requires best.Some? ==> forall x: Square :: x < best.value && |b[x]| > 1 ==> |b[best.value]| < |b[x]|
    requires best.None? ==> forall x: Square :: x < i ==> |b[x]| <= 1
    decreases 81 - i
    ensures r.Some? ==> FirstFewest(b, r.value)
    ensures r.None? ==> forall x: Square :: |b[x]| <= 1
  {
    if i == 81 then best
    else if |b[i]| > 1 && (best.None? || |b[i]| < |b[best.value]|) then Pick(b, i + 1, Some(i))
    else Pick(b, i + 1, best)
  }

  /** The square `dfs` branches on. The source starts the scan with an infinite minimum and a
      placeholder square that is never used on a grid with no empty cell. */
  function BranchSquare(b: Board): (s: Square)
    requires NoEmpty(b) && !Solved(b)
    ensures FirstFewest(b, s)
  {
    var r := Pick(b, 0, None);
    assert r.Some?;
    r.value
  }

  /** `dfs`: `None` stays `None`, a solved grid is returned as it is, and otherwise the digits
      of the branch square are tried in turn. */
  function Dfs(ob: Option<Board>): (r: Option<Board>)
    requires ob.Some? ==> NoEmpty(ob.value)
    decreases if ob.Some? then Count(ob.value) else 0, 1, 0
    ensures r.Some? ==> ob.Some? && Solved(r.value) && Refines(r.value, ob.value)
    ensures ob.Some? && Solved(ob.value) ==> r == ob
  {
    if ob.None? then None
    else if Solved(ob.value) then ob
    else
      var s := BranchSquare(ob.value);
      TryEach(ob.value, s, Candidates(ob.value[s]))
  }

  /** The loop of `dfs` over the digits `vs` of square `s`: search below the assignment of
      each digit, and stop at the first that yields a solution. */
  function TryEach(b: Board, s: Square, vs: seq<Digit>): (r: Option<Board>)
    requires NoEmpty(b) && |b[s]| > 1
    decreases Count(b), 0, |vs|
    ensures r.Some? ==> Solved(r.value) && Refines(r.value, b)
  {
    if vs == [] then None
    else
      var a := Assign(b, s, vs[0]);
      var r := if a.None? then Dfs(a) else (CountDecreases(a.value, b, s); Dfs(a));
      if r.Some? then r else TryEach(b, s, vs[1..])
  }
}
