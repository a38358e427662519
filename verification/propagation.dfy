/** The propagation engine: `assign` and `eliminate` of the source, with the loops they run
    written as the helper functions `EliminateEach`, `EliminateFromPeers` and `HiddenSingles`.
    A result of `None` is the source's `False`; on `Some(r)` the grid `r` is what the source's
    in-place updates leave behind. Every function here only removes candidates, which is what
    makes the mutual recursion terminate: the measure is the total candidate count, then the
    position of the function in the call chain, then the length of the list being walked. */
module Propagation {
  import opened Wrappers
  import opened Topology
  import opened Boards

  /** The squares of `u` that can still hold `d`, in the unit's order. */
  function Places(b: Board, u: Unit, d: Digit): (ps: seq<Square>)
    ensures forall x :: x in ps <==> x in u && d in b[x]
  {
    if u == [] then []
    else if d in b[u[0]] then [u[0]] + Places(b, u[1..], d)
    else Places(b, u[1..], d)
  }

  /** Commit square `s` to digit `d` by eliminating every other candidate of `s`, in ascending
      order. */
  function Assign(b: Board, s: Square, d: Digit): (r: Option<Board>)
    decreases Count(b), 2, 0
    ensures r.Some? ==> Narrows(b, r.value)
    ensures r.Some? && b[s] != {} ==> r.value[s] == {d}
    ensures d !in b[s] && b[s] != {} ==> r.None?
  {
    EliminateEach(b, s, Candidates(b[s] - {d}))
  }

  /** Eliminate the digits `ds`, one after the other, from square `s`. */
  function EliminateEach(b: Board, s: Square, ds: seq<Digit>): (r: Option<Board>)
    decreases Count(b), 1, |ds|
    ensures r.Some? ==> Narrows(b, r.value)
    ensures r.Some? ==> forall d :: d in ds ==> d !in r.value[s]
  {
    if ds == [] then Some(b)
    else
      var b1 :- Eliminate(b, s, ds[0]);
      var r := EliminateEach(b1, s, ds[1..]);
      if r.Some? then NarrowsTransitive(b, b1, r.value); r else r
  }

  /** Remove `d` from the candidates of `s` and propagate: a square left with one candidate
      removes it from all its peers (naked single), and a unit of `s` left with one place for
      `d` gets `d` assigned there (hidden single). Fails when `s` or a unit of `s` is left
      without any place for a digit. */
  function Eliminate(b: Board, s: Square, d: Digit): (r: Option<Board>)
    decreases Count(b), 0, 0
    ensures r.Some? ==> Narrows(b, r.value) && d !in r.value[s]
    ensures d !in b[s] ==> r == Some(b)
    ensures b[s] == {d} ==> r.None?
  {
    if d !in b[s] then Some(b)
    else
      var b1 := b[s := b[s] - {d}];
      CountUpdate(b, s, b[s] - {d});
      if b1[s] == {} then None
      else
        assert Narrows(b, b1);
        var b2 :- if |b1[s]| == 1 then EliminateFromPeers(b1, PeerList(s), Sole(b1[s])) else Some(b1);
        NarrowsTransitive(b, b1, b2);
        var r := HiddenSingles(b2, UnitsOf(s), d);
        if r.Some? then NarrowsTransitive(b, b2, r.value); r else r
  }

  /** Eliminate `d` from each square of `ps` in turn (the naked-single loop over the peers). */
  function EliminateFromPeers(b: Board, ps: seq<Square>, d: Digit): (r: Option<Board>)
    decreases Count(b), 1, |ps|
    ensures r.Some? ==> Narrows(b, r.value)
    ensures r.Some? ==> forall p :: p in ps ==> d !in r.value[p]
  {
    if ps == [] then Some(b)
    else
      var b1 :- Eliminate(b, ps[0], d);
      var r := EliminateFromPeers(b1, ps[1..], d);
      if r.Some? then NarrowsTransitive(b, b1, r.value); r else r
  }

  /** For each unit of `us` in turn, look at the squares that can still hold `d`: none is a
      failure, exactly one gets `d` assigned (the hidden-single loop). */
  function HiddenSingles(b: Board, us: seq<Unit>, d: Digit): (r: Option<Board>)
    decreases Count(b), 3, |us|
    ensures r.Some? ==> Narrows(b, r.value)
  {
    if us == [] then Some(b)
    else
      var places := Places(b, us[0], d);
      if |places| == 0 then None
      else
        var b1 :- if |places| == 1 then Assign(b, places[0], d) else Some(b);
        var r := HiddenSingles(b1, us[1..], d);
        if r.Some? then NarrowsTransitive(b, b1, r.value); r else r
  }
}
