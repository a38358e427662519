/** Candidate grids: for every square, the set of digits still possible there. */
module Boards {
  import opened Sequences
  import opened Topology

  /** The digits still possible for one square. The source keeps them as a string of digit
      characters in ascending order; `Candidates` recovers that order. */
  type Cell = set<Digit>

  /** A candidate grid: one cell per square, indexed like `SquareNames()`. */
  type Board = b: seq<Cell> | |b| == 81 witness seq(81, _ => {})

  const AllDigits: Cell := {1, 2, 3, 4, 5, 6, 7, 8, 9}

  /** The grid `fillBoard` starts from: every digit possible in every square. */
  function FullBoard(): Board {
    seq(81, _ => AllDigits)
  }

  /** The candidates of a cell in ascending order, the order in which the source's loops
      visit the characters of a candidate string. */
  function Candidates(c: Cell): (ds: seq<Digit>)
    ensures forall d :: d in ds <==> d in c
    ensures forall i, j :: 0 <= i < j < |ds| ==> ds[i] < ds[j]
    ensures |ds| == |c|
  {
    AscendingCard(c, 1, 10);
    var xs := Ascending(c, 1, 10);
    assert forall i :: 0 <= i < |xs| ==> xs[i] in xs;
    xs
  }

  /** The one digit left in a cell reduced to a single candidate. */
  function Sole(c: Cell): (d: Digit)
    requires |c| == 1
    ensures c == {d}
  {
    var ds := Candidates(c);
    assert ds[0] in c;
    assert forall e :: e in c ==> e == ds[0];
    ds[0]
  }

  /** Total number of candidates left on a grid: the measure propagation decreases. */
  function Count(b: seq<Cell>): nat {
    if b == [] then 0 else |b[0]| + Count(b[1..])
  }

  /** Every cell of `r` is a subset of the same cell of `b`. */
  predicate Refines(r: Board, b: Board) {
    forall x: Square :: r[x] <= b[x]
  }

  /** No cell that had a candidate in `b` has none in `r`. */
  predicate KeepsNonEmpty(b: Board, r: Board) {
    forall x: Square :: b[x] != {} ==> r[x] != {}
  }

  /** `r` arises from `b` by removing candidates only, without emptying any cell. */
  predicate Narrows(b: Board, r: Board) {
    Refines(r, b) && Count(r) <= Count(b) && KeepsNonEmpty(b, r)
  }

  lemma NarrowsTransitive(a: Board, b: Board, c: Board)
    requires Narrows(a, b) && Narrows(b, c)
    ensures Narrows(a, c)
  {
  }

  /** Narrowing cannot change a cell that already has a single candidate. */
  lemma SingleKept(b: Board, r: Board, s: Square)
    requires Narrows(b, r) && |b[s]| == 1
    ensures r[s] == b[s]
  {
    var d := Sole(b[s]);
    assert r[s] <= {d} && r[s] != {};
  }

  predicate NoEmpty(b: Board) {
    forall x: Square :: b[x] != {}
  }

  /** Every square holds exactly one candidate. */
  predicate Solved(b: Board) {
    forall x: Square :: |b[x]| == 1
  }

  lemma SubsetCard(a: Cell, b: Cell)
    requires a <= b
    ensures |a| <= |b|
    ensures a != b ==> |a| < |b|
  {
    assert b == a + (b - a);
    if a != b {
      var x :| x in b - a;
    }
  }

  lemma {:induction false} CountUpdate(b: seq<Cell>, i: nat, c: Cell)
    requires i < |b|
    ensures Count(b[i := c]) == Count(b) - |b[i]| + |c|
  {
    if i > 0 {
      CountUpdate(b[1..], i - 1, c);
      assert b[i := c][1..] == b[1..][i - 1 := c];
    }
  }

  lemma {:induction false} CountPointwise(a: seq<Cell>, b: seq<Cell>)
    requires |a| == |b|
    requires forall i :: 0 <= i < |a| ==> a[i] <= b[i]
    ensures Count(a) <= Count(b)
    ensures forall i :: 0 <= i < |a| && a[i] != b[i] ==> Count(a) < Count(b)
  {
    if a != [] {
      CountPointwise(a[1..], b[1..]);
      SubsetCard(a[0], b[0]);
      forall i | 0 <= i < |a| && a[i] != b[i]
        ensures Count(a) < Count(b)
      {
        if i > 0 {
          assert a[1..][i - 1] != b[1..][i - 1];
        }
      }
    }
  }

  /** A grid that refines another and differs from it somewhere has fewer candidates. */
  lemma CountDecreases(r: Board, b: Board, s: Square)
    requires Refines(r, b) && r[s] != b[s]
    ensures Count(r) < Count(b)
  {
    CountPointwise(r, b);
  }
}
