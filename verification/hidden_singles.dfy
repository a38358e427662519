/** The hidden-single rule, in two halves: whenever the engine removes a digit from a square,
    every unit of that square still has a place for the digit (`...Covers`), and a digit left
    with a single place in such a unit has been assigned there (`...Resolves`). The lemmas
    follow the engine's mutual recursion call for call, under the same termination measure. */
module HiddenSingleRule {
  import opened Wrappers
  import opened Sequences
  import opened Topology
  import opened Boards
  import opened Propagation
  import opened Invariants

  lemma {:induction false} EliminateCovers(b: Board, s: Square, d: Digit)
    decreases Count(b), 0, 0
    ensures Eliminate(b, s, d).Some? ==> RemovalsCovered(b, Eliminate(b, s, d).value)
  {
    if d in b[s] {
      var b1 := b[s := b[s] - {d}];
      CountUpdate(b, s, b[s] - {d});
      if b1[s] != {} {
        var ob2 := if |b1[s]| == 1 then EliminateFromPeers(b1, PeerList(s), Sole(b1[s])) else Some(b1);
        if ob2.Some? {
          var b2 := ob2.value;
          if |b1[s]| == 1 {
            EliminateFromPeersCovers(b1, PeerList(s), Sole(b1[s]));
          }
          assert RemovalsCovered(b1, b2);
          HiddenSinglesCovers(b2, UnitsOf(s), d);
          var r := HiddenSingles(b2, UnitsOf(s), d);
          if r.Some? {
            RemovalsCoveredTransitive(b1, b2, r.value);
            assert UnitsHavePlace(r.value, s, d);
            forall x: Square, e: Digit | e in b[x] && e !in r.value[x]
              ensures UnitsHavePlace(r.value, x, e)
            {
              if x != s || e != d {
                assert e in b1[x];
              }
            }
          }
        }
      }
    }
  }

  lemma {:induction false} EliminateEachCovers(b: Board, s: Square, ds: seq<Digit>)
    decreases Count(b), 1, |ds|
    ensures EliminateEach(b, s, ds).Some? ==> RemovalsCovered(b, EliminateEach(b, s, ds).value)
  {
    if ds != [] {
      EliminateCovers(b, s, ds[0]);
      var b1 := Eliminate(b, s, ds[0]);
      if b1.Some? {
        EliminateEachCovers(b1.value, s, ds[1..]);
        var r := EliminateEach(b1.value, s, ds[1..]);
        if r.Some? {
          RemovalsCoveredTransitive(b, b1.value, r.value);
        }
      }
    }
  }

  lemma {:induction false} EliminateFromPeersCovers(b: Board, ps: seq<Square>, d: Digit)
    decreases Count(b), 1, |ps|
    ensures EliminateFromPeers(b, ps, d).Some? ==> RemovalsCovered(b, EliminateFromPeers(b, ps, d).value)
  {
    if ps != [] {
      EliminateCovers(b, ps[0], d);
      var b1 := Eliminate(b, ps[0], d);
      if b1.Some? {
        EliminateFromPeersCovers(b1.value, ps[1..], d);
        var r := EliminateFromPeers(b1.value, ps[1..], d);
        if r.Some? {
          RemovalsCoveredTransitive(b, b1.value, r.value);
        }
      }
    }
  }

  lemma {:induction false} AssignCovers(b: Board, s: Square, d: Digit)
    decreases Count(b), 2, 0
    ensures Assign(b, s, d).Some? ==> RemovalsCovered(b, Assign(b, s, d).value)
  {
    EliminateEachCovers(b, s, Candidates(b[s] - {d}));
  }

  /** Besides covering its own removals, a successful pass over the units `us` leaves each of
      them a place for `d`. */
  lemma {:induction false} HiddenSinglesCovers(b: Board, us: seq<Unit>, d: Digit)
    requires forall u :: u in us ==> u in UnitList()
    decreases Count(b), 3, |us|
    ensures HiddenSingles(b, us, d).Some? ==> RemovalsCovered(b, HiddenSingles(b, us, d).value)
    ensures HiddenSingles(b, us, d).Some? ==> forall u :: u in us ==> HasPlace(HiddenSingles(b, us, d).value, u, d)
  {
    if us != [] {
      var places := Places(b, us[0], d);
      if |places| > 0 {
        var p := places[0];
        assert p in places;
        var ob1 := if |places| == 1 then Assign(b, p, d) else Some(b);
        if |places| == 1 {
          AssignCovers(b, p, d);
        }
        if ob1.Some? {
          var b1 := ob1.value;
          assert d in b1[p];
          HiddenSinglesCovers(b1, us[1..], d);
          var r := HiddenSingles(b1, us[1..], d);
          if r.Some? {
            RemovalsCoveredTransitive(b, b1, r.value);
            if d !in r.value[p] {
              UnitOfMember(us[0], p);
              assert UnitsHavePlace(r.value, p, d);
            }
            assert HasPlace(r.value, us[0], d);
            assert forall u :: u in us ==> u == us[0] || u in us[1..];
          }
        }
      }
    }
  }

  /** A successful `assign` keeps a place for every digit in every unit. */
  lemma AssignKeepsUnitsCovered(b: Board, s: Square, d: Digit)
    requires UnitsCovered(b)
    ensures Assign(b, s, d).Some? ==> UnitsCovered(Assign(b, s, d).value)
  {
    AssignCovers(b, s, d);
    var r := Assign(b, s, d);
    if r.Some? {
      forall u, e: Digit | u in UnitList()
        ensures HasPlace(r.value, u, e)
      {
        assert HasPlace(b, u, e);
        var y :| y in u && e in b[y];
        if e !in r.value[y] {
          UnitOfMember(u, y);
          assert UnitsHavePlace(r.value, y, e);
        }
      }
    }
  }

  /** Removing a digit fails when some unit of the square offers no other place for it. */
  lemma EliminateFailsWhenUnitEmptied(b: Board, s: Square, d: Digit, u: Unit)
    requires d in b[s] && u in UnitsOf(s)
    requires forall y :: y in u && y != s ==> d !in b[y]
    ensures Eliminate(b, s, d).None?
  {
    EliminateCovers(b, s, d);
  }

  /** In a unit without repeated squares, a digit with one possible square has exactly that
      square as its list of places. */
  lemma {:induction false} OnlyPlaceListed(b: Board, u: Unit, d: Digit, q: Square)
    requires Distinct(u) && OnlyPlace(b, u, d, q)
    ensures Places(b, u, d) == [q]
  {
    if u[0] == q {
      forall y | y in u[1..]
        ensures y in u && y != q
      {
        var k :| 0 <= k < |u[1..]| && u[1..][k] == y;
        assert u[k + 1] == y;
      }
      NoPlaces(b, u[1..], d);
    } else {
      assert q in u[1..];
      assert forall y :: y in u[1..] ==> y in u;
      OnlyPlaceListed(b, u[1..], d, q);
    }
  }

  /** A digit that no square of `v` can hold has no places in `v`. */
  lemma {:induction false} NoPlaces(b: Board, v: seq<Square>, d: Digit)
    requires forall y :: y in v ==> d !in b[y]
    ensures Places(b, v, d) == []
  {
    if v != [] {
      assert forall y :: y in v[1..] ==> y in v;
      NoPlaces(b, v[1..], d);
    }
  }

  lemma {:induction false} EliminateResolves(b: Board, s: Square, d: Digit)
    decreases Count(b), 0, 0
    ensures Eliminate(b, s, d).Some? ==> RemovalsResolved(b, Eliminate(b, s, d).value)
  {
    if d in b[s] {
      var b1 := b[s := b[s] - {d}];
      CountUpdate(b, s, b[s] - {d});
      if b1[s] != {} {
        var ob2 := if |b1[s]| == 1 then EliminateFromPeers(b1, PeerList(s), Sole(b1[s])) else Some(b1);
        if ob2.Some? {
          var b2 := ob2.value;
          if |b1[s]| == 1 {
            EliminateFromPeersResolves(b1, PeerList(s), Sole(b1[s]));
          }
          assert RemovalsResolved(b1, b2);
          HiddenSinglesResolves(b2, UnitsOf(s), d);
          var r := HiddenSingles(b2, UnitsOf(s), d);
          if r.Some? {
            RemovalsResolvedTransitive(b1, b2, r.value);
            assert UnitsResolved(r.value, s, d);
            forall x: Square, e: Digit | e in b[x] && e !in r.value[x]
              ensures UnitsResolved(r.value, x, e)
            {
              if x != s || e != d {
                assert e in b1[x];
              }
            }
          }
        }
      }
    }
  }

  lemma {:induction false} EliminateEachResolves(b: Board, s: Square, ds: seq<Digit>)
    decreases Count(b), 1, |ds|
    ensures EliminateEach(b, s, ds).Some? ==> RemovalsResolved(b, EliminateEach(b, s, ds).value)
  {
    if ds != [] {
      EliminateResolves(b, s, ds[0]);
      var b1 := Eliminate(b, s, ds[0]);
      if b1.Some? {
        EliminateEachResolves(b1.value, s, ds[1..]);
        var r := EliminateEach(b1.value, s, ds[1..]);
        if r.Some? {
          RemovalsResolvedTransitive(b, b1.value, r.value);
        }
      }
    }
  }

  lemma {:induction false} EliminateFromPeersResolves(b: Board, ps: seq<Square>, d: Digit)
    decreases Count(b), 1, |ps|
    ensures EliminateFromPeers(b, ps, d).Some? ==> RemovalsResolved(b, EliminateFromPeers(b, ps, d).value)
  {
    if ps != [] {
      EliminateResolves(b, ps[0], d);
      var b1 := Eliminate(b, ps[0], d);
      if b1.Some? {
        EliminateFromPeersResolves(b1.value, ps[1..], d);
        var r := EliminateFromPeers(b1.value, ps[1..], d);
        if r.Some? {
          RemovalsResolvedTransitive(b, b1.value, r.value);
        }
      }
    }
  }

  lemma {:induction false} AssignResolves(b: Board, s: Square, d: Digit)
    decreases Count(b), 2, 0
    ensures Assign(b, s, d).Some? ==> RemovalsResolved(b, Assign(b, s, d).value)
  {
    EliminateEachResolves(b, s, Candidates(b[s] - {d}));
  }

  /** Besides resolving its own removals, a successful pass over the units `us` leaves each of
      them resolved for `d`: where `d` has one place left, that square holds `d` alone. */
  lemma {:induction false} HiddenSinglesResolves(b: Board, us: seq<Unit>, d: Digit)
    requires forall u :: u in us ==> u in UnitList()
    decreases Count(b), 3, |us|
    ensures HiddenSingles(b, us, d).Some? ==> RemovalsResolved(b, HiddenSingles(b, us, d).value)
    ensures HiddenSingles(b, us, d).Some? ==> forall u :: u in us ==> Resolved(HiddenSingles(b, us, d).value, u, d)
  {
    if us != [] {
      var places := Places(b, us[0], d);
      if |places| > 0 {
        var p := places[0];
        assert p in places;
        var ob1 := if |places| == 1 then Assign(b, p, d) else Some(b);
        if |places| == 1 {
          AssignResolves(b, p, d);
        }
        if ob1.Some? {
          var b1 := ob1.value;
          TopologyFacts.UnitWellFormed(us[0]);
          forall q: Square | OnlyPlace(b1, us[0], d, q)
            ensures b1[q] == {d}
          {
            if |places| == 1 {
              assert q in places;
            } else {
              OnlyPlaceListed(b, us[0], d, q);
            }
          }
          assert Resolved(b1, us[0], d);
          HiddenSinglesResolves(b1, us[1..], d);
          var r := HiddenSingles(b1, us[1..], d);
          if r.Some? {
            RemovalsResolvedTransitive(b, b1, r.value);
            ResolvedKept(b1, r.value, us[0], d);
            assert forall u :: u in us ==> u == us[0] || u in us[1..];
          }
        }
      }
    }
  }

  /** The hidden-single rule as `eliminate` applies it: after `d` is removed from `s`, a unit
      of `s` in which `d` has a single place `p` left has `d` assigned at `p`. */
  lemma EliminatePlacesHiddenSingle(b: Board, s: Square, d: Digit, u: Unit, p: Square)
    ensures (u in UnitsOf(s) && d in b[s] && Eliminate(b, s, d).Some? &&
             OnlyPlace(Eliminate(b, s, d).value, u, d, p)) ==> Eliminate(b, s, d).value[p] == {d}
  {
    EliminateResolves(b, s, d);
    if d in b[s] && Eliminate(b, s, d).Some? {
      assert UnitsResolved(Eliminate(b, s, d).value, s, d);
    }
  }

  /** A successful `assign` keeps every unit resolved for every digit. */
  lemma AssignKeepsHiddenSinglesPlaced(b: Board, s: Square, d: Digit)
    requires HiddenSinglesPlaced(b)
    ensures Assign(b, s, d).Some? ==> HiddenSinglesPlaced(Assign(b, s, d).value)
  {
    AssignResolves(b, s, d);
    var r := Assign(b, s, d);
    if r.Some? {
      forall u, e: Digit | u in UnitList()
        ensures Resolved(r.value, u, e)
      {
        ResolvedKept(b, r.value, u, e);
      }
    }
  }
}
