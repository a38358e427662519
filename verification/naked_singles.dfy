/** The naked-single rule: whenever the engine leaves a square with a single candidate, that
    candidate has been removed from every peer. The lemmas follow the engine's mutual recursion
    call for call, under the same termination measure. */
module NakedSingles {
  import opened Wrappers
  import opened Topology
  import opened Boards
  import opened Propagation
  import opened Invariants

  lemma {:induction false} EliminateSettles(b: Board, s: Square, d: Digit)
    decreases Count(b), 0, 0
    ensures Eliminate(b, s, d).Some? ==> ChangedSettled(b, Eliminate(b, s, d).value)
  {
    if d in b[s] {
      var b1 := b[s := b[s] - {d}];
      CountUpdate(b, s, b[s] - {d});
      if b1[s] != {} {
        var ob2 := if |b1[s]| == 1 then EliminateFromPeers(b1, PeerList(s), Sole(b1[s])) else Some(b1);
        if ob2.Some? {
          var b2 := ob2.value;
          if |b1[s]| == 1 {
            var v := Sole(b1[s]);
            EliminateFromPeersSettles(b1, PeerList(s), v);
            assert b2[s] == {v} by {
              assert b2[s] <= b1[s] && b2[s] != {};
            }
            assert Settled(b2, s);
          }
          assert ChangedSettled(b, b2);
          HiddenSinglesSettles(b2, UnitsOf(s), d);
          var r := HiddenSingles(b2, UnitsOf(s), d);
          if r.Some? {
            ChangedSettledTransitive(b, b2, r.value);
          }
        }
      }
    }
  }

  lemma {:induction false} EliminateEachSettles(b: Board, s: Square, ds: seq<Digit>)
    decreases Count(b), 1, |ds|
    ensures EliminateEach(b, s, ds).Some? ==> ChangedSettled(b, EliminateEach(b, s, ds).value)
  {
    if ds != [] {
      EliminateSettles(b, s, ds[0]);
      var b1 := Eliminate(b, s, ds[0]);
      if b1.Some? {
        EliminateEachSettles(b1.value, s, ds[1..]);
        var r := EliminateEach(b1.value, s, ds[1..]);
        if r.Some? {
          ChangedSettledTransitive(b, b1.value, r.value);
        }
      }
    }
  }

  lemma {:induction false} EliminateFromPeersSettles(b: Board, ps: seq<Square>, d: Digit)
    decreases Count(b), 1, |ps|
    ensures EliminateFromPeers(b, ps, d).Some? ==> ChangedSettled(b, EliminateFromPeers(b, ps, d).value)
  {
    if ps != [] {
      EliminateSettles(b, ps[0], d);
      var b1 := Eliminate(b, ps[0], d);
      if b1.Some? {
        EliminateFromPeersSettles(b1.value, ps[1..], d);
        var r := EliminateFromPeers(b1.value, ps[1..], d);
        if r.Some? {
          ChangedSettledTransitive(b, b1.value, r.value);
        }
      }
    }
  }

  lemma {:induction false} AssignSettles(b: Board, s: Square, d: Digit)
    decreases Count(b), 2, 0
    ensures Assign(b, s, d).Some? ==> ChangedSettled(b, Assign(b, s, d).value)
  {
    EliminateEachSettles(b, s, Candidates(b[s] - {d}));
  }

  lemma {:induction false} HiddenSinglesSettles(b: Board, us: seq<Unit>, d: Digit)
    decreases Count(b), 3, |us|
    ensures HiddenSingles(b, us, d).Some? ==> ChangedSettled(b, HiddenSingles(b, us, d).value)
  {
    if us != [] {
      var places := Places(b, us[0], d);
      if |places| == 1 {
        AssignSettles(b, places[0], d);
        var b1 := Assign(b, places[0], d);
        if b1.Some? {
          HiddenSinglesSettles(b1.value, us[1..], d);
          var r := HiddenSingles(b1.value, us[1..], d);
          if r.Some? {
            ChangedSettledTransitive(b, b1.value, r.value);
          }
        }
      } else if |places| > 1 {
        HiddenSinglesSettles(b, us[1..], d);
      }
    }
  }

  /** A successful `assign` keeps every single candidate removed from the peers. */
  lemma AssignKeepsSinglesSettled(b: Board, s: Square, d: Digit)
    requires SinglesSettled(b)
    ensures Assign(b, s, d).Some? ==> SinglesSettled(Assign(b, s, d).value)
  {
    AssignSettles(b, s, d);
    var r := Assign(b, s, d);
    if r.Some? {
      forall x: Square
        ensures Settled(r.value, x)
      {
        if r.value[x] == b[x] {
          SettledKept(b, r.value, x);
        }
      }
    }
  }
}
