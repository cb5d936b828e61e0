/** Best-candidate selection of the searcher's search: one pass over the
    bucket keeping two running maxima, the best-ranked candidate overall
    (the "similar" stub) and the best-ranked candidate that also matches the
    query (the "found" stub). A maximum starts at rank 0 and is replaced
    only on a strictly greater rank, so ties go to the earliest candidate
    and a candidate of rank 0 or less is never chosen.

    The matcher and the ranker are parameters: `matches` is the exact
    comparison of a query with a stub, `rank` its similarity score. */
module Ranking {
  import opened StubTypes

  /** Whether a candidate takes part in a selection: every candidate does
      for the similar stub, only matching ones for the found stub. */
  predicate Eligible(q: Query, s: Stub, strict: bool, matches: (Query, Stub) -> bool) {
    !strict || matches(q, s)
  }

  /** `stubs[k]` is the selection's winner: eligible, of positive rank, of
      rank no lower than any eligible candidate and strictly higher than
      every eligible candidate before it. */
  ghost predicate IsLeader(q: Query, stubs: seq<Stub>, k: int, strict: bool,
                           matches: (Query, Stub) -> bool, rank: (Query, Stub) -> real)
  {
    && 0 <= k < |stubs|
    && Eligible(q, stubs[k], strict, matches)
    && rank(q, stubs[k]) > 0.0
    && (forall j :: 0 <= j < |stubs| && Eligible(q, stubs[j], strict, matches) ==> rank(q, stubs[j]) <= rank(q, stubs[k]))
    && (forall j :: 0 <= j < k && Eligible(q, stubs[j], strict, matches) ==> rank(q, stubs[j]) < rank(q, stubs[k]))
  }

  /** No eligible candidate has a positive rank. */
  ghost predicate NoLeader(q: Query, stubs: seq<Stub>, strict: bool,
                           matches: (Query, Stub) -> bool, rank: (Query, Stub) -> real)
  {
    forall j :: 0 <= j < |stubs| && Eligible(q, stubs[j], strict, matches) ==> rank(q, stubs[j]) <= 0.0
  }

  /** `pick` is what the selection yields: the leader, or nothing when no
      eligible candidate has a positive rank. */
  ghost predicate Picks(q: Query, stubs: seq<Stub>, strict: bool,
                        matches: (Query, Stub) -> bool, rank: (Query, Stub) -> real, pick: Option<Stub>)
  {
    match pick
    case None => NoLeader(q, stubs, strict, matches, rank)
    case Some(s) => exists k :: IsLeader(q, stubs, k, strict, matches, rank) && stubs[k] == s
  }

  /** The loop of search: returns the found and the similar stub of the
      bucket `stubs`. */
  method Select(q: Query, stubs: seq<Stub>, matches: (Query, Stub) -> bool, rank: (Query, Stub) -> real)
    returns (found: Option<Stub>, similar: Option<Stub>)
    ensures Picks(q, stubs, true, matches, rank, found)
    ensures Picks(q, stubs, false, matches, rank, similar)
  {
    found, similar := None, None;
    var foundRank, similarRank := 0.0, 0.0;
    ghost var fk, sk := 0, 0;
    for i := 0 to |stubs|
      invariant similar.None? ==> similarRank == 0.0
      invariant similar.None? ==> forall j :: 0 <= j < i ==> rank(q, stubs[j]) <= 0.0
      invariant similar.Some? ==> 0 <= sk < i && similar.value == stubs[sk] && similarRank == rank(q, stubs[sk]) > 0.0
      invariant similar.Some? ==> forall j :: 0 <= j < i ==> rank(q, stubs[j]) <= similarRank
      invariant similar.Some? ==> forall j :: 0 <= j < sk ==> rank(q, stubs[j]) < similarRank
      invariant found.None? ==> foundRank == 0.0
      invariant found.None? ==> forall j :: 0 <= j < i && matches(q, stubs[j]) ==> rank(q, stubs[j]) <= 0.0
      invariant found.Some? ==> 0 <= fk < i && found.value == stubs[fk] && matches(q, stubs[fk]) && foundRank == rank(q, stubs[fk]) > 0.0
      invariant found.Some? ==> forall j :: 0 <= j < i && matches(q, stubs[j]) ==> rank(q, stubs[j]) <= foundRank
      invariant found.Some? ==> forall j :: 0 <= j < fk && matches(q, stubs[j]) ==> rank(q, stubs[j]) < foundRank
    {
      var stub := stubs[i];
      var current := rank(q, stub);
      if current > similarRank {
        similar, similarRank := Some(stub), current;
        sk := i;
      }
      if matches(q, stub) && current > foundRank {
        found, foundRank := Some(stub), current;
        fk := i;
      }
    }
    if similar.Some? {
      assert IsLeader(q, stubs, sk, false, matches, rank);
    }
    if found.Some? {
      assert IsLeader(q, stubs, fk, true, matches, rank);
    }
  }

  /** The selection is defined for every bucket: when some eligible
      candidate has a positive rank, a leader exists. */
  lemma {:induction false} LeaderExists(q: Query, stubs: seq<Stub>, strict: bool,
                                         matches: (Query, Stub) -> bool, rank: (Query, Stub) -> real)
    requires !NoLeader(q, stubs, strict, matches, rank)
    ensures exists k :: IsLeader(q, stubs, k, strict, matches, rank)
  {
    var n := |stubs| - 1;
    var init := stubs[..n];
    var last := stubs[n];
    var lastIn := Eligible(q, last, strict, matches);
    if NoLeader(q, init, strict, matches, rank) {
      forall j | 0 <= j < n && Eligible(q, stubs[j], strict, matches)
        ensures rank(q, stubs[j]) <= 0.0
      {
        assert init[j] == stubs[j];
      }
      assert IsLeader(q, stubs, n, strict, matches, rank);
    } else {
      LeaderExists(q, init, strict, matches, rank);
      var k :| IsLeader(q, init, k, strict, matches, rank);
      assert forall j :: 0 <= j < n ==> init[j] == stubs[j];
      if lastIn && rank(q, last) > rank(q, stubs[k]) {
        assert IsLeader(q, stubs, n, strict, matches, rank);
      } else {
        assert IsLeader(q, stubs, k, strict, matches, rank);
      }
    }
  }

  /** A selection has exactly one outcome. */
  lemma PicksUnique(q: Query, stubs: seq<Stub>, strict: bool,
                    matches: (Query, Stub) -> bool, rank: (Query, Stub) -> real, p1: Option<Stub>, p2: Option<Stub>)
    requires Picks(q, stubs, strict, matches, rank, p1)
    requires Picks(q, stubs, strict, matches, rank, p2)
    ensures p1 == p2
  {
    if p1.Some? && p2.Some? {
      var k1 :| IsLeader(q, stubs, k1, strict, matches, rank) && stubs[k1] == p1.value;
      var k2 :| IsLeader(q, stubs, k2, strict, matches, rank) && stubs[k2] == p2.value;
      assert !(k1 < k2) && !(k2 < k1);
    }
  }

  /** Whenever there is a found stub there is a similar stub too, ranked at
      least as high; the found stub is preferred all the same, since search
      returns it whenever it exists. */
  lemma FoundImpliesSimilar(q: Query, stubs: seq<Stub>, matches: (Query, Stub) -> bool, rank: (Query, Stub) -> real,
                            found: Option<Stub>, similar: Option<Stub>)
    requires Picks(q, stubs, true, matches, rank, found)
    requires Picks(q, stubs, false, matches, rank, similar)
    requires found.Some?
    ensures similar.Some? && matches(q, found.value)
    ensures 0.0 < rank(q, found.value) <= rank(q, similar.value)
  {
    var k :| IsLeader(q, stubs, k, true, matches, rank) && stubs[k] == found.value;
    assert Eligible(q, stubs[k], false, matches);
    if similar.Some? {
      var m :| IsLeader(q, stubs, m, false, matches, rank) && stubs[m] == similar.value;
    }
  }
}
