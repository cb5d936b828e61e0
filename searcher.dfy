/** The searcher: the resolution layer on top of the two-level stub store.
    It answers queries either by explicit stub ID or by best match over the
    (service, method) bucket, records which stubs were returned to real
    (non-internal) callers, and translates the store's internal not-found
    kinds into the public ones.

    Each operation is one atomic step; the locking that makes them so in
    the system is not modelled. */
module Stuber {
  import opened StubTypes
  import opened Storage
  import opened Ranking

  /* ---------------------------------------------------------------------
     Errors
     --------------------------------------------------------------------- */

  /** Go's errors.Is against a sentinel: `err` is the sentinel or wraps it. */
  predicate Is(err: Error, target: Error)
    decreases err
  {
    err == target || (err.Wrapped? && Is(err.cause, target))
  }

  /** The translation at the searcher boundary: the store's service-level
      and method-level not-found kinds become the public ServiceNotFound
      and MethodNotFound; every other error passes through unchanged. */
  function Wrap(err: Error): (r: Error)
    ensures Is(err, LeftNotFound) ==> r == ServiceNotFound
    ensures !Is(err, LeftNotFound) && Is(err, RightNotFound) ==> r == MethodNotFound
    ensures !Is(err, LeftNotFound) && !Is(err, RightNotFound) ==> r == err
    ensures !Is(r, LeftNotFound) && !Is(r, RightNotFound)
  {
    if Is(err, LeftNotFound) then ServiceNotFound
    else if Is(err, RightNotFound) then MethodNotFound
    else err
  }

  /** Translating twice is translating once, so the second wrap that search
      applies to findBy's already translated error changes nothing. */
  lemma WrapIdempotent(err: Error)
    ensures Wrap(Wrap(err)) == Wrap(err)
  {
  }

  /* ---------------------------------------------------------------------
     Casts between stubs and store values
     --------------------------------------------------------------------- */

  /** The stubs among `values`, in order: what castToStub keeps. */
  function StubsOf(values: seq<Value>): (r: seq<Stub>)
    ensures forall s :: s in r <==> StubValue(s) in values
    ensures |r| <= |values|
    decreases |values|
  {
    if values == [] then []
    else
      var n := |values| - 1;
      assert forall v :: v in values <==> v in values[..n] || v == values[n];
      StubsOf(values[..n]) + (if values[n].StubValue? then [values[n].stub] else [])
  }

  /** Every stub as a store value, in order: what castToValue builds. */
  function ValuesOf(stubs: seq<Stub>): (r: seq<Value>)
    ensures |r| == |stubs|
    ensures forall i :: 0 <= i < |stubs| ==> r[i] == StubValue(stubs[i])
  {
    seq(|stubs|, i requires 0 <= i < |stubs| => StubValue(stubs[i]))
  }

  /** Casting stubs to values and back gives the same stubs in the same
      order. */
  lemma {:induction false} CastRoundTrip(stubs: seq<Stub>)
    ensures StubsOf(ValuesOf(stubs)) == stubs
    decreases |stubs|
  {
    if stubs != [] {
      var n := |stubs| - 1;
      assert ValuesOf(stubs)[..n] == ValuesOf(stubs[..n]);
      CastRoundTrip(stubs[..n]);
    }
  }

  /** castToValue: one store value per stub, in order. */
  method CastToValue(stubs: seq<Stub>) returns (result: seq<Value>)
    ensures result == ValuesOf(stubs)
  {
    result := [];
    for i := 0 to |stubs|
      invariant result == ValuesOf(stubs[..i])
    {
      result := result + [StubValue(stubs[i])];
    }
    assert stubs[..|stubs|] == stubs;
  }

  /** castToStub: keeps the values that are stubs, in order. */
  method CastToStub(values: seq<Value>) returns (ret: seq<Stub>)
    ensures ret == StubsOf(values)
  {
    ret := [];
    for i := 0 to |values|
      invariant ret == StubsOf(values[..i])
    {
      assert values[..i + 1][..i] == values[..i];
      if values[i].StubValue? {
        ret := ret + [values[i].stub];
      }
    }
    assert values[..|values|] == values;
  }

  /** With distinct keys in the store, the stubs kept have distinct IDs. */
  lemma {:induction false} StubsOfDistinct(values: seq<Value>)
    requires DistinctKeys(values)
    ensures forall i, j :: 0 <= i < j < |StubsOf(values)| ==> StubsOf(values)[i].id != StubsOf(values)[j].id
    decreases |values|
  {
    if values != [] {
      var n := |values| - 1;
      var init := StubsOf(values[..n]);
      StubsOfDistinct(values[..n]);
      if values[n].StubValue? {
        forall i | 0 <= i < |init| ensures init[i].id != values[n].stub.id {
          assert StubValue(init[i]) in values[..n];
          var k :| 0 <= k < n && values[k] == StubValue(init[i]);
        }
      }
    }
  }

  /** Looking up distinct keys yields values with distinct keys. */
  lemma {:induction false} FindByIDsDistinct(store: Store, ids: seq<ID>)
    requires forall i, j :: 0 <= i < j < |ids| ==> ids[i] != ids[j]
    ensures DistinctKeys(store.FindByIDs(ids))
    decreases |ids|
  {
    if ids != [] {
      FindByIDsDistinct(store, ids[1..]);
      var rest := store.FindByIDs(ids[1..]);
      if store.FindByID(ids[0]).Some? {
        forall j | 0 <= j < |rest| ensures rest[j].Key() != ids[0] {
          assert rest[j] in rest;
        }
      }
    }
  }

  /* ---------------------------------------------------------------------
     Lookups that delegate to the store
     --------------------------------------------------------------------- */

  /** findByID: the stub stored under `id`; nothing when the key is absent
      or holds a value that is not a stub. */
  function FindByID(store: Store, id: ID): (r: Option<Stub>)
    ensures r.Some? ==> r.value.id == id && StubValue(r.value) in store.values
    ensures store.Valid() ==> (r.None? <==> forall s :: StubValue(s) in store.values ==> s.id != id)
  {
    FindByIDStubs(store, id);
    match store.FindByID(id)
    case Some(StubValue(t)) => Some(t)
    case _ => None
  }

  lemma FindByIDStubs(store: Store, id: ID)
    ensures store.Valid() ==> forall s :: StubValue(s) in store.values && s.id == id ==> store.FindByID(id) == Some(StubValue(s))
  {
    if store.Valid() {
      forall s | StubValue(s) in store.values && s.id == id ensures store.FindByID(id) == Some(StubValue(s)) {
        FindByIDExact(store, StubValue(s));
      }
    }
  }

  /** findBy: the stubs of the (service, method) bucket, in store order,
      with the store's two not-found kinds translated to the public ones. */
  function FindBy(store: Store, service: string, methodName: string): (r: Outcome<seq<Stub>>)
    ensures r == Err(ServiceNotFound) <==> !store.HasService(service)
    ensures r == Err(MethodNotFound) <==> store.HasService(service) && !store.HasMethod(service, methodName)
    ensures r.Ok? <==> store.HasMethod(service, methodName)
    ensures r.Ok? ==> forall s :: s in r.value <==> StubValue(s) in store.values && s.service == service && s.methodName == methodName
  {
    match store.FindAll(service, methodName)
    case Err(e) => Err(Wrap(e))
    case Ok(all) => Ok(StubsOf(all))
  }

  /** all: every stored stub, in store order. */
  function All(store: Store): (r: seq<Stub>)
    ensures forall s :: s in r <==> StubValue(s) in store.values
  {
    StubsOf(store.values)
  }

  /* ---------------------------------------------------------------------
     Usage tracking
     --------------------------------------------------------------------- */

  /** The usage set after marking `id` for query `q`: an internal query
      records nothing, any other query records exactly `id`. */
  function Marked(used: set<ID>, q: Query, id: ID): (r: set<ID>)
    ensures used <= r && r - used <= {id}
    ensures id in r <==> id in used || !q.RequestInternal()
  {
    if q.RequestInternal() then used else used + {id}
  }

  lemma MarkedIdempotent(used: set<ID>, q: Query, id: ID)
    ensures Marked(Marked(used, q, id), q, id) == Marked(used, q, id)
  {
  }

  /** The stubs of `stubs` whose ID is not in `used`, in order. */
  function UnusedOf(stubs: seq<Stub>, used: set<ID>): (r: seq<Stub>)
    ensures forall s :: s in r <==> s in stubs && s.id !in used
    ensures |r| <= |stubs|
    decreases |stubs|
  {
    if stubs == [] then []
    else
      var n := |stubs| - 1;
      assert forall s :: s in stubs <==> s in stubs[..n] || s == stubs[n];
      UnusedOf(stubs[..n], used) + (if stubs[n].id !in used then [stubs[n]] else [])
  }

  /* ---------------------------------------------------------------------
     What find answers
     --------------------------------------------------------------------- */

  /** What search yields once the found and similar stubs are known: the
      found stub (marked used), else the similar stub, else StubNotFound. */
  predicate Chosen(q: Query, found: Option<Stub>, similar: Option<Stub>,
                   used: set<ID>, out: Outcome<Result>, used': set<ID>)
  {
    if found.Some? then out == Ok(Result(found, None)) && used' == Marked(used, q, found.value.id)
    else if similar.Some? then out == Ok(Result(None, similar)) && used' == used
    else out == Err(StubNotFound) && used' == used
  }

  /** search: the bucket's error, translated; otherwise the choice made from
      the bucket's found and similar stubs. */
  ghost predicate Searched(store: Store, used: set<ID>, matches: (Query, Stub) -> bool, rank: (Query, Stub) -> real,
                           q: Query, out: Outcome<Result>, used': set<ID>)
  {
    match FindBy(store, q.service, q.methodName)
    case Err(e) => out == Err(e) && used' == used
    case Ok(stubs) =>
      exists found, similar ::
        && Picks(q, stubs, true, matches, rank, found)
        && Picks(q, stubs, false, matches, rank, similar)
        && Chosen(q, found, similar, used, out, used')
  }

  /** searchByID: the pair must exist (otherwise its translated error); then
      the stub stored under the query's ID is the found stub, whatever bucket
      it is filed under, and an absent ID reports ServiceNotFound. */
  predicate SearchedByID(store: Store, used: set<ID>, service: string, methodName: string,
                         q: Query, out: Outcome<Result>, used': set<ID>)
    requires q.id.Some?
  {
    match store.PosByN(service, methodName)
    case Err(e) => out == Err(Wrap(e)) && used' == used
    case Ok(_) =>
      match FindByID(store, q.id.value)
      case Some(s) => out == Ok(Result(Some(s), None)) && used' == Marked(used, q, q.id.value)
      case None => out == Err(ServiceNotFound) && used' == used
  }

  /** find: by ID when the query carries one, by best match otherwise. */
  ghost predicate Resolved(store: Store, used: set<ID>, matches: (Query, Stub) -> bool, rank: (Query, Stub) -> real,
                           q: Query, out: Outcome<Result>, used': set<ID>)
  {
    if q.id.Some? then SearchedByID(store, used, q.service, q.methodName, q, out, used')
    else Searched(store, used, matches, rank, q, out, used')
  }

  /* ---------------------------------------------------------------------
     The searcher
     --------------------------------------------------------------------- */

  class Searcher {
    /** IDs of the stubs returned as exact matches to non-internal queries. */
    var stubUsed: set<ID>
    /** The stub store the searcher owns. */
    var store: Store
    /** The matcher and the ranker the searcher resolves with. */
    const matches: (Query, Stub) -> bool
    const rank: (Query, Stub) -> real

    ghost predicate Valid()
      reads this
    {
      store.Valid()
    }

    constructor (matches: (Query, Stub) -> bool, rank: (Query, Stub) -> real)
      ensures Valid()
      ensures stubUsed == {} && store.values == []
      ensures this.matches == matches && this.rank == rank
    {
      this.matches := matches;
      this.rank := rank;
      stubUsed := {};
      store := Store([]);
    }

    /** upsert: inserts or replaces each stub, returning their IDs in order.
        Every stub not overridden by a later one of the same call is then
        found under its ID. */
    method Upsert(stubs: seq<Stub>) returns (ids: seq<ID>)
      requires Valid()
      modifies this
      ensures Valid() && stubUsed == old(stubUsed)
      ensures store == old(store).Upsert(ValuesOf(stubs))
      ensures |ids| == |stubs| && forall i :: 0 <= i < |stubs| ==> ids[i] == stubs[i].id
      ensures forall i :: 0 <= i < |stubs| && (forall j :: i < j < |stubs| ==> stubs[j].id != stubs[i].id) ==>
                FindByID(store, stubs[i].id) == Some(stubs[i])
    {
      var values := CastToValue(stubs);
      ids := Keys(values);
      store := store.Upsert(values);
      forall i | 0 <= i < |stubs| && (forall j :: i < j < |stubs| ==> stubs[j].id != stubs[i].id)
        ensures FindByID(store, stubs[i].id) == Some(stubs[i])
      {
        UpsertThenFind(old(store), values, i);
      }
    }

    /** del: removes the given IDs and returns how many stubs it removed. */
    method Del(ids: seq<ID>) returns (n: nat)
      requires Valid()
      modifies this
      ensures Valid() && stubUsed == old(stubUsed)
      ensures (store, n) == old(store).Del(ids)
      ensures n + |store.values| == |old(store).values|
      ensures forall id :: id in ids ==> FindByID(store, id) == None
      ensures forall id :: id !in ids ==> FindByID(store, id) == FindByID(old(store), id)
    {
      var r := store.Del(ids);
      DelCount(store, ids);
      forall id ensures (id in ids ==> r.0.FindByID(id) == None) && (id !in ids ==> r.0.FindByID(id) == store.FindByID(id)) {
        DelThenFind(store, ids, id);
      }
      store, n := r.0, r.1;
    }

    /** clear: forgets all usage and every stub, so every service is
        unknown afterwards. */
    method Clear()
      modifies this
      ensures Valid()
      ensures stubUsed == {} && store.values == []
      ensures forall service, methodName :: FindBy(store, service, methodName) == Err(ServiceNotFound)
    {
      stubUsed := {};
      store := Store([]);
    }

    /** used: the stored stubs whose ID was marked, each once; marked IDs
        no longer stored are skipped. The order is unspecified. */
    method Used() returns (r: seq<Stub>)
      requires Valid()
      ensures forall s :: s in r <==> StubValue(s) in store.values && s.id in stubUsed
      ensures forall i, j :: 0 <= i < j < |r| ==> r[i].id != r[j].id
    {
      var ids := MapKeys(stubUsed);
      var values := store.FindByIDs(ids);
      r := CastToStub(values);
      forall s | StubValue(s) in store.values && s.id in stubUsed ensures s in r {
        FindByIDExact(store, StubValue(s));
      }
      FindByIDsDistinct(store, ids);
      StubsOfDistinct(values);
    }

    /** unused: the stored stubs whose ID was never marked, in store order. */
    method Unused() returns (r: seq<Stub>)
      ensures r == UnusedOf(All(store), stubUsed)
      ensures forall s :: s in r <==> StubValue(s) in store.values && s.id !in stubUsed
    {
      var all := All(store);
      r := [];
      for i := 0 to |all|
        invariant r == UnusedOf(all[..i], stubUsed)
      {
        assert all[..i + 1][..i] == all[..i];
        if all[i].id !in stubUsed {
          r := r + [all[i]];
        }
      }
      assert all[..|all|] == all;
    }

    /** find: dispatches on whether the query carries an explicit ID. */
    method Find(q: Query) returns (out: Outcome<Result>)
      requires Valid()
      modifies this
      ensures Valid() && store == old(store)
      ensures Resolved(old(store), old(stubUsed), matches, rank, q, out, stubUsed)
    {
      if q.id.Some? {
        out := SearchByID(q.service, q.methodName, q);
        return;
      }
      out := Search(q);
    }

    /** searchByID: checks the pair exists, then looks the ID up and marks
        it. The stub found is not checked to be filed under the pair. */
    method SearchByID(service: string, methodName: string, q: Query) returns (out: Outcome<Result>)
      requires Valid() && q.id.Some?
      modifies this
      ensures Valid() && store == old(store)
      ensures SearchedByID(old(store), old(stubUsed), service, methodName, q, out, stubUsed)
    {
      var pos := store.PosByN(service, methodName);
      if pos.Err? {
        out := Err(Wrap(pos.error));
        return;
      }
      var found := FindByID(store, q.id.value);
      if found.Some? {
        Mark(q, q.id.value);
        out := Ok(Result(found, None));
        return;
      }
      out := Err(ServiceNotFound);
    }

    /** search: best match over the query's bucket. */
    method Search(q: Query) returns (out: Outcome<Result>)
      requires Valid()
      modifies this
      ensures Valid() && store == old(store)
      ensures Searched(old(store), old(stubUsed), matches, rank, q, out, stubUsed)
    {
      var bucket := FindBy(store, q.service, q.methodName);
      if bucket.Err? {
        WrapIdempotent(bucket.error);
        out := Err(Wrap(bucket.error));
        return;
      }
      var found, similar := Select(q, bucket.value, matches, rank);
      if found.Some? {
        Mark(q, found.value.id);
        out := Ok(Result(found, None));
      } else if similar.None? {
        out := Err(StubNotFound);
      } else {
        out := Ok(Result(None, similar));
      }
      assert Chosen(q, found, similar, old(stubUsed), out, stubUsed);
    }

    /** mark: records `id` as used unless the query is internal. */
    method Mark(q: Query, id: ID)
      modifies this
      ensures store == old(store)
      ensures stubUsed == Marked(old(stubUsed), q, id)
    {
      if q.RequestInternal() {
        return;
      }
      stubUsed := stubUsed + {id};
    }
  }

  /** maps.Keys over the usage set: every key once, in some order. */
  method MapKeys(m: set<ID>) returns (ids: seq<ID>)
    ensures forall id :: id in ids <==> id in m
    ensures forall i, j :: 0 <= i < j < |ids| ==> ids[i] != ids[j]
  {
    ids := [];
    var rest := m;
    while rest != {}
      invariant rest <= m
      invariant forall id :: id in ids <==> id in m - rest
      invariant forall i, j :: 0 <= i < j < |ids| ==> ids[i] != ids[j]
      decreases rest
    {
      var id :| id in rest;
      assert forall i :: 0 <= i < |ids| ==> ids[i] != id by {
        assert forall i :: 0 <= i < |ids| ==> ids[i] in ids;
      }
      ids := ids + [id];
      rest := rest - {id};
    }
  }

  /* ---------------------------------------------------------------------
     Properties of find
     --------------------------------------------------------------------- */

  /** find answers deterministically: one store, usage set and query give
      one outcome and one new usage set. */
  lemma ResolvedUnique(store: Store, used: set<ID>, matches: (Query, Stub) -> bool, rank: (Query, Stub) -> real,
                       q: Query, out1: Outcome<Result>, used1: set<ID>, out2: Outcome<Result>, used2: set<ID>)
    requires Resolved(store, used, matches, rank, q, out1, used1)
    requires Resolved(store, used, matches, rank, q, out2, used2)
    ensures out1 == out2 && used1 == used2
  {
    if q.id.None? && FindBy(store, q.service, q.methodName).Ok? {
      var stubs := FindBy(store, q.service, q.methodName).value;
      var f1, s1 :| Picks(q, stubs, true, matches, rank, f1) && Picks(q, stubs, false, matches, rank, s1)
                    && Chosen(q, f1, s1, used, out1, used1);
      var f2, s2 :| Picks(q, stubs, true, matches, rank, f2) && Picks(q, stubs, false, matches, rank, s2)
                    && Chosen(q, f2, s2, used, out2, used2);
      PicksUnique(q, stubs, true, matches, rank, f1, f2);
      PicksUnique(q, stubs, false, matches, rank, s1, s2);
    }
  }

  /** find fails only with a public error: ServiceNotFound when the service
      is unknown, MethodNotFound when the service is known but the method
      is not, and otherwise ServiceNotFound (absent ID) or StubNotFound (no
      candidate of positive rank). */
  lemma ResolvedErrors(store: Store, used: set<ID>, matches: (Query, Stub) -> bool, rank: (Query, Stub) -> real,
                       q: Query, out: Outcome<Result>, used': set<ID>)
    requires Resolved(store, used, matches, rank, q, out, used')
    ensures !store.HasService(q.service) ==> out == Err(ServiceNotFound)
    ensures store.HasService(q.service) && !store.HasMethod(q.service, q.methodName) ==> out == Err(MethodNotFound)
    ensures store.HasMethod(q.service, q.methodName) && out.Err? ==>
              out.error == if q.id.Some? then ServiceNotFound else StubNotFound
    ensures out.Err? ==> used' == used
  {
    if q.id.None? {
      match FindBy(store, q.service, q.methodName)
      case Err(e) =>
      case Ok(stubs) =>
        var f, s :| Picks(q, stubs, true, matches, rank, f) && Picks(q, stubs, false, matches, rank, s)
                    && Chosen(q, f, s, used, out, used');
    }
  }

  /** A successful answer holds exactly one stub: the exact match, or
      failing that the closest candidate. The exact match of a search
      matches the query; the answer by ID has the query's ID. */
  lemma ResolvedShape(store: Store, used: set<ID>, matches: (Query, Stub) -> bool, rank: (Query, Stub) -> real,
                      q: Query, out: Outcome<Result>, used': set<ID>)
    requires Resolved(store, used, matches, rank, q, out, used')
    requires out.Ok?
    ensures out.value.found.Some? != out.value.similar.Some?
    ensures out.value.found.Some? ==> StubValue(out.value.found.value) in store.values
    ensures out.value.similar.Some? ==> StubValue(out.value.similar.value) in store.values
    ensures q.id.Some? ==> out.value.found.Some? && out.value.found.value.id == q.id.value
    ensures q.id.None? && out.value.found.Some? ==> matches(q, out.value.found.value) && rank(q, out.value.found.value) > 0.0
    ensures q.id.None? && out.value.similar.Some? ==> rank(q, out.value.similar.value) > 0.0
  {
    if q.id.None? {
      var stubs := FindBy(store, q.service, q.methodName).value;
      var f, s :| Picks(q, stubs, true, matches, rank, f) && Picks(q, stubs, false, matches, rank, s)
                  && Chosen(q, f, s, used, out, used');
      if f.Some? {
        var k :| IsLeader(q, stubs, k, true, matches, rank) && stubs[k] == f.value;
        assert stubs[k] in stubs;
      } else {
        var k :| IsLeader(q, stubs, k, false, matches, rank) && stubs[k] == s.value;
        assert stubs[k] in stubs;
      }
    }
  }

  /** Usage tracking: find adds to the usage set at most the ID of the exact
      match it returns, adds it exactly when the query is not internal, and
      never adds anything for an internal query. */
  lemma ResolvedUsage(store: Store, used: set<ID>, matches: (Query, Stub) -> bool, rank: (Query, Stub) -> real,
                      q: Query, out: Outcome<Result>, used': set<ID>)
    requires Resolved(store, used, matches, rank, q, out, used')
    ensures used <= used'
    ensures q.RequestInternal() ==> used' == used
    ensures out.Ok? && out.value.found.Some? ==>
              used' == Marked(used, q, out.value.found.value.id)
    ensures !(out.Ok? && out.value.found.Some?) ==> used' == used
  {
    if q.id.None? {
      match FindBy(store, q.service, q.methodName)
      case Err(e) =>
      case Ok(stubs) =>
        var f, s :| Picks(q, stubs, true, matches, rank, f) && Picks(q, stubs, false, matches, rank, s)
                    && Chosen(q, f, s, used, out, used');
    }
  }

  /** An exact match wins over a better-ranked candidate that does not
      match: when some matching stub of the bucket has a positive rank, a
      search answers with an exact match, never with a similar stub. */
  lemma ExactMatchPreferred(store: Store, used: set<ID>, matches: (Query, Stub) -> bool, rank: (Query, Stub) -> real,
                            q: Query, out: Outcome<Result>, used': set<ID>, s: Stub)
    requires q.id.None?
    requires Resolved(store, used, matches, rank, q, out, used')
    requires StubValue(s) in store.values && s.service == q.service && s.methodName == q.methodName
    requires matches(q, s) && rank(q, s) > 0.0
    ensures out.Ok? && out.value.found.Some? && out.value.similar.None?
    ensures rank(q, out.value.found.value) >= rank(q, s)
  {
    var stubs := FindBy(store, q.service, q.methodName).value;
    var f, sim :| Picks(q, stubs, true, matches, rank, f) && Picks(q, stubs, false, matches, rank, sim)
                  && Chosen(q, f, sim, used, out, used');
    assert s in stubs;
    var i :| 0 <= i < |stubs| && stubs[i] == s;
    assert Eligible(q, stubs[i], true, matches);
    var k :| IsLeader(q, stubs, k, true, matches, rank) && stubs[k] == f.value;
  }

  /** Without any matching stub of positive rank, a search answers with the
      closest candidate: a stub of the bucket ranked at least as high as
      every other, the earliest of those. */
  lemma SimilarFallback(store: Store, used: set<ID>, matches: (Query, Stub) -> bool, rank: (Query, Stub) -> real,
                        q: Query, out: Outcome<Result>, used': set<ID>, stubs: seq<Stub>)
    requires q.id.None?
    requires Resolved(store, used, matches, rank, q, out, used')
    requires FindBy(store, q.service, q.methodName) == Ok(stubs)
    requires NoLeader(q, stubs, true, matches, rank)
    requires !NoLeader(q, stubs, false, matches, rank)
    ensures out.Ok? && out.value.found.None? && out.value.similar.Some?
    ensures exists k :: IsLeader(q, stubs, k, false, matches, rank) && stubs[k] == out.value.similar.value
    ensures used' == used
  {
    var f, s :| Picks(q, stubs, true, matches, rank, f) && Picks(q, stubs, false, matches, rank, s)
                && Chosen(q, f, s, used, out, used');
    PicksUnique(q, stubs, true, matches, rank, f, None);
  }

  /** An explicit ID is honoured even when its stub is filed under another
      (service, method): only the pair's existence is checked. */
  lemma ByIDIgnoresBucket(store: Store, used: set<ID>, matches: (Query, Stub) -> bool, rank: (Query, Stub) -> real,
                          q: Query, out: Outcome<Result>, used': set<ID>, s: Stub)
    requires store.Valid()
    requires q.id == Some(s.id)
    requires store.HasMethod(q.service, q.methodName)
    requires StubValue(s) in store.values
    requires Resolved(store, used, matches, rank, q, out, used')
    ensures out == Ok(Result(Some(s), None))
    ensures used' == Marked(used, q, s.id)
  {
    FindByIDExact(store, StubValue(s));
  }

  /** After clear, every query fails with ServiceNotFound and nothing is
      marked. */
  lemma ClearedResolvesServiceNotFound(matches: (Query, Stub) -> bool, rank: (Query, Stub) -> real,
                                       q: Query, out: Outcome<Result>, used': set<ID>)
    requires Resolved(Store([]), {}, matches, rank, q, out, used')
    ensures out == Err(ServiceNotFound) && used' == {}
  {
    ResolvedErrors(Store([]), {}, matches, rank, q, out, used');
  }
}
