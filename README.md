# Stub searcher model

A Dafny model of the resolution layer of `stuber`, the in-memory stub
repository of a mocking server (`searcher.go`). A `searcher` sits on a
two-level stub store (service, then method) and answers queries:

- `find` resolves a query either by its explicit stub ID (`searchByID`) or by
  best match over the query's (service, method) bucket (`search`);
- `search` makes one pass over the bucket keeping two running maxima: the
  best-ranked stub overall (the *similar* stub) and the best-ranked stub that
  also matches the query exactly (the *found* stub). Both start at rank 0 and
  are replaced only on a strictly greater rank, so ties go to the earliest
  stub and a stub of rank 0 or less is never chosen. The found stub is
  returned (and marked used) when there is one, else the similar stub, else
  `StubNotFound`;
- `mark` records the ID of a stub returned as an exact match, unless the
  query is internal; `used`/`unused` split the stored stubs by that record;
  `clear` forgets the record and every stub;
- `wrap` translates the store's internal `LeftNotFound`/`RightNotFound` into
  the public `ServiceNotFound`/`MethodNotFound`, passing other errors through.

Files:

- `types.dfy` (module `StubTypes`): IDs (an opaque type with equality),
  stubs, queries, the `Result` of a search, the error kinds, `Option`,
  `Outcome` (a value or an error, as Go's `(T, error)`).
- `storage.dfy` (module `Storage`): the store the searcher delegates to. Its
  implementation is not part of this model; it is given as the sequence of
  its values in enumeration order with distinct keys, and its lookups
  (`FindAll`, `PosByN`, `FindByID`, `FindByIDs`) and updates (`Upsert`,
  `Del`) are specified over that sequence, with the two not-found kinds.
- `ranking.dfy` (module `Ranking`): the selection loop of `search`
  (`Select`) proved against a declarative specification (`IsLeader`,
  `NoLeader`, `Picks`).
- `searcher.dfy` (module `Stuber`): `Wrap`, the casts, the delegating
  lookups, the `Searcher` class (fields `stubUsed` and `store`, plus the
  matcher and ranker it was built with) and the properties of `find`.

The matcher (`match`) and ranker (`rankMatch`) are parameters of the model:
`matches: (Query, Stub) -> bool` and `rank: (Query, Stub) -> real`, given to
the searcher's constructor. Every property holds for all of them.

## Model

| member | source | states |
|---|---|---|
| `Stuber.Wrap` | searcher.go:345-355 | a left-not-found error (or one wrapping it) becomes ServiceNotFound, a right-not-found one MethodNotFound, any other error is returned unchanged; the result never carries an internal kind |
| `Stuber.WrapIdempotent` | searcher.go:236-239 | translating twice is translating once, so search's second wrap of findBy's error changes nothing |
| `Stuber.CastToValue` | searcher.go:310-317 | the result holds one store value per stub, in the same order |
| `Stuber.CastToStub` | searcher.go:326-336 | the result keeps exactly the values that are stubs, in order |
| `Stuber.StubsOf` | searcher.go:326-336 | a stub is in the result iff it is among the values; the result is no longer than the input |
| `Stuber.CastRoundTrip` | searcher.go:310-336 | casting stubs to values and back gives the same stubs in the same order |
| `Stuber.StubsOfDistinct` | searcher.go:326-336 | over values with distinct keys, the kept stubs have distinct IDs |
| `Stuber.FindByID` | searcher.go:89-95 | a returned stub has the requested ID and is stored; with distinct keys, nothing is returned iff no stored stub has that ID |
| `Stuber.FindBy` | searcher.go:107-116 | ServiceNotFound iff the service is unknown, MethodNotFound iff the service is known but the method is not, otherwise exactly the stored stubs of that (service, method) |
| `Stuber.All` | searcher.go:136-139 | a stub is returned iff it is stored |
| `Stuber.Marked` | searcher.go:289-301 | the usage set only grows, by at most `id`; `id` is in it afterwards iff it was before or the query is not internal |
| `Stuber.MarkedIdempotent` | searcher.go:289-301 | marking the same ID twice is marking it once |
| `Stuber.UnusedOf` | searcher.go:157-175 | a stub is kept iff it is in the input and its ID is not marked |
| `Stuber.MapKeys` | searcher.go:150 | every key of the usage set exactly once, in some order |
| `Stuber.FindByIDsDistinct` | searcher.go:150 | looking up distinct IDs yields values with distinct keys |
| `Stuber.Searcher.constructor` | searcher.go:37-42 | a new searcher has an empty usage set and an empty store |
| `Stuber.Searcher.Upsert` | searcher.go:73-75 | the store becomes the store's upsert of the stubs; the IDs are returned in input order; each stub not overridden later in the call is then found under its ID; usage is unchanged |
| `Stuber.Searcher.Del` | searcher.go:80-82 | the given IDs are no longer found, every other ID is found as before, and the count returned is the number of stubs removed |
| `Stuber.Searcher.Clear` | searcher.go:121-130 | the usage set and the store are empty, so every (service, method) lookup reports ServiceNotFound |
| `Stuber.Searcher.Used` | searcher.go:145-151 | a stub is returned iff it is stored and its ID is marked, each at most once; marked IDs no longer stored are skipped |
| `Stuber.Searcher.Unused` | searcher.go:157-175 | the stored stubs whose ID is not marked, in all() order |
| `Stuber.Searcher.Mark` | searcher.go:289-301 | an internal query leaves the usage set unchanged; any other adds exactly `id`; the store is unchanged |
| `Stuber.Searcher.Find` | searcher.go:185-194 | a query with an ID is answered as searchByID answers it, one without as search does; the store is unchanged |
| `Stuber.Searcher.SearchByID` | searcher.go:206-224 | the pair's translated error with usage unchanged; else the stub stored under the ID as the found stub, marked; else ServiceNotFound with usage unchanged |
| `Stuber.Searcher.Search` | searcher.go:234-280 | findBy's error; else the found stub with no similar stub, marked; else the similar stub with no found stub; else StubNotFound; usage changes only by marking the found stub |
| `Ranking.Select` | searcher.go:241-265 | the found stub is the earliest matching stub of highest positive rank (none if no matching stub ranks above 0); the similar stub is the earliest stub of highest positive rank (none if no stub ranks above 0) |
| `Ranking.LeaderExists` | searcher.go:250-265 | whenever some eligible stub ranks above 0, a winner of the selection exists |
| `Ranking.PicksUnique` | searcher.go:250-265 | the selection's outcome is unique |
| `Ranking.FoundImpliesSimilar` | searcher.go:250-265 | a found stub matches, ranks above 0, and implies a similar stub ranked at least as high |
| `Stuber.ResolvedUnique` | searcher.go:185-280 | find is deterministic given the store's enumeration order (a modelling choice, see "Left out"): one store, usage set and query give one answer and one new usage set |
| `Stuber.ResolvedErrors` | searcher.go:206-224 | unknown service gives ServiceNotFound, known service with unknown method gives MethodNotFound, a known pair fails only with ServiceNotFound (by ID) or StubNotFound (by match); a failure marks nothing |
| `Stuber.ResolvedShape` | searcher.go:268-279 | a successful answer holds exactly one of found and similar, a stored stub; by ID the found stub has the query's ID; by match the found stub matches with positive rank and the similar stub has positive rank |
| `Stuber.ResolvedUsage` | searcher.go:206-280 | the usage set grows only by the found stub's ID, exactly when the query is not internal; internal queries leave it unchanged |
| `Stuber.ExactMatchPreferred` | searcher.go:259-272 | if the bucket holds a matching stub of positive rank, search answers with a found stub ranked at least as high, and no similar stub, whatever the ranks of non-matching stubs |
| `Stuber.SimilarFallback` | searcher.go:274-279 | with no matching stub of positive rank but some stub of positive rank, search answers with the earliest highest-ranked stub as the similar stub and marks nothing |
| `Stuber.ByIDIgnoresBucket` | searcher.go:206-219 | with an existing pair, an ID stored under another pair is still returned as the found stub and marked |
| `Stuber.ClearedResolvesServiceNotFound` | searcher.go:121-130 | on a cleared searcher every query fails with ServiceNotFound and marks nothing |
| `Storage.IndexOf` | searcher.go:89-90 | the position found holds the key and is the first to; none iff no value has the key |
| `Storage.Store.FindByID` | searcher.go:90 | a returned value is stored under that key; nothing iff no value has the key |
| `Storage.Store.FindByIDs` | searcher.go:150 | only stored values of the given keys are returned, and every given key that is stored is returned |
| `Storage.Store.FindAll` | searcher.go:109 | LeftNotFound iff the service is absent, RightNotFound iff the service exists without the method, otherwise the non-empty bucket of exactly the values filed under the pair |
| `Storage.Store.PosByN` | searcher.go:208 | succeeds iff the pair exists, otherwise LeftNotFound or RightNotFound as the service exists or not |
| `Storage.Store.Put` | searcher.go:74 | keeps keys distinct, files the value under its key and leaves every other key's lookup unchanged |
| `Storage.Store.Upsert` | searcher.go:74 | keeps keys distinct; puts each value in input order (what it does to lookups is stated by UpsertThenFind and UpsertKeepsOthers) |
| `Storage.Store.Del` | searcher.go:81 | keeps keys distinct; removes each present key and counts the removals, never more than the keys given (what it does to lookups and sizes is stated by DelThenFind and DelCount) |
| `Storage.Store.Remove` | searcher.go:81 | keeps keys distinct, the key is no longer found and every other key's lookup is unchanged |
| `Storage.FindByIDExact` | searcher.go:90 | with distinct keys, a lookup by a value's key returns it iff it is stored |
| `Storage.UpsertThenFind` | searcher.go:74 | after an upsert, each value not overridden later in the call is found under its key |
| `Storage.UpsertKeepsOthers` | searcher.go:74 | an upsert does not touch keys it was not given |
| `Storage.DelThenFind` | searcher.go:81 | after a delete the given keys are absent and the others are found as before |
| `Storage.DelCount` | searcher.go:81 | the count a delete returns is the number of values it removed |

## Left out

- Locking (`sync.RWMutex`): each operation is one atomic step; the window between a search and its mark is not modelled.
- The store's implementation (not part of this model): it is abstracted to the sequence of its values with distinct keys; the (service, method) index, its pruning and the position `posByN` yields are implied by that sequence, not represented. The enumeration order (replace in place, append new keys) is a modelling choice.
- `match` and `rankMatch`: parameters of the model, so nothing depends on deep comparison or on how the score is computed. Ranks are `real`: floating-point NaN and rounding are not modelled.
- UUIDs: an opaque type with equality.
- `Searcher.Used`: the order of the returned stubs is unspecified, as Go's map iteration order is; the contract is stated on membership and uniqueness.
- `Result.Found`/`Result.Similar`: modelled as plain accessors of the `Result` datatype (types.dfy:27-28) with nothing to state.
- `Query.RequestInternal`: the flag is a field of the query; how the system derives it from request headers is not part of this model.
- `Stuber.Is`: errors.Is is modelled for single-cause wrap chains; joined errors (several causes) and errors with their own Is method are not.
