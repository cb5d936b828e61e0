/** The two-level stub store (service, then method) that the searcher sits
    on. Its implementation is not part of this model: the store is given
    abstractly as the sequence of its values in enumeration order, with
    pairwise distinct keys. The (service, method) buckets are the values
    that share a Left() and a Right(), so an empty bucket cannot exist and
    "service absent" and "method absent under a present service" are told
    apart exactly as the store reports them. */
module Storage {
  import opened StubTypes

  /** What the store holds: any value that exposes a key and the
      (left, right) coordinate it is filed under. The searcher only ever
      inserts stubs; other values stand for what another client of the
      store might put there. */
  datatype Value =
    | StubValue(stub: Stub)
    | OtherValue(key: ID, left: string, right: string)
  {
    function Key(): ID {
      if StubValue? then stub.id else key
    }
    function Left(): string {
      if StubValue? then stub.service else left
    }
    function Right(): string {
      if StubValue? then stub.methodName else right
    }
  }

  /** Index of the first value with key `id`, if any. */
  function IndexOf(vs: seq<Value>, id: ID): (r: Option<nat>)
    ensures r.Some? ==> r.value < |vs| && vs[r.value].Key() == id
    ensures r.Some? ==> forall j :: 0 <= j < r.value ==> vs[j].Key() != id
    ensures r.None? <==> forall j :: 0 <= j < |vs| ==> vs[j].Key() != id
  {
    if vs == [] then None
    else if vs[0].Key() == id then Some(0)
    else match IndexOf(vs[1..], id)
      case None => None
      case Some(k) => Some(k + 1)
  }

  /** The values filed under (left, right), in store order. */
  function Filter(vs: seq<Value>, left: string, right: string): (r: seq<Value>)
    ensures forall v :: v in r <==> v in vs && v.Left() == left && v.Right() == right
    ensures |r| <= |vs|
  {
    if vs == [] then []
    else
      var rest := Filter(vs[1..], left, right);
      if vs[0].Left() == left && vs[0].Right() == right then [vs[0]] + rest else rest
  }

  /** The values whose key differs from `id`, in store order. */
  function Without(vs: seq<Value>, id: ID): (r: seq<Value>)
    ensures forall v :: v in r <==> v in vs && v.Key() != id
    ensures |r| <= |vs|
    ensures (forall j :: 0 <= j < |vs| ==> vs[j].Key() != id) ==> r == vs
  {
    if vs == [] then []
    else
      var rest := Without(vs[1..], id);
      if vs[0].Key() != id then [vs[0]] + rest else rest
  }

  predicate DistinctKeys(vs: seq<Value>) {
    forall i, j :: 0 <= i < j < |vs| ==> vs[i].Key() != vs[j].Key()
  }

  lemma {:induction false} WithoutKeepsDistinct(vs: seq<Value>, id: ID)
    requires DistinctKeys(vs)
    ensures DistinctKeys(Without(vs, id))
  {
    if vs != [] {
      WithoutKeepsDistinct(vs[1..], id);
      var rest := Without(vs[1..], id);
      if vs[0].Key() != id {
        forall j | 0 <= j < |rest| ensures rest[j].Key() != vs[0].Key() {
          assert rest[j] in vs[1..];
        }
      }
    }
  }

  datatype Store = Store(values: seq<Value>)
  {
    /** Every key is filed once: the flat key map and the buckets agree. */
    predicate Valid() {
      DistinctKeys(values)
    }

    function FindByID(id: ID): (r: Option<Value>)
      ensures r.Some? ==> r.value in values && r.value.Key() == id
      ensures r.None? <==> forall v :: v in values ==> v.Key() != id
    {
      match IndexOf(values, id)
      case None => None
      case Some(k) => Some(values[k])
    }

    /** The values of the given keys, in the order of `ids`; absent keys are
        skipped. */
    function FindByIDs(ids: seq<ID>): (r: seq<Value>)
      ensures forall v :: v in r ==> v in values && v.Key() in ids
      ensures forall id :: id in ids && FindByID(id).Some? ==> FindByID(id).value in r
    {
      if ids == [] then []
      else
        var rest := FindByIDs(ids[1..]);
        match FindByID(ids[0])
        case None => rest
        case Some(v) => [v] + rest
    }

    predicate HasService(service: string) {
      exists v :: v in values && v.Left() == service
    }

    predicate HasMethod(service: string, methodName: string) {
      exists v :: v in values && v.Left() == service && v.Right() == methodName
    }

    /** The bucket of (service, method): LeftNotFound when the service is
        absent, RightNotFound when the service exists but the method does
        not, otherwise the bucket's values in store order. */
    function FindAll(service: string, methodName: string): (r: Outcome<seq<Value>>)
      ensures r == Err(LeftNotFound) <==> !HasService(service)
      ensures r == Err(RightNotFound) <==> HasService(service) && !HasMethod(service, methodName)
      ensures r.Ok? <==> HasMethod(service, methodName)
      ensures r.Ok? ==> r.value != []
      ensures r.Ok? ==> forall v :: v in r.value <==> v in values && v.Left() == service && v.Right() == methodName
    {
      if !HasService(service) then Err(LeftNotFound)
      else if !HasMethod(service, methodName) then Err(RightNotFound)
      else
        var b := Filter(values, service, methodName);
        assert b != [] by {
          var w :| w in values && w.Left() == service && w.Right() == methodName;
          assert w in b;
        }
        Ok(b)
    }

    /** Existence probe for (service, method), with the same two error kinds
        as FindAll; the position it yields is not modelled. */
    function PosByN(service: string, methodName: string): (r: Outcome<()>)
      ensures r.Ok? <==> HasMethod(service, methodName)
      ensures r.Err? ==> r.error == if HasService(service) then RightNotFound else LeftNotFound
    {
      if !HasService(service) then Err(LeftNotFound)
      else if !HasMethod(service, methodName) then Err(RightNotFound)
      else Ok(())
    }

    /** Inserts `v`, replacing in place the value with the same key. */
    function Put(v: Value): (r: Store)
      requires Valid()
      ensures r.Valid()
      ensures r.FindByID(v.Key()) == Some(v)
      ensures forall id :: id != v.Key() ==> r.FindByID(id) == FindByID(id)
    {
      PutFacts(this, v);
      match IndexOf(values, v.Key())
      case None => Store(values + [v])
      case Some(k) => Store(values[k := v])
    }

    /** Inserts or replaces every value, in order. */
    function Upsert(vs: seq<Value>): (r: Store)
      requires Valid()
      ensures r.Valid()
      decreases |vs|
    {
      if vs == [] then this else Put(vs[0]).Upsert(vs[1..])
    }

    /** Removes the value with key `id`, if any. */
    function Remove(id: ID): (r: Store)
      requires Valid()
      ensures r.Valid()
      ensures r.FindByID(id) == None
      ensures forall other :: other != id ==> r.FindByID(other) == FindByID(other)
    {
      RemoveFacts(this, id);
      Store(Without(values, id))
    }

    /** Removes every present key of `ids` and counts the removals. */
    function Del(ids: seq<ID>): (r: (Store, nat))
      requires Valid()
      ensures r.0.Valid()
      ensures r.1 <= |ids|
      decreases |ids|
    {
      if ids == [] then (this, 0)
      else
        var present := FindByID(ids[0]).Some?;
        var (s, n) := Remove(ids[0]).Del(ids[1..]);
        (s, if present then n + 1 else n)
    }
  }

  lemma PutFacts(s: Store, v: Value)
    requires s.Valid()
    ensures var r := match IndexOf(s.values, v.Key())
                     case None => Store(s.values + [v])
                     case Some(k) => Store(s.values[k := v]);
            && r.Valid()
            && r.FindByID(v.Key()) == Some(v)
            && forall id :: id != v.Key() ==> r.FindByID(id) == s.FindByID(id)
  {
    match IndexOf(s.values, v.Key())
    case None =>
      var r := Store(s.values + [v]);
      assert r.FindByID(v.Key()) == Some(v) by {
        assert forall j :: 0 <= j < |s.values| ==> s.values[j].Key() != v.Key();
      }
      forall id | id != v.Key() ensures r.FindByID(id) == s.FindByID(id) {
        assert r.values[..|s.values|] == s.values;
        if IndexOf(s.values, id).None? {
          assert forall j :: 0 <= j < |r.values| ==> r.values[j].Key() != id;
        }
      }
    case Some(k) =>
      var r := Store(s.values[k := v]);
      IndexOfAt(r.values, v.Key(), k);
      forall id | id != v.Key() ensures r.FindByID(id) == s.FindByID(id) {
        if IndexOf(s.values, id).None? {
          assert forall j :: 0 <= j < |r.values| ==> r.values[j].Key() != id;
        } else {
          var i := IndexOf(s.values, id).value;
          IndexOfAt(r.values, id, i);
        }
      }
  }

  lemma RemoveFacts(s: Store, id: ID)
    requires s.Valid()
    ensures var r := Store(Without(s.values, id));
            && r.Valid()
            && r.FindByID(id) == None
            && forall other :: other != id ==> r.FindByID(other) == s.FindByID(other)
  {
    WithoutKeepsDistinct(s.values, id);
    var r := Store(Without(s.values, id));
    forall other | other != id ensures r.FindByID(other) == s.FindByID(other) {
      match s.FindByID(other)
      case None =>
      case Some(v) =>
        assert v in r.values;
        var w := r.FindByID(other).value;
        assert w in s.values;
        var i, j :| 0 <= i < |s.values| && 0 <= j < |s.values| && s.values[i] == v && s.values[j] == w;
        assert i == j;
    }
  }

  /** The keys of `vs`, in order: what an upsert returns. */
  function Keys(vs: seq<Value>): (r: seq<ID>)
    ensures |r| == |vs|
    ensures forall i :: 0 <= i < |vs| ==> r[i] == vs[i].Key()
  {
    if vs == [] then [] else [vs[0].Key()] + Keys(vs[1..])
  }

  /** With distinct keys, a lookup by key finds exactly the stored value
      with that key. */
  lemma FindByIDExact(s: Store, v: Value)
    requires s.Valid()
    ensures s.FindByID(v.Key()) == Some(v) <==> v in s.values
  {
    if v in s.values {
      var i :| 0 <= i < |s.values| && s.values[i] == v;
      var w := s.FindByID(v.Key()).value;
      var j :| 0 <= j < |s.values| && s.values[j] == w;
      assert i == j;
    }
  }

  /** An upsert leaves every inserted value findable by its key, unless a
      later value of the same call replaced it. */
  lemma {:induction false} UpsertThenFind(s: Store, vs: seq<Value>, i: nat)
    requires s.Valid()
    requires i < |vs|
    requires forall j :: i < j < |vs| ==> vs[j].Key() != vs[i].Key()
    ensures s.Upsert(vs).FindByID(vs[i].Key()) == Some(vs[i])
    decreases |vs|
  {
    var t := s.Put(vs[0]);
    if i == 0 {
      UpsertKeepsOthers(t, vs[1..], vs[0].Key());
    } else {
      UpsertThenFind(t, vs[1..], i - 1);
    }
  }

  /** An upsert does not touch keys it was not given. */
  lemma {:induction false} UpsertKeepsOthers(s: Store, vs: seq<Value>, id: ID)
    requires s.Valid()
    requires forall j :: 0 <= j < |vs| ==> vs[j].Key() != id
    ensures s.Upsert(vs).FindByID(id) == s.FindByID(id)
    decreases |vs|
  {
    if vs != [] {
      UpsertKeepsOthers(s.Put(vs[0]), vs[1..], id);
    }
  }

  /** After a delete, none of the given keys can be found, and every other
      key is found as before. */
  lemma {:induction false} DelThenFind(s: Store, ids: seq<ID>, id: ID)
    requires s.Valid()
    ensures id in ids ==> s.Del(ids).0.FindByID(id) == None
    ensures id !in ids ==> s.Del(ids).0.FindByID(id) == s.FindByID(id)
    decreases |ids|
  {
    if ids != [] {
      var t := s.Remove(ids[0]);
      DelThenFind(t, ids[1..], id);
      if id == ids[0] && id in ids[1..] {
      } else if id == ids[0] {
        DelKeepsAbsent(t, ids[1..], id);
      }
    }
  }

  /** A key already absent stays absent through a delete. */
  lemma {:induction false} DelKeepsAbsent(s: Store, ids: seq<ID>, id: ID)
    requires s.Valid()
    requires s.FindByID(id) == None
    ensures s.Del(ids).0.FindByID(id) == None
    decreases |ids|
  {
    if ids != [] {
      DelKeepsAbsent(s.Remove(ids[0]), ids[1..], id);
    }
  }

  /** The count a delete returns is the number of values it took out of
      the store. */
  lemma {:induction false} DelCount(s: Store, ids: seq<ID>)
    requires s.Valid()
    ensures s.Del(ids).1 + |s.Del(ids).0.values| == |s.values|
    decreases |ids|
  {
    if ids != [] {
      var t := s.Remove(ids[0]);
      DelCount(t, ids[1..]);
      WithoutLength(s.values, ids[0]);
    }
  }

  /** Removing a key drops exactly one value when the key is present and
      none otherwise. */
  lemma {:induction false} WithoutLength(vs: seq<Value>, id: ID)
    requires DistinctKeys(vs)
    ensures |Without(vs, id)| == if IndexOf(vs, id).Some? then |vs| - 1 else |vs|
  {
    if vs != [] {
      WithoutLength(vs[1..], id);
      if vs[0].Key() == id {
        assert forall j :: 0 <= j < |vs[1..]| ==> vs[1..][j].Key() != id;
      }
    }
  }

  /** IndexOf finds the first position holding the key. */
  lemma {:induction false} IndexOfAt(vs: seq<Value>, id: ID, k: nat)
    requires k < |vs| && vs[k].Key() == id
    requires forall j :: 0 <= j < k ==> vs[j].Key() != id
    ensures IndexOf(vs, id) == Some(k)
  {
    if k > 0 {
      IndexOfAt(vs[1..], id, k - 1);
    }
  }
}
