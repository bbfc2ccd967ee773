/** The in-memory store the services run on: an append-only list queried by
    specifications (predicates over the stored entities). */
module Repository {
  import opened Results

  /** `i` is the position of the first entity, in insertion order, that the
      specification accepts. */
  predicate IsFirstMatch<T>(store: seq<T>, spec: T -> bool, i: int) {
    && 0 <= i < |store|
    && spec(store[i])
    && forall j :: 0 <= j < i ==> !spec(store[j])
  }

  /** No stored entity satisfies the specification. */
  predicate NoMatch<T>(store: seq<T>, spec: T -> bool) {
    forall j :: 0 <= j < |store| ==> !spec(store[j])
  }

  /** Where the first match sits; the services update that entity in place. */
  function FindIndex<T>(store: seq<T>, spec: T -> bool): (r: Option<nat>)
    ensures r.Some? ==> IsFirstMatch(store, spec, r.value)
    ensures r.None? <==> NoMatch(store, spec)
    decreases |store|
  {
    if |store| == 0 then None
    else if spec(store[0]) then Some(0)
    else match FindIndex(store[1..], spec)
      case None => None
      case Some(k) => Some(k + 1)
  }

  /** `Find`: the first match in insertion order, or null. */
  function Find<T>(store: seq<T>, spec: T -> bool): (r: Option<T>)
    ensures r.None? <==> NoMatch(store, spec)
    ensures r.Some? ==> exists i :: IsFirstMatch(store, spec, i) && store[i] == r.value
  {
    match FindIndex(store, spec)
    case None => None
    case Some(i) => Some(store[i])
  }

  /** `FindAll(spec)`: every match, in insertion order. */
  function FindAll<T>(store: seq<T>, spec: T -> bool): (r: seq<T>)
    ensures |r| <= |store|
    decreases |store|
  {
    if |store| == 0 then []
    else (if spec(store[0]) then [store[0]] else []) + FindAll(store[1..], spec)
  }

  /** `FindAll` returns exactly the stored entities the specification
      accepts. */
  lemma {:induction false} FindAllIsExactlyTheMatches<T>(store: seq<T>, spec: T -> bool)
    ensures forall x :: x in FindAll(store, spec) <==> x in store && spec(x)
    decreases |store|
  {
    if |store| > 0 {
      FindAllIsExactlyTheMatches(store[1..], spec);
      assert store == [store[0]] + store[1..];
    }
  }

  /** `FindAll()` without a specification: the whole store, in insertion
      order. */
  function FindAllUnfiltered<T>(store: seq<T>): (r: seq<T>)
    ensures r == store
  {
    var everything := (x: T) => true;
    FindAllWhenAllMatch(store, everything);
    FindAll(store, everything)
  }

  /** `Add`: the entity goes at the end and nothing already stored moves. */
  function Add<T>(store: seq<T>, entity: T): (r: seq<T>)
    ensures |r| == |store| + 1 && r[|store|] == entity
    ensures forall i :: 0 <= i < |store| ==> r[i] == store[i]
  {
    store + [entity]
  }

  /** `DeleteAll`: the store is emptied. */
  function DeleteAll<T>(store: seq<T>): (r: seq<T>)
    ensures |r| == 0
  {
    []
  }

  /** `Find` is null exactly when `FindAll` is empty, and otherwise it is the
      head of `FindAll`. */
  lemma {:induction false} FindIsHeadOfFindAll<T>(store: seq<T>, spec: T -> bool)
    ensures Find(store, spec).None? <==> FindAll(store, spec) == []
    ensures Find(store, spec).Some? ==> Find(store, spec).value == FindAll(store, spec)[0]
    decreases |store|
  {
    if |store| > 0 && !spec(store[0]) {
      FindIsHeadOfFindAll(store[1..], spec);
      assert FindAll(store, spec) == FindAll(store[1..], spec);
    }
  }

  /** `FindAll` distributes over concatenation: the result keeps insertion
      order, old matches first. */
  lemma {:induction false} FindAllAppend<T>(a: seq<T>, b: seq<T>, spec: T -> bool)
    ensures FindAll(a + b, spec) == FindAll(a, spec) + FindAll(b, spec)
    decreases |a|
  {
    if |a| > 0 {
      assert (a + b)[1..] == a[1..] + b;
      FindAllAppend(a[1..], b, spec);
    } else {
      assert a + b == b;
    }
  }

  /** After `Add`, `FindAll` sees the old matches followed by the new entity
      when it matches. */
  lemma FindAllAfterAdd<T>(store: seq<T>, entity: T, spec: T -> bool)
    ensures FindAll(Add(store, entity), spec)
            == FindAll(store, spec) + (if spec(entity) then [entity] else [])
  {
    FindAllAppend(store, [entity], spec);
    assert FindAll([entity], spec) == (if spec(entity) then [entity] else []) + FindAll([entity][1..], spec);
  }

  /** After `Add`, `Find` still returns the old first match when there was
      one, and the new entity otherwise when it matches. */
  lemma FindAfterAdd<T>(store: seq<T>, entity: T, spec: T -> bool)
    ensures Find(Add(store, entity), spec)
            == if Find(store, spec).Some? then Find(store, spec)
               else if spec(entity) then Some(entity) else None
  {
    FindIsHeadOfFindAll(store, spec);
    FindIsHeadOfFindAll(Add(store, entity), spec);
    FindAllAfterAdd(store, entity, spec);
  }

  /** When every stored entity matches, `FindAll` returns the whole store in
      order; in particular `FindAll()` without a specification does. */
  lemma {:induction false} FindAllWhenAllMatch<T>(store: seq<T>, spec: T -> bool)
    requires forall i :: 0 <= i < |store| ==> spec(store[i])
    ensures FindAll(store, spec) == store
    decreases |store|
  {
    if |store| > 0 {
      FindAllWhenAllMatch(store[1..], spec);
      assert store == [store[0]] + store[1..];
    }
  }

  /** Filtering by a weaker specification and then by a stronger one is
      filtering by the stronger one alone. */
  lemma {:induction false} FindAllRefine<T>(store: seq<T>, weak: T -> bool, strong: T -> bool)
    requires forall x :: strong(x) ==> weak(x)
    ensures FindAll(FindAll(store, weak), strong) == FindAll(store, strong)
    decreases |store|
  {
    if |store| > 0 {
      FindAllRefine(store[1..], weak, strong);
      var head := if weak(store[0]) then [store[0]] else [];
      FindAllAppend(head, FindAll(store[1..], weak), strong);
      if weak(store[0]) {
        assert FindAll(head, strong) == (if strong(store[0]) then [store[0]] else []) + FindAll(head[1..], strong);
      }
    }
  }

  /** After `DeleteAll` nothing is found. */
  lemma NothingFoundAfterDeleteAll<T>(store: seq<T>, spec: T -> bool)
    ensures Find(DeleteAll(store), spec).None?
    ensures FindAll(DeleteAll(store), spec) == []
  {
  }
}
