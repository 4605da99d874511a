/** The list operations the application performs on its entity lists, written once for any
    entity type; `idOf` and `nameOf` pick the entity's `id` and `name` fields. */
module EntityLists {
  import opened Domain

  /** `list.findIndex(p)`: the index of the first element satisfying `p`, or -1. */
  function FindIndex<T>(list: seq<T>, p: T -> bool): (i: int)
    ensures -1 <= i < |list|
    ensures i >= 0 ==> p(list[i]) && forall j :: 0 <= j < i ==> !p(list[j])
    ensures i < 0 ==> forall j :: 0 <= j < |list| ==> !p(list[j])
  {
    if list == [] then -1
    else if p(list[0]) then 0
    else
      var i := FindIndex(list[1..], p);
      if i < 0 then -1 else i + 1
  }

  /** `list.find(p)`: the first element satisfying `p`, if any. */
  function FindFirst<T>(list: seq<T>, p: T -> bool): (r: Option<T>)
    ensures r.None? <==> forall j :: 0 <= j < |list| ==> !p(list[j])
    ensures r.Some? ==> exists i :: 0 <= i < |list| && list[i] == r.value && p(list[i])
                                    && forall j :: 0 <= j < i ==> !p(list[j])
  {
    var i := FindIndex(list, p);
    if i < 0 then None else Some(list[i])
  }

  /** `entities.findIndex(e => e.id === id)`. */
  function IndexOfId<T>(entities: seq<T>, id: string, idOf: T -> string): (i: int)
    ensures -1 <= i < |entities|
    ensures i >= 0 ==> idOf(entities[i]) == id && forall j :: 0 <= j < i ==> idOf(entities[j]) != id
    ensures i < 0 ==> forall j :: 0 <= j < |entities| ==> idOf(entities[j]) != id
  {
    FindIndex(entities, e => idOf(e) == id)
  }

  /** `entities.find(e => e.id === id)`: the first entity with that id, if any. */
  function FindById<T>(entities: seq<T>, id: string, idOf: T -> string): (r: Option<T>)
    ensures r.None? <==> forall k :: 0 <= k < |entities| ==> idOf(entities[k]) != id
    ensures r.Some? ==> r.value == entities[IndexOfId(entities, id, idOf)] && idOf(r.value) == id
  {
    var i := IndexOfId(entities, id, idOf);
    if i < 0 then None else Some(entities[i])
  }

  /** `list.filter(p)`. */
  function Filter<T(!new)>(list: seq<T>, p: T -> bool): (r: seq<T>)
    ensures |r| <= |list|
    ensures forall e :: e in r <==> e in list && p(e)
    ensures forall e :: p(e) ==> multiset(r)[e] == multiset(list)[e]
  {
    if list == [] then []
    else
      assert list == [list[0]] + list[1..];
      if p(list[0]) then [list[0]] + Filter(list[1..], p) else Filter(list[1..], p)
  }

  /** Filtering keeps the survivors in their original order: it distributes over concatenation. */
  lemma {:induction false} FilterConcat<T(!new)>(a: seq<T>, b: seq<T>, p: T -> bool)
    ensures Filter(a + b, p) == Filter(a, p) + Filter(b, p)
  {
    if a == [] {
      assert a + b == b;
    } else {
      assert (a + b)[1..] == a[1..] + b;
      FilterConcat(a[1..], b, p);
    }
  }

  /** Filtering a list none of whose elements is rejected changes nothing. */
  lemma {:induction false} FilterAllKept<T(!new)>(list: seq<T>, p: T -> bool)
    requires forall j :: 0 <= j < |list| ==> p(list[j])
    ensures Filter(list, p) == list
  {
    if list != [] {
      FilterAllKept(list[1..], p);
      assert list == [list[0]] + list[1..];
    }
  }

  /** Searching a filtered list finds what searching the whole list for elements that pass both
      the filter and the search finds. */
  lemma {:induction false} FindFirstOfFilter<T(!new)>(list: seq<T>, p: T -> bool, q: T -> bool, pq: T -> bool)
    requires forall x :: pq(x) == (p(x) && q(x))
    ensures FindFirst(Filter(list, p), q) == FindFirst(list, pq)
  {
    if list != [] {
      var x, rest := list[0], list[1..];
      FindFirstOfFilter(rest, p, q, pq);
      if !pq(x) {
        FindFirstSkip(x, rest, pq);
        assert list == [x] + rest;
        if p(x) {
          FindFirstSkip(x, Filter(rest, p), q);
        }
      }
    }
  }

  lemma FindFirstSkip<T>(x: T, rest: seq<T>, q: T -> bool)
    requires !q(x)
    ensures FindFirst([x] + rest, q) == FindFirst(rest, q)
  {
    assert ([x] + rest)[1..] == rest;
  }

  /** `find(...)?.name || fallback`: the name of the first entity with that id, or the
      fallback when there is none or its name is empty (an empty string is falsy). */
  function FindEntityName<T>(entities: seq<T>, id: string, idOf: T -> string, nameOf: T -> string,
                             fallback: string): (r: string)
    ensures FindById(entities, id, idOf).None? ==> r == fallback
    ensures FindById(entities, id, idOf).Some? ==>
              r == if nameOf(FindById(entities, id, idOf).value) == "" then fallback
                   else nameOf(FindById(entities, id, idOf).value)
  {
    match FindById(entities, id, idOf)
    case Some(e) => if nameOf(e) != "" then nameOf(e) else fallback
    case None => fallback
  }

  /** `list.some(e => e.id === id)`. */
  predicate HasId<T>(entities: seq<T>, id: string, idOf: T -> string) {
    exists k :: 0 <= k < |entities| && idOf(entities[k]) == id
  }

  /** `prev.filter(e => e.id !== id)`. */
  function RemoveById<T(!new)>(entities: seq<T>, id: string, idOf: T -> string): (r: seq<T>)
    ensures |r| <= |entities|
    ensures forall e :: e in r <==> e in entities && idOf(e) != id
    ensures forall e :: idOf(e) != id ==> multiset(r)[e] == multiset(entities)[e]
  {
    Filter(entities, e => idOf(e) != id)
  }

  /** Removal keeps the survivors in their original order: it distributes over concatenation. */
  lemma RemoveByIdConcat<T(!new)>(a: seq<T>, b: seq<T>, id: string, idOf: T -> string)
    ensures RemoveById(a + b, id, idOf) == RemoveById(a, id, idOf) + RemoveById(b, id, idOf)
  {
    FilterConcat(a, b, e => idOf(e) != id);
  }

  /** Removing an id that no entry has changes nothing. */
  lemma RemoveAbsentId<T(!new)>(entities: seq<T>, id: string, idOf: T -> string)
    requires !HasId(entities, id, idOf)
    ensures RemoveById(entities, id, idOf) == entities
  {
    FilterAllKept(entities, e => idOf(e) != id);
  }

  /** Removal keeps every other id present. */
  lemma HasIdAfterRemove<T(!new)>(entities: seq<T>, id: string, other: string, idOf: T -> string)
    requires HasId(entities, other, idOf) && other != id
    ensures HasId(RemoveById(entities, id, idOf), other, idOf)
  {
    var k :| 0 <= k < |entities| && idOf(entities[k]) == other;
    var r := RemoveById(entities, id, idOf);
    assert entities[k] in r;
    var j :| 0 <= j < |r| && r[j] == entities[k];
  }

  /** Removing twice is removing once. */
  lemma RemoveByIdIdempotent<T(!new)>(entities: seq<T>, id: string, idOf: T -> string)
    ensures RemoveById(RemoveById(entities, id, idOf), id, idOf) == RemoveById(entities, id, idOf)
  {
    var r := RemoveById(entities, id, idOf);
    assert !HasId(r, id, idOf);
    RemoveAbsentId(r, id, idOf);
  }

  /** `prev.map(e => e.id === updated.id ? updated : e)`. */
  function ReplaceById<T>(entities: seq<T>, updated: T, idOf: T -> string): (r: seq<T>)
    ensures |r| == |entities|
    ensures forall k :: 0 <= k < |r| ==> idOf(r[k]) == idOf(entities[k])
    ensures forall k :: 0 <= k < |r| && idOf(entities[k]) != idOf(updated) ==> r[k] == entities[k]
    ensures forall k :: 0 <= k < |r| && idOf(entities[k]) == idOf(updated) ==> r[k] == updated
  {
    seq(|entities|, k requires 0 <= k < |entities| =>
      if idOf(entities[k]) == idOf(updated) then updated else entities[k])
  }

  /** After an update, looking the id up finds the updated entity, provided the id was present. */
  lemma FindAfterReplace<T>(entities: seq<T>, updated: T, idOf: T -> string)
    requires HasId(entities, idOf(updated), idOf)
    ensures FindById(ReplaceById(entities, updated, idOf), idOf(updated), idOf) == Some(updated)
  {
    var r := ReplaceById(entities, updated, idOf);
    var f := FindById(r, idOf(updated), idOf);
    var k :| 0 <= k < |entities| && idOf(entities[k]) == idOf(updated);
    assert idOf(r[k]) == idOf(updated);
    assert f.Some?;
  }

  /** Updating an id that no entry has changes nothing. */
  lemma ReplaceAbsentId<T>(entities: seq<T>, updated: T, idOf: T -> string)
    requires !HasId(entities, idOf(updated), idOf)
    ensures ReplaceById(entities, updated, idOf) == entities
  {
  }

  /** `list.includes(x) ? list.filter(y => y !== x) : [...list, x]`. */
  function ToggleMember<T(==,!new)>(list: seq<T>, x: T): (r: seq<T>)
    ensures forall y :: y in r <==> (y in list) != (y == x)
    ensures x in list ==> r == Without(list, x)
    ensures x !in list ==> r == list + [x]
    ensures NoDup(list) ==> NoDup(r)
  {
    if x in list then Without(list, x) else list + [x]
  }

  /** `list.filter(y => y !== x)`. */
  function Without<T(==,!new)>(list: seq<T>, x: T): (r: seq<T>)
    ensures forall y :: y in r <==> y in list && y != x
    ensures NoDup(list) ==> NoDup(r)
    ensures |r| <= |list|
  {
    if list == [] then []
    else if list[0] == x then Without(list[1..], x)
    else
      assert NoDup(list) ==> NoDup(list[1..]) && list[0] !in list[1..];
      [list[0]] + Without(list[1..], x)
  }

  /** `Without` is the `filter` that drops one value. */
  lemma {:induction false} WithoutIsFilter<T(!new)>(list: seq<T>, x: T, p: T -> bool)
    requires forall y :: p(y) == (y != x)
    ensures Without(list, x) == Filter(list, p)
  {
    if list != [] {
      WithoutIsFilter(list[1..], x, p);
    }
  }

  /** Toggling the same member twice gives back the same membership. */
  lemma ToggleTwice<T(!new)>(list: seq<T>, x: T)
    ensures forall y :: y in ToggleMember(ToggleMember(list, x), x) <==> y in list
  {
  }
}
