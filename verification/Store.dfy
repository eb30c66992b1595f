/** `MockFilesystem`: payloads in a map of maps, which is a flat map of (entity, id) pairs to
    whoever uses it, and the allocator of ids. */
module Store {
  import opened Folding
  import opened Text
  import opened Numbers
  import opened Ordering

  type Nested = map<string, map<string, string>>
  type Flat = map<(string, string), string>

  function FlatOf(data: Nested): Flat {
    map e, i | e in data && i in data[e] :: (e, i) := data[e][i]
  }

  /** The pairs of a map of maps. */
  ghost function Flatten(data: Nested): Flat {
    Folded(FlatOf)(data)
  }

  function Lookup(data: Nested, entity: string, id: string): Option<string> {
    if entity in data && id in data[entity] then Some(data[entity][id]) else None
  }

  function FlatLookup(store: Flat, entity: string, id: string): Option<string> {
    if (entity, id) in store then Some(store[(entity, id)]) else None
  }

  ghost predicate Flattens(store: Flat, data: Nested) {
    forall e, i :: FlatLookup(store, e, i) == Lookup(data, e, i)
  }

  lemma FlattenFlattens(data: Nested)
    ensures Flattens(Flatten(data), data)
  {
    Unfold(FlatOf, data);
  }

  lemma FlattenAt(data: Nested, entity: string, id: string)
    ensures FlatLookup(Flatten(data), entity, id) == Lookup(data, entity, id)
  {
    FlattenFlattens(data);
  }

  lemma FlattenNothing()
    ensures Flatten(map[]) == map[]
  {
    Unfold(FlatOf, map[]);
  }

  lemma FlatEqual(a: Flat, b: Flat)
    requires forall e, i :: FlatLookup(a, e, i) == FlatLookup(b, e, i)
    ensures a == b
  {
    forall k ensures k in a <==> k in b {
      assert k == (k.0, k.1) && FlatLookup(a, k.0, k.1) == FlatLookup(b, k.0, k.1);
    }
    forall k | k in a ensures a[k] == b[k] {
      assert k == (k.0, k.1) && FlatLookup(a, k.0, k.1) == FlatLookup(b, k.0, k.1);
    }
  }

  function Ids(store: Flat, entity: string): set<string> {
    set k | k in store && k.0 == entity :: k.1
  }

  function IdsIn(data: Nested, entity: string): set<string> {
    if entity in data then data[entity].Keys else {}
  }

  lemma IdsOfFlatten(data: Nested, entity: string)
    ensures Ids(Flatten(data), entity) == IdsIn(data, entity)
  {
    forall i ensures i in Ids(Flatten(data), entity) <==> i in IdsIn(data, entity) {
      FlattenAt(data, entity, i);
      if i in IdsIn(data, entity) {
        assert (entity, i) in Flatten(data);
      }
    }
  }

  lemma Write(store: Flat, data: Nested, entity: string, id: string, payload: string)
    requires Flattens(store, data)
    ensures var inner := if entity in data then data[entity] else map[];
            Flattens(store[(entity, id) := payload], data[entity := inner[id := payload]])
  {
    var inner := if entity in data then data[entity] else map[];
    var written, after := store[(entity, id) := payload], data[entity := inner[id := payload]];
    forall e, i ensures FlatLookup(written, e, i) == Lookup(after, e, i) {
      assert FlatLookup(store, e, i) == Lookup(data, e, i);
    }
  }

  lemma Erase(store: Flat, data: Nested, entity: string, id: string)
    requires Flattens(store, data) && entity in data
    ensures Flattens(store - {(entity, id)}, data[entity := data[entity] - {id}])
  {
    var erased, after := store - {(entity, id)}, data[entity := data[entity] - {id}];
    forall e, i ensures FlatLookup(erased, e, i) == Lookup(after, e, i) {
      assert FlatLookup(store, e, i) == Lookup(data, e, i);
    }
  }

  lemma FlattensOne(store: Flat, data: Nested)
    requires Flattens(store, data)
    ensures store == Flatten(data)
  {
    FlattenFlattens(data);
    forall e, i ensures FlatLookup(store, e, i) == FlatLookup(Flatten(data), e, i) {
      assert FlatLookup(store, e, i) == Lookup(data, e, i);
    }
    FlatEqual(store, Flatten(data));
  }

  lemma FlattenWrite(data: Nested, entity: string, id: string, payload: string)
    ensures var inner := if entity in data then data[entity] else map[];
            Flatten(data[entity := inner[id := payload]]) == Flatten(data)[(entity, id) := payload]
  {
    var inner := if entity in data then data[entity] else map[];
    FlattenFlattens(data);
    Write(Flatten(data), data, entity, id, payload);
    FlattensOne(Flatten(data)[(entity, id) := payload], data[entity := inner[id := payload]]);
  }

  lemma FlattenErase(data: Nested, entity: string, id: string)
    requires entity in data
    ensures Flatten(data[entity := data[entity] - {id}]) == Flatten(data) - {(entity, id)}
  {
    FlattenFlattens(data);
    Erase(Flatten(data), data, entity, id);
    FlattensOne(Flatten(data) - {(entity, id)}, data[entity := data[entity] - {id}]);
  }

  lemma LookupWithoutEmpty(data: Nested, entity: string, e: string, i: string)
    requires IdsIn(data, entity) == {}
    ensures Lookup(data - {entity}, e, i) == Lookup(data[entity := map[]], e, i) == Lookup(data, e, i)
  {}

  lemma WithoutEmpty(store: Flat, data: Nested, entity: string)
    requires Flattens(store, data) && IdsIn(data, entity) == {}
    ensures Flattens(store, data - {entity}) && Flattens(store, data[entity := map[]])
  {
    forall e, i
      ensures FlatLookup(store, e, i) == Lookup(data - {entity}, e, i)
      ensures FlatLookup(store, e, i) == Lookup(data[entity := map[]], e, i)
    {
      LookupWithoutEmpty(data, entity, e, i);
    }
  }

  /** A type whose last entity was deleted looks like one that never had any. */
  lemma EmptiedTypeIsAbsent(data: Nested, entity: string)
    requires IdsIn(data, entity) == {}
    ensures Flatten(data - {entity}) == Flatten(data[entity := map[]]) == Flatten(data)
  {
    FlattenFlattens(data);
    WithoutEmpty(Flatten(data), data, entity);
    FlattensOne(Flatten(data), data - {entity});
    FlattensOne(Flatten(data), data[entity := map[]]);
  }

  // The allocator.

  /** The positive numbers the ids convert to. */
  function Used(ids: set<string>): set<int> {
    set id | id in ids && Stoi(id).Converted? && Stoi(id).n > 0 :: Stoi(id).n
  }

  /** The least number from `c` on that is not used, or None if there is none up to INT_MAX. */
  function FirstFree(used: set<int>, c: int): Option<int>
    requires 1 <= c <= INT_MAX
    decreases INT_MAX - c
  {
    if c !in used then Some(c)
    else if c == INT_MAX then None
    else FirstFree(used, c + 1)
  }

  function NextId(ids: set<string>): Option<string> {
    match FirstFree(Used(ids), 1)
    case None => None
    case Some(c) => Some(IntToString(c))
  }

  lemma {:induction false} FirstFreeIsLeast(used: set<int>, c: int)
    requires 1 <= c <= INT_MAX
    ensures var r := FirstFree(used, c);
            && (r.Some? ==> c <= r.value <= INT_MAX && r.value !in used && forall d :: c <= d < r.value ==> d in used)
            && (r.None? ==> forall d :: c <= d <= INT_MAX ==> d in used)
    decreases INT_MAX - c
  {
    if c in used && c < INT_MAX {
      FirstFreeIsLeast(used, c + 1);
    }
  }

  lemma {:induction false} UsedAtMost(ids: set<string>)
    ensures |Used(ids)| <= |ids|
    decreases |ids|
  {
    if ids == {} {
      assert Used(ids) == {};
    } else {
      var id :| id in ids;
      var rest := ids - {id};
      UsedAtMost(rest);
      if Stoi(id).Converted? && Stoi(id).n > 0 {
        assert Used(ids) == Used(rest) + {Stoi(id).n};
      } else {
        assert Used(ids) == Used(rest);
      }
    }
  }

  lemma {:induction false} Pigeonhole(used: set<int>, n: nat)
    requires forall d :: 1 <= d <= n ==> d in used
    ensures n <= |used|
    decreases n
  {
    if n > 0 {
      Pigeonhole(used - {n}, n - 1);
    }
  }

  lemma CanonicalIsUsed(ids: set<string>, c: int)
    requires 1 <= c <= INT_MAX && IntToString(c) in ids
    ensures c in Used(ids)
  {
    StoiOfToString(c);
  }

  /** Some id converts to `d`. */
  predicate IsTaken(ids: set<string>, d: int) {
    exists id :: id in ids && Stoi(id) == Converted(d)
  }

  lemma UsedIsTaken(ids: set<string>, d: int)
    requires d > 0
    ensures d in Used(ids) <==> IsTaken(ids, d)
  {}

  /** The number `c` the allocator prints: the least positive int that no id converts to. */
  predicate IsLeastFree(ids: set<string>, c: int) {
    && 1 <= c <= 2147483647 && !IsTaken(ids, c) && (forall d :: 1 <= d < c ==> IsTaken(ids, d))
    && IntToString(c) !in ids && c <= |ids| + 1
  }

  lemma NextIdNumber(ids: set<string>) returns (c: int)
    requires NextId(ids).Some?
    ensures IsLeastFree(ids, c) && NextId(ids) == Some(IntToString(c))
  {
    FirstFreeIsLeast(Used(ids), 1);
    c := FirstFree(Used(ids), 1).value;
    if IntToString(c) in ids { CanonicalIsUsed(ids, c); }
    Pigeonhole(Used(ids), c - 1);
    UsedAtMost(ids);
    forall d | d > 0 ensures d in Used(ids) <==> IsTaken(ids, d) { UsedIsTaken(ids, d); }
  }

  /** The allocator gives the text of the least positive int that no id converts to; that is at
      most one above the number of ids, and its text is none of the ids, whatever they look like.
      It gives none only when every positive int is taken. */
  lemma NextIdIsLeast(ids: set<string>)
    ensures NextId(ids).None? <==> forall d :: 1 <= d <= 2147483647 ==> IsTaken(ids, d)
    ensures NextId(ids).Some? ==> exists c :: IsLeastFree(ids, c) && NextId(ids) == Some(IntToString(c))
  {
    FirstFreeIsLeast(Used(ids), 1);
    forall d | d > 0 ensures d in Used(ids) <==> IsTaken(ids, d) { UsedIsTaken(ids, d); }
    if NextId(ids).Some? {
      var c := NextIdNumber(ids);
    }
  }

  lemma AppendElement(s: seq<string>, x: string)
    ensures Elements(s + [x]) == Elements(s) + {x}
    ensures Distinct(s) && x !in Elements(s) ==> Distinct(s + [x])
  {
    assert forall y :: y in s + [x] <==> y in s || y == x;
  }

  class MockFilesystem {
    var data: Nested

    ghost function View(): Flat
      reads this
    {
      Flatten(data)
    }

    constructor ()
      ensures View() == map[]
    {
      FlattenNothing();
      data := map[];
    }

    method EntityExists(entity: string, id: string) returns (r: bool)
      ensures r == ((entity, id) in View())
    {
      FlattenAt(data, entity, id);
      if entity !in data {
        return false;
      }
      return id in data[entity];
    }

    method WriteEntity(entity: string, id: string, payload: string) returns (ok: bool)
      modifies this
      ensures ok && View() == old(View())[(entity, id) := payload]
    {
      FlattenWrite(data, entity, id, payload);
      var inner := if entity in data then data[entity] else map[];
      data := data[entity := inner[id := payload]];
      return true;
    }

    /** None where the source throws. */
    method ReadEntity(entity: string, id: string) returns (r: Option<string>)
      ensures r == if (entity, id) in View() then Some(View()[(entity, id)]) else None
    {
      FlattenAt(data, entity, id);
      var found := EntityExists(entity, id);
      if !found {
        return None;
      }
      return Some(data[entity][id]);
    }

    method DeleteEntity(entity: string, id: string) returns (ok: bool)
      modifies this
      ensures ok == ((entity, id) in old(View())) && View() == old(View()) - {(entity, id)}
    {
      FlattenAt(data, entity, id);
      if entity !in data {
        return false;
      }
      if id !in data[entity] {
        return false;
      }
      FlattenErase(data, entity, id);
      data := data[entity := data[entity] - {id}];
      return true;
    }

    /** The ids of a type, in whatever order the hash map has them. */
    method ListEntityIds(entity: string) returns (ids: seq<string>)
      ensures Distinct(ids) && Elements(ids) == Ids(View(), entity)
    {
      IdsOfFlatten(data, entity);
      ids := [];
      if entity !in data {
        return;
      }
      var rest := data[entity].Keys;
      while rest != {}
        invariant rest <= data[entity].Keys
        invariant Distinct(ids) && Elements(ids) == data[entity].Keys - rest
        decreases |rest|
      {
        var id :| id in rest;
        AppendElement(ids, id);
        ids := ids + [id];
        rest := rest - {id};
      }
    }

    /** None where the source throws: no id is left. */
    method NextEntityId(entity: string) returns (r: Option<string>)
      ensures r == NextId(Ids(View(), entity))
    {
      var ids := ListEntityIds(entity);
      var usedIds: set<int> := {};
      for k := 0 to |ids|
        invariant usedIds == Used(Elements(ids[..k]))
      {
        AppendElement(ids[..k], ids[k]);
        assert ids[..k + 1] == ids[..k] + [ids[k]];
        match Stoi(ids[k]) {
          case Converted(id) =>
            if id > 0 {
              usedIds := usedIds + {id};
            }
          case InvalidArgument =>
          case OutOfRange =>
        }
      }
      assert ids[..|ids|] == ids;
      var candidate := 1;
      while true
        invariant 1 <= candidate <= INT_MAX
        invariant FirstFree(usedIds, candidate) == FirstFree(usedIds, 1)
        decreases INT_MAX - candidate
      {
        if candidate !in usedIds {
          return Some(IntToString(candidate));
        }
        if candidate == INT_MAX {
          return None;
        }
        candidate := candidate + 1;
      }
    }

    method Reset()
      modifies this
      ensures View() == map[]
    {
      FlattenNothing();
      data := map[];
    }
  }
}
