/** The entity store the menu manager persists into: the menu-set table, read
    in its listing order, and the menu-item table keyed by id, each with its own
    auto-increment counter. Localised item fields are kept per locale beside the
    base fields. */
module Store {
  import opened Values

  /** One row of the menu-set table. */
  datatype MenuSetRow = MenuSetRow(id: int, name: string, description: Value, sort: int, subsiteId: int)

  /** One stored menu item: its base fields and, per locale, the fields written
      while that locale was active. */
  datatype ItemRow = ItemRow(fields: Record, localised: map<string, Record>)

  /** The sets with id `id` removed, order kept. */
  function Without(sets: seq<MenuSetRow>, id: int): (r: seq<MenuSetRow>)
    ensures |r| <= |sets|
    ensures forall s :: s in r <==> s in sets && s.id != id
  {
    if sets == [] then []
    else if sets[0].id == id then Without(sets[1..], id)
    else [sets[0]] + Without(sets[1..], id)
  }

  /** `$set->MenuItems()`: the ids of the items whose MenuSetID is `setId`. */
  function OwnedBy(items: map<int, ItemRow>, setId: int): set<int> {
    set k | k in items && Get(items[k].fields, "MenuSetID") == Int(setId)
  }

  /** Every item names a stored set as its owner. */
  ghost predicate NoOrphans(sets: seq<MenuSetRow>, items: map<int, ItemRow>) {
    forall k :: k in items ==>
      exists i :: 0 <= i < |sets| && Get(items[k].fields, "MenuSetID") == Int(sets[i].id)
  }

  class EntityStore {
    var sets: seq<MenuSetRow>
    var items: map<int, ItemRow>
    var nextSetId: int
    var nextItemId: int

    /** Ids are positive, below their counter, and set ids are distinct. */
    ghost predicate Valid()
      reads this
    {
      && 0 < nextSetId
      && 0 < nextItemId
      && (forall i :: 0 <= i < |sets| ==> 0 < sets[i].id < nextSetId)
      && (forall i, j :: 0 <= i < j < |sets| ==> sets[i].id != sets[j].id)
      && (forall k :: k in items ==> 0 < k < nextItemId)
    }

    constructor ()
      ensures Valid()
      ensures sets == [] && items == map[] && nextSetId == 1 && nextItemId == 1
    {
      sets, items := [], map[];
      nextSetId, nextItemId := 1, 1;
    }

    /** Inserts a new set row under the next id. */
    method InsertSet(name: string, description: Value, sort: int, subsiteId: int) returns (id: int)
      requires Valid()
      modifies this
      ensures Valid()
      ensures id == old(nextSetId) && nextSetId == id + 1
      ensures sets == old(sets) + [MenuSetRow(id, name, description, sort, subsiteId)]
      ensures items == old(items) && nextItemId == old(nextItemId)
    {
      id := nextSetId;
      sets := sets + [MenuSetRow(id, name, description, sort, subsiteId)];
      nextSetId := nextSetId + 1;
    }

    /** Deletes the set row with id `id`, if there is one. */
    method RemoveSet(id: int)
      requires Valid()
      modifies this
      ensures Valid()
      ensures sets == Without(old(sets), id)
      ensures items == old(items)
      ensures nextSetId == old(nextSetId) && nextItemId == old(nextItemId)
    {
      WithoutKeepsDistinct(sets, id);
      sets := Without(sets, id);
    }

    /** Inserts a new item row under the next id, with no localised fields. */
    method InsertItem(fields: Record) returns (id: int)
      requires Valid()
      modifies this
      ensures Valid()
      ensures id == old(nextItemId) && nextItemId == id + 1
      ensures items == old(items)[id := ItemRow(fields, map[])]
      ensures sets == old(sets) && nextSetId == old(nextSetId)
    {
      id := nextItemId;
      items := items[id := ItemRow(fields, map[])];
      nextItemId := nextItemId + 1;
    }

    /** Rewrites the base fields of a stored item. */
    method PutFields(id: int, fields: Record)
      requires Valid() && id in items
      modifies this
      ensures Valid()
      ensures items == old(items)[id := old(items)[id].(fields := fields)]
      ensures sets == old(sets) && nextSetId == old(nextSetId) && nextItemId == old(nextItemId)
    {
      items := items[id := items[id].(fields := fields)];
    }

    /** Writes the fields of a stored item for one locale. */
    method PutLocalised(id: int, locale: string, fields: Record)
      requires Valid() && id in items
      modifies this
      ensures Valid()
      ensures items == old(items)[id := old(items)[id].(localised := old(items)[id].localised[locale := fields])]
      ensures sets == old(sets) && nextSetId == old(nextSetId) && nextItemId == old(nextItemId)
    {
      items := items[id := items[id].(localised := items[id].localised[locale := fields])];
    }

    /** Deletes one item row. */
    method DeleteItem(id: int)
      requires Valid()
      modifies this
      ensures Valid()
      ensures items == old(items) - {id}
      ensures sets == old(sets) && nextSetId == old(nextSetId) && nextItemId == old(nextItemId)
    {
      items := items - {id};
    }
  }

  /** Removing rows keeps ids distinct and within their bounds. */
  lemma {:induction false} WithoutKeepsDistinct(sets: seq<MenuSetRow>, id: int)
    requires forall i, j :: 0 <= i < j < |sets| ==> sets[i].id != sets[j].id
    ensures forall i, j :: 0 <= i < j < |Without(sets, id)| ==> Without(sets, id)[i].id != Without(sets, id)[j].id
  {
    if sets != [] {
      WithoutKeepsDistinct(sets[1..], id);
      if sets[0].id != id {
        var rest := Without(sets[1..], id);
        forall j | 0 <= j < |rest|
          ensures rest[j].id != sets[0].id
        {
          assert rest[j] in sets[1..];
        }
      }
    }
  }

  /** Removal keeps every row of another id as often as it occurs, and drops
      every row of the removed id. */
  lemma {:induction false} WithoutCounts(sets: seq<MenuSetRow>, id: int)
    ensures forall s :: multiset(Without(sets, id))[s] == if s.id == id then 0 else multiset(sets)[s]
  {
    if sets != [] {
      assert sets == [sets[0]] + sets[1..];
      WithoutCounts(sets[1..], id);
    }
  }

  /** Removal keeps the listing order: removing from a concatenation removes
      from each part, so the remaining rows stay in their relative order. */
  lemma {:induction false} WithoutConcat(a: seq<MenuSetRow>, b: seq<MenuSetRow>, id: int)
    ensures Without(a + b, id) == Without(a, id) + Without(b, id)
    decreases |a|
  {
    if a == [] {
      assert a + b == b;
    } else {
      assert (a + b)[1..] == a[1..] + b;
      WithoutConcat(a[1..], b, id);
    }
  }

  /** Rows of other ids are all kept, in order, when none has the removed id. */
  lemma {:induction false} WithoutAbsent(sets: seq<MenuSetRow>, id: int)
    requires forall i :: 0 <= i < |sets| ==> sets[i].id != id
    ensures Without(sets, id) == sets
  {
    if sets != [] {
      WithoutAbsent(sets[1..], id);
    }
  }
}
