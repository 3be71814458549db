/** Runs of the migration with one legacy menu set holding one item row that
    references a page: on an empty store, and on a store that already holds a
    set of that name. */
module MigrationScenarios {
  import opened Values
  import opened Externals
  import opened Store
  import opened MenuItems
  import opened MenuSets
  import opened Migration

  /** A legacy item row of the legacy set `legacyId` that references a page. */
  predicate PageRow(row: Record, legacyId: int) {
    Get(row, "MenuSetID") == Int(legacyId) && Truthy(Get(row, "PageID"))
  }

  /** The stored items are one internal item, linking the row's page with no
      URL, owned by the set `setId`. */
  ghost predicate OneInternalItem(items: map<int, ItemRow>, row: Record, setId: int) {
    exists k :: (items.Keys == {k}
      && Get(items[k].fields, "LinkType") == Str(INTERNAL)
      && Get(items[k].fields, "PageID") == Get(row, "PageID")
      && Get(items[k].fields, "URL") == Null
      && Get(items[k].fields, "MenuSetID") == Int(setId))
  }

  /** On an empty store, the run completes with one set of the legacy name
      holding the one migrated item. */
  method IntoEmptyStore(site: Site, name: string, legacyId: int, row: Record) returns (store: EntityStore, outcome: RunOutcome)
    requires PageRow(row, legacyId)
    ensures store.Valid()
    ensures outcome == Completed
    ensures |store.sets| == 1 && store.sets[0].name == name
    ensures OneInternalItem(store.items, row, store.sets[0].id)
  {
    store := new EntityStore();
    var legacy := LegacySet(legacyId, name, None);
    outcome := RunOne(store, site, legacy, row);
    OneSet(store.sets, legacy);
    var t := FindTarget(store.sets, legacy).value;
    assert t == store.sets[0] && store.sets == [t];
    OneItem(store.items, store.nextItemId, legacy, t, row, site);
  }

  /** With a set of the legacy name already stored, the run reuses it: no
      set is created, and the set holds the one migrated item. */
  method IntoExistingSet(site: Site, name: string, legacyId: int, row: Record) returns (store: EntityStore, outcome: RunOutcome)
    requires PageRow(row, legacyId)
    ensures store.Valid()
    ensures outcome == Completed
    ensures store.sets == [MenuSetRow(1, name, Null, 0, 0)]
    ensures OneInternalItem(store.items, row, 1)
  {
    store := new EntityStore();
    var id := store.InsertSet(name, Null, 0, 0);
    ghost var start := store.sets;
    var legacy := LegacySet(legacyId, name, None);
    outcome := RunOne(store, site, legacy, row);
    assert HasName(start, name) by {
      assert start[0].name == name;
    }
    GrowthByHeldNames(start, store.sets, [name]);
    var t := FindTarget(store.sets, legacy).value;
    assert t == store.sets[0] && store.sets == [t];
    OneItem(store.items, store.nextItemId, legacy, t, row, site);
  }

  /** A run over the one legacy set and its one item row, on a store with no
      items. */
  method RunOne(store: EntityStore, site: Site, legacy: LegacySet, row: Record) returns (outcome: RunOutcome)
    requires store.Valid() && store.items == map[] && legacy.subsiteId.None?
    modifies store
    ensures store.Valid()
    ensures outcome == Completed
    ensures GrownBy(old(store.sets), store.sets, [legacy.name])
    ensures FindTarget(store.sets, legacy).Some?
    ensures HoldsMigration(store.items, store.nextItemId, legacy, FindTarget(store.sets, legacy).value.id, [row], site, None, [])
    ensures NoOrphans(store.sets, store.items)
  {
    outcome := Run(store, site, Legacy([legacy], [row], []), None);
    assert Names([legacy]) == [legacy.name];
  }

  /** Growing an empty listing by one name, and holding a set that matches
      it, gives a listing of that one set. */
  lemma OneSet(sets: seq<MenuSetRow>, legacy: LegacySet)
    requires GrownBy([], sets, [legacy.name])
    requires HasTarget(sets, legacy)
    ensures |sets| == 1 && sets[0].name == legacy.name
  {
    GrowthBound([], sets, [legacy.name]);
  }

  /** The item map after the run, when the one stored set is the target. */
  lemma OneItem(items: map<int, ItemRow>, next: int, legacy: LegacySet, t: MenuSetRow, row: Record, site: Site)
    requires PageRow(row, legacy.id)
    requires HoldsMigration(items, next, legacy, t.id, [row], site, None, [])
    requires NoOrphans([t], items)
    ensures OneInternalItem(items, row, t.id)
  {
    assert ItemsOf([row], legacy.id) == [row] by {
      assert [row][1..] == [];
    }
    var x := Migrated(row, t.id, site, None, []);
    assert MigratedAll(ItemsOf([row], legacy.id), t.id, site, None, []) == [x];
    HoldsMigrationOwns(items, next, legacy, t.id, [row], site, None, []);
    SoleOwned(items, t, next, x);
    MigratedKeepsRewrite(row, t.id, site);
    LinkTypePriority(row);
  }

  /** When every item belongs to `t` and `t` owns exactly one, that one is all there is. */
  lemma SoleOwned(items: map<int, ItemRow>, t: MenuSetRow, next: int, x: ItemRow)
    requires OwnsExactly(items, t.id, next, [x])
    requires NoOrphans([t], items)
    ensures items.Keys == {next - 1} && items[next - 1] == x
  {
    forall k | k in items
      ensures k == next - 1
    {
      assert Get(items[k].fields, "MenuSetID") == Int(t.id);
      assert k in OwnedBy(items, t.id);
    }
    assert Placed(items, next - |[x]|, [x]);
    assert [x][0] == x;
  }

  /** The legacy "Footer" item row: page 5, no link and no file. */
  lemma FooterItemRow()
    ensures PageRow(map["ID" := Int(10), "MenuSetID" := Int(1), "PageID" := Int(5), "Link" := Null, "FileID" := Null], 1)
  {
  }
}
