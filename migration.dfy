/** The one-time migration from the legacy menu tables
    (src/Tasks/MigrateFromHeydayMenus.php): guards, find-or-create of each
    target set, wipe of its items, rewrite of every legacy item row into the
    link-type model, and the per-locale replay of localisation rows. */
module Migration {
  import opened Values
  import opened Externals
  import opened Store
  import opened MenuItems
  import opened MenuSets

  /** One row of the legacy menu-set table. */
  datatype LegacySet = LegacySet(id: int, name: string, subsiteId: Option<int>)

  /** The three legacy tables the migration reads, each in its natural read order:
      menu sets, menu items, and localised menu-item rows. */
  datatype Legacy = Legacy(sets: seq<LegacySet>, items: seq<Record>, localised: seq<Record>)

  datatype RunOutcome = NothingToMigrate | AlreadyMigrated | Completed | Halted(error: Error)

  /** The filter `{Name[, SubsiteID]}`: the name always, the tenant only when
      the legacy row carries one. */
  predicate Matches(s: MenuSetRow, legacy: LegacySet) {
    s.name == legacy.name && (legacy.subsiteId.Some? ==> s.subsiteId == legacy.subsiteId.value)
  }

  /** Some stored set matches the legacy set. */
  ghost predicate HasTarget(sets: seq<MenuSetRow>, legacy: LegacySet) {
    exists k :: 0 <= k < |sets| && Matches(sets[k], legacy)
  }

  /** `MenuSet::get()->filter($f)->first()`. */
  function FindTarget(sets: seq<MenuSetRow>, legacy: LegacySet): (r: Option<MenuSetRow>)
    ensures r.Some? ==> r.value in sets && Matches(r.value, legacy)
    ensures r.None? <==> !HasTarget(sets, legacy)
  {
    if sets == [] then None
    else if Matches(sets[0], legacy) then Some(sets[0])
    else
      var rest := FindTarget(sets[1..], legacy);
      assert rest.None? ==> forall k :: 1 <= k < |sets| ==> sets[1..][k - 1] == sets[k];
      rest
  }

  /** The names of the legacy sets, in order. */
  function Names(legacy: seq<LegacySet>): seq<string> {
    seq(|legacy|, i requires 0 <= i < |legacy| => legacy[i].name)
  }

  /** The link type a legacy row is given: a page reference wins over a file
      reference, which wins over a literal link; with none of them, null. */
  function DeriveLinkType(row: Record): Value {
    if Truthy(Get(row, "PageID")) then Str(INTERNAL)
    else if Truthy(Get(row, "FileID")) then Str(FILE)
    else if Truthy(Get(row, "Link")) then Str(EXTERNAL)
    else Null
  }

  /** The fields a legacy item row is migrated with, for the target set `setId`. */
  function RewriteRow(row: Record, setId: int): Record {
    var stripped := row - {"ID", "MenuSetID", "ClassName"};
    var linkType := DeriveLinkType(stripped);
    var typed := stripped["LinkType" := linkType]["URL" := if linkType == Str(EXTERNAL) then Get(stripped, "Link") else Null];
    (typed - {"Link"})["MenuSetID" := Int(setId)]
  }

  /** The legacy item rows of the legacy set `legacyId`, in read order. */
  function ItemsOf(rows: seq<Record>, legacyId: int): (r: seq<Record>)
    ensures |r| <= |rows|
    ensures forall x :: multiset(r)[x] == if Get(x, "MenuSetID") == Int(legacyId) then multiset(rows)[x] else 0
  {
    if rows == [] then []
    else
      assert rows == [rows[0]] + rows[1..];
      (if Get(rows[0], "MenuSetID") == Int(legacyId) then [rows[0]] else []) + ItemsOf(rows[1..], legacyId)
  }

  /** The localisation row of the legacy item `oldId` for `locale`: the first
      one with that RecordID and Locale, if any. */
  function FindLocalisation(rows: seq<Record>, oldId: Value, locale: string): (r: Option<Record>)
    ensures r.Some? ==> r.value in rows && Get(r.value, "RecordID") == oldId && Get(r.value, "Locale") == Str(locale)
    ensures r.None? <==> forall i :: 0 <= i < |rows| ==> !(Get(rows[i], "RecordID") == oldId && Get(rows[i], "Locale") == Str(locale))
  {
    if rows == [] then None
    else if Get(rows[0], "RecordID") == oldId && Get(rows[0], "Locale") == Str(locale) then Some(rows[0])
    else
      var rest := FindLocalisation(rows[1..], oldId, locale);
      assert rest.None? ==> forall i :: 1 <= i < |rows| ==> rows[1..][i - 1] == rows[i];
      rest
  }

  /** The set the filter finds is the first match in listing order: every
      stored set before it fails the filter. */
  lemma {:induction false} FindTargetFirst(sets: seq<MenuSetRow>, legacy: LegacySet)
    requires FindTarget(sets, legacy).Some?
    ensures exists i :: 0 <= i < |sets| && sets[i] == FindTarget(sets, legacy).value && forall j :: 0 <= j < i ==> !Matches(sets[j], legacy)
  {
    if !Matches(sets[0], legacy) {
      FindTargetFirst(sets[1..], legacy);
      var i :| 0 <= i < |sets[1..]| && sets[1..][i] == FindTarget(sets, legacy).value && forall j :: 0 <= j < i ==> !Matches(sets[1..][j], legacy);
      forall j | 0 <= j < i + 1
        ensures !Matches(sets[j], legacy)
      {
        if j > 0 { assert sets[j] == sets[1..][j - 1]; }
      }
    }
  }

  /** The localisation row found is the first one for that record and locale:
      every row before it is for another record or another locale. */
  lemma {:induction false} FindLocalisationFirst(rows: seq<Record>, oldId: Value, locale: string)
    requires FindLocalisation(rows, oldId, locale).Some?
    ensures exists i :: (0 <= i < |rows| && rows[i] == FindLocalisation(rows, oldId, locale).value &&
      forall j :: 0 <= j < i ==> !(Get(rows[j], "RecordID") == oldId && Get(rows[j], "Locale") == Str(locale)))
  {
    if !(Get(rows[0], "RecordID") == oldId && Get(rows[0], "Locale") == Str(locale)) {
      FindLocalisationFirst(rows[1..], oldId, locale);
      var i :| (0 <= i < |rows[1..]| && rows[1..][i] == FindLocalisation(rows, oldId, locale).value &&
        forall j :: 0 <= j < i ==> !(Get(rows[1..][j], "RecordID") == oldId && Get(rows[1..][j], "Locale") == Str(locale)));
      forall j | 0 <= j < i + 1
        ensures !(Get(rows[j], "RecordID") == oldId && Get(rows[j], "Locale") == Str(locale))
      {
        if j > 0 { assert rows[j] == rows[1..][j - 1]; }
      }
    }
  }

  /** A localisation row without its own ID and RecordID. */
  function Localisation(row: Record): Record {
    row - {"ID", "RecordID"}
  }

  /** The in-memory item after some locales, and what each locale stored. */
  datatype Pass = Pass(memory: Record, written: map<string, Record>)

  /** The locale loop over `locales`: for each locale with a localisation row,
      the in-memory item takes that row's fields, gets its title filled, and is
      stored under the locale; other locales change nothing. */
  function LocalePass(base: Record, locales: seq<string>, oldId: Value, rows: seq<Record>, site: Site): Pass
    decreases |locales|
  {
    if locales == [] then Pass(base, map[])
    else
      var prev := LocalePass(base, locales[..|locales| - 1], oldId, rows, site);
      var locale := locales[|locales| - 1];
      match FindLocalisation(rows, oldId, locale)
      case None => prev
      case Some(row) =>
        var memory := WithTitle(prev.memory + Localisation(row), site);
        Pass(memory, prev.written[locale := memory])
  }

  /** The locale loop over one more locale. */
  lemma LocalePassSnoc(base: Record, done: seq<string>, locale: string, oldId: Value, rows: seq<Record>, site: Site)
    ensures LocalePass(base, done + [locale], oldId, rows, site) ==
      var prev := LocalePass(base, done, oldId, rows, site);
      match FindLocalisation(rows, oldId, locale)
      case None => prev
      case Some(row) =>
        var memory := WithTitle(prev.memory + Localisation(row), site);
        Pass(memory, prev.written[locale := memory])
  {
    assert (done + [locale])[..|done|] == done;
  }

  /** The stored item a legacy row becomes. */
  function Migrated(row: Record, setId: int, site: Site, locales: Option<seq<string>>, localised: seq<Record>): ItemRow {
    var base := WithTitle(Defaults() + RewriteRow(row, setId), site);
    ItemRow(base, if locales.Some? then LocalePass(base, locales.value, Get(row, "ID"), localised, site).written else map[])
  }

  /** The stored items the legacy rows `rows` become, in order: the `j`-th is
      the migration of the `j`-th row. */
  function MigratedAll(rows: seq<Record>, setId: int, site: Site, locales: Option<seq<string>>, localised: seq<Record>): (r: seq<ItemRow>)
    ensures |r| == |rows|
  {
    seq(|rows|, j requires 0 <= j < |rows| => Migrated(rows[j], setId, site, locales, localised))
  }

  /** After one set's migration, the set `t` owns exactly the last
      `|ItemsOf(rows, legacy.id)|` item ids, each the migration of the
      corresponding legacy row. It is stated of the sequence `xs` equal to
      those migrated items, so that a proof which only passes the fact along
      never computes them; `HoldsMigrationOwns` takes it apart. */
  ghost predicate HoldsMigration(items: map<int, ItemRow>, next: int, legacy: LegacySet, t: int,
                                 rows: seq<Record>, site: Site, locales: Option<seq<string>>, localised: seq<Record>)
  {
    forall xs {:trigger OwnsExactly(items, t, next, xs)} ::
      xs == MigratedAll(ItemsOf(rows, legacy.id), t, site, locales, localised) ==> OwnsExactly(items, t, next, xs)
  }

  /** What `HoldsMigration` says of the migrated items themselves. */
  lemma HoldsMigrationOwns(items: map<int, ItemRow>, next: int, legacy: LegacySet, t: int,
                           rows: seq<Record>, site: Site, locales: Option<seq<string>>, localised: seq<Record>)
    requires HoldsMigration(items, next, legacy, t, rows, site, locales, localised)
    ensures OwnsExactly(items, t, next, MigratedAll(ItemsOf(rows, legacy.id), t, site, locales, localised))
  {
    var xs := MigratedAll(ItemsOf(rows, legacy.id), t, site, locales, localised);
    assert xs == MigratedAll(ItemsOf(rows, legacy.id), t, site, locales, localised) ==> OwnsExactly(items, t, next, xs);
  }

  /** The set `t` owns exactly the ids just below `next`, and they hold `xs`. */
  ghost predicate OwnsExactly(items: map<int, ItemRow>, t: int, next: int, xs: seq<ItemRow>) {
    && (forall k :: k in OwnedBy(items, t) <==> next - |xs| <= k < next)
    && Placed(items, next - |xs|, xs)
  }

  /** The entries `xs` sit under the consecutive keys from `first` on. */
  ghost predicate Placed<T>(items: map<int, T>, first: int, xs: seq<T>) {
    forall j :: 0 <= j < |xs| ==> first + j in items && items[first + j] == xs[j]
  }

  // ---------------------------------------------------------------------------
  // Properties of the row rewrite and the locale replay

  /** The derived link type, case by case. */
  lemma LinkTypePriority(row: Record)
    ensures DeriveLinkType(row) == Str(INTERNAL) <==> Truthy(Get(row, "PageID"))
    ensures DeriveLinkType(row) == Str(FILE) <==> !Truthy(Get(row, "PageID")) && Truthy(Get(row, "FileID"))
    ensures DeriveLinkType(row) == Str(EXTERNAL) <==>
      !Truthy(Get(row, "PageID")) && !Truthy(Get(row, "FileID")) && Truthy(Get(row, "Link"))
    ensures DeriveLinkType(row) == Null <==>
      !Truthy(Get(row, "PageID")) && !Truthy(Get(row, "FileID")) && !Truthy(Get(row, "Link"))
  {
  }

  /** The migrated fields: no legacy ID, ClassName or Link; the link type
      derived from the row; URL the legacy link exactly when the type is
      external, else null; the target set as owner; every other field as it was. */
  lemma RewriteFields(row: Record, setId: int)
    ensures RewriteRow(row, setId).Keys == row.Keys - {"ID", "ClassName", "Link"} + {"LinkType", "URL", "MenuSetID"}
    ensures RewriteRow(row, setId)["LinkType"] == DeriveLinkType(row)
    ensures RewriteRow(row, setId)["URL"] == if DeriveLinkType(row) == Str(EXTERNAL) then Get(row, "Link") else Null
    ensures RewriteRow(row, setId)["MenuSetID"] == Int(setId)
    ensures forall k :: k in row && k !in {"ID", "MenuSetID", "ClassName", "LinkType", "URL", "Link"} ==>
      RewriteRow(row, setId)[k] == row[k]
  {
    var stripped := row - {"ID", "MenuSetID", "ClassName"};
    assert Get(stripped, "PageID") == Get(row, "PageID");
    assert Get(stripped, "FileID") == Get(row, "FileID");
    assert Get(stripped, "Link") == Get(row, "Link");
  }

  /** A page reference wins over a literal link, which is dropped. */
  lemma PageReferenceWins(row: Record, setId: int)
    requires Truthy(Get(row, "PageID")) && Truthy(Get(row, "Link"))
    ensures RewriteRow(row, setId)["LinkType"] == Str(INTERNAL)
    ensures RewriteRow(row, setId)["URL"] == Null
    ensures "Link" !in RewriteRow(row, setId)
  {
    RewriteFields(row, setId);
  }

  /** Saving a migrated row keeps what the rewrite decided: its owner, its
      link type and its references. */
  lemma {:induction false} MigratedKeepsRewrite(row: Record, setId: int, site: Site)
    ensures var saved := WithTitle(Defaults() + RewriteRow(row, setId), site);
      && Get(saved, "MenuSetID") == Int(setId)
      && Get(saved, "LinkType") == DeriveLinkType(row)
      && Get(saved, "URL") == (if DeriveLinkType(row) == Str(EXTERNAL) then Get(row, "Link") else Null)
      && Get(saved, "PageID") == Get(row, "PageID")
      && Get(saved, "FileID") == Get(row, "FileID")
  {
    RewriteFields(row, setId);
    var rec := Defaults() + RewriteRow(row, setId);
    assert Get(rec, "PageID") == Get(row, "PageID");
    assert Get(rec, "FileID") == Get(row, "FileID");
  }

  /** The migrated item of a legacy row with only a literal link links to
      that literal link. */
  lemma MigratedExternalLink(row: Record, setId: int, site: Site, action: Value)
    requires !Truthy(Get(row, "PageID")) && !Truthy(Get(row, "FileID")) && Truthy(Get(row, "Link"))
    ensures ResolveLink(Defaults() + RewriteRow(row, setId), site, action) == Get(row, "Link")
  {
    RewriteFields(row, setId);
  }

  /** The migrated item of a legacy row with a reference to a stored page
      links to that page. */
  lemma MigratedPageLink(row: Record, setId: int, site: Site, action: Value)
    requires Get(row, "PageID").Int? && Get(row, "PageID").i != 0 && Get(row, "PageID").i in site.pages
    requires site.pages[Get(row, "PageID").i].present
    requires !Truthy(Get(row, "Anchor")) && !Truthy(Answer(site.pages[Get(row, "PageID").i], "Anchor"))
    ensures ResolveLink(Defaults() + RewriteRow(row, setId), site, action) == Str(site.pages[Get(row, "PageID").i].link(action))
  {
    RewriteFields(row, setId);
    var rec := Defaults() + RewriteRow(row, setId);
    assert Get(rec, "PageID") == Get(row, "PageID");
    assert Get(rec, "Anchor") == Get(row, "Anchor");
  }

  /** The first scenario's legacy row: page 5 and no link or file. */
  lemma FooterRow(setId: int)
    ensures var row := map["ID" := Int(10), "MenuSetID" := Int(1), "PageID" := Int(5), "Link" := Null, "FileID" := Null];
      && RewriteRow(row, setId) == map["PageID" := Int(5), "FileID" := Null, "LinkType" := Str(INTERNAL), "URL" := Null, "MenuSetID" := Int(setId)]
  {
    var row := map["ID" := Int(10), "MenuSetID" := Int(1), "PageID" := Int(5), "Link" := Null, "FileID" := Null];
    RewriteFields(row, setId);
  }

  /** A locale is stored exactly when it has a localisation row. */
  lemma {:induction false} LocaleStoredIffRow(base: Record, locales: seq<string>, oldId: Value, rows: seq<Record>, site: Site, locale: string)
    ensures locale in LocalePass(base, locales, oldId, rows, site).written <==>
      locale in locales && FindLocalisation(rows, oldId, locale).Some?
    decreases |locales|
  {
    if locales != [] {
      var init := locales[..|locales| - 1];
      LocaleStoredIffRow(base, init, oldId, rows, site, locale);
      assert locales == init + [locales[|locales| - 1]];
    }
  }

  /** What a locale stored holds its localisation row's fields; its title is
      the row's own unless that is blank. */
  lemma {:induction false} LocaleStoresItsRow(base: Record, locales: seq<string>, oldId: Value, rows: seq<Record>, site: Site, locale: string)
    requires locale in LocalePass(base, locales, oldId, rows, site).written
    ensures FindLocalisation(rows, oldId, locale).Some?
    ensures var row := Localisation(FindLocalisation(rows, oldId, locale).value);
      forall k :: k in row && (k != "MenuTitle" || Truthy(row[k])) ==>
        Get(LocalePass(base, locales, oldId, rows, site).written[locale], k) == row[k]
    decreases |locales|
  {
    var init := locales[..|locales| - 1];
    var last := locales[|locales| - 1];
    var prev := LocalePass(base, init, oldId, rows, site);
    if last == locale && FindLocalisation(rows, oldId, locale).Some? {
      var row := Localisation(FindLocalisation(rows, oldId, locale).value);
      var merged := prev.memory + row;
      forall k | k in row && (k != "MenuTitle" || Truthy(row[k]))
        ensures Get(WithTitle(merged, site), k) == row[k]
      {
        if k == "MenuTitle" {
          OwnValueAnswers(merged, site, k);
        }
      }
    } else {
      LocaleStoresItsRow(base, init, oldId, rows, site, locale);
    }
  }

  /** The in-memory item and every stored locale keep the migrated item's owner. */
  lemma {:induction false} LocalePassKeepsOwner(base: Record, locales: seq<string>, oldId: Value, rows: seq<Record>, site: Site, setId: int)
    requires Get(base, "MenuSetID") == Int(setId)
    requires forall i :: 0 <= i < |rows| ==> "MenuSetID" !in rows[i]
    ensures Get(LocalePass(base, locales, oldId, rows, site).memory, "MenuSetID") == Int(setId)
    decreases |locales|
  {
    if locales != [] {
      var init := locales[..|locales| - 1];
      LocalePassKeepsOwner(base, init, oldId, rows, site, setId);
      var found := FindLocalisation(rows, oldId, locales[|locales| - 1]);
      if found.Some? {
        var merged := LocalePass(base, init, oldId, rows, site).memory + Localisation(found.value);
        assert Get(merged, "MenuSetID") == Int(setId);
      }
    }
  }

  /** The base fields of a migrated item name the target set as owner. */
  lemma MigratedOwner(row: Record, setId: int, site: Site, locales: Option<seq<string>>, localised: seq<Record>)
    ensures Get(Migrated(row, setId, site, locales, localised).fields, "MenuSetID") == Int(setId)
  {
    MigratedKeepsRewrite(row, setId, site);
  }

  // ---------------------------------------------------------------------------
  // The migration run

  /** One legacy item row: `new MenuItem()`, `update()` with the rewritten
      fields and `write()`; then, with Fluent, the locale loop. */
  method MigrateItem(store: EntityStore, site: Site, row: Record, setId: int,
                     locales: Option<seq<string>>, localised: seq<Record>) returns (id: int)
    requires store.Valid()
    modifies store
    ensures store.Valid()
    ensures id == old(store.nextItemId) && store.nextItemId == id + 1
    ensures store.items == old(store.items)[id := Migrated(row, setId, site, locales, localised)]
    ensures store.sets == old(store.sets) && store.nextSetId == old(store.nextSetId)
  {
    var item := new MenuItem();
    item.Update(RewriteRow(row, setId));
    item.Write(store, site, None);
    id := item.id;
    if locales.Some? {
      ReplayLocales(item, store, site, locales.value, Get(row, "ID"), localised, item.record, old(store.items));
    }
  }

  /** The locale loop: for each locale with a localisation row of the legacy
      item `oldId`, `update()` with that row and `write()` under the locale. */
  method ReplayLocales(item: MenuItem, store: EntityStore, site: Site, locales: seq<string>, oldId: Value,
                       localised: seq<Record>, ghost base: Record, ghost items0: map<int, ItemRow>)
    requires store.Valid() && item.id in store.items
    requires item.record == base && store.items == items0[item.id := ItemRow(base, map[])]
    modifies item`record, item`id, store
    ensures store.Valid() && item.id == old(item.id)
    ensures store.items == items0[item.id := ItemRow(base, LocalePass(base, locales, oldId, localised, site).written)]
    ensures store.sets == old(store.sets) && store.nextSetId == old(store.nextSetId) && store.nextItemId == old(store.nextItemId)
  {
    var id := item.id;
    var i := 0;
    while i < |locales|
      invariant 0 <= i <= |locales|
      invariant store.Valid() && item.id == id && id in store.items
      invariant item.record == LocalePass(base, locales[..i], oldId, localised, site).memory
      invariant store.items == items0[id := ItemRow(base, LocalePass(base, locales[..i], oldId, localised, site).written)]
      invariant store.sets == old(store.sets) && store.nextSetId == old(store.nextSetId) && store.nextItemId == old(store.nextItemId)
    {
      ReplayLocale(item, store, site, locales[..i], locales[i], oldId, localised, base, items0);
      assert locales[..i + 1] == locales[..i] + [locales[i]];
      i := i + 1;
    }
    assert locales[..i] == locales;
  }

  /** One locale of the locale loop, after the locales `done`. */
  method ReplayLocale(item: MenuItem, store: EntityStore, site: Site, done: seq<string>, locale: string, oldId: Value,
                      localised: seq<Record>, ghost base: Record, ghost items0: map<int, ItemRow>)
    requires store.Valid() && item.id in store.items
    requires item.record == LocalePass(base, done, oldId, localised, site).memory
    requires store.items == items0[item.id := ItemRow(base, LocalePass(base, done, oldId, localised, site).written)]
    modifies item`record, item`id, store
    ensures store.Valid() && item.id == old(item.id)
    ensures item.record == LocalePass(base, done + [locale], oldId, localised, site).memory
    ensures store.items == items0[item.id := ItemRow(base, LocalePass(base, done + [locale], oldId, localised, site).written)]
    ensures store.sets == old(store.sets) && store.nextSetId == old(store.nextSetId) && store.nextItemId == old(store.nextItemId)
  {
    LocalePassSnoc(base, done, locale, oldId, localised, site);
    var found := FindLocalisation(localised, oldId, locale);
    if found.Some? {
      item.Update(Localisation(found.value));
      item.Write(store, site, Some(locale));
    }
  }

  /** The item loop of one legacy set: each row, in order, becomes the next item. */
  method MigrateRows(store: EntityStore, site: Site, rows: seq<Record>, setId: int,
                     locales: Option<seq<string>>, localised: seq<Record>)
    requires store.Valid()
    modifies store
    ensures store.Valid()
    ensures store.nextItemId == old(store.nextItemId) + |rows|
    ensures forall k :: k in store.items <==> k in old(store.items) || old(store.nextItemId) <= k < store.nextItemId
    ensures forall k :: k in old(store.items) ==> store.items[k] == old(store.items)[k]
    ensures Placed(store.items, old(store.nextItemId), MigratedAll(rows, setId, site, locales, localised))
    ensures store.sets == old(store.sets) && store.nextSetId == old(store.nextSetId)
  {
    var n := store.nextItemId;
    ghost var expected := MigratedAll(rows, setId, site, locales, localised);
    var j := 0;
    while j < |rows|
      invariant 0 <= j <= |rows|
      invariant store.Valid()
      invariant store.nextItemId == n + j
      invariant forall k :: k in store.items <==> k in old(store.items) || n <= k < n + j
      invariant forall k :: k in old(store.items) ==> store.items[k] == old(store.items)[k]
      invariant Placed(store.items, n, expected[..j])
      invariant store.sets == old(store.sets) && store.nextSetId == old(store.nextSetId)
    {
      ghost var before := store.items;
      var id := MigrateNext(store, site, rows, j, setId, locales, localised);
      AppendStep(before, store.items, old(store.items), n, j, expected, expected[j]);
      j := j + 1;
    }
    assert expected[..j] == expected;
  }

  /** `MigrateItem` of the `j`-th row. */
  method MigrateNext(store: EntityStore, site: Site, rows: seq<Record>, j: int, setId: int,
                     locales: Option<seq<string>>, localised: seq<Record>) returns (id: int)
    requires store.Valid() && 0 <= j < |rows|
    modifies store
    ensures store.Valid()
    ensures id == old(store.nextItemId) && store.nextItemId == id + 1
    ensures store.items == old(store.items)[id := MigratedAll(rows, setId, site, locales, localised)[j]]
    ensures store.sets == old(store.sets) && store.nextSetId == old(store.nextSetId)
  {
    id := MigrateItem(store, site, rows[j], setId, locales, localised);
  }

  /** One more new key `n + j` keeps the shape of a map that is `base` plus
      the keys `n ..` valued by `expected`. */
  lemma AppendStep<T>(before: map<int, T>, after: map<int, T>, base: map<int, T>, n: int, j: int, expected: seq<T>, x: T)
    requires 0 <= j < |expected|
    requires forall k :: k in base ==> k < n
    requires forall k :: k in before <==> k in base || n <= k < n + j
    requires forall k :: k in base ==> before[k] == base[k]
    requires Placed(before, n, expected[..j])
    requires after == before[n + j := x] && x == expected[j]
    ensures forall k :: k in after <==> k in base || n <= k < n + j + 1
    ensures forall k :: k in base ==> after[k] == base[k]
    ensures Placed(after, n, expected[..j + 1])
  {
    forall i | 0 <= i < j + 1
      ensures n + i in after && after[n + i] == expected[i]
    {
      if i < j {
        assert expected[..j][i] == expected[i];
      }
    }
  }

  /** `MenuSet::get()->filter($f)->first()`, or, when no set matches, a new
      set with the legacy name and tenant written through validation. */
  method ResolveTarget(store: EntityStore, legacy: LegacySet) returns (r: Result<int>)
    requires store.Valid()
    modifies store
    ensures store.Valid()
    ensures r.Err? <==> !HasTarget(old(store.sets), legacy) && HasName(old(store.sets), legacy.name)
    ensures r.Err? ==> r.error == DuplicateName(legacy.name) && store.sets == old(store.sets) && store.nextSetId == old(store.nextSetId)
    ensures HasTarget(old(store.sets), legacy) ==>
      store.sets == old(store.sets) && r == Ok(FindTarget(old(store.sets), legacy).value.id)
    ensures r.Ok? && !HasTarget(old(store.sets), legacy) ==>
      && r.value == old(store.nextSetId)
      && store.sets == old(store.sets) + [MenuSetRow(r.value, legacy.name, Null, 0, legacy.subsiteId.GetOr(0))]
    ensures r.Ok? ==> FindTarget(store.sets, legacy).Some? && FindTarget(store.sets, legacy).value.id == r.value
    ensures GrownBy(old(store.sets), store.sets, [legacy.name])
    ensures store.items == old(store.items) && store.nextItemId == old(store.nextItemId)
  {
    ghost var sets0 := store.sets;
    assert GrownBy(sets0, sets0, []) by { assert sets0[..|sets0|] == sets0; }
    var target := FindTarget(store.sets, legacy);
    if target.Some? {
      GrowthWidens(sets0, sets0, [], [legacy.name]);
      return Ok(target.value.id);
    }
    r := WriteNewSet(store, legacy.name, legacy.subsiteId.GetOr(0));
    if r.Ok? {
      var s := MenuSetRow(r.value, legacy.name, Null, 0, legacy.subsiteId.GetOr(0));
      GrowthStep(sets0, sets0, [], s);
      assert [] + [s.name] == [legacy.name];
      FindTargetAfterAppend(sets0, s, legacy);
    } else {
      GrowthWidens(sets0, sets0, [], [legacy.name]);
      assert [] + [legacy.name] == [legacy.name];
    }
  }

  /** One legacy set: find or create its target, delete the target's items,
      then migrate the legacy set's item rows in read order. Creating a target
      fails validation when another tenant's set holds the name. */
  method MigrateSet(store: EntityStore, site: Site, legacy: LegacySet, rows: seq<Record>,
                    locales: Option<seq<string>>, localised: seq<Record>) returns (r: Result<int>)
    requires store.Valid()
    modifies store
    ensures store.Valid()
    ensures r.Err? <==> !HasTarget(old(store.sets), legacy) && HasName(old(store.sets), legacy.name)
    ensures r.Err? ==>
      && r.error == DuplicateName(legacy.name)
      && store.sets == old(store.sets) && store.items == old(store.items)
      && store.nextSetId == old(store.nextSetId) && store.nextItemId == old(store.nextItemId)
    ensures HasTarget(old(store.sets), legacy) ==>
      store.sets == old(store.sets) && r == Ok(FindTarget(old(store.sets), legacy).value.id)
    ensures r.Ok? && !HasTarget(old(store.sets), legacy) ==>
      && r.value == old(store.nextSetId)
      && store.sets == old(store.sets) + [MenuSetRow(r.value, legacy.name, Null, 0, legacy.subsiteId.GetOr(0))]
    ensures r.Ok? ==> FindTarget(store.sets, legacy).Some? && FindTarget(store.sets, legacy).value.id == r.value
    ensures r.Ok? ==> var n := old(store.nextItemId);
      && store.nextItemId == n + |ItemsOf(rows, legacy.id)|
      && (forall k :: k in store.items <==>
            (k in old(store.items) && k !in OwnedBy(old(store.items), r.value)) || n <= k < store.nextItemId)
      && (forall k :: k in old(store.items) && k !in OwnedBy(old(store.items), r.value) ==> store.items[k] == old(store.items)[k])
    ensures r.Ok? ==> HoldsMigration(store.items, store.nextItemId, legacy, r.value, rows, site, locales, localised)
    ensures GrownBy(old(store.sets), store.sets, [legacy.name])
    ensures NoOrphans(old(store.sets), old(store.items)) ==> NoOrphans(store.sets, store.items)
  {
    r := ResolveTarget(store, legacy);
    if r.Err? {
      return;
    }
    ReplaceItems(store, site, legacy, rows, FindTarget(store.sets, legacy).value, locales, localised);
  }

  /** Deletes the items of the target set `t`, then migrates the legacy set's
      item rows into it. */
  method ReplaceItems(store: EntityStore, site: Site, legacy: LegacySet, rows: seq<Record>, t: MenuSetRow,
                      locales: Option<seq<string>>, localised: seq<Record>)
    requires store.Valid() && t in store.sets
    modifies store
    ensures store.Valid()
    ensures store.sets == old(store.sets) && store.nextSetId == old(store.nextSetId)
    ensures var n := old(store.nextItemId);
      && store.nextItemId == n + |ItemsOf(rows, legacy.id)|
      && (forall k :: k in store.items <==>
            (k in old(store.items) && k !in OwnedBy(old(store.items), t.id)) || n <= k < store.nextItemId)
      && (forall k :: k in old(store.items) && k !in OwnedBy(old(store.items), t.id) ==> store.items[k] == old(store.items)[k])
    ensures HoldsMigration(store.items, store.nextItemId, legacy, t.id, rows, site, locales, localised)
    ensures NoOrphans(old(store.sets), old(store.items)) ==> NoOrphans(store.sets, store.items)
  {
    DeleteItemsOf(store, t.id);
    ghost var kept := store.items;
    if NoOrphans(old(store.sets), old(store.items)) {
      FewerKeepNoOrphans(store.sets, old(store.items), kept);
    }
    FillItems(store, site, legacy, rows, t, locales, localised);
    RemoveThenAppend(old(store.items), OwnedBy(old(store.items), t.id), kept, store.items, old(store.nextItemId), |ItemsOf(rows, legacy.id)|);
  }

  /** Migrates the legacy set's item rows into the target set `t`, which owns
      no item yet. */
  method FillItems(store: EntityStore, site: Site, legacy: LegacySet, rows: seq<Record>, t: MenuSetRow,
                   locales: Option<seq<string>>, localised: seq<Record>)
    requires store.Valid() && t in store.sets && OwnedBy(store.items, t.id) == {}
    modifies store
    ensures store.Valid()
    ensures store.sets == old(store.sets) && store.nextSetId == old(store.nextSetId)
    ensures store.nextItemId == old(store.nextItemId) + |ItemsOf(rows, legacy.id)|
    ensures forall k :: k in store.items <==> k in old(store.items) || old(store.nextItemId) <= k < store.nextItemId
    ensures forall k :: k in old(store.items) ==> store.items[k] == old(store.items)[k]
    ensures HoldsMigration(store.items, store.nextItemId, legacy, t.id, rows, site, locales, localised)
    ensures NoOrphans(store.sets, old(store.items)) ==> NoOrphans(store.sets, store.items)
  {
    var m := ItemsOf(rows, legacy.id);
    MigrateRows(store, site, m, t.id, locales, localised);
    ghost var xs := MigratedAll(m, t.id, site, locales, localised);
    MigratedAllOwned(m, t.id, site, locales, localised);
    OwnedAfterMigration(old(store.items), store.items, t.id, old(store.nextItemId), xs);
    assert store.nextItemId == old(store.nextItemId) + |xs|;
    HoldsFrom(store.items, store.nextItemId, legacy, t.id, rows, site, locales, localised, xs);
    if NoOrphans(store.sets, old(store.items)) {
      KeepsNoOrphans(store.sets, old(store.items), store.items, t, old(store.nextItemId), |m|);
    }
  }

  /** A set matching a legacy set that no earlier set matches is the one found. */
  lemma {:induction false} FindTargetAfterAppend(sets: seq<MenuSetRow>, s: MenuSetRow, legacy: LegacySet)
    requires !HasTarget(sets, legacy) && Matches(s, legacy)
    ensures FindTarget(sets + [s], legacy) == Some(s)
  {
    if sets == [] {
      assert sets + [s] == [s];
    } else {
      assert !Matches(sets[0], legacy);
      assert (sets + [s])[1..] == sets[1..] + [s];
      assert !HasTarget(sets[1..], legacy) by {
        forall k | 0 <= k < |sets[1..]|
          ensures !Matches(sets[1..][k], legacy)
        {
          assert sets[1..][k] == sets[k + 1];
        }
      }
      FindTargetAfterAppend(sets[1..], s, legacy);
    }
  }

  /** Deleting the keys `gone` and then adding the keys `n .. n+len-1` keeps
      every other old entry. */
  lemma RemoveThenAppend<T>(items0: map<int, T>, gone: set<int>, kept: map<int, T>, items: map<int, T>, n: int, len: int)
    requires kept == items0 - gone
    requires forall k :: k in items <==> k in kept || n <= k < n + len
    requires forall k :: k in kept ==> items[k] == kept[k]
    ensures forall k :: k in items <==> (k in items0 && k !in gone) || n <= k < n + len
    ensures forall k :: k in items0 && k !in gone ==> items[k] == items0[k]
  {
  }

  /** `HoldsMigration` is the ownership of the migrated items of the legacy set. */
  lemma HoldsFrom(items: map<int, ItemRow>, next: int, legacy: LegacySet, t: int, rows: seq<Record>,
                  site: Site, locales: Option<seq<string>>, localised: seq<Record>, xs: seq<ItemRow>)
    requires xs == MigratedAll(ItemsOf(rows, legacy.id), t, site, locales, localised)
    requires OwnsExactly(items, t, next, xs)
    ensures HoldsMigration(items, next, legacy, t, rows, site, locales, localised)
  {
  }

  /** Every migrated item names the target set as its owner. */
  lemma MigratedAllOwned(rows: seq<Record>, setId: int, site: Site, locales: Option<seq<string>>, localised: seq<Record>)
    ensures forall j :: 0 <= j < |rows| ==>
      Get(MigratedAll(rows, setId, site, locales, localised)[j].fields, "MenuSetID") == Int(setId)
  {
    forall j | 0 <= j < |rows|
      ensures Get(MigratedAll(rows, setId, site, locales, localised)[j].fields, "MenuSetID") == Int(setId)
    {
        MigratedOwner(rows[j], setId, site, locales, localised);
    }
  }

  /** After the item loop, the target owns exactly the new ids, which hold
      the migrated items. */
  lemma OwnedAfterMigration(kept: map<int, ItemRow>, items: map<int, ItemRow>, setId: int, n: int, xs: seq<ItemRow>)
    requires OwnedBy(kept, setId) == {}
    requires forall k :: k in items <==> k in kept || n <= k < n + |xs|
    requires forall k :: k in kept ==> items[k] == kept[k]
    requires forall j :: 0 <= j < |xs| ==> Get(xs[j].fields, "MenuSetID") == Int(setId)
    requires Placed(items, n, xs)
    ensures OwnsExactly(items, setId, n + |xs|, xs)
  {
    forall k | n <= k < n + |xs|
      ensures k in OwnedBy(items, setId)
    {
      assert items[n + (k - n)] == xs[k - n];
    }
    forall k | k in OwnedBy(items, setId)
      ensures n <= k < n + |xs|
    {
      assert k in kept ==> k in OwnedBy(kept, setId);
    }
    assert n + |xs| - |xs| == n;
  }

  /** Deleting items keeps every remaining one naming a stored set. */
  lemma FewerKeepNoOrphans(sets: seq<MenuSetRow>, items0: map<int, ItemRow>, kept: map<int, ItemRow>)
    requires NoOrphans(sets, items0)
    requires forall k :: k in kept ==> k in items0 && kept[k] == items0[k]
    ensures NoOrphans(sets, kept)
  {
    forall k | k in kept
      ensures exists i :: 0 <= i < |sets| && Get(kept[k].fields, "MenuSetID") == Int(sets[i].id)
    {
      var i :| 0 <= i < |sets| && Get(items0[k].fields, "MenuSetID") == Int(sets[i].id);
    }
  }

  /** New items owned by a stored set keep every item naming a stored set. */
  lemma KeepsNoOrphans(sets: seq<MenuSetRow>, kept: map<int, ItemRow>, items: map<int, ItemRow>, t: MenuSetRow, n: int, len: int)
    requires NoOrphans(sets, kept)
    requires t in sets
    requires forall k :: k in items <==> k in kept || n <= k < n + len
    requires forall k :: k in kept ==> items[k] == kept[k]
    requires forall k :: k in OwnedBy(items, t.id) <==> n <= k < n + len
    ensures NoOrphans(sets, items)
  {
    forall k | k in items
      ensures exists i :: 0 <= i < |sets| && Get(items[k].fields, "MenuSetID") == Int(sets[i].id)
    {
      if k in kept {
        var i :| 0 <= i < |sets| && Get(kept[k].fields, "MenuSetID") == Int(sets[i].id);
      } else {
        assert k in OwnedBy(items, t.id);
        var i :| 0 <= i < |sets| && sets[i] == t;
      }
    }
  }

  /** `run()`: nothing happens when there are no legacy sets or when any menu
      item exists; otherwise the legacy sets are migrated in read order, and a
      failed write of a new target set ends the run. */
  method Run(store: EntityStore, site: Site, legacy: Legacy, locales: Option<seq<string>>) returns (outcome: RunOutcome)
    requires store.Valid()
    modifies store
    ensures store.Valid()
    ensures outcome == NothingToMigrate <==> legacy.sets == []
    ensures outcome == AlreadyMigrated <==> legacy.sets != [] && old(store.items) != map[]
    ensures outcome.NothingToMigrate? || outcome.AlreadyMigrated? ==>
      && store.sets == old(store.sets) && store.items == old(store.items)
      && store.nextSetId == old(store.nextSetId) && store.nextItemId == old(store.nextItemId)
    ensures GrownBy(old(store.sets), store.sets, Names(legacy.sets))
    ensures UniqueNames(old(store.sets)) ==> UniqueNames(store.sets)
    ensures outcome.Halted? ==>
      exists i :: 0 <= i < |legacy.sets| && legacy.sets[i].subsiteId.Some? && outcome.error == DuplicateName(legacy.sets[i].name)
    ensures outcome.Completed? ==> forall i :: 0 <= i < |legacy.sets| ==> HasTarget(store.sets, legacy.sets[i])
    ensures outcome.Completed? ==> NoOrphans(store.sets, store.items)
    ensures outcome.Completed? ==>
      var final := legacy.sets[|legacy.sets| - 1];
      && FindTarget(store.sets, final).Some?
      && HoldsMigration(store.items, store.nextItemId, final, FindTarget(store.sets, final).value.id,
                        legacy.items, site, locales, legacy.localised)
  {
    if |legacy.sets| == 0 {
      assert store.sets[..|store.sets|] == store.sets;
      return NothingToMigrate;
    }
    if |store.items| > 0 {
      assert store.sets[..|store.sets|] == store.sets;
      return AlreadyMigrated;
    }
    outcome := MigrateAll(store, site, legacy, locales);
  }

  /** The loop of `run()` over the legacy sets, entered with no menu items:
      it completes, or halts on the first failed write of a new target set. */
  method MigrateAll(store: EntityStore, site: Site, legacy: Legacy, locales: Option<seq<string>>) returns (outcome: RunOutcome)
    requires store.Valid() && legacy.sets != [] && store.items == map[]
    modifies store
    ensures store.Valid()
    ensures outcome.Completed? || outcome.Halted?
    ensures GrownBy(old(store.sets), store.sets, Names(legacy.sets))
    ensures UniqueNames(old(store.sets)) ==> UniqueNames(store.sets)
    ensures outcome.Halted? ==>
      exists i :: 0 <= i < |legacy.sets| && legacy.sets[i].subsiteId.Some? && outcome.error == DuplicateName(legacy.sets[i].name)
    ensures outcome.Completed? ==> forall i :: 0 <= i < |legacy.sets| ==> HasTarget(store.sets, legacy.sets[i])
    ensures outcome.Completed? ==> NoOrphans(store.sets, store.items)
    ensures outcome.Completed? ==>
      var final := legacy.sets[|legacy.sets| - 1];
      && FindTarget(store.sets, final).Some?
      && HoldsMigration(store.items, store.nextItemId, final, FindTarget(store.sets, final).value.id,
                        legacy.items, site, locales, legacy.localised)
  {
    var names := Names(legacy.sets);
    ghost var start := store.sets;
    assert GrownBy(start, store.sets, names[..0]) by { assert store.sets[..|start|] == start; }
    var i := 0;
    ghost var prev := -1;
    while i < |legacy.sets|
      invariant 0 <= i <= |legacy.sets| && prev == i - 1
      invariant store.Valid()
      invariant GrownBy(start, store.sets, names[..i])
      invariant forall j :: 0 <= j < i ==> HasTarget(store.sets, legacy.sets[j])
      invariant NoOrphans(store.sets, store.items)
      invariant i > 0 ==>
        && FindTarget(store.sets, legacy.sets[prev]).Some?
        && HoldsMigration(store.items, store.nextItemId, legacy.sets[prev], FindTarget(store.sets, legacy.sets[prev]).value.id,
                          legacy.items, site, locales, legacy.localised)
    {
      var result := MigrateLegacySet(store, site, legacy, locales, i, start);
      if result.Err? {
        if UniqueNames(start) {
          GrowthKeepsUnique(start, store.sets, names);
        }
        return Halted(result.error);
      }
      prev := i;
      i := i + 1;
    }
    assert names[..i] == names;
    if UniqueNames(start) {
      GrowthKeepsUnique(start, store.sets, names);
    }
    LastSetMigrated(store.items, store.nextItemId, store.sets, legacy, prev, site, locales);
    return Completed;
  }

  /** The run's last legacy set is the one its loop migrated last. */
  lemma LastSetMigrated(items: map<int, ItemRow>, next: int, sets: seq<MenuSetRow>, legacy: Legacy, prev: int,
                        site: Site, locales: Option<seq<string>>)
    requires prev == |legacy.sets| - 1 && prev >= 0
    requires FindTarget(sets, legacy.sets[prev]).Some?
    requires HoldsMigration(items, next, legacy.sets[prev], FindTarget(sets, legacy.sets[prev]).value.id,
                            legacy.items, site, locales, legacy.localised)
    ensures var final := legacy.sets[|legacy.sets| - 1];
      && FindTarget(sets, final).Some?
      && HoldsMigration(items, next, final, FindTarget(sets, final).value.id,
                        legacy.items, site, locales, legacy.localised)
  {
  }

  /** The `i`-th legacy set of a run, after the sets before it, which have
      grown the stored sets from `start` by their names. */
  method MigrateLegacySet(store: EntityStore, site: Site, legacy: Legacy, locales: Option<seq<string>>, i: int,
                          ghost start: seq<MenuSetRow>) returns (result: Result<int>)
    requires store.Valid() && 0 <= i < |legacy.sets|
    requires GrownBy(start, store.sets, Names(legacy.sets)[..i])
    requires forall j :: 0 <= j < i ==> HasTarget(store.sets, legacy.sets[j])
    requires NoOrphans(store.sets, store.items)
    modifies store
    ensures store.Valid()
    ensures NoOrphans(store.sets, store.items)
    ensures result.Err? ==>
      && legacy.sets[i].subsiteId.Some? && result.error == DuplicateName(legacy.sets[i].name)
      && GrownBy(start, store.sets, Names(legacy.sets))
    ensures result.Ok? ==>
      && GrownBy(start, store.sets, Names(legacy.sets)[..i + 1])
      && (forall j :: 0 <= j < i + 1 ==> HasTarget(store.sets, legacy.sets[j]))
      && FindTarget(store.sets, legacy.sets[i]).Some?
      && HoldsMigration(store.items, store.nextItemId, legacy.sets[i], FindTarget(store.sets, legacy.sets[i]).value.id,
                        legacy.items, site, locales, legacy.localised)
  {
    var names := Names(legacy.sets);
    ghost var before := store.sets;
    result := MigrateSet(store, site, legacy.sets[i], legacy.items, locales, legacy.localised);
    if result.Err? {
      GrowthWidens(start, store.sets, names[..i], names[i..]);
      assert names[..i] + names[i..] == names;
      return;
    }
    StepGrowth(start, before, store.sets, names, i);
    forall j | 0 <= j < i
      ensures HasTarget(store.sets, legacy.sets[j])
    {
      TargetSurvivesGrowth(before, store.sets, legacy.sets[j]);
    }
    assert HasTarget(store.sets, legacy.sets[i]) by {
      var t := FindTarget(store.sets, legacy.sets[i]).value;
    }
  }

  /** A legacy set with item rows leaves an item behind. */
  lemma MigrationLeavesItems(items: map<int, ItemRow>, next: int, legacy: LegacySet, t: int, rows: seq<Record>,
                             site: Site, locales: Option<seq<string>>, localised: seq<Record>)
    requires HoldsMigration(items, next, legacy, t, rows, site, locales, localised)
    requires |ItemsOf(rows, legacy.id)| > 0
    ensures next - 1 in items && items != map[]
  {
    HoldsMigrationOwns(items, next, legacy, t, rows, site, locales, localised);
    OwnedLast(items, t, next, MigratedAll(ItemsOf(rows, legacy.id), t, site, locales, localised));
  }

  /** A set owning a non-empty run of ids ending below `next` owns `next - 1`. */
  lemma OwnedLast(items: map<int, ItemRow>, t: int, next: int, xs: seq<ItemRow>)
    requires OwnsExactly(items, t, next, xs) && |xs| > 0
    ensures next - 1 in items
  {
    PlacedLast(items, next - |xs|, xs);
  }

  /** The last of the placed entries is there. */
  lemma PlacedLast<T>(items: map<int, T>, first: int, xs: seq<T>)
    requires Placed(items, first, xs) && |xs| > 0
    ensures first + |xs| - 1 in items
  {
    var j := |xs| - 1;
    assert first + j in items && items[first + j] == xs[j];
  }

  /** Two runs in a row. `betweenSets` and `between` are the set and item
      tables as the first run leaves them. The second run stops at the
      already-migrated guard exactly when the first left an item, and then
      writes nothing; a completed first run whose last legacy set has item
      rows always leaves one. */
  method RunTwice(store: EntityStore, site: Site, legacy: Legacy, locales: Option<seq<string>>)
    returns (first: RunOutcome, second: RunOutcome, ghost betweenSets: seq<MenuSetRow>, ghost between: map<int, ItemRow>)
    requires store.Valid()
    modifies store
    ensures store.Valid()
    ensures first.NothingToMigrate? || first.AlreadyMigrated? ==>
      betweenSets == old(store.sets) && between == old(store.items)
    ensures first.Completed? ==>
      && NoOrphans(betweenSets, between)
      && forall i :: 0 <= i < |legacy.sets| ==> HasTarget(betweenSets, legacy.sets[i])
    ensures legacy.sets != [] ==> (second == AlreadyMigrated <==> between != map[])
    ensures second.NothingToMigrate? || second.AlreadyMigrated? ==> store.sets == betweenSets && store.items == between
    ensures first.Completed? && legacy.sets != [] && |ItemsOf(legacy.items, legacy.sets[|legacy.sets| - 1].id)| > 0 ==>
      between != map[] && second == AlreadyMigrated
    ensures second.AlreadyMigrated? ==> first != NothingToMigrate
  {
    first := Run(store, site, legacy, locales);
    betweenSets, between := store.sets, store.items;
    if first.Completed? && legacy.sets != [] && |ItemsOf(legacy.items, legacy.sets[|legacy.sets| - 1].id)| > 0 {
      var final := legacy.sets[|legacy.sets| - 1];
      MigrationLeavesItems(store.items, store.nextItemId, final, FindTarget(store.sets, final).value.id,
                           legacy.items, site, locales, legacy.localised);
    }
    second := Run(store, site, legacy, locales);
  }

  /** One set's growth, by its own name, extends the run's growth. */
  lemma StepGrowth(start: seq<MenuSetRow>, before: seq<MenuSetRow>, after: seq<MenuSetRow>, names: seq<string>, i: int)
    requires 0 <= i < |names|
    requires GrownBy(start, before, names[..i])
    requires GrownBy(before, after, [names[i]])
    ensures GrownBy(start, after, names[..i + 1])
  {
    assert names[..i + 1] == names[..i] + [names[i]];
    assert after[..|before|][..|start|] == after[..|start|];
    forall k | |start| <= k < |after|
      ensures after[k].name in names[..i + 1] && !HasName(start, after[k].name)
    {
      if k < |before| {
        assert after[k] == before[k];
      } else {
        forall j | 0 <= j < |start|
          ensures start[j].name != after[k].name
        {
          assert before[j] == start[j];
        }
      }
    }
    forall k, l | |start| <= k < l < |after|
      ensures after[k].name != after[l].name
    {
      if l < |before| {
        assert after[k] == before[k] && after[l] == before[l];
      } else if k < |before| {
        assert after[k] == before[k];
      }
    }
  }

  /** A set matching a legacy set stays when sets are appended. */
  lemma TargetSurvivesGrowth(before: seq<MenuSetRow>, after: seq<MenuSetRow>, legacy: LegacySet)
    requires |before| <= |after| && after[..|before|] == before
    requires HasTarget(before, legacy)
    ensures HasTarget(after, legacy)
  {
    var k :| 0 <= k < |before| && Matches(before[k], legacy);
    assert after[k] == before[k];
  }
}
