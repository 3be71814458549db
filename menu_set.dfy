/** A menu set (src/MenuSet.php): name lookup and uniqueness validation, the
    configured default sets, permissions with the protection of default sets,
    bootstrapping of the default sets, and deletion item by item. */
module MenuSets {
  import opened Values
  import opened Permissions
  import opened Store
  import MenuItems

  /** Some stored set carries `name`. */
  ghost predicate HasName(sets: seq<MenuSetRow>, name: string) {
    exists i :: 0 <= i < |sets| && sets[i].name == name
  }

  /** No two stored sets share a name. */
  ghost predicate UniqueNames(sets: seq<MenuSetRow>) {
    forall i, j :: 0 <= i < j < |sets| ==> sets[i].name != sets[j].name
  }

  /** No two stored sets share an id. */
  ghost predicate DistinctIds(sets: seq<MenuSetRow>) {
    forall i, j :: 0 <= i < j < |sets| ==> sets[i].id != sets[j].id
  }

  /** The position of the first set named `name`, or `|sets|` when there is none. */
  function FirstIndex(sets: seq<MenuSetRow>, name: string): (k: nat)
    ensures k <= |sets|
    ensures forall j :: 0 <= j < k ==> sets[j].name != name
    ensures k < |sets| ==> sets[k].name == name
  {
    if sets == [] then 0
    else if sets[0].name == name then 0
    else 1 + FirstIndex(sets[1..], name)
  }

  /** `MenuManagerTemplateProvider::MenuSet($name)`: the first set with that
      name in listing order, if any. */
  function Lookup(sets: seq<MenuSetRow>, name: string): Option<MenuSetRow> {
    var k := FirstIndex(sets, name);
    if k < |sets| then Some(sets[k]) else None
  }

  datatype ValidationResult = Passed | Failed(error: Error)

  /** `validate()` of a set with id `id` and name `name`: a duplicate-name
      error when the set the name looks up is a different one. */
  function Validate(sets: seq<MenuSetRow>, id: int, name: string): ValidationResult {
    match Lookup(sets, name)
    case Some(existing) => if existing.id != id then Failed(DuplicateName(name)) else Passed
    case None => Passed
  }

  /** `getDefaultSetNames()`: the configured list, an unset or empty one read as empty. */
  function DefaultSetNames(config: Option<seq<string>>): seq<string> {
    if config.Some? && config.value != [] then config.value else []
  }

  /** `isDefaultSet()`. */
  predicate IsDefaultSet(name: string, config: Option<seq<string>>) {
    name in DefaultSetNames(config)
  }

  /** `canCreate`: the extension's verdict, else MANAGE_MENU_SETS. */
  function CanCreate(extended: Option<bool>, member: Caps): bool {
    Decide(extended, member.manageMenuSets)
  }

  /** `canEdit`: the extension's verdict, else either capability. */
  function CanEdit(extended: Option<bool>, member: Caps): bool {
    Decide(extended, member.manageMenuSets || member.manageMenuItems)
  }

  /** `canView`: the extension's verdict, else either capability. */
  function CanView(extended: Option<bool>, member: Caps): bool {
    Decide(extended, member.manageMenuSets || member.manageMenuItems)
  }

  /** `canDelete` of the set with id `id` and name `name`: never for a
      default set unless its name looks up a different set; otherwise the
      extension's verdict, else MANAGE_MENU_SETS. */
  function CanDelete(sets: seq<MenuSetRow>, id: int, name: string, config: Option<seq<string>>,
                     extended: Option<bool>, member: Caps): bool
  {
    var existing := Lookup(sets, name);
    var isDuplicate := existing.Some? && existing.value.id != id;
    if IsDefaultSet(name, config) && !isDuplicate then false
    else Decide(extended, member.manageMenuSets)
  }

  // ---------------------------------------------------------------------------
  // Lookup and validation

  /** The lookup finds a set exactly when some set has the name, and what it
      finds is a stored set of that name. */
  lemma LookupFinds(sets: seq<MenuSetRow>, name: string)
    ensures Lookup(sets, name).Some? <==> HasName(sets, name)
    ensures Lookup(sets, name).Some? ==> Lookup(sets, name).value.name == name
    ensures Lookup(sets, name).Some? ==> exists i :: 0 <= i < |sets| && sets[i] == Lookup(sets, name).value
  {
    var k := FirstIndex(sets, name);
    if HasName(sets, name) {
      var i :| 0 <= i < |sets| && sets[i].name == name;
      assert k <= i;
    }
  }

  /** Appending a set does not change what an already held name looks up, and
      a name held by no earlier set looks up the appended one. */
  lemma LookupAfterAppend(sets: seq<MenuSetRow>, s: MenuSetRow, name: string)
    ensures HasName(sets, name) ==> Lookup(sets + [s], name) == Lookup(sets, name)
    ensures !HasName(sets, name) && s.name == name ==> Lookup(sets + [s], name) == Some(s)
    ensures !HasName(sets, name) && s.name != name ==> Lookup(sets + [s], name) == None
  {
    LookupFinds(sets, name);
    assert forall j :: 0 <= j < |sets| ==> (sets + [s])[j] == sets[j];
    assert (sets + [s])[|sets|] == s;
  }

  /** Holding a name survives appending a set, and the appended set's name is held. */
  lemma HasNameAfterAppend(sets: seq<MenuSetRow>, s: MenuSetRow, name: string)
    ensures HasName(sets + [s], name) <==> HasName(sets, name) || s.name == name
  {
    if HasName(sets, name) {
      var i :| 0 <= i < |sets| && sets[i].name == name;
      assert (sets + [s])[i] == sets[i];
    }
    if s.name == name {
      assert (sets + [s])[|sets|] == s;
    }
    if HasName(sets + [s], name) && s.name != name {
      var i :| 0 <= i < |sets + [s]| && (sets + [s])[i].name == name;
      assert i < |sets| && sets[i] == (sets + [s])[i];
    }
  }

  /** Validation fails only when another stored set carries the name. */
  lemma ValidateFailsOnlyOnDuplicate(sets: seq<MenuSetRow>, id: int, name: string)
    ensures Validate(sets, id, name).Failed? ==>
      exists i :: 0 <= i < |sets| && sets[i].name == name && sets[i].id != id
  {
    LookupFinds(sets, name);
  }

  /** When names are unique, validation fails exactly when another stored set
      carries the name. */
  lemma ValidateIffDuplicate(sets: seq<MenuSetRow>, id: int, name: string)
    requires UniqueNames(sets)
    ensures Validate(sets, id, name).Failed? <==>
      exists i :: 0 <= i < |sets| && sets[i].name == name && sets[i].id != id
  {
    LookupFinds(sets, name);
    if i :| 0 <= i < |sets| && sets[i].name == name && sets[i].id != id {
      assert FirstIndex(sets, name) == i;
    }
  }

  /** Re-validating a stored set that is the first of its name never fails;
      with unique names that is every stored set. */
  lemma RevalidationPasses(sets: seq<MenuSetRow>, i: int)
    requires 0 <= i < |sets|
    requires UniqueNames(sets) || FirstIndex(sets, sets[i].name) == i
    ensures Validate(sets, sets[i].id, sets[i].name) == Passed
  {
    var k := FirstIndex(sets, sets[i].name);
    assert k == i by {
      if k < i { assert sets[k].name == sets[i].name; }
    }
  }

  /** A later set sharing an earlier set's name fails validation against the
      store, so such a duplicate can no longer be saved. */
  lemma DuplicateFailsValidation(sets: seq<MenuSetRow>, i: int, j: int)
    requires 0 <= i < j < |sets| && sets[i].name == sets[j].name
    requires DistinctIds(sets)
    ensures Validate(sets, sets[j].id, sets[j].name).Failed?
  {
    var k := FirstIndex(sets, sets[j].name);
    assert k <= i;
  }

  /** A new set (id 0) fails validation exactly when its name is taken. */
  lemma NewSetValidation(sets: seq<MenuSetRow>, name: string)
    requires forall i :: 0 <= i < |sets| ==> sets[i].id > 0
    ensures Validate(sets, 0, name).Failed? <==> HasName(sets, name)
  {
    LookupFinds(sets, name);
  }

  // ---------------------------------------------------------------------------
  // Defaults and permissions

  /** An unset or empty default list makes no set a default set. */
  lemma UnsetListHasNoDefaults(name: string, config: Option<seq<string>>)
    requires config.None? || config == Some([])
    ensures !IsDefaultSet(name, config)
  {
  }

  /** A default set that is the only holder of its name cannot be deleted,
      whatever an extension says and whatever the member may do. */
  lemma DefaultSetProtected(sets: seq<MenuSetRow>, id: int, name: string, config: Option<seq<string>>,
                            extended: Option<bool>, member: Caps)
    requires IsDefaultSet(name, config)
    requires forall i :: 0 <= i < |sets| && sets[i].name == name ==> sets[i].id == id
    ensures !CanDelete(sets, id, name, config, extended, member)
  {
    LookupFinds(sets, name);
  }

  /** The protection goes by the first holder of a name: a default set that
      the lookup finds as itself cannot be deleted, even when a later stored
      set shares its name. */
  lemma FirstHolderProtected(sets: seq<MenuSetRow>, i: int, config: Option<seq<string>>,
                             extended: Option<bool>, member: Caps)
    requires 0 <= i < |sets| && FirstIndex(sets, sets[i].name) == i
    requires IsDefaultSet(sets[i].name, config)
    ensures !CanDelete(sets, sets[i].id, sets[i].name, config, extended, member)
  {
  }

  /** A set whose name is not a default is deleted on the usual check. */
  lemma OrdinarySetDeletion(sets: seq<MenuSetRow>, id: int, name: string, config: Option<seq<string>>,
                            extended: Option<bool>, member: Caps)
    requires !IsDefaultSet(name, config)
    ensures CanDelete(sets, id, name, config, extended, member) == Decide(extended, member.manageMenuSets)
  {
  }

  /** A later duplicate of a default set is deleted on the usual check. */
  lemma DuplicateDefaultDeletable(sets: seq<MenuSetRow>, i: int, j: int, config: Option<seq<string>>,
                                  extended: Option<bool>, member: Caps)
    requires 0 <= i < j < |sets| && sets[i].name == sets[j].name
    requires DistinctIds(sets)
    ensures CanDelete(sets, sets[j].id, sets[j].name, config, extended, member) == Decide(extended, member.manageMenuSets)
  {
    var k := FirstIndex(sets, sets[j].name);
    assert k <= i;
  }

  /** Deleting a stored default set that may be deleted leaves its name held
      by another stored set: no configured name is ever left without a set. */
  lemma DeletionKeepsDefaultHeld(sets: seq<MenuSetRow>, i: int, config: Option<seq<string>>,
                                 extended: Option<bool>, member: Caps)
    requires 0 <= i < |sets|
    requires IsDefaultSet(sets[i].name, config)
    requires CanDelete(sets, sets[i].id, sets[i].name, config, extended, member)
    ensures HasName(Without(sets, sets[i].id), sets[i].name)
  {
    LookupFinds(sets, sets[i].name);
    var other := Lookup(sets, sets[i].name).value;
    assert other in Without(sets, sets[i].id);
    var rest := Without(sets, sets[i].id);
    var j :| 0 <= j < |rest| && rest[j] == other;
  }

  /** Without an extension's verdict: creating a set needs MANAGE_MENU_SETS,
      editing and viewing need either capability, so whoever may create sets
      or manage items may edit and view sets. */
  lemma SetPermissions(member: Caps)
    ensures CanCreate(None, member) == member.manageMenuSets
    ensures CanEdit(None, member) == CanView(None, member) == (member.manageMenuSets || member.manageMenuItems)
    ensures CanCreate(None, member) ==> CanEdit(None, member)
    ensures MenuItems.CanEdit(None, member) ==> CanEdit(None, member) && CanView(None, member)
  {
  }

  // ---------------------------------------------------------------------------
  // Writing, bootstrapping and deleting sets

  /** `MenuSet::create()`, setting its name (and tenant), then `write()`:
      validation rejects a name that is already taken, otherwise the set is
      inserted. */
  method WriteNewSet(store: EntityStore, name: string, subsiteId: int) returns (r: Result<int>)
    requires store.Valid()
    modifies store
    ensures store.Valid()
    ensures r.Err? <==> HasName(old(store.sets), name)
    ensures r.Err? ==> r.error == DuplicateName(name) && store.sets == old(store.sets) && store.nextSetId == old(store.nextSetId)
    ensures r.Ok? ==>
      && r.value == old(store.nextSetId)
      && store.nextSetId == r.value + 1
      && store.sets == old(store.sets) + [MenuSetRow(r.value, name, Null, 0, subsiteId)]
    ensures store.items == old(store.items) && store.nextItemId == old(store.nextItemId)
    ensures UniqueNames(old(store.sets)) ==> UniqueNames(store.sets)
  {
    NewSetValidation(store.sets, name);
    var verdict := Validate(store.sets, 0, name);
    if verdict.Failed? {
      return Err(verdict.error);
    }
    var id := store.InsertSet(name, Null, 0, subsiteId);
    r := Ok(id);
    forall j | 0 <= j < |old(store.sets)|
      ensures store.sets[j].name != name
    {
      assert store.sets[j] == old(store.sets)[j];
    }
  }

  /** `now` is `start` with sets appended, each named by some entry of
      `names`, held by no set of `start`, and no two of them alike. */
  ghost predicate GrownBy(start: seq<MenuSetRow>, now: seq<MenuSetRow>, names: seq<string>) {
    && |start| <= |now| && now[..|start|] == start
    && (forall k :: |start| <= k < |now| ==> now[k].name in names && !HasName(start, now[k].name))
    && (forall k, l :: |start| <= k < l < |now| ==> now[k].name != now[l].name)
  }

  /** Appending a set under a name not yet held extends the growth by that name. */
  lemma GrowthStep(start: seq<MenuSetRow>, now: seq<MenuSetRow>, names: seq<string>, s: MenuSetRow)
    requires GrownBy(start, now, names)
    requires !HasName(now, s.name)
    ensures GrownBy(start, now + [s], names + [s.name])
  {
    var now' := now + [s];
    assert now'[..|start|] == start by { assert now'[..|now|] == now; }
    forall k | |start| <= k < |now'|
      ensures now'[k].name in names + [s.name] && !HasName(start, now'[k].name)
    {
      if k == |now| {
        forall j | 0 <= j < |start|
          ensures start[j].name != s.name
        {
          assert now[j] == start[j];
        }
      }
    }
    forall k, l | |start| <= k < l < |now'|
      ensures now'[k].name != now'[l].name
    {
      if l == |now| { assert now'[k] == now[k]; }
    }
  }

  /** Growth by a prefix of a list is growth by the longer list. */
  lemma GrowthWidens(start: seq<MenuSetRow>, now: seq<MenuSetRow>, names: seq<string>, more: seq<string>)
    requires GrownBy(start, now, names)
    ensures GrownBy(start, now, names + more)
  {
  }

  /** Growth keeps names unique. */
  lemma GrowthKeepsUnique(start: seq<MenuSetRow>, now: seq<MenuSetRow>, names: seq<string>)
    requires GrownBy(start, now, names) && UniqueNames(start)
    ensures UniqueNames(now)
  {
    forall i, j | 0 <= i < j < |now|
      ensures now[i].name != now[j].name
    {
      if j < |start| {
        assert now[i] == start[i] && now[j] == start[j];
      } else if i < |start| {
        assert now[i] == start[i];
      }
    }
  }

  /** Growth by names all held at the start adds no set. */
  lemma GrowthByHeldNames(start: seq<MenuSetRow>, now: seq<MenuSetRow>, names: seq<string>)
    requires GrownBy(start, now, names)
    requires forall i :: 0 <= i < |names| ==> HasName(start, names[i])
    ensures now == start
  {
    if |now| > |start| {
      GrownName(start, now, names, |start|);
      assert false;
    }
    assert now == now[..|start|];
  }

  /** Each set added by growth carries one of the names and a name not held at the start. */
  lemma GrownName(start: seq<MenuSetRow>, now: seq<MenuSetRow>, names: seq<string>, k: int)
    requires GrownBy(start, now, names) && |start| <= k < |now|
    ensures now[k].name in names && !HasName(start, now[k].name)
  {
  }

  /** Growth adds at most one set per name: a run over `names` creates no
      more than `|names|` sets. */
  lemma GrowthBound(start: seq<MenuSetRow>, now: seq<MenuSetRow>, names: seq<string>)
    requires GrownBy(start, now, names)
    ensures |now| <= |start| + |names|
  {
    var added := seq(|now| - |start|, i requires 0 <= i < |now| - |start| => now[|start| + i].name);
    forall i, j | 0 <= i < j < |added|
      ensures added[i] != added[j]
    {
      assert added[i] == now[|start| + i].name && added[j] == now[|start| + j].name;
    }
    forall i | 0 <= i < |added|
      ensures added[i] in names
    {
      assert added[i] == now[|start| + i].name;
    }
    DistinctBound(added, names);
  }

  /** Distinct strings drawn from `names` are no more than `names`. */
  lemma DistinctBound(xs: seq<string>, names: seq<string>)
    requires forall i, j :: 0 <= i < j < |xs| ==> xs[i] != xs[j]
    requires forall i :: 0 <= i < |xs| ==> xs[i] in names
    ensures |xs| <= |names|
  {
    DistinctCard(xs);
    ElementsCard(names);
    SubsetCard(set x | x in xs, set x | x in names);
  }

  /** A sequence without repetitions has as many elements as entries. */
  lemma {:induction false} DistinctCard(xs: seq<string>)
    requires forall i, j :: 0 <= i < j < |xs| ==> xs[i] != xs[j]
    ensures |set x | x in xs| == |xs|
  {
    if xs != [] {
      var init := xs[..|xs| - 1];
      DistinctCard(init);
      assert (set x | x in xs) == (set x | x in init) + {xs[|xs| - 1]};
      assert xs[|xs| - 1] !in init;
    }
  }

  /** A sequence has at most as many elements as entries. */
  lemma {:induction false} ElementsCard(xs: seq<string>)
    ensures |set x | x in xs| <= |xs|
  {
    if xs != [] {
      var init := xs[..|xs| - 1];
      ElementsCard(init);
      assert (set x | x in xs) == (set x | x in init) + {xs[|xs| - 1]};
    }
  }

  /** A subset is no larger than its superset. */
  lemma {:induction false} SubsetCard(a: set<string>, b: set<string>)
    requires a <= b
    ensures |a| <= |b|
    decreases |a|
  {
    if a != {} {
      assert exists y :: y in a by {
        if forall y :: y !in a {
          assert false;
        }
      }
      var x :| x in a;
      SubsetCard(a - {x}, b - {x});
    }
  }

  /** One step of `createDefaultMenuSets()`: the set named `name` is created
      when no set holds that name yet. Growth of the store since `start` by
      the names `done` so far extends by `name`. */
  method EnsureSet(store: EntityStore, name: string, ghost start: seq<MenuSetRow>, ghost done: seq<string>)
    requires store.Valid()
    requires GrownBy(start, store.sets, done)
    modifies store
    ensures store.Valid()
    ensures HasName(old(store.sets), name) ==> store.sets == old(store.sets)
    ensures !HasName(old(store.sets), name) ==>
      store.sets == old(store.sets) + [MenuSetRow(old(store.nextSetId), name, Null, 0, 0)]
    ensures HasName(store.sets, name)
    ensures forall n :: HasName(old(store.sets), n) ==> HasName(store.sets, n)
    ensures GrownBy(start, store.sets, done + [name])
    ensures store.items == old(store.items) && store.nextItemId == old(store.nextItemId)
  {
    LookupFinds(store.sets, name);
    if Lookup(store.sets, name).None? {
      GrowthStep(start, store.sets, done, MenuSetRow(store.nextSetId, name, Null, 0, 0));
      var written := WriteNewSet(store, name, 0);
      var s := MenuSetRow(written.value, name, Null, 0, 0);
      forall n | true
        ensures HasName(store.sets, n) <==> HasName(old(store.sets), n) || s.name == n
      {
        HasNameAfterAppend(old(store.sets), s, n);
      }
    } else {
      GrowthWidens(start, store.sets, done, [name]);
    }
  }

  /** The loop of `createDefaultMenuSets()` over the names `names`. */
  method EnsureSets(store: EntityStore, names: seq<string>)
    requires store.Valid()
    modifies store
    ensures store.Valid()
    ensures forall j :: 0 <= j < |names| ==> HasName(store.sets, names[j])
    ensures GrownBy(old(store.sets), store.sets, names)
    ensures (forall n :: n in names ==> HasName(old(store.sets), n)) ==> store.sets == old(store.sets)
    ensures store.items == old(store.items) && store.nextItemId == old(store.nextItemId)
  {
    ghost var start := store.sets;
    var i := 0;
    assert GrownBy(start, store.sets, names[..0]) by { assert store.sets[..|start|] == start; }
    while i < |names|
      invariant 0 <= i <= |names|
      invariant store.Valid()
      invariant GrownBy(start, store.sets, names[..i])
      invariant forall j :: 0 <= j < i ==> HasName(store.sets, names[j])
      invariant (forall n :: n in names ==> HasName(start, n)) ==> store.sets == start
      invariant store.items == old(store.items) && store.nextItemId == old(store.nextItemId)
    {
      assert names[..i + 1] == names[..i] + [names[i]];
      EnsureSet(store, names[i], start, names[..i]);
      i := i + 1;
    }
    assert names[..i] == names;
  }

  /** `createDefaultMenuSets()`: every configured name without a set gets
      one, in list order; the result is whether the configured list is non-empty. */
  method CreateDefaultMenuSets(store: EntityStore, config: Option<seq<string>>) returns (created: bool)
    requires store.Valid()
    modifies store
    ensures store.Valid()
    ensures created == (DefaultSetNames(config) != [])
    ensures forall n :: n in DefaultSetNames(config) ==> HasName(store.sets, n)
    ensures GrownBy(old(store.sets), store.sets, DefaultSetNames(config))
    ensures (forall n :: n in DefaultSetNames(config) ==> HasName(old(store.sets), n)) ==> store.sets == old(store.sets)
    ensures UniqueNames(old(store.sets)) ==> UniqueNames(store.sets)
    ensures store.items == old(store.items) && store.nextItemId == old(store.nextItemId)
  {
    var names := DefaultSetNames(config);
    if names == [] {
      assert GrownBy(old(store.sets), store.sets, names) by { assert store.sets[..|store.sets|] == store.sets; }
      return false;
    }
    EnsureSets(store, names);
    if UniqueNames(old(store.sets)) {
      GrowthKeepsUnique(old(store.sets), store.sets, names);
    }
    return true;
  }

  /** Calling `createDefaultMenuSets()` a second time with the same list
      creates nothing. */
  method CreateDefaultsTwice(store: EntityStore, config: Option<seq<string>>) returns (afterFirst: seq<MenuSetRow>)
    requires store.Valid()
    modifies store
    ensures store.sets == afterFirst
    ensures forall n :: n in DefaultSetNames(config) ==> HasName(store.sets, n)
  {
    var _ := CreateDefaultMenuSets(store, config);
    afterFirst := store.sets;
    var _ := CreateDefaultMenuSets(store, config);
  }

  /** A non-empty set has a member. */
  lemma SomeMember(s: set<int>)
    requires s != {}
    ensures exists k :: k in s
  {
    if forall k :: k !in s {
      assert false;
    }
  }

  /** Deletes, one at a time, every item the set `setId` owns. */
  method DeleteItemsOf(store: EntityStore, setId: int)
    requires store.Valid()
    modifies store
    ensures store.Valid()
    ensures store.items == old(store.items) - OwnedBy(old(store.items), setId)
    ensures OwnedBy(store.items, setId) == {}
    ensures store.sets == old(store.sets)
    ensures store.nextSetId == old(store.nextSetId) && store.nextItemId == old(store.nextItemId)
  {
    var owned := OwnedBy(store.items, setId);
    ghost var all := owned;
    while owned != {}
      invariant store.Valid()
      invariant owned <= all
      invariant store.items == old(store.items) - (all - owned)
      invariant store.sets == old(store.sets)
      invariant store.nextSetId == old(store.nextSetId) && store.nextItemId == old(store.nextItemId)
      decreases owned
    {
      SomeMember(owned);
      var k :| k in owned;
      store.DeleteItem(k);
      owned := owned - {k};
    }
  }

  /** `onBeforeDelete()`: a stored set (non-zero id) deletes each of its items. */
  method OnBeforeDelete(store: EntityStore, setId: int)
    requires store.Valid()
    modifies store
    ensures store.Valid()
    ensures setId != 0 ==> store.items == old(store.items) - OwnedBy(old(store.items), setId)
    ensures setId != 0 ==> OwnedBy(store.items, setId) == {}
    ensures setId == 0 ==> store.items == old(store.items)
    ensures store.sets == old(store.sets)
    ensures store.nextSetId == old(store.nextSetId) && store.nextItemId == old(store.nextItemId)
  {
    if setId != 0 && OwnedBy(store.items, setId) != {} {
      DeleteItemsOf(store, setId);
    } else if setId != 0 {
      assert store.items == old(store.items) - OwnedBy(old(store.items), setId);
    }
  }

  /** `delete()` of a stored set: its items go first, then the set; items of
      other sets stay as they were, and no item is left without its set. */
  method Delete(store: EntityStore, setId: int)
    requires store.Valid()
    requires setId != 0
    modifies store
    ensures store.Valid()
    ensures store.sets == Without(old(store.sets), setId)
    ensures store.items == old(store.items) - OwnedBy(old(store.items), setId)
    ensures OwnedBy(store.items, setId) == {}
    ensures NoOrphans(old(store.sets), old(store.items)) ==> NoOrphans(store.sets, store.items)
  {
    OnBeforeDelete(store, setId);
    ghost var items := store.items;
    store.RemoveSet(setId);
    if NoOrphans(old(store.sets), old(store.items)) {
      forall k | k in store.items
        ensures exists i :: 0 <= i < |store.sets| && Get(store.items[k].fields, "MenuSetID") == Int(store.sets[i].id)
      {
        var i :| 0 <= i < |old(store.sets)| && Get(old(store.items)[k].fields, "MenuSetID") == Int(old(store.sets)[i].id);
        assert old(store.sets)[i].id != setId;
        assert old(store.sets)[i] in store.sets;
        var j :| 0 <= j < |store.sets| && store.sets[j] == old(store.sets)[i];
      }
    }
  }
}
