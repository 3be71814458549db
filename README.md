# Menu manager: a verified model

This project models the core of the SilverStripe menu manager in Dafny. The
core has three parts:

- **Menu items** (`menu_item.dfy`, module `MenuItems`). This covers:
  - where an item links and how that link is memoised;
  - the title an item takes when it is saved with a blank one;
  - how a blank field falls back to the linked page for internal items;
  - the labels of the link types, the URL segment and the linking mode;
  - the four item permissions.
- **Menu sets** (`menu_set.dfy`, module `MenuSets`). This covers:
  - the name lookup and the duplicate-name validation;
  - the configured default sets and the delete protection they get;
  - the set permissions;
  - the bootstrap that creates the default sets (`createDefaultMenuSets`);
  - the cascade that deletes a set's items one at a time (`onBeforeDelete`).
- **The legacy migration task** (`migration.dfy`, module `Migration`). This is
  the move from the old menu tables into the new model:
  - two entry guards;
  - find-or-create of each target set;
  - wiping the target set's items;
  - rewriting each legacy item row into the link-type model;
  - replaying the localisation rows locale by locale.

Supporting modules:

- `values.dfy` (`Values`): dynamic record values and PHP's truthiness and loose comparison.
- `externals.dfy` (`Externals`): pages, files and the slug filter, given as values that hold their answers.
- `permissions.dfy` (`Permissions`): the two capabilities and how an extension's verdict takes precedence.
- `store.dfy` (`Store`): the entity store as a class. It holds the set table in listing order and the item table keyed by auto-increment id.
- `migration_scenarios.dfy` (`MigrationScenarios`): whole runs of the migration task on small stores.

How the model is built:

- An item's fields are a record (`map<string, Value>`).
- A read of `$this->X` inside the item goes through the item's `__get`. The model's `Field` is that rule.
- Pages and files are values. They carry `exists()`, their fields and their link function, and the site maps ids to them.
- The store and the in-memory `MenuItem` are classes. The methods that write, delete and create update them in place.
- Each such method's `ensures` states the new state. For the migration, that is stated through the specification functions `RewriteRow`, `Migrated`, `MigratedAll` and `LocalePass`.

Where the code and its written description differ, the model follows the code:

- **Page menu title.** `onBeforeWrite` tests `$this->MenuTitle` through `__get`. So an internal item whose page answers a truthy `MenuTitle` keeps its own blank title (`PageMenuTitleSuppressesDefault`).
- **Page anchor.** `Link()` reads `$this->Anchor` through `__get` too. So an internal item with a blank anchor of its own takes the anchor its page answers, and links to the page link plus that anchor (`LinkToPage` needs both anchors blank).
- **Validation goes by the first holder of a name.** `validate()` compares the id of the set the name looks up, which is the first set of that name. When two stored sets share a name, the first one passes re-validation (`RevalidationPasses`) although another set holds its name; only the later one fails (`DuplicateFailsValidation`).
- **Delete protection goes by the first holder too.** The first of two default sets with the same name can never be deleted, whatever the extension or the member (`FirstHolderProtected`); the later one is deleted on the usual check (`DuplicateDefaultDeletable`).
- **Return value of `createDefaultMenuSets`.** It returns whether the configured list is non-empty, not whether anything was created.
- **`LinkTypeNice` with a null link type.** The method is declared to return `string`, so a null link type raises a TypeError; the model returns `Err(TypeError)`.
- **Tenant collision in the migration.** A new target set is written through `validate()`. When a legacy set with a `SubsiteID` matches no stored set, but another tenant's set already holds its name, the write fails and the run stops (`Halted`). This rests on the assumption about `MenuManagerTemplateProvider::MenuSet` stated under "Left out": that it finds the first set of the name in every tenant.
- **Two legacy sets with the same name.** Both resolve to the same target. The second wipes the items the first one migrated.

## Model

| member | source | states |
|---|---|---|
| Values.TagIsTruthy | src/MenuItem.php:195 | a value loosely equal to a non-empty link-type tag is truthy |
| Store.Without | src/MenuSet.php:233-244 | removing a set keeps exactly the rows of other ids and no row of the removed id |
| Store.WithoutCounts | src/MenuSet.php:233-244 | every row of another id is kept as often as it occurs; no row of the removed id is left |
| Store.WithoutConcat | src/MenuSet.php:233-244 | removal keeps the listing order: removing from a concatenation removes from each part |
| Store.WithoutAbsent | src/MenuSet.php:233-244 | removing an id no row has leaves the listing unchanged |
| Store.WithoutKeepsDistinct | src/MenuSet.php:233-244 | deleting a set row keeps set ids distinct |
| Store.EntityStore.constructor | src/MenuSet.php:30-45 | an empty store with both id counters at 1 |
| Store.EntityStore.InsertSet | src/MenuSet.php:164-166 | the new row is appended under the next set id; items are untouched |
| Store.EntityStore.RemoveSet | src/MenuSet.php:233-244 | the set table loses exactly the rows of that id; items are untouched |
| Store.EntityStore.InsertItem | src/Tasks/MigrateFromHeydayMenus.php:80-81 | a new item with the given fields and no localised fields, under the next item id |
| Store.EntityStore.PutFields | src/MenuItem.php:225-232 | only the base fields of that one item change |
| Store.EntityStore.PutLocalised | src/Tasks/MigrateFromHeydayMenus.php:98-115 | only that item's fields for that one locale change |
| Store.EntityStore.DeleteItem | src/MenuSet.php:238-240 | exactly that item is removed |
| MenuItems.Field | src/MenuItem.php:280-297 | `__get`; its behaviour is stated by `OwnValueAnswers`, `InternalFallsBackToPage`, `OtherTypesDoNotFallBack` and `LinkTypeAnsweredLocally` |
| MenuItems.ResolveLink | src/MenuItem.php:188-213 | the uncached link; stated case by case by `LinkToPage`, `LinkToPageAnchor`, `LinkToURL`, `LinkToFile`, and as a whole by `NoLinkIffNoDestination` |
| MenuItems.GenerateMenuTitle | src/MenuItem.php:234-246 | the derived title; stated through `WithTitle` by `BlankTitleFromPage`, `BlankTitleFromFile` and `BlankTitleBecomesNull` |
| MenuItems.LinkTypeNice | src/MenuItem.php:266-269 | the shown link type; stated by `BuiltInTypesHaveLabels`, `UnknownTypeShownRaw` and `BlankTypeFails` |
| MenuItems.URLSegment | src/MenuItem.php:307-319 | the URL segment; stated by `URLSegmentByType` |
| MenuItems.LinkingMode | src/MenuItem.php:299-305 | the linking mode; stated by `LinkingModeByType` |
| MenuItems.CanCreate | src/MenuItem.php:79-88 | stated by `ItemPermissions` |
| MenuItems.CanDelete | src/MenuItem.php:90-99 | stated by `ItemPermissions` |
| MenuItems.CanEdit | src/MenuItem.php:101-110 | stated by `ItemPermissions` |
| MenuItems.CanView | src/MenuItem.php:112-121 | stated by `ItemPermissions` |
| MenuItems.WithTitle | src/MenuItem.php:225-246 | saving changes only MenuTitle, may only add that key, and never touches a truthy own title |
| MenuItems.LabelOf | src/MenuItem.php:266-269 | a label is returned exactly when the key is listed, and it is the label listed for it |
| MenuItems.MenuItem.constructor | src/MenuItem.php:43-45 | a new item has id 0, the `$defaults` record (link type internal) and no cached link |
| MenuItems.MenuItem.Update | src/Tasks/MigrateFromHeydayMenus.php:80-81 | every given field overrides the record; the other fields stay |
| MenuItems.MenuItem.Link | src/MenuItem.php:188-213 | a truthy cached link is returned unchanged; otherwise the link resolved from the current fields is returned and cached |
| MenuItems.MenuItem.OnBeforeWrite | src/MenuItem.php:225-232 | the record becomes its titled form (`WithTitle`) |
| MenuItems.MenuItem.Write | src/MenuItem.php:225-232 | runs onBeforeWrite; a new item is inserted under the next id; a stored one rewrites its base fields, or its fields for the active locale |
| MenuItems.MemoisedLink | src/MenuItem.php:190-212 | a truthy first link is returned again after any field or site change; a falsy one is recomputed from the new fields |
| MenuItems.OwnValueAnswers | src/MenuItem.php:282-285 | `ID` and every truthy own value are answered by the item itself |
| MenuItems.InternalFallsBackToPage | src/MenuItem.php:286-295 | a blank own value of an internal item is what the linked page answers |
| MenuItems.OtherTypesDoNotFallBack | src/MenuItem.php:280-297 | a blank own value of a non-internal item is null |
| MenuItems.LinkTypeAnsweredLocally | src/MenuItem.php:280-297 | a tag test on the link type gives the same answer through `__get` as on the raw field |
| MenuItems.LinkToPage | src/MenuItem.php:195-196 | internal with a present page, a blank own anchor and a blank anchor answered by the page links to the page's link exactly |
| MenuItems.LinkToPageAnchor | src/MenuItem.php:197-198 | with an anchor: the page link, `#`, and the anchor with at most one leading `#` removed |
| MenuItems.AnchorHashIsOptional | src/MenuItem.php:197-198 | `foo` and `#foo` give the same link, `link#foo` |
| MenuItems.LinkToURL | src/MenuItem.php:202-203 | external with a truthy URL links to the URL verbatim |
| MenuItems.ExternalLinkIgnoresAnchor | src/MenuItem.php:202-203 | an external item's link does not depend on its anchor, the site or the action |
| MenuItems.LinkToFile | src/MenuItem.php:206-207 | file with a present file links to the file's link |
| MenuItems.NoLinkIffNoDestination | src/MenuItem.php:193-209 | the link is null if and only if no variant has its destination |
| MenuItems.PageMenuTitleSuppressesDefault | src/MenuItem.php:229-231 | a page answering a truthy MenuTitle leaves an internal item's blank title as it is |
| MenuItems.BlankTitleFromPage | src/MenuItem.php:237-238 | otherwise a blank title of an internal item with a present page becomes the page's title |
| MenuItems.BlankTitleFromFile | src/MenuItem.php:240-241 | a blank title of a file item with a present file becomes the file's title |
| MenuItems.BlankTitleBecomesNull | src/MenuItem.php:243-244 | a blank title with nothing to derive it from becomes null |
| MenuItems.WithTitleIdempotent | src/MenuItem.php:225-246 | saving twice gives the same record as saving once |
| MenuItems.SavedInternalItemHasTitle | src/MenuItem.php:220-238 | after a save, an internal item with a titled page has a truthy title |
| MenuItems.SavedFileItemHasTitle | src/MenuItem.php:220-241 | after a save, a file item with a titled file has a truthy title |
| MenuItems.BuiltInTypesHaveLabels | src/MenuItem.php:248-268 | the three built-in link types are shown by their labels |
| MenuItems.UnknownTypeShownRaw | src/MenuItem.php:268 | any other non-blank link type is shown as it is |
| MenuItems.BlankTypeFails | src/MenuItem.php:266-268 | a blank link type fails the declared `string` return type |
| MenuItems.URLSegmentByType | src/MenuItem.php:307-319 | the page's segment, the slug of the file title, or null, including for every external item |
| MenuItems.LinkingModeByType | src/MenuItem.php:299-305 | `'link'` unless internal with a page id; then the page's linking mode |
| MenuItems.ItemPermissions | src/MenuItem.php:79-121 | an extension's verdict decides; without one every item permission is MANAGE_MENU_ITEMS |
| MenuSets.FirstIndex | src/MenuSet.php:60 | the first position holding the name, or the length when there is none |
| MenuSets.Lookup | src/MenuSet.php:60 | the first set of the name; stated by `LookupFinds` and `LookupAfterAppend` through `FirstIndex` |
| MenuSets.Validate | src/MenuSet.php:57-74 | stated by `ValidateFailsOnlyOnDuplicate`, `ValidateIffDuplicate`, `RevalidationPasses`, `DuplicateFailsValidation` and `NewSetValidation` |
| MenuSets.DefaultSetNames | src/MenuSet.php:251-254 | the configured list, an unset or empty one read as empty; stated by `UnsetListHasNoDefaults` |
| MenuSets.IsDefaultSet | src/MenuSet.php:135-138 | membership of the name in the default list; stated by `UnsetListHasNoDefaults` and used by the delete lemmas |
| MenuSets.CanCreate | src/MenuSet.php:76-84 | stated by `SetPermissions` |
| MenuSets.CanEdit | src/MenuSet.php:104-113 | stated by `SetPermissions` |
| MenuSets.CanView | src/MenuSet.php:115-124 | stated by `SetPermissions` |
| MenuSets.CanDelete | src/MenuSet.php:86-102 | stated by `DefaultSetProtected`, `FirstHolderProtected`, `OrdinarySetDeletion`, `DuplicateDefaultDeletable` and `DeletionKeepsDefaultHeld` |
| MenuSets.LookupFinds | src/MenuSet.php:60 | the lookup finds a set if and only if some set has the name; what it finds is a stored set of that name |
| MenuSets.LookupAfterAppend | src/MenuSet.php:163-166 | adding a set does not change what a held name finds; a new name finds the added set |
| MenuSets.HasNameAfterAppend | src/MenuSet.php:163-166 | after adding a set, a name is held if and only if it was held before or is the new set's name |
| MenuSets.ValidateFailsOnlyOnDuplicate | src/MenuSet.php:57-74 | validation fails only when another stored set has the same name |
| MenuSets.ValidateIffDuplicate | src/MenuSet.php:57-74 | with unique names: fails if and only if a set with that name and another id is stored |
| MenuSets.RevalidationPasses | src/MenuSet.php:60-62 | re-validating a stored set against itself passes when names are unique, or when it is the first set of its name |
| MenuSets.DuplicateFailsValidation | src/MenuSet.php:60-62 | a later duplicate of an earlier set's name fails validation |
| MenuSets.NewSetValidation | src/MenuSet.php:60-62 | a new set fails validation if and only if its name is taken |
| MenuSets.UnsetListHasNoDefaults | src/MenuSet.php:251-254 | an unset or empty default list makes no set a default |
| MenuSets.DefaultSetProtected | src/MenuSet.php:88-94 | a default set that alone holds its name cannot be deleted, whatever the extension or the member |
| MenuSets.FirstHolderProtected | src/MenuSet.php:88-94 | a default set that is the first holder of its name cannot be deleted, even when a later set shares the name |
| MenuSets.OrdinarySetDeletion | src/MenuSet.php:92-101 | a non-default set is deleted on the extension's verdict, else MANAGE_MENU_SETS |
| MenuSets.DuplicateDefaultDeletable | src/MenuSet.php:88-101 | a later duplicate of a default set is deleted on the usual check |
| MenuSets.DeletionKeepsDefaultHeld | src/MenuSet.php:86-102 | deleting a deletable default set leaves its name held by another set |
| MenuSets.SetPermissions | src/MenuSet.php:76-124 | create needs MANAGE_MENU_SETS; edit and view need either capability |
| MenuSets.WriteNewSet | src/MenuSet.php:164-166 | rejected with a duplicate-name error if and only if the name is taken; otherwise appended; unique names stay unique |
| MenuSets.GrowthStep | src/MenuSet.php:158-167 | adding a set under a name not yet held extends the growth by that name |
| MenuSets.GrowthWidens | src/MenuSet.php:158-167 | growth by a list is growth by any extension of that list |
| MenuSets.GrowthKeepsUnique | src/MenuSet.php:158-167 | growth keeps set names unique |
| MenuSets.GrowthByHeldNames | src/MenuSet.php:159-167 | growth by names that were all held already adds no set |
| MenuSets.GrownName | src/MenuSet.php:159-167 | each added set carries a listed name that was not held before |
| MenuSets.GrowthBound | src/MenuSet.php:158-167 | growth adds at most one set per listed name |
| MenuSets.EnsureSet | src/MenuSet.php:159-167 | a set is created for the name exactly when none holds it; afterwards it is held and every held name stays held |
| MenuSets.EnsureSets | src/MenuSet.php:158-168 | every listed name is held afterwards; only sets for names not held before are added; nothing is added when all were held |
| MenuSets.CreateDefaultMenuSets | src/MenuSet.php:155-172 | returns whether the list is non-empty; every configured name is held afterwards; existing sets are kept; unique names stay unique |
| MenuSets.CreateDefaultsTwice | src/MenuSet.php:155-172 | a second call with the same list creates nothing |
| MenuSets.DeleteItemsOf | src/MenuSet.php:238-240 | exactly the set's items are removed, one by one; other items are untouched |
| MenuSets.OnBeforeDelete | src/MenuSet.php:233-244 | a stored set loses all its items and nothing else; an unsaved set deletes nothing |
| MenuSets.Delete | src/MenuSet.php:42 | its items go, then the set; other sets and items stay; no item is left without its set |
| Migration.FindTarget | src/Tasks/MigrateFromHeydayMenus.php:31-38 | a stored set matching `{Name[, SubsiteID]}`; none exactly when no stored set matches |
| Migration.FindTargetFirst | src/Tasks/MigrateFromHeydayMenus.php:38 | the set found is the first match in listing order: every stored set before it fails the filter |
| Migration.ItemsOf | src/Tasks/MigrateFromHeydayMenus.php:52-55 | every row of that legacy set, as often as it occurs, and no other row |
| Migration.FindLocalisation | src/Tasks/MigrateFromHeydayMenus.php:99-108 | a localisation row for that record and locale; none exactly when there is no such row |
| Migration.FindLocalisationFirst | src/Tasks/MigrateFromHeydayMenus.php:106-108 | the row found is the first in read order: every row before it is for another record or locale |
| Migration.MigratedAll | src/Tasks/MigrateFromHeydayMenus.php:58-81 | one migrated item per legacy row |
| Migration.HoldsMigrationOwns | src/Tasks/MigrateFromHeydayMenus.php:52-81 | after a set's migration, the target owns exactly the ids just below the counter, which hold the migrated rows in order |
| Migration.LocalePassSnoc | src/Tasks/MigrateFromHeydayMenus.php:88-119 | one more locale applies its localisation row, if any, on top of the earlier ones |
| Migration.DeriveLinkType | src/Tasks/MigrateFromHeydayMenus.php:64-71 | the derived link type; stated by `LinkTypePriority` and `PageReferenceWins` |
| Migration.RewriteRow | src/Tasks/MigrateFromHeydayMenus.php:59-78 | the rewritten row; stated by `RewriteFields`, `PageReferenceWins` and `FooterRow` |
| Migration.LocalePass | src/Tasks/MigrateFromHeydayMenus.php:88-119 | the locale loop; stated by `LocalePassSnoc`, `LocaleStoredIffRow`, `LocaleStoresItsRow` and `LocalePassKeepsOwner` |
| Migration.Migrated | src/Tasks/MigrateFromHeydayMenus.php:80-120 | the stored item a legacy row becomes; stated by `MigratedKeepsRewrite`, `MigratedOwner`, `MigratedExternalLink` and `MigratedPageLink` |
| Migration.LinkTypePriority | src/Tasks/MigrateFromHeydayMenus.php:64-71 | internal if and only if PageID is truthy; file if FileID is truthy and PageID is not; external if only Link is truthy; null otherwise |
| Migration.RewriteFields | src/Tasks/MigrateFromHeydayMenus.php:59-78 | no ID, ClassName or Link; the derived link type; URL is Link for external and null otherwise; the new set id as owner; every other field unchanged |
| Migration.PageReferenceWins | src/Tasks/MigrateFromHeydayMenus.php:65-76 | a page reference wins over a literal link, which is dropped |
| Migration.MigratedKeepsRewrite | src/Tasks/MigrateFromHeydayMenus.php:80-81 | saving the rewritten row keeps its owner, link type, URL and references |
| Migration.MigratedExternalLink | src/Tasks/MigrateFromHeydayMenus.php:69-76 | a legacy row with only a literal link becomes an item linking to that link |
| Migration.MigratedPageLink | src/Tasks/MigrateFromHeydayMenus.php:65-66 | a legacy row with a stored page becomes an item linking to that page |
| Migration.FooterRow | src/Tasks/MigrateFromHeydayMenus.php:59-78 | the rewrite of a concrete row with page 5 and no link or file |
| Migration.LocaleStoredIffRow | src/Tasks/MigrateFromHeydayMenus.php:88-116 | a locale is stored if and only if it is in the list and has a localisation row |
| Migration.LocaleStoresItsRow | src/Tasks/MigrateFromHeydayMenus.php:105-115 | a stored locale holds its row's fields; its title is the row's own unless that is blank |
| Migration.LocalePassKeepsOwner | src/Tasks/MigrateFromHeydayMenus.php:110-115 | the locale replay keeps the item's owner |
| Migration.MigratedOwner | src/Tasks/MigrateFromHeydayMenus.php:78 | a migrated item names the target set as its owner |
| Migration.MigrateItem | src/Tasks/MigrateFromHeydayMenus.php:58-120 | the next item id receives the `Migrated` item of the row, and nothing else changes |
| Migration.ReplayLocales | src/Tasks/MigrateFromHeydayMenus.php:83-120 | the item's localised fields become what the locale pass stores; its base fields stay |
| Migration.ReplayLocale | src/Tasks/MigrateFromHeydayMenus.php:92-118 | one locale step of the locale pass, in memory and in the store |
| Migration.MigrateRows | src/Tasks/MigrateFromHeydayMenus.php:57-121 | one new item per row under consecutive ids, in order; earlier items are unchanged |
| Migration.MigrateNext | src/Tasks/MigrateFromHeydayMenus.php:58-81 | the j-th row's migrated item is stored under the next id |
| Migration.ResolveTarget | src/Tasks/MigrateFromHeydayMenus.php:31-46 | an existing match is reused; otherwise one set is created; a duplicate-name error if and only if no match exists but the name is held |
| Migration.MigrateSet | src/Tasks/MigrateFromHeydayMenus.php:31-121 | find-or-create; the target's old items are gone, others stay; the target owns exactly the migrated items of its legacy rows |
| Migration.ReplaceItems | src/Tasks/MigrateFromHeydayMenus.php:48-121 | wipe of the target's items, then its legacy rows migrated into it |
| Migration.FillItems | src/Tasks/MigrateFromHeydayMenus.php:52-121 | a target with no items ends up owning exactly the migrated legacy rows |
| Migration.FindTargetAfterAppend | src/Tasks/MigrateFromHeydayMenus.php:38-43 | a newly created match is what the filter finds afterwards |
| Migration.HoldsFrom | src/Tasks/MigrateFromHeydayMenus.php:52-81 | ownership of the migrated items of the legacy set's rows is the migration result |
| Migration.MigratedAllOwned | src/Tasks/MigrateFromHeydayMenus.php:78 | every migrated item names the target set |
| Migration.OwnedAfterMigration | src/Tasks/MigrateFromHeydayMenus.php:48-81 | after the wipe and the item loop, the target owns exactly the new ids |
| Migration.FewerKeepNoOrphans | src/Tasks/MigrateFromHeydayMenus.php:48-50 | deleting items keeps every remaining item owned by a stored set |
| Migration.KeepsNoOrphans | src/Tasks/MigrateFromHeydayMenus.php:78-81 | new items owned by a stored set keep every item owned by a stored set |
| Migration.Run | src/Tasks/MigrateFromHeydayMenus.php:14-128 | the two guards (if and only if) write nothing; every legacy set gets a matching target; the sets grow only by legacy names (`Names`), at most one set per name; a halt is a duplicate name under a tenant; no orphaned items |
| Migration.MigrateAll | src/Tasks/MigrateFromHeydayMenus.php:30-127 | the set loop completes or halts on a duplicate name under a tenant; the sets grow only by legacy names (`Names`), at most one set per name; every legacy set gets a matching target; no orphaned items |
| Migration.LastSetMigrated | src/Tasks/MigrateFromHeydayMenus.php:30-127 | the set the loop migrated last is the last legacy set |
| Migration.MigrateLegacySet | src/Tasks/MigrateFromHeydayMenus.php:30-127 | one iteration of the set loop keeps the run's invariants |
| Migration.MigrationLeavesItems | src/Tasks/MigrateFromHeydayMenus.php:57-81 | a legacy set with item rows leaves items in the store |
| Migration.OwnedLast | src/Tasks/MigrateFromHeydayMenus.php:80-81 | a set owning a non-empty run of new ids leaves its last item stored |
| Migration.RunTwice | src/Tasks/MigrateFromHeydayMenus.php:23-28 | the tables the first run leaves are the old ones after a guard, and free of orphans with every legacy set targeted after completion; the second run stops at the already-migrated guard if and only if those items are non-empty, and then writes nothing; a completed first run whose last legacy set has item rows leaves items, so the second stops; that an earlier set's items survive is not stated (see `Migration.Run` under "Left out") |
| Migration.StepGrowth | src/Tasks/MigrateFromHeydayMenus.php:30-46 | one legacy set's growth extends the run's growth |
| Migration.TargetSurvivesGrowth | src/Tasks/MigrateFromHeydayMenus.php:40-43 | a matching set stays when sets are added |
| MigrationScenarios.IntoEmptyStore | src/Tasks/MigrateFromHeydayMenus.php:14-128 | on an empty store one set with the legacy name is created, holding one internal item for the row's page |
| MigrationScenarios.IntoExistingSet | src/Tasks/MigrateFromHeydayMenus.php:38-46 | an existing set of that name is reused, and no set is created |
| MigrationScenarios.RunOne | src/Tasks/MigrateFromHeydayMenus.php:14-128 | a run over one legacy set on an item-free store completes with its target holding the migrated row |
| MigrationScenarios.OneSet | src/Tasks/MigrateFromHeydayMenus.php:40-43 | an empty listing grown by one name holds exactly one set |
| MigrationScenarios.OneItem | src/Tasks/MigrateFromHeydayMenus.php:64-81 | the one migrated row is an internal item for its page, with no URL, owned by the target |
| MigrationScenarios.SoleOwned | src/MenuSet.php:233-244 | when every item belongs to the one set and it owns exactly one id, that item is the whole store |
| MigrationScenarios.FooterItemRow | src/Tasks/MigrateFromHeydayMenus.php:52-55 | the concrete legacy row is a page row of its legacy set |

## Left out

- `getCMSFields`, `MenuAdmin` grid configuration and the subsite extension's field removal: these are UI only.
- `providePermissions`, `fieldLabels`, `Parent()` and `Children()` are declarations or aliases; no logic depends on them.
- Label translation (`_t`): the built-in English labels are used.
- The `updateLink` and `updateLinkTypes` extension hooks are modelled as the identity.
- `extendedCan` is modelled as an `Option<bool>` parameter: `None` stands for an extension returning null.
- `Permission::check` is modelled as the two capabilities of one member. `canCreate` of an item checks the given member while the other checks read the current user; the model gives all of them the same member.
- `parent::validate()`, `parent::onBeforeWrite()` and `parent::onBeforeDelete()` are framework code and are not modelled.
- Pages and files are reduced to the answers the core reads. Their `Link`, `Title`, `URLSegment` and `LinkingMode`, `hasMethod` dispatch, and `URLSegmentFilter::filter` are functions and fields given with the site.
- A page or file id is resolved only when it is a non-zero integer. A numeric string id is not converted.
- `default_sort` and the `Sort` field's ordering are not modelled. The set table is read in its stored order, and that order is the one the name lookup and `MenuSet::get()->filter()->first()` use.
- Name comparison is exact. A database collation that compares names case-insensitively is not modelled.
- MenuSets.IsDefaultSet: uses exact membership. The source's `in_array` compares loosely, so under PHP 8 numeric strings such as "10", "1e1" and "10.0" count as equal names there; that loose comparison of numeric strings is not modelled.
- `MenuManagerTemplateProvider` is not part of this model. `MenuSet($name)` is taken to return the first set of that name in listing order.
- `requireDefaultRecords` only prints a message around `createDefaultMenuSets`, so it is not modelled.
- `SQLSelect` and the string-built WHERE clauses are replaced by the legacy tables as sequences of records in read order. Legacy ids are taken to be integers.
- Fluent's `FluentState::withState` and `Locale::getLocales` are replaced by a list of locales. `hasExtension` becomes whether that list is given (`Option<seq<string>>`). A write under a locale stores the item's fields for that locale in a per-locale map beside the base fields. The first `$item->update($oldItem)->write()` runs outside every `withState` and is modelled as a write outside every locale, to the base fields only; the locale that Fluent has active at that point is not modelled, so a locale without a localisation row gets no localised entry.
- `log`, `echo`, `Debug::message` and `DB::alteration_message` are output only.
- Concurrency and transactions: the read-then-create checks assume a single writer.
- Migration.Run: on completion it states the exact item ownership only for the last legacy set. Earlier sets are stated to have a matching target, but their items may since have been wiped by a later legacy set that resolves to the same target.
