/** A menu item (src/MenuItem.php): where its link points, the title it takes
    when saved blank, the fallback of its fields to the linked page, the labels
    of its link types, its URL segment and linking mode, and its permissions.

    Inside the item every `$this->X` read goes through the item's own
    `__get`, so the functions below read fields through `Field`; `Get` is the
    raw record (`getField`). */
module MenuItems {
  import opened Values
  import opened Externals
  import opened Permissions
  import opened Store

  const INTERNAL := "internal"
  const EXTERNAL := "external"
  const FILE := "file"

  /** The `$defaults` a new item starts from. */
  function Defaults(): Record {
    map["LinkType" := Str(INTERNAL)]
  }

  /** The item's link type is exactly `tag`. */
  predicate HasType(rec: Record, tag: string) {
    Get(rec, "LinkType") == Str(tag)
  }

  function LinkedPage(rec: Record, site: Site): Page {
    PageFor(site, Get(rec, "PageID"))
  }

  function LinkedFile(rec: Record, site: Site): File {
    FileFor(site, Get(rec, "FileID"))
  }

  /** `__get($field)`: the item's own value when it is truthy or the field is
      `ID`; otherwise, for an internal item, what the linked page answers for
      that name; otherwise null. */
  function Field(rec: Record, site: Site, name: string): Value {
    var own := Get(rec, name);
    if Truthy(own) || name == "ID" then own
    else if IsTag(Get(rec, "LinkType"), INTERNAL) then Answer(LinkedPage(rec, site), name)
    else Null
  }

  /** One leading `#` removed, as `preg_replace('/^#/', '', ...)` does. */
  function StripHash(s: string): string {
    if |s| > 0 && s[0] == '#' then s[1..] else s
  }

  /** What `Link($action)` computes when nothing is cached. */
  function ResolveLink(rec: Record, site: Site, action: Value): Value {
    var linkType := Field(rec, site, "LinkType");
    if IsTag(linkType, INTERNAL) && LinkedPage(rec, site).present then
      var anchor := Field(rec, site, "Anchor");
      var base := LinkedPage(rec, site).link(action);
      if Truthy(anchor) then Str(base + "#" + StripHash(AsString(anchor))) else Str(base)
    else if IsTag(linkType, EXTERNAL) && Truthy(Field(rec, site, "URL")) then
      Field(rec, site, "URL")
    else if IsTag(linkType, FILE) && LinkedFile(rec, site).present then
      Str(LinkedFile(rec, site).link)
    else
      Null
  }

  /** `generateMenuTitle()`. */
  function GenerateMenuTitle(rec: Record, site: Site): Value {
    var linkType := Field(rec, site, "LinkType");
    if IsTag(linkType, INTERNAL) && LinkedPage(rec, site).present then
      Answer(LinkedPage(rec, site), "Title")
    else if IsTag(linkType, FILE) && LinkedFile(rec, site).present then
      Str(LinkedFile(rec, site).title)
    else
      Null
  }

  /** The record after `onBeforeWrite()`: a blank title is filled in; nothing
      else ever changes, and a truthy own title is never touched. */
  function WithTitle(rec: Record, site: Site): (r: Record)
    ensures forall k :: k != "MenuTitle" ==> Get(r, k) == Get(rec, k)
    ensures r.Keys == rec.Keys || r.Keys == rec.Keys + {"MenuTitle"}
    ensures Truthy(Get(rec, "MenuTitle")) ==> r == rec
  {
    if Truthy(Field(rec, site, "MenuTitle")) then rec
    else rec["MenuTitle" := GenerateMenuTitle(rec, site)]
  }

  /** `getTitle()`, which reads `$this->MenuTitle`. */
  function Title(rec: Record, site: Site): Value {
    Field(rec, site, "MenuTitle")
  }

  /** `getLinkTypes()`: the built-in link types and their labels, in order. */
  function LinkTypes(): seq<(string, string)> {
    [ (INTERNAL, "Link to an internal page"),
      (EXTERNAL, "Link to an external page, email or phone number"),
      (FILE, "Link to a file") ]
  }

  /** The label under `key` in an ordered mapping of link types. */
  function LabelOf(types: seq<(string, string)>, key: string): (r: Option<string>)
    ensures r.Some? ==> (key, r.value) in types
    ensures r.None? <==> forall i :: 0 <= i < |types| ==> types[i].0 != key
  {
    if types == [] then None
    else if types[0].0 == key then Some(types[0].1)
    else LabelOf(types[1..], key)
  }

  /** `LinkTypeNice()`: the label of the link type, or the type itself when it
      has no label. The method is declared to return a string, so a null link
      type makes PHP raise a TypeError. */
  function LinkTypeNice(rec: Record, site: Site): Result<string> {
    var t := Field(rec, site, "LinkType");
    match t
    case Null => Err(TypeError)
    case Str(s) => Ok(LabelOf(LinkTypes(), s).GetOr(s))
    case _ => Ok(AsString(t))
  }

  /** `getURLSegment()`. */
  function URLSegment(rec: Record, site: Site): Value {
    var linkType := Field(rec, site, "LinkType");
    if IsTag(linkType, INTERNAL) && LinkedPage(rec, site).present then
      Answer(LinkedPage(rec, site), "URLSegment")
    else if IsTag(linkType, FILE) && LinkedFile(rec, site).present then
      Str(site.slug(LinkedFile(rec, site).title))
    else
      Null
  }

  /** `getLinkingMode()`. */
  function LinkingMode(rec: Record, site: Site): Value {
    if IsTag(Field(rec, site, "LinkType"), INTERNAL) && Truthy(Field(rec, site, "PageID")) then
      Answer(LinkedPage(rec, site), "LinkingMode")
    else
      Str("link")
  }

  /** `canCreate`, `canEdit`, `canView` and `canDelete` of an item: the
      extension's verdict, else MANAGE_MENU_ITEMS. */
  function CanCreate(extended: Option<bool>, member: Caps): bool {
    Decide(extended, member.manageMenuItems)
  }

  function CanEdit(extended: Option<bool>, member: Caps): bool {
    Decide(extended, member.manageMenuItems)
  }

  function CanView(extended: Option<bool>, member: Caps): bool {
    Decide(extended, member.manageMenuItems)
  }

  function CanDelete(extended: Option<bool>, member: Caps): bool {
    Decide(extended, member.manageMenuItems)
  }

  /** An in-memory menu item: its id (0 until first written), its record, and
      the link it memoises. */
  class MenuItem {
    var id: int
    var record: Record
    var linkCached: Value

    /** `new MenuItem()`. */
    constructor ()
      ensures id == 0 && record == Defaults() && linkCached == Null
    {
      id, record, linkCached := 0, Defaults(), Null;
    }

    /** `update($fields)`: every given field is set. */
    method Update(fields: Record)
      modifies this`record
      ensures record == old(record) + fields
    {
      record := record + fields;
    }

    /** `Link($action)`: once a truthy link is cached it is returned as it is;
        otherwise the link is computed from the current fields and cached. */
    method Link(site: Site, action: Value) returns (link: Value)
      modifies this`linkCached
      ensures Truthy(old(linkCached)) ==> link == old(linkCached)
      ensures !Truthy(old(linkCached)) ==> link == ResolveLink(record, site, action)
      ensures linkCached == link
    {
      if Truthy(linkCached) {
        link := linkCached;
        return;
      }
      link := Null;
      var linkType := Field(record, site, "LinkType");
      var page := LinkedPage(record, site);
      var file := LinkedFile(record, site);
      if IsTag(linkType, INTERNAL) && page.present {
        var s := page.link(action);
        var anchor := Field(record, site, "Anchor");
        if Truthy(anchor) {
          s := s + "#" + StripHash(AsString(anchor));
        }
        link := Str(s);
      } else if IsTag(linkType, EXTERNAL) && Truthy(Field(record, site, "URL")) {
        link := Field(record, site, "URL");
      } else if IsTag(linkType, FILE) && file.present {
        link := Str(file.link);
      }
      linkCached := link;
    }

    /** `onBeforeWrite()`: a blank title is replaced by the generated one. */
    method OnBeforeWrite(site: Site)
      modifies this`record
      ensures record == WithTitle(old(record), site)
    {
      if !Truthy(Field(record, site, "MenuTitle")) {
        record := record["MenuTitle" := GenerateMenuTitle(record, site)];
      }
    }

    /** `write()`: runs `onBeforeWrite`, then inserts the item when it has no
        id yet, else stores its fields, under `locale` when one is active. */
    method Write(store: EntityStore, site: Site, locale: Option<string>)
      requires store.Valid()
      requires id == 0 || id in store.items
      modifies this`record, this`id, store
      ensures store.Valid()
      ensures record == WithTitle(old(record), site)
      ensures store.sets == old(store.sets) && store.nextSetId == old(store.nextSetId)
      ensures old(id) == 0 ==>
        && id == old(store.nextItemId)
        && store.nextItemId == id + 1
        && store.items == old(store.items)[id := ItemRow(record, map[])]
      ensures old(id) != 0 ==>
        && id == old(id)
        && store.nextItemId == old(store.nextItemId)
        && store.items == old(store.items)[id :=
             if locale.Some?
             then old(store.items)[id].(localised := old(store.items)[id].localised[locale.value := record])
             else old(store.items)[id].(fields := record)]
    {
      OnBeforeWrite(site);
      if id == 0 {
        id := store.InsertItem(record);
      } else if locale.Some? {
        store.PutLocalised(id, locale.value, record);
      } else {
        store.PutFields(id, record);
      }
    }
  }

  /** A new item given `fields`, asked for its link, then changed and asked
      again: a truthy first link is returned again however the fields and the
      site changed; a falsy one is recomputed from the new fields. */
  method MemoisedLink(fields: Record, site: Site, action: Value, changes: Record, later: Site)
    returns (first: Value, second: Value)
    ensures first == ResolveLink(Defaults() + fields, site, action)
    ensures Truthy(first) ==> second == first
    ensures !Truthy(first) ==> second == ResolveLink(Defaults() + fields + changes, later, action)
  {
    var item := new MenuItem();
    item.Update(fields);
    first := item.Link(site, action);
    item.Update(changes);
    second := item.Link(later, action);
  }

  // ---------------------------------------------------------------------------
  // The field fallback

  /** The id and every truthy own value are answered by the item itself. */
  lemma OwnValueAnswers(rec: Record, site: Site, name: string)
    requires name == "ID" || Truthy(Get(rec, name))
    ensures Field(rec, site, name) == Get(rec, name)
  {
  }

  /** A blank own value of an internal item is what the linked page answers. */
  lemma InternalFallsBackToPage(rec: Record, site: Site, name: string)
    requires name != "ID" && !Truthy(Get(rec, name))
    requires IsTag(Get(rec, "LinkType"), INTERNAL)
    ensures Field(rec, site, name) == Answer(LinkedPage(rec, site), name)
  {
  }

  /** A blank own value of any other item is null, whatever the site holds. */
  lemma OtherTypesDoNotFallBack(rec: Record, site: Site, name: string)
    requires name != "ID" && !Truthy(Get(rec, name))
    requires !IsTag(Get(rec, "LinkType"), INTERNAL)
    ensures Field(rec, site, name) == Null
  {
  }

  /** The link type is always answered by the item itself: its `__get` hands
      a blank link type to the page only for internal items, which a blank
      type never is. */
  lemma LinkTypeAnsweredLocally(rec: Record, site: Site, tag: string)
    requires tag != "" && tag != "0"
    ensures IsTag(Field(rec, site, "LinkType"), tag) == IsTag(Get(rec, "LinkType"), tag)
  {
    TagIsTruthy(Get(rec, "LinkType"), INTERNAL);
    TagIsTruthy(Get(rec, "LinkType"), tag);
  }

  // ---------------------------------------------------------------------------
  // Link resolution

  /** An internal item with a present page and no anchor, neither of its own
      nor from the page, links to the page's link exactly. */
  lemma LinkToPage(rec: Record, site: Site, action: Value)
    requires HasType(rec, INTERNAL) && LinkedPage(rec, site).present
    requires !Truthy(Get(rec, "Anchor")) && !Truthy(Answer(LinkedPage(rec, site), "Anchor"))
    ensures ResolveLink(rec, site, action) == Str(LinkedPage(rec, site).link(action))
  {
  }

  /** An internal item with an anchor links to the page's link, `#`, and the
      anchor with at most one leading `#` removed. */
  lemma LinkToPageAnchor(rec: Record, site: Site, action: Value, anchor: string)
    requires HasType(rec, INTERNAL) && LinkedPage(rec, site).present
    requires Get(rec, "Anchor") == Str(anchor) && Truthy(Str(anchor))
    ensures ResolveLink(rec, site, action) == Str(LinkedPage(rec, site).link(action) + "#" + StripHash(anchor))
  {
  }

  /** Writing the anchor with or without its leading `#` gives the same link,
      with exactly one `#` between page link and anchor. */
  lemma AnchorHashIsOptional(rec: Record, site: Site, action: Value, anchor: string)
    requires HasType(rec, INTERNAL) && LinkedPage(rec, site).present
    requires Truthy(Str(anchor)) && anchor[0] != '#'
    ensures ResolveLink(rec["Anchor" := Str(anchor)], site, action)
         == ResolveLink(rec["Anchor" := Str("#" + anchor)], site, action)
         == Str(LinkedPage(rec, site).link(action) + "#" + anchor)
  {
    var plain, hashed := rec["Anchor" := Str(anchor)], rec["Anchor" := Str("#" + anchor)];
    assert LinkedPage(plain, site) == LinkedPage(rec, site) == LinkedPage(hashed, site) by {
      assert Get(plain, "PageID") == Get(rec, "PageID") == Get(hashed, "PageID");
    }
    LinkToPageAnchor(plain, site, action, anchor);
    LinkToPageAnchor(hashed, site, action, "#" + anchor);
    assert StripHash("#" + anchor) == anchor;
  }

  /** An external item with a truthy URL links to that URL verbatim. */
  lemma LinkToURL(rec: Record, site: Site, action: Value)
    requires HasType(rec, EXTERNAL) && Truthy(Get(rec, "URL"))
    ensures ResolveLink(rec, site, action) == Get(rec, "URL")
  {
  }

  /** An external item's link depends on nothing but its URL: not on the
      anchor, the site, or the action. */
  lemma ExternalLinkIgnoresAnchor(rec: Record, site: Site, action: Value, anchor: Value, site': Site, action': Value)
    requires HasType(rec, EXTERNAL)
    ensures ResolveLink(rec, site, action) == ResolveLink(rec["Anchor" := anchor], site', action')
  {
    var rec' := rec["Anchor" := anchor];
    assert Get(rec', "LinkType") == Get(rec, "LinkType") && Get(rec', "URL") == Get(rec, "URL");
  }

  /** A file item with a present file links to the file's link. */
  lemma LinkToFile(rec: Record, site: Site, action: Value)
    requires HasType(rec, FILE) && LinkedFile(rec, site).present
    ensures ResolveLink(rec, site, action) == Str(LinkedFile(rec, site).link)
  {
  }

  /** The link is null exactly when no variant has its destination: the page
      of an internal item is absent, the URL of an external one is blank, the
      file of a file item is absent, or the link type is none of the three.
      (The URL is read through the fallback, which only matters for a link
      type of `true`, loosely equal to every tag.) */
  lemma NoLinkIffNoDestination(rec: Record, site: Site, action: Value)
    ensures ResolveLink(rec, site, action) == Null <==>
      && !(IsTag(Get(rec, "LinkType"), INTERNAL) && LinkedPage(rec, site).present)
      && !(IsTag(Get(rec, "LinkType"), EXTERNAL) && Truthy(Field(rec, site, "URL")))
      && !(IsTag(Get(rec, "LinkType"), FILE) && LinkedFile(rec, site).present)
  {
    LinkTypeAnsweredLocally(rec, site, INTERNAL);
    LinkTypeAnsweredLocally(rec, site, EXTERNAL);
    LinkTypeAnsweredLocally(rec, site, FILE);
  }

  // ---------------------------------------------------------------------------
  // Title defaulting

  /** A blank own title of an internal item is left blank when the page
      answers a truthy `MenuTitle`: the test in `onBeforeWrite` reads the
      title through the fallback. */
  lemma PageMenuTitleSuppressesDefault(rec: Record, site: Site)
    requires HasType(rec, INTERNAL) && !Truthy(Get(rec, "MenuTitle"))
    requires Truthy(Answer(LinkedPage(rec, site), "MenuTitle"))
    ensures WithTitle(rec, site) == rec
  {
  }

  /** Otherwise a blank title of an internal item with a present page becomes the page's title. */
  lemma BlankTitleFromPage(rec: Record, site: Site)
    requires HasType(rec, INTERNAL) && !Truthy(Get(rec, "MenuTitle"))
    requires !Truthy(Answer(LinkedPage(rec, site), "MenuTitle")) && LinkedPage(rec, site).present
    ensures WithTitle(rec, site) == rec["MenuTitle" := Answer(LinkedPage(rec, site), "Title")]
  {
  }

  /** A blank title of a file item with a present file becomes the file's title. */
  lemma BlankTitleFromFile(rec: Record, site: Site)
    requires HasType(rec, FILE) && !Truthy(Get(rec, "MenuTitle")) && LinkedFile(rec, site).present
    ensures WithTitle(rec, site) == rec["MenuTitle" := Str(LinkedFile(rec, site).title)]
  {
  }

  /** A blank title with nothing to derive it from becomes null. */
  lemma BlankTitleBecomesNull(rec: Record, site: Site)
    requires !Truthy(Title(rec, site))
    requires !(IsTag(Get(rec, "LinkType"), INTERNAL) && LinkedPage(rec, site).present)
    requires !(IsTag(Get(rec, "LinkType"), FILE) && LinkedFile(rec, site).present)
    ensures WithTitle(rec, site) == rec["MenuTitle" := Null]
  {
    LinkTypeAnsweredLocally(rec, site, INTERNAL);
    LinkTypeAnsweredLocally(rec, site, FILE);
  }

  /** Saving twice titles the item as saving once: the title is derived only
      from fields the derivation leaves alone. */
  lemma {:induction false} WithTitleIdempotent(rec: Record, site: Site)
    ensures WithTitle(WithTitle(rec, site), site) == WithTitle(rec, site)
  {
    var once := WithTitle(rec, site);
    if once != rec {
      assert Get(once, "LinkType") == Get(rec, "LinkType");
      assert Get(once, "PageID") == Get(rec, "PageID");
      assert Get(once, "FileID") == Get(rec, "FileID");
      assert LinkedPage(once, site) == LinkedPage(rec, site);
      assert LinkedFile(once, site) == LinkedFile(rec, site);
      assert GenerateMenuTitle(once, site) == GenerateMenuTitle(rec, site);
      if !Truthy(Field(once, site, "MenuTitle")) {
        assert once["MenuTitle" := GenerateMenuTitle(once, site)] == once;
      }
    }
  }

  /** After a save, an internal item with a present page whose title is
      truthy has a truthy title: its own, the page's menu title through the
      fallback, or the page's title. */
  lemma SavedInternalItemHasTitle(rec: Record, site: Site)
    requires HasType(rec, INTERNAL) && LinkedPage(rec, site).present
    requires Truthy(Answer(LinkedPage(rec, site), "Title"))
    ensures Truthy(Title(WithTitle(rec, site), site))
  {
    var saved := WithTitle(rec, site);
    assert Get(saved, "LinkType") == Get(rec, "LinkType") && Get(saved, "PageID") == Get(rec, "PageID");
  }

  /** After a save, a file item with a present file whose title is truthy
      has a truthy title. */
  lemma SavedFileItemHasTitle(rec: Record, site: Site)
    requires HasType(rec, FILE) && LinkedFile(rec, site).present
    requires Truthy(Str(LinkedFile(rec, site).title))
    ensures Truthy(Title(WithTitle(rec, site), site))
  {
    var saved := WithTitle(rec, site);
    assert Get(saved, "LinkType") == Get(rec, "LinkType") && Get(saved, "FileID") == Get(rec, "FileID");
  }

  // ---------------------------------------------------------------------------
  // Link-type labels, URL segment, linking mode, permissions

  /** The three built-in link types are shown by their labels. */
  lemma BuiltInTypesHaveLabels(rec: Record, site: Site)
    ensures HasType(rec, INTERNAL) ==> LinkTypeNice(rec, site) == Ok("Link to an internal page")
    ensures HasType(rec, EXTERNAL) ==> LinkTypeNice(rec, site) == Ok("Link to an external page, email or phone number")
    ensures HasType(rec, FILE) ==> LinkTypeNice(rec, site) == Ok("Link to a file")
  {
  }

  /** Any other non-blank link type is shown as it is. */
  lemma UnknownTypeShownRaw(rec: Record, site: Site, tag: string)
    requires Get(rec, "LinkType") == Str(tag) && Truthy(Str(tag))
    requires tag != INTERNAL && tag != EXTERNAL && tag != FILE
    ensures LinkTypeNice(rec, site) == Ok(tag)
  {
    assert LabelOf(LinkTypes(), tag).None?;
  }

  /** A blank link type makes `LinkTypeNice` fail. */
  lemma BlankTypeFails(rec: Record, site: Site)
    requires !Truthy(Get(rec, "LinkType"))
    ensures LinkTypeNice(rec, site) == Err(TypeError)
  {
  }

  /** The URL segment is the page's for an internal item with a present
      page, the slug of the file title for a file item with a present file,
      and null otherwise, for every external item in particular. */
  lemma URLSegmentByType(rec: Record, site: Site)
    ensures HasType(rec, INTERNAL) && LinkedPage(rec, site).present ==>
      URLSegment(rec, site) == Answer(LinkedPage(rec, site), "URLSegment")
    ensures HasType(rec, FILE) && LinkedFile(rec, site).present ==>
      URLSegment(rec, site) == Str(site.slug(LinkedFile(rec, site).title))
    ensures HasType(rec, EXTERNAL) ==> URLSegment(rec, site) == Null
    ensures (&& !(IsTag(Get(rec, "LinkType"), INTERNAL) && LinkedPage(rec, site).present)
             && !(IsTag(Get(rec, "LinkType"), FILE) && LinkedFile(rec, site).present))
      ==> URLSegment(rec, site) == Null
  {
    LinkTypeAnsweredLocally(rec, site, INTERNAL);
    LinkTypeAnsweredLocally(rec, site, FILE);
  }

  /** The linking mode is the page's for an internal item with a page id and
      "link" for every item that is not internal. */
  lemma LinkingModeByType(rec: Record, site: Site)
    ensures !IsTag(Get(rec, "LinkType"), INTERNAL) ==> LinkingMode(rec, site) == Str("link")
    ensures IsTag(Get(rec, "LinkType"), INTERNAL) && Truthy(Get(rec, "PageID")) ==>
      LinkingMode(rec, site) == Answer(LinkedPage(rec, site), "LinkingMode")
    ensures (IsTag(Get(rec, "LinkType"), INTERNAL) && !Truthy(Get(rec, "PageID")) && !Truthy(Answer(site.noPage, "PageID")))
      ==> LinkingMode(rec, site) == Str("link")
  {
    LinkTypeAnsweredLocally(rec, site, INTERNAL);
  }

  /** Without an extension's verdict every item permission is MANAGE_MENU_ITEMS;
      with one, the verdict decides. */
  lemma ItemPermissions(extended: Option<bool>, member: Caps)
    ensures extended.None? ==>
      && CanCreate(extended, member) == member.manageMenuItems
      && CanEdit(extended, member) == member.manageMenuItems
      && CanView(extended, member) == member.manageMenuItems
      && CanDelete(extended, member) == member.manageMenuItems
    ensures extended.Some? ==>
      && CanCreate(extended, member) == CanEdit(extended, member) == extended.value
      && CanView(extended, member) == CanDelete(extended, member) == extended.value
  {
  }
}
