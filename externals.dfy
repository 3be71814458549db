/** The entities a menu item points at but does not own: pages, files, and the
    slug filter that turns a file title into a URL segment. The core only ever
    asks them the questions below, so each is a value that holds the answers. */
module Externals {
  import opened Values

  /** A page as `$item->Page()` returns it; `present` is its `exists()`. `attributes` holds what the page
      answers for a field or method name (`Title`, `URLSegment`,
      `LinkingMode`, `MenuTitle`, ...); `link` is the page's `Link($action)`. */
  datatype Page = Page(present: bool, attributes: Record, link: Value -> string)

  /** What `$page->$name()` or `$page->$name` yields; an unknown name gives null. */
  function Answer(p: Page, name: string): Value {
    Get(p.attributes, name)
  }

  /** A file as `$item->File()` returns it; `present` is its `exists()`. */
  datatype File = File(present: bool, title: string, link: string)

  /** The stored pages and files by id, the blank records a `has_one` getter
      returns when the id is unset or unknown, and the slug filter. */
  datatype Site = Site(
    pages: map<int, Page>,
    files: map<int, File>,
    noPage: Page,
    noFile: File,
    slug: string -> string)

  /** `Page()`: the stored page whose id the `PageID` field holds, else the blank page. */
  function PageFor(site: Site, id: Value): Page {
    if id.Int? && id.i != 0 && id.i in site.pages then site.pages[id.i] else site.noPage
  }

  /** `File()`: the stored file whose id the `FileID` field holds, else the blank file. */
  function FileFor(site: Site, id: Value): File {
    if id.Int? && id.i != 0 && id.i in site.files then site.files[id.i] else site.noFile
  }
}
