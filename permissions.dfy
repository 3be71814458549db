/** The two named capabilities the menu manager checks, and the way an
    extension's verdict takes precedence over the built-in check. */
module Permissions {
  import opened Values

  /** Whether the member holds MANAGE_MENU_SETS and MANAGE_MENU_ITEMS. */
  datatype Caps = Caps(manageMenuSets: bool, manageMenuItems: bool)

  /** `extendedCan`: when an extension returns a verdict (not null) it is the
      answer; otherwise the built-in permission check is. */
  function Decide(extended: Option<bool>, builtIn: bool): bool {
    if extended.Some? then extended.value else builtIn
  }
}
