/**
 * Browser tabs as the host's tab query reports them, the restorable snapshot
 * taken of a tab before it is closed, and the inactivity test.
 */
module Tabs {
  import opened Wrappers

  /**
   * A tab. An absent `url`, `pendingUrl` or `title` is the empty string, an
   * absent `lastAccessed` is 0; `id`, `windowId` and `index` are `None` when
   * they are not numbers.
   */
  datatype Tab = Tab(
    id: Option<int>,
    url: string,
    pendingUrl: string,
    title: string,
    incognito: bool,
    pinned: bool,
    audible: bool,
    active: bool,
    discarded: bool,
    lastAccessed: int,
    windowId: Option<int>,
    index: Option<int>)

  /** What is kept of a closed tab so that it can be opened again. */
  datatype Snapshot = Snapshot(url: string, windowId: Option<int>, index: Option<int>, active: bool, pinned: bool)

  /**
   * `tabLooksInactive` (src/shared/background.js:63-70): never a private, pinned,
   * audible or active tab; otherwise a tab last used at least `thresholdMs`
   * before `now`, or, when the host reports no last-use time, a discarded tab.
   */
  predicate TabLooksInactive(tab: Tab, thresholdMs: int, now: int): (inactive: bool)
    ensures inactive ==> !tab.incognito && !tab.pinned && !tab.audible && !tab.active
    ensures inactive && tab.lastAccessed != 0 ==> now - tab.lastAccessed >= thresholdMs
    ensures inactive && tab.lastAccessed == 0 ==> tab.discarded
  {
    if tab.incognito then false
    else if tab.pinned || tab.audible then false
    else if tab.active then false
    else if tab.lastAccessed != 0 then now - tab.lastAccessed >= thresholdMs
    else tab.discarded
  }

  /** A longer threshold never makes more tabs inactive, a later clock never fewer. */
  lemma InactiveMonotone(tab: Tab, t1: int, t2: int, now1: int, now2: int)
    requires t1 <= t2 && now2 <= now1
    ensures TabLooksInactive(tab, t2, now2) ==> TabLooksInactive(tab, t1, now1)
  {
  }

  /**
   * `serializeTab` (src/shared/background.js:135-147): nothing when the tab has
   * neither a URL nor a pending URL; otherwise its URL (the pending one when the
   * committed one is empty), placement and flags.
   */
  function SerializeTab(tab: Tab): (r: Option<Snapshot>)
    ensures r.None? <==> tab.url == "" && tab.pendingUrl == ""
    ensures r.Some? ==> r.value.url != ""
    ensures r.Some? && tab.url != "" ==> r.value.url == tab.url
    ensures r.Some? && tab.url == "" ==> r.value.url == tab.pendingUrl
    ensures r.Some? ==> r.value.windowId == tab.windowId && r.value.index == tab.index
    ensures r.Some? ==> r.value.active == tab.active && r.value.pinned == tab.pinned
  {
    var url := if tab.url != "" then tab.url else tab.pendingUrl;
    if url == "" then None
    else Some(Snapshot(url, tab.windowId, tab.index, tab.active, tab.pinned))
  }
}
