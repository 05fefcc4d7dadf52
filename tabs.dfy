/**
 * The editor's tabs: a list of tabs, the id of the active one, the counter
 * the next id comes from, and the text, title and document name the editor
 * currently shows. The page keeps all of this in global variables and
 * updates it in place; `TabManager` below does the same, and the functions
 * before it state what each operation leaves behind.
 */
module Tabs {
  import opened Wrappers
  import opened JsString
  import opened EditorText

  const DefaultDocName := "untitled"

  datatype Tab = Tab(id: int, title: string, content: string, docName: string)

  /** The tab list and what the editor shows (`textArea.value`, `docTitle.value`, `currentDocName`). */
  datatype Workspace = Workspace(
    tabs: seq<Tab>,
    activeTabId: int,
    nextTabId: int,
    text: string,
    title: string,
    docName: string)

  predicate HasId(tabs: seq<Tab>, id: int) {
    exists k :: 0 <= k < |tabs| && tabs[k].id == id
  }

  predicate UniqueIds(tabs: seq<Tab>) {
    forall j, k :: 0 <= j < k < |tabs| ==> tabs[j].id != tabs[k].id
  }

  /** The invariant every operation keeps: at least one tab, distinct ids all below the counter, and the active id is a tab's. */
  predicate Valid(w: Workspace) {
    && |w.tabs| >= 1
    && UniqueIds(w.tabs)
    && (forall k :: 0 <= k < |w.tabs| ==> w.tabs[k].id < w.nextTabId)
    && HasId(w.tabs, w.activeTabId)
  }

  /** The first index at or after `from` holding a tab with the id, or -1. */
  function FindIndexFrom(tabs: seq<Tab>, id: int, from: nat): (r: int)
    requires from <= |tabs|
    ensures r == -1 || from <= r < |tabs|
    ensures r == -1 ==> forall k :: from <= k < |tabs| ==> tabs[k].id != id
    ensures r >= 0 ==> tabs[r].id == id && forall k :: from <= k < r ==> tabs[k].id != id
    decreases |tabs| - from
  {
    if from == |tabs| then -1
    else if tabs[from].id == id then from
    else FindIndexFrom(tabs, id, from + 1)
  }

  /** `tabs.findIndex(t => t.id === id)`; `tabs.find` is the tab at that index. */
  function FindIndex(tabs: seq<Tab>, id: int): (r: int)
    ensures -1 <= r < |tabs|
    ensures r == -1 <==> !HasId(tabs, id)
    ensures r >= 0 ==> tabs[r].id == id && forall k :: 0 <= k < r ==> tabs[k].id != id
  {
    FindIndexFrom(tabs, id, 0)
  }

  lemma FindIndexFirst(tabs: seq<Tab>, id: int, k: int)
    requires 0 <= k < |tabs| && tabs[k].id == id
    requires forall j :: 0 <= j < k ==> tabs[j].id != id
    ensures FindIndex(tabs, id) == k
  {
  }

  /** Lists with the same ids in the same order find every id at the same index. */
  lemma FindIndexSameIds(a: seq<Tab>, b: seq<Tab>, id: int)
    requires |a| == |b| && forall k :: 0 <= k < |a| ==> a[k].id == b[k].id
    ensures FindIndex(a, id) == FindIndex(b, id)
  {
    var r := FindIndex(a, id);
    if r >= 0 {
      FindIndexFirst(b, id, r);
    } else {
      assert !HasId(b, id);
    }
  }

  /** The editor's text, title and document name written into the active tab, if there is one. */
  function StoreEditor(w: Workspace): (tabs: seq<Tab>)
    ensures |tabs| == |w.tabs|
    ensures forall k :: 0 <= k < |tabs| ==> tabs[k].id == w.tabs[k].id
  {
    var i := FindIndex(w.tabs, w.activeTabId);
    if i == -1 then w.tabs
    else w.tabs[i := w.tabs[i].(content := w.text, title := w.title, docName := w.docName)]
  }

  /** Make `tabId` active and, if such a tab exists, show its text, title and document name. */
  function Show(w: Workspace, tabId: int): Workspace
  {
    var j := FindIndex(w.tabs, tabId);
    if j == -1 then w.(activeTabId := tabId)
    else w.(activeTabId := tabId, text := w.tabs[j].content, title := w.tabs[j].title, docName := w.tabs[j].docName)
  }

  /** `switchToTab`: store the editor into the tab being left, then show the target. */
  function Switch(w: Workspace, tabId: int): Workspace
  {
    Show(w.(tabs := StoreEditor(w)), tabId)
  }

  /**
   * Switching to an existing tab stores the editor's text, title and
   * document name into the previously active tab, changes no other tab,
   * and then shows the target tab.
   */
  lemma SwitchStoresThenShows(w: Workspace, tabId: int)
    requires Valid(w) && HasId(w.tabs, tabId)
    ensures var r := Switch(w, tabId);
      var i := FindIndex(w.tabs, w.activeTabId);
      var j := FindIndex(w.tabs, tabId);
      && |r.tabs| == |w.tabs|
      && r.tabs[i] == w.tabs[i].(content := w.text, title := w.title, docName := w.docName)
      && (forall k :: 0 <= k < |w.tabs| && k != i ==> r.tabs[k] == w.tabs[k])
      && r.activeTabId == tabId && r.nextTabId == w.nextTabId
      && r.text == r.tabs[j].content && r.title == r.tabs[j].title && r.docName == r.tabs[j].docName
      && Valid(r)
  {
    var stored := StoreEditor(w);
    FindIndexSameIds(w.tabs, stored, tabId);
    var r := Switch(w, tabId);
    assert r.tabs == stored;
    assert HasId(r.tabs, tabId) by {
      var j := FindIndex(w.tabs, tabId);
      assert r.tabs[j].id == tabId;
    }
  }

  /** Switching away and back shows the editor exactly as it was left: no edit is lost. */
  lemma SwitchAwayAndBack(w: Workspace, other: int)
    requires Valid(w) && HasId(w.tabs, other)
    ensures var r := Switch(Switch(w, other), w.activeTabId);
      r.text == w.text && r.title == w.title && r.docName == w.docName
      && r.activeTabId == w.activeTabId && Valid(r)
  {
    var w1 := Switch(w, other);
    SwitchStoresThenShows(w, other);
    var i := FindIndex(w.tabs, w.activeTabId);
    FindIndexSameIds(w.tabs, w1.tabs, w.activeTabId);
    assert HasId(w1.tabs, w.activeTabId) by { assert w1.tabs[i].id == w.activeTabId; }
    SwitchStoresThenShows(w1, w.activeTabId);
    var j := FindIndex(w1.tabs, other);
    FindIndexSameIds(w.tabs, w1.tabs, other);
    if j == i {
      assert w1.text == w.text && w1.title == w.title && w1.docName == w.docName;
    }
  }

  /** The tab `addTab` creates, `Date.now()` being `nowMs`. */
  function NewTab(id: int, nowMs: nat): Tab {
    Tab(id, UntitledTitle, "", DefaultDocName + "_" + Decimal(nowMs))
  }

  /** `addTab`: append a new tab with the next id, advance the counter, and switch to it. */
  function Add(w: Workspace, nowMs: nat): Workspace
  {
    var t := NewTab(w.nextTabId, nowMs);
    Switch(w.(tabs := w.tabs + [t], nextTabId := w.nextTabId + 1), t.id)
  }

  /**
   * Adding a tab stores the editor into the tab being left, appends one tab
   * whose id is the old counter, increments the counter, and makes the new,
   * empty tab active; ids stay distinct.
   */
  lemma AddAppendsFreshTab(w: Workspace, nowMs: nat)
    requires Valid(w)
    ensures var r := Add(w, nowMs);
      && r.tabs == StoreEditor(w) + [NewTab(w.nextTabId, nowMs)]
      && r.activeTabId == w.nextTabId && r.nextTabId == w.nextTabId + 1
      && r.text == "" && r.title == UntitledTitle && r.docName == NewTab(w.nextTabId, nowMs).docName
      && Valid(r)
  {
    var t := NewTab(w.nextTabId, nowMs);
    var w1 := w.(tabs := w.tabs + [t], nextTabId := w.nextTabId + 1);
    StoreEditorAppend(w, t, w1);
    var stored := StoreEditor(w1);
    FindIndexFirst(stored, t.id, |w.tabs|);
    ShowFound(w1.(tabs := stored), t.id, |w.tabs|);
    var r := Add(w, nowMs);
    assert r.tabs == stored;
    assert UniqueIds(r.tabs);
    assert HasId(r.tabs, r.activeTabId) by { assert r.tabs[|w.tabs|].id == t.id; }
  }

  /** A tab appended after the active one is left as it is by `StoreEditor`. */
  lemma StoreEditorAppend(w: Workspace, t: Tab, w1: Workspace)
    requires HasId(w.tabs, w.activeTabId)
    requires w1 == w.(tabs := w.tabs + [t], nextTabId := w1.nextTabId)
    ensures StoreEditor(w1) == StoreEditor(w) + [t]
  {
    var i := FindIndex(w.tabs, w.activeTabId);
    FindIndexFirst(w1.tabs, w.activeTabId, i);
    var u := w.tabs[i].(content := w.text, title := w.title, docName := w.docName);
    assert (w.tabs + [t])[i := u] == w.tabs[i := u] + [t];
  }

  /** What `closeTab` reports. */
  datatype CloseResult = LastTabKept | NoSuchTab | Closed

  function CloseResultOf(w: Workspace, tabId: int): CloseResult {
    if |w.tabs| == 1 then LastTabKept
    else if FindIndex(w.tabs, tabId) == -1 then NoSuchTab
    else Closed
  }

  function Min(a: int, b: int): int {
    if a <= b then a else b
  }

  /**
   * `closeTab`: refuse to close the last tab, ignore an unknown id, else
   * remove the tab; when it was the active one, switch to the tab now at its
   * index (or the new last tab).
   */
  function Close(w: Workspace, tabId: int): Workspace
  {
    if |w.tabs| == 1 then w
    else
      var i := FindIndex(w.tabs, tabId);
      if i == -1 then w
      else
        var rest := w.tabs[..i] + w.tabs[i + 1..];
        if tabId == w.activeTabId then Switch(w.(tabs := rest), rest[Min(i, |rest| - 1)].id)
        else w.(tabs := rest)
  }

  /** The last tab cannot be closed, and closing an unknown id changes nothing. */
  lemma CloseRefused(w: Workspace, tabId: int)
    requires |w.tabs| == 1 || !HasId(w.tabs, tabId)
    ensures Close(w, tabId) == w
    ensures CloseResultOf(w, tabId) != Closed
  {
  }

  /** Removing index `i` keeps the other tabs in order and their ids distinct. */
  lemma RemoveAtKeepsOthers(tabs: seq<Tab>, i: int)
    requires UniqueIds(tabs) && 0 <= i < |tabs|
    ensures var rest := tabs[..i] + tabs[i + 1..];
      && |rest| == |tabs| - 1
      && (forall k :: 0 <= k < i ==> rest[k] == tabs[k])
      && (forall k :: i <= k < |rest| ==> rest[k] == tabs[k + 1])
      && UniqueIds(rest)
      && !HasId(rest, tabs[i].id)
      && forall id :: id != tabs[i].id ==> (HasId(rest, id) <==> HasId(tabs, id))
  {
    var rest := tabs[..i] + tabs[i + 1..];
    forall id | id != tabs[i].id && HasId(tabs, id) ensures HasId(rest, id) {
      var k :| 0 <= k < |tabs| && tabs[k].id == id;
      if k < i { assert rest[k].id == id; } else { assert rest[k - 1].id == id; }
    }
  }

  /**
   * Closing a tab of a workspace with more than one tab removes exactly that
   * tab; the others keep their relative order, nothing is written into any
   * of them, and the invariant holds afterwards.
   */
  lemma CloseRemovesExactlyOne(w: Workspace, tabId: int)
    requires Valid(w) && |w.tabs| > 1 && HasId(w.tabs, tabId)
    ensures var i := FindIndex(w.tabs, tabId);
      var r := Close(w, tabId);
      && r.tabs == w.tabs[..i] + w.tabs[i + 1..]
      && !HasId(r.tabs, tabId)
      && r.nextTabId == w.nextTabId
      && CloseResultOf(w, tabId) == Closed
      && Valid(r)
  {
    var i := FindIndex(w.tabs, tabId);
    var rest := w.tabs[..i] + w.tabs[i + 1..];
    var r := Close(w, tabId);
    RemoveAtKeepsOthers(w.tabs, i);
    if tabId == w.activeTabId {
      var m := Min(i, |rest| - 1);
      var w1 := w.(tabs := rest);
      assert r == Switch(w1, rest[m].id);
      SwitchFromMissingTab(w1, rest[m].id);
      FindIndexFirst(rest, rest[m].id, m);
      ShowFound(w1, rest[m].id, m);
      assert r.tabs == rest && r.activeTabId == rest[m].id;
      assert HasId(r.tabs, r.activeTabId) by { assert r.tabs[m].id == r.activeTabId; }
    } else {
      assert r == w.(tabs := rest);
    }
  }

  /**
   * Closing the active tab makes the tab now at the closed tab's index (or
   * the new last tab) active and shows it; the closed tab's unsaved editor
   * contents are dropped.
   */
  lemma CloseActiveShowsNeighbour(w: Workspace)
    requires Valid(w) && |w.tabs| > 1
    ensures var i := FindIndex(w.tabs, w.activeTabId);
      var rest := w.tabs[..i] + w.tabs[i + 1..];
      var next := rest[Min(i, |rest| - 1)];
      var r := Close(w, w.activeTabId);
      && r.tabs == rest
      && r.activeTabId == next.id
      && r.text == next.content && r.title == next.title && r.docName == next.docName
  {
    var i := FindIndex(w.tabs, w.activeTabId);
    var rest := w.tabs[..i] + w.tabs[i + 1..];
    RemoveAtDropsId(w.tabs, i);
    var m := Min(i, |rest| - 1);
    var w1 := w.(tabs := rest);
    CloseActiveIsSwitch(w, i);
    SwitchFromMissingTab(w1, rest[m].id);
    FindIndexFirst(rest, rest[m].id, m);
    ShowFound(w1, rest[m].id, m);
  }

  /** Closing the active tab, found at `i`, is a switch from the shortened list to the tab at `i` or the new last one. */
  lemma CloseActiveIsSwitch(w: Workspace, i: int)
    requires |w.tabs| > 1 && 0 <= i < |w.tabs| && FindIndex(w.tabs, w.activeTabId) == i
    ensures var rest := w.tabs[..i] + w.tabs[i + 1..];
      Close(w, w.activeTabId) == Switch(w.(tabs := rest), rest[Min(i, |rest| - 1)].id)
  {
  }

  /** When the active id names no tab, switching stores nothing. */
  lemma SwitchFromMissingTab(w: Workspace, tabId: int)
    requires FindIndex(w.tabs, w.activeTabId) == -1
    ensures Switch(w, tabId) == Show(w, tabId)
  {
    assert StoreEditor(w) == w.tabs;
    assert w.(tabs := w.tabs) == w;
  }

  /** Showing a tab found at index `j` loads that tab into the editor. */
  lemma ShowFound(w: Workspace, tabId: int, j: int)
    requires 0 <= j < |w.tabs| && FindIndex(w.tabs, tabId) == j
    ensures Show(w, tabId) == w.(activeTabId := tabId, text := w.tabs[j].content, title := w.tabs[j].title, docName := w.tabs[j].docName)
  {
  }

  /** After splicing out index `i`, ids are still distinct and the removed id is not found. */
  lemma RemoveAtDropsId(tabs: seq<Tab>, i: int)
    requires UniqueIds(tabs) && 0 <= i < |tabs|
    ensures UniqueIds(tabs[..i] + tabs[i + 1..])
    ensures FindIndex(tabs[..i] + tabs[i + 1..], tabs[i].id) == -1
  {
    var rest := tabs[..i] + tabs[i + 1..];
    assert forall k :: 0 <= k < |rest| ==> rest[k] == if k < i then tabs[k] else tabs[k + 1];
  }

  /** Closing a tab that is not active leaves the active id and the editor as they were. */
  lemma CloseInactiveKeepsEditor(w: Workspace, tabId: int)
    requires tabId != w.activeTabId
    ensures var r := Close(w, tabId);
      r.activeTabId == w.activeTabId && r.nextTabId == w.nextTabId
      && r.text == w.text && r.title == w.title && r.docName == w.docName
  {
  }

  /** The text input handler: the editor shows the typed text and, outside collaboration, the active tab stores it. */
  function TypeText(w: Workspace, text: string, collaborating: bool): Workspace
  {
    var i := FindIndex(w.tabs, w.activeTabId);
    if collaborating || i == -1 then w.(text := text)
    else w.(text := text, tabs := w.tabs[i := w.tabs[i].(content := text)])
  }

  /**
   * The title input handler: derive the document name from the title and,
   * outside collaboration, store the title and the name into the active tab.
   */
  function TypeTitle(w: Workspace, title: string, collaborating: bool): Workspace
  {
    var name := DocName(title);
    var i := FindIndex(w.tabs, w.activeTabId);
    if collaborating || i == -1 then w.(title := title, docName := name)
    else w.(title := title, docName := name, tabs := w.tabs[i := w.tabs[i].(title := title, docName := name)])
  }

  /** Replacing a tab by one with the same id keeps the invariant, whatever else the editor holds. */
  lemma ReplaceKeepsValid(w: Workspace, i: int, t: Tab, v: Workspace)
    requires Valid(w) && 0 <= i < |w.tabs| && t.id == w.tabs[i].id
    requires v.tabs == w.tabs[i := t] && v.activeTabId == w.activeTabId && v.nextTabId == w.nextTabId
    ensures Valid(v)
  {
    var a := FindIndex(w.tabs, w.activeTabId);
    assert v.tabs[a].id == w.activeTabId;
  }

  /** After typing text, the active tab holds the typed text, the other tabs are untouched, and the invariant holds. */
  lemma TypeTextSyncsActiveTab(w: Workspace, text: string)
    requires Valid(w)
    ensures var i := FindIndex(w.tabs, w.activeTabId);
      var r := TypeText(w, text, false);
      && r.text == text && r.tabs[i].content == text
      && r.tabs[i] == w.tabs[i].(content := text)
      && (forall k :: 0 <= k < |w.tabs| && k != i ==> r.tabs[k] == w.tabs[k])
      && Valid(r)
  {
    var i := FindIndex(w.tabs, w.activeTabId);
    ReplaceKeepsValid(w, i, w.tabs[i].(content := text), TypeText(w, text, false));
  }

  /**
   * After typing a title, the editor and the active tab hold that title and
   * the document name derived from it, the other tabs are untouched, and the
   * invariant holds.
   */
  lemma TypeTitleSyncsActiveTab(w: Workspace, title: string)
    requires Valid(w)
    ensures var i := FindIndex(w.tabs, w.activeTabId);
      var r := TypeTitle(w, title, false);
      && r.title == title && r.docName == DocName(title)
      && r.tabs[i] == w.tabs[i].(title := title, docName := DocName(title))
      && (forall k :: 0 <= k < |w.tabs| && k != i ==> r.tabs[k] == w.tabs[k])
      && Valid(r)
  {
    var i := FindIndex(w.tabs, w.activeTabId);
    ReplaceKeepsValid(w, i, w.tabs[i].(title := title, docName := DocName(title)), TypeTitle(w, title, false));
  }

  lemma TypeTitleKeepsValid(w: Workspace, title: string, collaborating: bool)
    requires Valid(w)
    ensures Valid(TypeTitle(w, title, collaborating))
  {
    if !collaborating {
      TypeTitleSyncsActiveTab(w, title);
    }
  }

  /** While collaborating, typing changes what the editor shows but no tab. */
  lemma TypingWhileCollaboratingKeepsTabs(w: Workspace, text: string, title: string)
    ensures TypeText(w, text, true) == w.(text := text)
    ensures TypeTitle(w, title, true) == w.(title := title, docName := DocName(title))
  {
  }

  /** The largest id of a non-empty tab list (`Math.max(...tabs.map(t => t.id))`). */
  function MaxId(tabs: seq<Tab>): (m: int)
    requires |tabs| >= 1
    ensures forall k :: 0 <= k < |tabs| ==> tabs[k].id <= m
    ensures HasId(tabs, m)
  {
    if |tabs| == 1 then tabs[0].id
    else
      var m := MaxId(tabs[1..]);
      assert forall k :: 1 <= k < |tabs| ==> tabs[k] == tabs[1..][k - 1];
      if tabs[0].id >= m then tabs[0].id else m
  }

  /** The tab list `initializeTabs` starts from when nothing is stored. */
  const FirstTab := Tab(1, UntitledTitle, "", DefaultDocName)

  /** What storage holds when `saveTabs` wrote it from a valid workspace. */
  predicate StoredTabsValid(saved: seq<Tab>, savedActiveId: Option<int>) {
    |saved| >= 1 && UniqueIds(saved) && (savedActiveId.Some? ==> HasId(saved, savedActiveId.value))
  }

  /** The default single tab `initializeTabs` starts from, the ids' initial values, and what the page shows on load. */
  function PageLoad(text: string, title: string): Workspace {
    Workspace([FirstTab], 1, 2, text, title, DefaultDocName)
  }

  /** The stored tabs with the stored (or first) active id and the counter past the largest id, before anything is shown. */
  function Restored(text: string, title: string, saved: seq<Tab>, savedActiveId: Option<int>): Workspace
    requires |saved| >= 1
  {
    PageLoad(text, title).(tabs := saved, activeTabId := savedActiveId.GetOr(saved[0].id), nextTabId := MaxId(saved) + 1)
  }

  /**
   * `initializeTabs` as written: with stored tabs it calls
   * `switchToTab(activeTabId)` after already setting `activeTabId`, so the
   * page-load editor is first stored into the restored active tab.
   */
  function InitializeTabsAsWritten(saved: Option<seq<Tab>>, savedActiveId: Option<int>, text: string, title: string): Workspace
    requires saved.Some? ==> |saved.value| >= 1
  {
    match saved
    case None => PageLoad(text, title)
    case Some(tabs) =>
      var w := Restored(text, title, tabs, savedActiveId);
      Switch(w, w.activeTabId)
  }

  /**
   * As written, restoring overwrites the stored active tab with the editor
   * as the page loaded it: its saved text, title and document name are lost
   * and the editor keeps showing the page-load text.
   */
  lemma InitializeTabsAsWrittenLosesActiveTab(saved: seq<Tab>, savedActiveId: Option<int>, text: string, title: string)
    requires StoredTabsValid(saved, savedActiveId)
    ensures var w := Restored(text, title, saved, savedActiveId);
      var i := FindIndex(saved, w.activeTabId);
      var r := InitializeTabsAsWritten(Some(saved), savedActiveId, text, title);
      r.tabs[i] == saved[i].(content := text, title := title, docName := DefaultDocName)
      && r.text == text && r.title == title
  {
    var w := Restored(text, title, saved, savedActiveId);
    assert Valid(w) by { assert w.activeTabId == saved[0].id || savedActiveId.Some?; }
    SwitchStoresThenShows(w, w.activeTabId);
  }

  /** A stored tab `{1, "Notes", "hello", "notes"}` reloads as an empty tab under the default title. */
  lemma InitializeTabsAsWrittenCounterexample()
    ensures var saved := [Tab(1, "Notes", "hello", "notes")];
      var r := InitializeTabsAsWritten(Some(saved), Some(1), "", UntitledTitle);
      r.tabs[0].content == "" && r.tabs[0].title == UntitledTitle && r.text == "" && r.tabs != saved
  {
    var saved := [Tab(1, "Notes", "hello", "notes")];
    assert HasId(saved, 1) by { assert saved[0].id == 1; }
    InitializeTabsAsWrittenLosesActiveTab(saved, Some(1), "", UntitledTitle);
    assert FindIndex(saved, 1) == 0;
  }

  /**
   * `initializeTabs` as intended: the stored tabs come back unchanged and
   * the stored active tab is shown.
   */
  function InitializeTabs(saved: Option<seq<Tab>>, savedActiveId: Option<int>, text: string, title: string): Workspace
    requires saved.Some? ==> |saved.value| >= 1
  {
    match saved
    case None => PageLoad(text, title)
    case Some(tabs) =>
      var w := Restored(text, title, tabs, savedActiveId);
      Show(w, w.activeTabId)
  }

  /**
   * Restoring brings back the stored tabs unchanged, shows the stored
   * active tab, puts the counter above every id, and establishes the
   * invariant; with nothing stored there is the single default tab.
   */
  lemma InitializeTabsRestores(saved: Option<seq<Tab>>, savedActiveId: Option<int>, text: string, title: string)
    requires saved.Some? ==> StoredTabsValid(saved.value, savedActiveId)
    ensures var r := InitializeTabs(saved, savedActiveId, text, title);
      && Valid(r)
      && (saved.None? ==> r.tabs == [FirstTab] && r.activeTabId == 1 && r.nextTabId == 2)
      && (saved.Some? ==>
        && r.tabs == saved.value
        && r.activeTabId == savedActiveId.GetOr(saved.value[0].id)
        && var a := saved.value[FindIndex(saved.value, r.activeTabId)];
        r.text == a.content && r.title == a.title && r.docName == a.docName)
  {
    var r := InitializeTabs(saved, savedActiveId, text, title);
    if saved.None? {
      assert r.tabs[0].id == 1;
    } else {
      var w := Restored(text, title, saved.value, savedActiveId);
      assert HasId(w.tabs, w.activeTabId) by {
        if savedActiveId.None? { assert w.tabs[0].id == w.activeTabId; }
      }
    }
  }

  /** The editor's tab state, updated in place as the page's global variables are. */
  class TabManager {
    var tabs: seq<Tab>
    var activeTabId: int
    var nextTabId: int
    var text: string
    var title: string
    var docName: string

    function State(): Workspace
      reads this
    {
      Workspace(tabs, activeTabId, nextTabId, text, title, docName)
    }

    /** Page load followed by `initializeTabs` (as intended: the stored active tab is not overwritten). */
    constructor (saved: Option<seq<Tab>>, savedActiveId: Option<int>, pageText: string, pageTitle: string)
      requires saved.Some? ==> StoredTabsValid(saved.value, savedActiveId)
      ensures State() == InitializeTabs(saved, savedActiveId, pageText, pageTitle)
      ensures Valid(State())
    {
      tabs := [FirstTab];
      activeTabId := 1;
      nextTabId := 2;
      text := pageText;
      title := pageTitle;
      docName := DefaultDocName;
      new;
      if saved.Some? {
        tabs := saved.value;
        activeTabId := savedActiveId.GetOr(tabs[0].id);
        nextTabId := MaxId(tabs) + 1;
        var j := FindIndex(tabs, activeTabId);
        if j != -1 {
          text := tabs[j].content;
          title := tabs[j].title;
          docName := tabs[j].docName;
        }
      }
      InitializeTabsRestores(saved, savedActiveId, pageText, pageTitle);
    }

    method SwitchToTab(tabId: int)
      modifies this
      ensures State() == Switch(old(State()), tabId)
      ensures Valid(old(State())) && HasId(old(tabs), tabId) ==> Valid(State())
    {
      var current := FindIndex(tabs, activeTabId);
      if current != -1 {
        tabs := tabs[current := tabs[current].(content := text, title := title, docName := docName)];
      }
      activeTabId := tabId;
      var j := FindIndex(tabs, tabId);
      if j != -1 {
        text := tabs[j].content;
        title := tabs[j].title;
        docName := tabs[j].docName;
      }
      if Valid(old(State())) && HasId(old(tabs), tabId) {
        SwitchStoresThenShows(old(State()), tabId);
      }
    }

    method AddTab(nowMs: nat)
      modifies this
      ensures State() == Add(old(State()), nowMs)
      ensures Valid(old(State())) ==> Valid(State())
    {
      var t := NewTab(nextTabId, nowMs);
      nextTabId := nextTabId + 1;
      tabs := tabs + [t];
      SwitchToTab(t.id);
      if Valid(old(State())) {
        AddAppendsFreshTab(old(State()), nowMs);
      }
    }

    method CloseTab(tabId: int) returns (result: CloseResult)
      modifies this
      ensures result == CloseResultOf(old(State()), tabId)
      ensures State() == Close(old(State()), tabId)
      ensures Valid(old(State())) ==> Valid(State())
    {
      if |tabs| == 1 {
        return LastTabKept;
      }
      var i := FindIndex(tabs, tabId);
      if i == -1 {
        return NoSuchTab;
      }
      tabs := tabs[..i] + tabs[i + 1..];
      if tabId == activeTabId {
        var next := tabs[Min(i, |tabs| - 1)];
        SwitchToTab(next.id);
      }
      if Valid(old(State())) {
        CloseRemovesExactlyOne(old(State()), tabId);
      }
      return Closed;
    }

    method OnTextInput(newText: string, collaborating: bool)
      modifies this
      ensures State() == TypeText(old(State()), newText, collaborating)
      ensures Valid(old(State())) ==> Valid(State())
    {
      text := newText;
      if !collaborating {
        var i := FindIndex(tabs, activeTabId);
        if i != -1 {
          tabs := tabs[i := tabs[i].(content := newText)];
        }
      }
      if Valid(old(State())) && !collaborating {
        TypeTextSyncsActiveTab(old(State()), newText);
      }
    }

    method OnTitleInput(newTitle: string, collaborating: bool)
      modifies this
      ensures State() == TypeTitle(old(State()), newTitle, collaborating)
      ensures Valid(old(State())) ==> Valid(State())
    {
      ghost var after := TypeTitle(State(), newTitle, collaborating);
      if Valid(State()) {
        TypeTitleKeepsValid(State(), newTitle, collaborating);
      }
      var name := DocName(newTitle);
      title := newTitle;
      docName := name;
      if !collaborating {
        var i := FindIndex(tabs, activeTabId);
        if i != -1 {
          tabs := tabs[i := tabs[i].(title := newTitle, docName := name)];
        }
      }
      assert State() == after;
    }
  }
}
