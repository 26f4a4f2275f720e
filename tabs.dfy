/** The `TabBar` component's own tab list: tabs identified by a numeric id (taken from
    the clock when a tab is added, so not necessarily unique), the active tab's id and
    the id of the tab whose name is being edited. Tabs are plain values that the
    handlers replace, never change in place. */
module Tabs {
  import opened Collections
  import opened Text

  /** A tab's rows, as plain cell maps. */
  type SheetRow = map<string, string>

  datatype Tab = Tab(id: int, name: string, data: seq<SheetRow>)

  /** The ids of the tabs, in tab order. */
  function Ids(tabs: seq<Tab>): (ids: seq<int>)
    ensures |ids| == |tabs| && forall i :: 0 <= i < |tabs| ==> ids[i] == tabs[i].id
  {
    seq(|tabs|, i requires 0 <= i < |tabs| => tabs[i].id)
  }

  /** `tabs.map(t => t.id === id ? { ...t, name: newName } : t)`. */
  function Renamed(tabs: seq<Tab>, id: int, newName: string): (r: seq<Tab>)
    ensures |r| == |tabs| && Ids(r) == Ids(tabs)
    ensures forall i :: 0 <= i < |r| ==> r[i].data == tabs[i].data
    ensures forall i :: 0 <= i < |r| ==> r[i].name == if tabs[i].id == id then newName else tabs[i].name
  {
    var r := seq(|tabs|, i requires 0 <= i < |tabs| => if tabs[i].id == id then tabs[i].(name := newName) else tabs[i]);
    assert forall i :: 0 <= i < |r| ==> r[i].id == tabs[i].id;
    r
  }

  /** `tabs.filter(t => t.id !== id)`. */
  function WithoutId(tabs: seq<Tab>, id: int): (r: seq<Tab>)
    ensures forall i :: 0 <= i < |r| ==> r[i].id != id && r[i] in tabs
    ensures forall i :: 0 <= i < |tabs| && tabs[i].id != id ==> tabs[i] in r
  {
    var keep := (t: Tab) => t.id != id;
    FilterMembers(tabs, keep);
    Filter(tabs, keep)
  }

  /** Closing keeps the surviving tabs in their relative order: the tabs before and
      after any split point are filtered independently. */
  lemma CloseKeepsOrder(a: seq<Tab>, b: seq<Tab>, id: int)
    ensures WithoutId(a + b, id) == WithoutId(a, id) + WithoutId(b, id)
  {
    FilterConcat(a, b, (t: Tab) => t.id != id);
  }

  /** With unique ids, closing an existing tab removes exactly its position, so a bar
      of two or more tabs is never emptied. */
  lemma CloseUniqueRemovesOne(tabs: seq<Tab>, i: nat)
    requires Distinct(Ids(tabs)) && i < |tabs|
    ensures WithoutId(tabs, tabs[i].id) == tabs[..i] + tabs[i + 1..]
    ensures |WithoutId(tabs, tabs[i].id)| == |tabs| - 1
  {
    var keep := (t: Tab) => t.id != tabs[i].id;
    forall j | 0 <= j < |tabs| && j != i ensures keep(tabs[j]) {
      assert Ids(tabs)[j] != Ids(tabs)[i];
    }
    FilterDropsOne(tabs, i, keep);
  }

  /** Two tabs added within the same millisecond share an id; the close button is
      shown (there are two tabs), and closing one removes both, leaving no tab. */
  lemma CloseDuplicateIdEmptiesBar(id: int)
    ensures WithoutId([Tab(id, "Sheet 1", []), Tab(id, "Sheet 2", [])], id) == []
  {
    var tabs := [Tab(id, "Sheet 1", []), Tab(id, "Sheet 2", [])];
    var r := WithoutId(tabs, id);
    assert forall t :: t in tabs ==> t.id == id;
    assert |r| > 0 ==> r[0] in tabs && r[0].id != id;
  }

  class TabBar {
    var tabs: seq<Tab>
    var activeId: int
    var editingId: Option<int>

    constructor ()
      ensures tabs == [Tab(1, "Sheet 1", [])] && activeId == 1 && editingId == None
    {
      tabs := [Tab(1, "Sheet 1", [])];
      activeId := 1;
      editingId := None;
    }

    /** Appends an empty tab named "Sheet <count+1>" with the given id (the clock
        reading) and activates it; its rows are handed to the switch callback. */
    method AddTab(newId: int) returns (switchedTo: seq<SheetRow>)
      modifies this
      ensures tabs == old(tabs) + [Tab(newId, "Sheet " + NatToString(|old(tabs)| + 1), [])]
      ensures activeId == newId && editingId == old(editingId)
      ensures switchedTo == []
    {
      var newTab := Tab(newId, "Sheet " + NatToString(|tabs| + 1), []);
      tabs := tabs + [newTab];
      activeId := newId;
      switchedTo := newTab.data;
    }

    /** Renames every tab carrying `id` and leaves name editing. */
    method RenameTab(id: int, newName: string)
      modifies this
      ensures tabs == Renamed(old(tabs), id, newName)
      ensures activeId == old(activeId) && editingId == None
    {
      tabs := Renamed(tabs, id, newName);
      editingId := None;
    }

    /** Removes every tab carrying `id`. If the active tab was closed and tabs remain,
        the first remaining tab becomes active and its rows are handed to the switch
        callback; otherwise the active id is kept, even when no tab is left. */
    method CloseTab(id: int) returns (switchedTo: Option<seq<SheetRow>>)
      modifies this
      ensures tabs == WithoutId(old(tabs), id) && editingId == old(editingId)
      ensures old(activeId) == id && |tabs| > 0 ==> activeId == tabs[0].id && switchedTo == Some(tabs[0].data)
      ensures !(old(activeId) == id && |tabs| > 0) ==> activeId == old(activeId) && switchedTo == None
    {
      var filtered := WithoutId(tabs, id);
      tabs := filtered;
      if activeId == id && |filtered| > 0 {
        activeId := filtered[0].id;
        switchedTo := Some(filtered[0].data);
      } else {
        switchedTo := None;
      }
    }

    /** Clicking a tab activates it and hands its rows to the switch callback. */
    method ClickTab(tab: Tab) returns (switchedTo: seq<SheetRow>)
      modifies this
      ensures activeId == tab.id && switchedTo == tab.data
      ensures tabs == old(tabs) && editingId == old(editingId)
    {
      activeId := tab.id;
      switchedTo := tab.data;
    }
  }
}
