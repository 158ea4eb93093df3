/** The open-tab list: saved as a whole inside one transaction, read back
    in tab order. */
module Tabs {
  import opened Wrappers
  import opened Sorting
  import opened Schema

  /** A tab as the front end sends and receives it; `isActive` is a boolean
      here and an INTEGER in the table. */
  datatype PersistedTab = PersistedTab(id: string, documentId: string, tabOrder: int, isActive: bool, createdAt: int)

  /** The row written for a tab: `is_active as i64`. */
  function ToRow(t: PersistedTab): (r: TabRow)
    ensures r.isActive == 0 || r.isActive == 1
  {
    TabRow(t.id, t.documentId, t.tabOrder, if t.isActive then 1 else 0, t.createdAt)
  }

  /** The tab read from a row: `is_active != 0`. */
  function FromRow(r: TabRow): PersistedTab {
    PersistedTab(r.id, r.documentId, r.tabOrder, r.isActive != 0, r.createdAt)
  }

  /** Writing a tab and reading it back gives the same tab, `isActive`
      included; a row read and written again is the same row exactly when
      its `is_active` is 0 or 1. */
  lemma TabRoundTrip(t: PersistedTab, r: TabRow)
    ensures FromRow(ToRow(t)) == t
    ensures ToRow(FromRow(r)) == r <==> r.isActive == 0 || r.isActive == 1
  {
  }

  function RowsOf(tabs: seq<PersistedTab>): (r: seq<TabRow>)
    ensures |r| == |tabs|
    ensures forall i :: 0 <= i < |r| ==> FromRow(r[i]) == tabs[i]
  {
    seq(|tabs|, i requires 0 <= i < |tabs| => ToRow(tabs[i]))
  }

  function TabsOf(rows: seq<TabRow>): (r: seq<PersistedTab>)
    ensures |r| == |rows|
  {
    seq(|rows|, i requires 0 <= i < |rows| => FromRow(rows[i]))
  }

  predicate ByTabOrder(a: PersistedTab, b: PersistedTab) {
    a.tabOrder <= b.tabOrder
  }

  /** `fetch_open_tabs`: every row, ascending by `tab_order`. */
  function FetchOpenTabs(rows: seq<TabRow>): (r: seq<PersistedTab>)
    ensures |r| == |rows| && SortedBy(r, ByTabOrder)
    ensures multiset(r) == multiset(TabsOf(rows))
  {
    SortBySorted(TabsOf(rows), ByTabOrder);
    SortByLength(TabsOf(rows), ByTabOrder);
    SortBy(TabsOf(rows), ByTabOrder)
  }

  function TabId(t: PersistedTab): string {
    t.id
  }

  /** What the inserts need to succeed: distinct ids (the table has just
      been emptied) and documents that exist. */
  predicate CanPersist(tabs: seq<PersistedTab>, documents: map<string, Document>) {
    UniqueBy(tabs, TabId) && forall i :: 0 <= i < |tabs| ==> tabs[i].documentId in documents
  }

  /** `persist_open_tabs`: delete every row, insert the tabs one by one,
      commit. The first failing insert returns early, the transaction is
      dropped uncommitted, and the old rows stay. */
  method PersistOpenTabs(db: Database, tabs: seq<PersistedTab>) returns (r: Result<Unit>)
    requires db.Valid()
    modifies db`openTabs
    ensures db.Valid()
    ensures r.Ok? <==> CanPersist(tabs, db.documents)
    ensures r.Ok? ==> db.openTabs == RowsOf(tabs)
    ensures r.Err? ==> db.openTabs == old(db.openTabs)
  {
    var rows: seq<TabRow> := [];
    var i := 0;
    while i < |tabs|
      invariant 0 <= i <= |tabs|
      invariant rows == RowsOf(tabs[..i])
      invariant UniqueBy(tabs[..i], TabId)
      invariant forall k :: 0 <= k < i ==> tabs[k].documentId in db.documents
    {
      var t := tabs[i];
      if HasKey(rows, TabKey, t.id) {
        ghost var k :| 0 <= k < |rows| && TabKey(rows[k]) == t.id;
        assert tabs[k].id == t.id;
        return Err("UNIQUE constraint failed: open_tabs.id");
      }
      if t.documentId !in db.documents {
        return Err("FOREIGN KEY constraint failed");
      }
      forall k | 0 <= k < i ensures tabs[k].id != t.id {
        assert TabKey(rows[k]) == tabs[k].id;
      }
      rows := rows + [ToRow(t)];
      i := i + 1;
      assert tabs[..i] == tabs[..i - 1] + [t];
    }
    assert tabs[..|tabs|] == tabs;
    db.openTabs := rows;
    forall a, b | 0 <= a < b < |rows| ensures TabKey(rows[a]) != TabKey(rows[b]) {
      assert TabKey(rows[a]) == tabs[a].id && TabKey(rows[b]) == tabs[b].id;
    }
    return Ok(Unit);
  }

  lemma TabsOfRowsOf(tabs: seq<PersistedTab>)
    ensures TabsOf(RowsOf(tabs)) == tabs
  {
  }

  /** Reading after a successful save gives back exactly the saved tabs,
      every field kept, ordered by `tab_order`; saving no tabs leaves none. */
  lemma FetchAfterPersist(tabs: seq<PersistedTab>)
    ensures var r := FetchOpenTabs(RowsOf(tabs));
      && SortedBy(r, ByTabOrder)
      && multiset(r) == multiset(tabs)
      && (tabs == [] ==> r == [])
  {
    TabsOfRowsOf(tabs);
    SortBySorted(tabs, ByTabOrder);
  }
}
