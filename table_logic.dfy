/** The values the table component computes in its effect and handlers
    (src/components/Home.js): the search filter, the page count, the page
    window, the row edit, the selection updates and the deletions, each as a
    function of the state it reads, with the properties the component relies
    on proved as lemmas. */
module TableLogic {
  import opened JsArray
  import opened Records

  /** `pageSize`: fixed when the component is created and never changed. */
  const PageSize: nat := 10

  /** The ids of the rows, in order. */
  function Ids(rows: seq<Row>): (ids: seq<Value>)
    ensures |ids| == |rows|
    ensures forall i :: 0 <= i < |rows| ==> ids[i] == IdOf(rows[i])
  {
    Map(rows, IdOf)
  }

  /** Each id occurs at most once. */
  ghost predicate NoDuplicates(ids: seq<Value>)
  {
    forall x :: multiset(ids)[x] <= 1
  }

  // ---------------------------------------------------------------------------
  // Search filter and paging

  /** `displayedData`: the rows with a string field that includes the query,
      ignoring letter case, in the order of `data`. */
  function SearchFilter(data: seq<Row>, query: string): (r: seq<Row>)
    ensures IsSubsequence(r, data)
    ensures forall i :: 0 <= i < |r| ==> r[i] in data && Matches(r[i], query)
    ensures forall i :: 0 <= i < |data| && Matches(data[i], query) ==> data[i] in r
  {
    var keep := row => Matches(row, query);
    FilterIsSubsequence(data, keep);
    Filter(data, keep)
  }

  /** A matching row is shown as many times as `data` holds it; any other
      row is not shown. */
  lemma SearchFilterCount(data: seq<Row>, query: string, row: Row)
    ensures multiset(SearchFilter(data, query))[row] == if Matches(row, query) then multiset(data)[row] else 0
  {
    FilterCount(data, r => Matches(r, query), row);
  }

  /** With an empty query the filter keeps every row that has a string field,
      so a table of such rows is shown whole. */
  lemma EmptySearchKeepsAll(data: seq<Row>)
    requires forall i :: 0 <= i < |data| ==> HasStringField(data[i])
    ensures SearchFilter(data, "") == data
  {
    forall row | row in data ensures Matches(row, "") {
      EmptyQueryMatches(row);
    }
    FilterKeepsAll(data, row => Matches(row, ""));
  }

  /** `totalPages`: the fewest pages of PageSize rows that hold `n` rows. There
      is no minimum of one page: no rows give no pages. */
  function PageCount(n: nat): (r: nat)
    ensures n <= r * PageSize < n + PageSize
    ensures r == 0 <==> n == 0
  {
    (n + PageSize - 1) / PageSize
  }

  /** The rows shown on the 1-based `page`: a slice of PageSize rows starting
      at row `(page - 1) * PageSize`. Nothing keeps `page` positive, so
      JavaScript's counting back from the end for negative arguments applies. */
  function PageWindow(rows: seq<Row>, page: int): (r: seq<Row>)
    ensures |r| <= PageSize
    ensures 1 <= page ==> r == rows[Min((page - 1) * PageSize, |rows|)..Min(page * PageSize, |rows|)]
    ensures 1 <= page && |rows| <= (page - 1) * PageSize ==> r == []
    ensures page == 0 ==> r == []
  {
    var start := (page - 1) * PageSize;
    Slice(rows, start, start + PageSize)
  }

  /** A page at or after the first shows rows exactly when it is one of the
      `PageCount` pages. */
  lemma PageWindowNonEmptyIffInRange(rows: seq<Row>, page: int)
    requires 1 <= page
    ensures PageWindow(rows, page) != [] <==> page <= PageCount(|rows|)
  {
    var n := |rows|;
    var c := PageCount(n);
    if page <= c {
      assert (page - 1) * PageSize <= (c - 1) * PageSize < n;
    } else {
      assert c * PageSize <= (page - 1) * PageSize;
    }
  }

  /** Pages 1 to `k`, one after another. */
  ghost function Pages(rows: seq<Row>, k: nat): seq<Row>
  {
    if k == 0 then [] else Pages(rows, k - 1) + PageWindow(rows, k)
  }

  /** The first `k` pages are the first `k * PageSize` rows. */
  lemma {:induction false} PagesArePrefix(rows: seq<Row>, k: nat)
    ensures Pages(rows, k) == rows[..Min(k * PageSize, |rows|)]
  {
    if k > 0 {
      PagesArePrefix(rows, k - 1);
      var a, b := Min((k - 1) * PageSize, |rows|), Min(k * PageSize, |rows|);
      assert rows[..a] + rows[a..b] == rows[..b];
    }
  }

  /** Stepping through pages 1 to `totalPages` shows every row once, in order. */
  lemma PagesCoverRows(rows: seq<Row>)
    ensures Pages(rows, PageCount(|rows|)) == rows
  {
    PagesArePrefix(rows, PageCount(|rows|));
  }

  // ---------------------------------------------------------------------------
  // Editing

  /** `handleEdit`: every row whose id is `id` gets `field` set to `value`; the
      other rows, the other fields and the order stay as they were. */
  function UpdateField(data: seq<Row>, id: Value, field: string, value: string): (r: seq<Row>)
    ensures |r| == |data|
    ensures forall i :: 0 <= i < |data| && IdOf(data[i]) != id ==> r[i] == data[i]
    ensures forall i :: 0 <= i < |data| && IdOf(data[i]) == id ==>
              r[i].Keys == data[i].Keys + {field} && r[i][field] == Str(value) &&
              forall k :: k in data[i] && k != field ==> r[i][k] == data[i][k]
  {
    Map(data, row => if IdOf(row) == id then row[field := Str(value)] else row)
  }

  /** Editing an id that no row has changes nothing. */
  lemma UpdateAbsentIdIsNoOp(data: seq<Row>, id: Value, field: string, value: string)
    requires id !in Ids(data)
    ensures UpdateField(data, id, field, value) == data
  {
    var r := UpdateField(data, id, field, value);
    forall i | 0 <= i < |data| ensures r[i] == data[i] {
      assert Ids(data)[i] == IdOf(data[i]);
    }
  }

  /** Editing any field but `id` leaves the ids of the rows as they were. */
  lemma UpdateFieldKeepsIds(data: seq<Row>, id: Value, field: string, value: string)
    requires field != "id"
    ensures Ids(UpdateField(data, id, field, value)) == Ids(data)
  {
    var r := UpdateField(data, id, field, value);
    forall i | 0 <= i < |data| ensures IdOf(r[i]) == IdOf(data[i]) {
      if IdOf(data[i]) == id {
        assert "id" in r[i] <==> "id" in data[i];
      }
    }
  }

  // ---------------------------------------------------------------------------
  // Selection

  /** `ids` with every occurrence of `id` taken out. */
  function RemoveId(ids: seq<Value>, id: Value): (r: seq<Value>)
    ensures id !in r
    ensures IsSubsequence(r, ids)
    ensures forall x :: x != id ==> multiset(r)[x] == multiset(ids)[x]
  {
    var keep := x => x != id;
    FilterIsSubsequence(ids, keep);
    forall x ensures multiset(Filter(ids, keep))[x] == if x != id then multiset(ids)[x] else 0 {
      FilterCount(ids, keep, x);
    }
    Filter(ids, keep)
  }

  /** `handleCheckboxChange`: a selected id is deselected (all its occurrences
      go, the other ids keep their order); any other id is appended. */
  function Toggle(selected: seq<Value>, id: Value): (r: seq<Value>)
    ensures id in selected ==>
      id !in r && IsSubsequence(r, selected) && forall x :: x != id ==> multiset(r)[x] == multiset(selected)[x]
    ensures id !in selected ==> r == selected + [id]
  {
    if id in selected then RemoveId(selected, id) else selected + [id]
  }

  /** Ticking an unselected box and unticking it again restores the selection. */
  lemma ToggleTwiceRestores(selected: seq<Value>, id: Value)
    requires id !in selected
    ensures Toggle(Toggle(selected, id), id) == selected
  {
    var keep := x => x != id;
    FilterAppend(selected, [id], keep);
    FilterKeepsAll(selected, keep);
    assert Filter([id], keep) == [];
  }

  /** A selection without repeated ids stays without them. */
  lemma ToggleKeepsNoDuplicates(selected: seq<Value>, id: Value)
    requires NoDuplicates(selected)
    ensures NoDuplicates(Toggle(selected, id))
  {
    var r := Toggle(selected, id);
    if id !in selected {
      assert multiset(r) == multiset(selected) + multiset{id};
    }
    forall x ensures multiset(r)[x] <= 1 {
      assert multiset(selected)[x] <= 1;
    }
  }

  /** The ids of the rows of `data` (unfiltered) on `page`. */
  function PageIds(data: seq<Row>, page: int): (ids: seq<Value>)
    ensures |ids| <= PageSize
    ensures 1 <= page ==> |ids| == Min(page * PageSize, |data|) - Min((page - 1) * PageSize, |data|)
    ensures 1 <= page ==> forall i :: 0 <= i < |ids| ==> ids[i] == IdOf(data[(page - 1) * PageSize + i])
    ensures page == 0 ==> ids == []
  {
    Ids(PageWindow(data, page))
  }

  /** `handleSelectAll`: when the selection has as many ids as the page of
      the unfiltered rows, whichever ids they are, it is cleared; otherwise it
      becomes exactly that page's ids, in order, dropping any other choice. */
  function SelectAll(data: seq<Row>, selected: seq<Value>, page: int): (r: seq<Value>)
    ensures |selected| == |PageIds(data, page)| ==> r == []
    ensures |selected| != |PageIds(data, page)| ==> r == PageIds(data, page)
  {
    var pageIds := PageIds(data, page);
    if |selected| == |pageIds| then [] else pageIds
  }

  /** From an empty selection, select-all on a page with rows selects it and a
      second select-all clears it again. */
  lemma SelectAllTwiceFromEmpty(data: seq<Row>, page: int)
    requires PageIds(data, page) != []
    ensures SelectAll(data, [], page) == PageIds(data, page)
    ensures SelectAll(data, SelectAll(data, [], page), page) == []
  {
  }

  // ---------------------------------------------------------------------------
  // Deletion

  /** Deleting one row (`handleDeleteAction`): every row with that id goes,
      the rest stay in order. */
  function RemoveRowsWithId(data: seq<Row>, id: Value): (r: seq<Row>)
    ensures id !in Ids(r)
    ensures forall i :: 0 <= i < |data| && IdOf(data[i]) != id ==> data[i] in r
    ensures IsSubsequence(r, data)
  {
    var keep := row => IdOf(row) != id;
    FilterIsSubsequence(data, keep);
    Filter(data, keep)
  }

  /** A row with another id keeps all its occurrences; a row with that id has none. */
  lemma RemoveRowsWithIdCount(data: seq<Row>, id: Value, row: Row)
    ensures multiset(RemoveRowsWithId(data, id))[row] == if IdOf(row) != id then multiset(data)[row] else 0
  {
    FilterCount(data, r => IdOf(r) != id, row);
  }

  /** Bulk deletion (`handleDeleteSelected`): the rows whose id is selected go,
      the rest stay in order. */
  function RemoveRowsWithIds(data: seq<Row>, selected: seq<Value>): (r: seq<Row>)
    ensures forall i :: 0 <= i < |r| ==> IdOf(r[i]) !in selected
    ensures forall i :: 0 <= i < |data| && IdOf(data[i]) !in selected ==> data[i] in r
    ensures IsSubsequence(r, data)
  {
    var keep := row => IdOf(row) !in selected;
    FilterIsSubsequence(data, keep);
    Filter(data, keep)
  }

  /** An unselected row keeps all its occurrences; a selected one has none. */
  lemma RemoveRowsWithIdsCount(data: seq<Row>, selected: seq<Value>, row: Row)
    ensures multiset(RemoveRowsWithIds(data, selected))[row] == if IdOf(row) !in selected then multiset(data)[row] else 0
  {
    FilterCount(data, r => IdOf(r) !in selected, row);
  }

  // ---------------------------------------------------------------------------
  // Every selected id belongs to a row of the table

  ghost predicate SelectionInStore(data: seq<Row>, selected: seq<Value>)
  {
    forall x :: x in selected ==> x in Ids(data)
  }

  /** Ticking the box of a row of the table keeps the selection inside the table. */
  lemma ToggleKeepsSelectionInStore(data: seq<Row>, selected: seq<Value>, id: Value)
    requires SelectionInStore(data, selected)
    requires id in Ids(data)
    ensures SelectionInStore(data, Toggle(selected, id))
  {
    var r := Toggle(selected, id);
    forall x | x in r ensures x in Ids(data) {
      if id in selected {
        assert multiset(r)[x] > 0;
        assert multiset(selected)[x] > 0;
      }
    }
  }

  /** Select-all only ever selects ids of rows of the table. */
  lemma SelectAllKeepsSelectionInStore(data: seq<Row>, selected: seq<Value>, page: int)
    ensures SelectionInStore(data, SelectAll(data, selected, page))
  {
    var w := PageWindow(data, page);
    forall x | x in PageIds(data, page) ensures x in Ids(data) {
      var i :| 0 <= i < |w| && Ids(w)[i] == x;
      assert w[i] in data;
      var j :| 0 <= j < |data| && data[j] == w[i];
      assert Ids(data)[j] == x;
    }
  }

  /** Deleting a row prunes its id from the selection, so no selected id is
      left without its row. */
  lemma DeleteOneKeepsSelectionInStore(data: seq<Row>, selected: seq<Value>, id: Value)
    requires SelectionInStore(data, selected)
    ensures SelectionInStore(RemoveRowsWithId(data, id), RemoveId(selected, id))
  {
    var rows, sel := RemoveRowsWithId(data, id), RemoveId(selected, id);
    forall x | x in sel ensures x in Ids(rows) {
      assert multiset(sel)[x] > 0 && x != id;
      assert x in Ids(data);
      var j :| 0 <= j < |data| && IdOf(data[j]) == x;
      assert multiset(data)[data[j]] > 0;
      RemoveRowsWithIdCount(data, id, data[j]);
      assert multiset(rows)[data[j]] > 0;
      var k :| 0 <= k < |rows| && rows[k] == data[j];
      assert Ids(rows)[k] == x;
    }
  }
}
