/** The state of the `Home` table component and its event handlers. Every
    React state variable is a field; every handler is a method that overwrites
    the fields its setters change. The filter effect, which React runs after
    any change to `data` or `searchQuery`, is run at the end of each handler
    that changes one of them, so `displayedData` and `totalPages` always agree
    with `data` and `searchQuery` (see Valid). */
module Home {
  import opened Records
  import opened TableLogic
  import opened JsArray

  /** How the single fetch of the member list ends. */
  datatype FetchOutcome = Fetched(rows: seq<Row>) | FetchFailed

  class TableState {
    var data: seq<Row>
    var currentPage: int
    var displayedData: seq<Row>
    var totalPages: nat
    var searchQuery: string
    var selectedRows: seq<Value>
    /** The id of the row in edit mode; `Null` when none is. */
    var editingRowId: Value

    /** The derived state is what the filter effect computes from the rest. */
    ghost predicate Valid()
      reads this
    {
      displayedData == SearchFilter(data, searchQuery) &&
      totalPages == PageCount(|displayedData|)
    }

    /** The filter effect: recompute the shown rows and the page count. */
    method RunFilterEffect()
      modifies this`displayedData, this`totalPages
      ensures Valid()
    {
      displayedData := SearchFilter(data, searchQuery);
      totalPages := PageCount(|displayedData|);
    }

    /** The component's first render and mount effects, before the fetch ends:
        no rows, page 1, empty query, nothing selected, no row in edit mode.
        The filter effect has already set the page count to 0. */
    constructor ()
      ensures Valid()
      ensures data == [] && currentPage == 1 && searchQuery == ""
      ensures selectedRows == [] && editingRowId == Null
      ensures displayedData == [] && totalPages == 0
    {
      data := [];
      currentPage := 1;
      displayedData := [];
      totalPages := 1;
      searchQuery := "";
      selectedRows := [];
      editingRowId := Null;
      new;
      RunFilterEffect();
    }

    /** `fetchData` once the response is in: a parsed list replaces the rows
        (the query, page, selection and edit mode stay); a failure is only
        logged. */
    method HandleFetchOutcome(outcome: FetchOutcome)
      requires Valid()
      modifies this
      ensures Valid()
      ensures data == if outcome.Fetched? then outcome.rows else old(data)
      ensures currentPage == old(currentPage) && searchQuery == old(searchQuery)
      ensures selectedRows == old(selectedRows) && editingRowId == old(editingRowId)
    {
      if outcome.Fetched? {
        data := outcome.rows;
        totalPages := PageCount(|outcome.rows|);
        RunFilterEffect();
      }
    }

    /** The rows `renderTableRows` shows. */
    function RenderedRows(): (rows: seq<Row>)
      reads this
      requires Valid()
      ensures rows == PageWindow(displayedData, currentPage)
      ensures 1 <= currentPage ==>
        rows == displayedData[Min((currentPage - 1) * PageSize, |displayedData|)..Min(currentPage * PageSize, |displayedData|)]
      ensures |rows| <= PageSize
      ensures forall i :: 0 <= i < |rows| ==> rows[i] in data && Matches(rows[i], searchQuery)
      ensures 1 <= currentPage ==> (rows != [] <==> currentPage <= totalPages)
    {
      var rows := PageWindow(displayedData, currentPage);
      if 1 <= currentPage then
        PageWindowNonEmptyIffInRange(displayedData, currentPage);
        rows
      else
        rows
    }

    /** `handlePageChange`: the page is taken as given, without clamping. */
    method HandlePageChange(page: int)
      requires Valid()
      modifies this`currentPage
      ensures Valid() && currentPage == page
    {
      currentPage := page;
    }

    /** `handleEdit`: applied to `data` at once; there is no draft copy. */
    method HandleEdit(id: Value, field: string, value: string)
      requires Valid()
      modifies this
      ensures Valid()
      ensures data == UpdateField(old(data), id, field, value)
      ensures currentPage == old(currentPage) && searchQuery == old(searchQuery)
      ensures selectedRows == old(selectedRows) && editingRowId == old(editingRowId)
    {
      data := UpdateField(data, id, field, value);
      RunFilterEffect();
    }

    /** `handleSearchChange`: a new query always returns to page 1; the
        selection is kept. */
    method HandleSearchChange(query: string)
      requires Valid()
      modifies this
      ensures Valid()
      ensures searchQuery == query && currentPage == 1
      ensures data == old(data) && selectedRows == old(selectedRows) && editingRowId == old(editingRowId)
    {
      searchQuery := query;
      currentPage := 1;
      RunFilterEffect();
    }

    /** `handleCheckboxChange`. */
    method HandleCheckboxChange(id: Value)
      requires Valid()
      modifies this`selectedRows
      ensures Valid()
      ensures selectedRows == Toggle(old(selectedRows), id)
    {
      selectedRows := Toggle(selectedRows, id);
    }

    /** `handleSelectAll`: works on the page of `data`, not of the shown rows. */
    method HandleSelectAll()
      requires Valid()
      modifies this`selectedRows
      ensures Valid()
      ensures selectedRows == SelectAll(data, old(selectedRows), currentPage)
    {
      selectedRows := SelectAll(data, selectedRows, currentPage);
    }

    /** `handleDeleteSelected`: no confirmation; the page is not clamped. */
    method HandleDeleteSelected()
      requires Valid()
      modifies this
      ensures Valid()
      ensures data == RemoveRowsWithIds(old(data), old(selectedRows)) && selectedRows == []
      ensures currentPage == old(currentPage) && searchQuery == old(searchQuery)
      ensures editingRowId == old(editingRowId)
    {
      data := RemoveRowsWithIds(data, selectedRows);
      selectedRows := [];
      RunFilterEffect();
    }

    /** `handleEditAction`: any row already in edit mode leaves it unsaved. */
    method HandleEditAction(id: Value)
      requires Valid()
      modifies this`editingRowId
      ensures Valid() && editingRowId == id
    {
      editingRowId := id;
    }

    /** `handleSaveEdit`: leaves edit mode; the edits are already in `data`. */
    method HandleSaveEdit(id: Value)
      requires Valid()
      modifies this`editingRowId
      ensures Valid() && editingRowId == Null
    {
      editingRowId := Null;
    }

    /** `handleCancelEdit`: leaves edit mode and reverts nothing. */
    method HandleCancelEdit()
      requires Valid()
      modifies this`editingRowId
      ensures Valid() && editingRowId == Null
    {
      editingRowId := Null;
    }

    /** `handleDeleteAction`, with the user's answer to the confirmation
        prompt as `confirmed`: on yes the rows with that id go and the id
        leaves the selection; on no nothing changes. */
    method HandleDeleteAction(id: Value, confirmed: bool)
      requires Valid()
      modifies this
      ensures Valid()
      ensures data == if confirmed then RemoveRowsWithId(old(data), id) else old(data)
      ensures selectedRows == if confirmed then RemoveId(old(selectedRows), id) else old(selectedRows)
      ensures currentPage == old(currentPage) && searchQuery == old(searchQuery)
      ensures editingRowId == old(editingRowId)
    {
      if confirmed {
        data := RemoveRowsWithId(data, id);
        selectedRows := RemoveId(selectedRows, id);
        RunFilterEffect();
      }
    }
  }
}
