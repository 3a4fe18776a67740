/** Sequences of calls to the table component's handlers on a small member list, each
    stated as the values a user would see afterwards. */
module HomeScenarios {
  import opened Records
  import opened TableLogic
  import opened Home

  /** Members with ids 1 to `n`, each with a name and a role. */
  function Members(n: nat): (rows: seq<Row>)
    ensures |rows| == n
    ensures forall i :: 0 <= i < n ==> IdOf(rows[i]) == Num(i + 1) && "name" in rows[i] && rows[i]["name"].Str?
  {
    seq(n, i => map["id" := Num(i + 1), "name" := Str("Ann"), "role" := Str("member")])
  }

  /** A query longer than every field of the members matches none of them. */
  lemma LongQueryFindsNoMember(n: nat, query: string)
    requires |query| > |"member"|
    ensures SearchFilter(Members(n), query) == []
  {
    var r := SearchFilter(Members(n), query);
    if r != [] {
      assert false;
    }
  }

  /** Loads the members into a fresh table, where the empty query shows them all. */
  method LoadedTable(n: nat) returns (t: TableState)
    ensures fresh(t) && t.Valid()
    ensures t.data == Members(n) && t.displayedData == Members(n)
    ensures t.currentPage == 1 && t.searchQuery == "" && t.selectedRows == [] && t.editingRowId == Null
  {
    t := new TableState();
    t.HandleFetchOutcome(Fetched(Members(n)));
    var rows: seq<Row> := Members(n);
    forall i | 0 <= i < |rows| ensures HasStringField(rows[i]) {
      assert "name" in rows[i] && rows[i]["name"].Str?;
    }
    EmptySearchKeepsAll(rows);
  }

  /** 25 members make 3 pages, and page 2 shows the members with ids 11 to 20. */
  method PagingScenario() returns (pages: nat, shown: seq<Value>)
    ensures pages == 3
    ensures shown == seq(10, i => Num(i + 11))
  {
    var t := LoadedTable(25);
    t.HandlePageChange(2);
    pages := t.totalPages;
    shown := Ids(t.RenderedRows());
  }

  /** Select-all on page 1 of 25 members selects ids 1 to 10; a second
      select-all clears the selection. */
  method SelectAllScenario() returns (first: seq<Value>, second: seq<Value>)
    ensures first == seq(10, i => Num(i + 1))
    ensures second == []
  {
    var t := LoadedTable(25);
    t.HandleSelectAll();
    first := t.selectedRows;
    t.HandleSelectAll();
    second := t.selectedRows;
  }

  /** Editing the name of member 5 and cancelling leaves edit mode but keeps
      the new name. */
  method CancelKeepsEditScenario() returns (editing: Value, name: Value)
    ensures editing == Null
    ensures name == Str("X")
  {
    var t := LoadedTable(25);
    t.HandleEditAction(Num(5));
    t.HandleEdit(Num(5), "name", "X");
    t.HandleCancelEdit();
    editing := t.editingRowId;
    name := t.data[4]["name"];
  }

  /** A selected member stays selected when the search hides it, and a search
      that matches nothing leaves no page at all. */
  method SelectionSurvivesSearchScenario() returns (selected: seq<Value>, shown: seq<Row>, pages: nat)
    ensures selected == [Num(3)]
    ensures shown == [] && pages == 0
  {
    var t := LoadedTable(25);
    t.HandleCheckboxChange(Num(3));
    var query := "no member has this";
    t.HandleSearchChange(query);
    LongQueryFindsNoMember(25, query);
    selected := t.selectedRows;
    shown := t.displayedData;
    pages := t.totalPages;
  }
}
