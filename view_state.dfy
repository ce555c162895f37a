/** The table's view state and its transitions, as the two bindings define
    them: the sort toggle (src/yew/table.rs:179-193, src/dioxus/table.rs:149-159),
    the search update (src/yew/table.rs:105-121, src/dioxus/table.rs:183-189),
    the initial state (src/yew/table.rs:93-101, src/dioxus/table.rs:83-97) and
    the paging handlers of the controls. */
module ViewState {
  import opened Text
  import opened Types
  import opened Seqs
  import opened Search
  import opened Paging
  import opened Pipeline
  import Controls

  /** The four state cells both bindings keep. */
  datatype State = State(page: nat, sortColumn: Option<string>, sortOrder: SortOrder, searchQuery: string)

  function Flip(order: SortOrder): (r: SortOrder)
    ensures r != order
  {
    match order
    case Asc => Desc
    case Desc => Asc
  }

  /** `on_sort_column(id)`: the current column flips its order; another
      column becomes the sort column, ascending. Page and query stay. */
  function ToggleSort(s: State, id: string): (r: State)
    ensures r.page == s.page && r.searchQuery == s.searchQuery
    ensures r.sortColumn == Some(id)
    ensures s.sortColumn == Some(id) ==> r.sortOrder == Flip(s.sortOrder)
    ensures s.sortColumn != Some(id) ==> r.sortOrder == Asc
  {
    if s.sortColumn == Some(id) then s.(sortOrder := Flip(s.sortOrder))
    else s.(sortColumn := Some(id), sortOrder := Asc)
  }

  /** Yew's search update as written: only the query changes; the page is
      kept, so it may now lie past the last filtered row (see
      YewStaleSearchPanics). */
  function YewSearch(s: State, query: string): (r: State)
    ensures r.searchQuery == query
    ensures r.page == s.page && r.sortColumn == s.sortColumn && r.sortOrder == s.sortOrder
  {
    s.(searchQuery := query)
  }

  /** A search input as Dioxus' `oninput` handles it: the query changes and
      the page goes back to 0. This is also the corrected Yew update. */
  function SearchInput(s: State, query: string): (r: State)
    ensures r.searchQuery == query && r.page == 0
    ensures r.sortColumn == s.sortColumn && r.sortOrder == s.sortOrder
  {
    s.(searchQuery := query, page := 0)
  }

  /** The previous-page handler of either binding. */
  function PrevPage(s: State): (r: State)
    ensures r == s.(page := Controls.Prev(s.page))
    ensures r.page <= s.page
  {
    s.(page := Controls.Prev(s.page))
  }

  /** Yew's next-page handler: unconditional. */
  function YewNextPage(s: State): (r: State)
    ensures r == s.(page := s.page + 1)
  {
    s.(page := Controls.YewNext(s.page))
  }

  /** Dioxus' next-page handler, given the page count of the current view. */
  function DioxusNextPage(s: State, totalPages: nat): (r: State)
    ensures r.sortColumn == s.sortColumn && r.sortOrder == s.sortOrder && r.searchQuery == s.searchQuery
    ensures s.page + 1 < totalPages ==> r.page == s.page + 1
    ensures s.page + 1 >= totalPages ==> r == s
    ensures s.page < totalPages ==> r.page < totalPages
  {
    s.(page := Controls.DioxusNext(s.page, totalPages))
  }

  /** Yew's initial state: page 0, the `default_sort_column` and
      `default_sort_order` props, and the `search` URL parameter or "". The
      URL is read by the caller and passed in. */
  function YewInitial(defaultSortColumn: Option<string>, defaultSortOrder: SortOrder,
                      urlSearch: Option<string>): (s: State)
    ensures s.page == 0 && s.sortColumn == defaultSortColumn && s.sortOrder == defaultSortOrder
    ensures urlSearch.Some? ==> s.searchQuery == urlSearch.value
    ensures urlSearch.None? ==> s.searchQuery == ""
  {
    State(0, defaultSortColumn, defaultSortOrder, urlSearch.UnwrapOr(""))
  }

  /** Dioxus' initial signals: page 0, no sort column, the default order,
      empty query. */
  function DioxusInitial(): (s: State)
    ensures s.page == 0 && s.sortColumn.None? && s.sortOrder == DEFAULT_SORT_ORDER && s.searchQuery == ""
  {
    State(0, None, SortOrder.Asc, "")
  }

  /** The body of Dioxus' mount effect: a `search` URL parameter, when
      present, becomes the query; nothing else changes. The effect sits
      behind `cfg(target_arch = "wasm")`, which no Rust target matches
      (WebAssembly targets report `wasm32` or `wasm64`), so as written the
      component starts at DioxusInitial and keeps the empty query until the
      user types. */
  function DioxusHydrate(s: State, urlSearch: Option<string>): (r: State)
    ensures urlSearch.Some? ==> r == s.(searchQuery := urlSearch.value)
    ensures urlSearch.None? ==> r == s
  {
    if urlSearch.Some? then s.(searchQuery := urlSearch.value) else s
  }

  /** The rows the state shows, or the slice panic. */
  function View(s: State, data: seq<Row>, columns: seq<Column>, pageSize: nat): Result<PageView, SliceError>
    requires pageSize > 0
  {
    Derive(data, columns, s.searchQuery, s.sortColumn, s.sortOrder, s.page, pageSize)
  }

  /** `n` clicks on the same header. */
  function ToggleTimes(s: State, id: string, n: nat): State
  {
    if n == 0 then s else ToggleSort(ToggleTimes(s, id, n - 1), id)
  }

  /** Clicking one header `n > 0` times sorts by it, ascending after an odd
      number of clicks when it was not the sort column before, and in general
      flipped `n` times from where the first click left it. */
  lemma {:induction false} ToggleParity(s: State, id: string, n: nat)
    requires n > 0
    ensures var r := ToggleTimes(s, id, n);
            var first := if s.sortColumn == Some(id) then Flip(s.sortOrder) else Asc;
            r.sortColumn == Some(id) && r.page == s.page && r.searchQuery == s.searchQuery
            && r.sortOrder == (if n % 2 == 1 then first else Flip(first))
  {
    if n > 1 {
      ToggleParity(s, id, n - 1);
    }
  }

  /** A second click on the column just clicked flips the order back. */
  lemma ToggleTwice(s: State, id: string)
    requires s.sortColumn == Some(id)
    ensures ToggleSort(ToggleSort(s, id), id) == s
  {
  }

  /** Sorting never changes whether the page is in range, nor the page count. */
  lemma {:induction false} ToggleKeepsView(s: State, id: string, data: seq<Row>, columns: seq<Column>, pageSize: nat)
    requires pageSize > 0
    ensures View(ToggleSort(s, id), data, columns, pageSize).Ok? == View(s, data, columns, pageSize).Ok?
    ensures View(s, data, columns, pageSize).Ok? ==>
              View(ToggleSort(s, id), data, columns, pageSize).value.totalPages
              == View(s, data, columns, pageSize).value.totalPages
  {
    var t := ToggleSort(s, id);
    DeriveOkIff(data, columns, s.searchQuery, s.sortColumn, s.sortOrder, s.page, pageSize);
    DeriveOkIff(data, columns, t.searchQuery, t.sortColumn, t.sortOrder, t.page, pageSize);
  }

  /** After a search input that resets the page the view never panics,
      whatever the query. */
  lemma {:induction false} SearchInputInRange(s: State, query: string, data: seq<Row>, columns: seq<Column>, pageSize: nat)
    requires pageSize > 0
    ensures View(SearchInput(s, query), data, columns, pageSize).Ok?
  {
    var t := SearchInput(s, query);
    FirstPageOk(data, columns, t.searchQuery, t.sortColumn, t.sortOrder, pageSize);
  }

  /** Dioxus keeps the view in range: from a state whose view does not panic,
      every user transition (a header click, a search input, either paging
      button with the page count on screen) leads to one that does not
      either, for the same data. The mount effect changes the query but not
      the page; it runs on the initial state, at page 0, where any query is
      in range. */
  lemma {:induction false} DioxusKeepsViewInRange(s: State, data: seq<Row>, columns: seq<Column>, pageSize: nat,
                                                  id: string, query: string, urlSearch: Option<string>)
    requires pageSize > 0
    requires View(s, data, columns, pageSize).Ok?
    ensures s.page == 0 ==> View(DioxusHydrate(s, urlSearch), data, columns, pageSize).Ok?
    ensures View(ToggleSort(s, id), data, columns, pageSize).Ok?
    ensures View(SearchInput(s, query), data, columns, pageSize).Ok?
    ensures View(PrevPage(s), data, columns, pageSize).Ok?
    ensures View(DioxusNextPage(s, View(s, data, columns, pageSize).value.totalPages), data, columns, pageSize).Ok?
  {
    var f := Filter(data, columns, s.searchQuery);
    var h := DioxusHydrate(s, urlSearch);
    FirstPageOk(data, columns, h.searchQuery, h.sortColumn, h.sortOrder, pageSize);
    ToggleKeepsView(s, id, data, columns, pageSize);
    SearchInputInRange(s, query, data, columns, pageSize);
    DeriveOkIff(data, columns, s.searchQuery, s.sortColumn, s.sortOrder, s.page, pageSize);
    var p := PrevPage(s);
    MulMono(p.page, s.page, pageSize);
    DeriveOkIff(data, columns, p.searchQuery, p.sortColumn, p.sortOrder, p.page, pageSize);
    var n := TotalPages(|f|, pageSize);
    var q := DioxusNextPage(s, n);
    if q.page != s.page {
      MulMono(q.page, n - 1, pageSize);
    }
    DeriveOkIff(data, columns, q.searchQuery, q.sortColumn, q.sortOrder, q.page, pageSize);
  }

  /** Yew keeps the page on a search update, so a query that leaves fewer
      rows can put the page past the end: two rows, one per page, the second
      page showing, then a query that matches nothing, and the slice panics. */
  lemma {:induction false} YewStaleSearchPanics()
    ensures var s := YewNextPage(YewInitial(None, Asc, None));
            View(s, TwoRows(), NameColumn(), 1).Ok?
            && View(YewSearch(s, "z"), TwoRows(), NameColumn(), 1).Err?
  {
    var data, columns := TwoRows(), NameColumn();
    var s := YewNextPage(YewInitial(None, Asc, None));
    assert s.page == 1 && s.searchQuery == "";
    DeriveOkIff(data, columns, s.searchQuery, s.sortColumn, s.sortOrder, s.page, 1);
    var t := YewSearch(s, "z");
    NoRowContainsZ();
    DeriveOkIff(data, columns, t.searchQuery, t.sortColumn, t.sortOrder, t.page, 1);
  }

  /** Two rows, "a" and "b", in a column "name". */
  function TwoRows(): (r: seq<Row>)
    ensures |r| == 2 && r[0] == map["name" := "a"] && r[1] == map["name" := "b"]
  {
    [map["name" := "a"], map["name" := "b"]]
  }

  function NameColumn(): (r: seq<Column>)
    ensures |r| == 1 && r[0].id == "name"
  {
    [BuilderColumn("name", "Name")]
  }

  /** Neither row contains "z". */
  lemma {:induction false} NoRowContainsZ()
    ensures Filter(TwoRows(), NameColumn(), "z") == []
  {
    var data, columns := TwoRows(), NameColumn();
    var z := Lower("z");
    assert z == "z";
    forall i | 0 <= i < 2
      ensures !AnyColumnMatches(data[i], columns, "z")
    {
      var v := data[i]["name"];
      assert v == "a" || v == "b";
      assert Lower(v) == v;
      assert !Contains(v, "z") by {
        assert !OccursAt(v, "z", 0) && !OccursAt(v, "z", 1);
      }
    }
    KeepNone(data, Matcher(columns, "z"));
  }

  /** The same scenario under the corrected search update, which resets the
      page as Dioxus does, stays in range. */
  lemma {:induction false} YewStaleSearchCorrected()
    ensures var s := YewNextPage(YewInitial(None, Asc, None));
            View(SearchInput(s, "z"), TwoRows(), NameColumn(), 1).Ok?
  {
    var s := YewNextPage(YewInitial(None, Asc, None));
    SearchInputInRange(s, "z", TwoRows(), NameColumn(), 1);
  }
}
