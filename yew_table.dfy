/** The Yew `Table` component's state cells (src/yew/table.rs:93-101) and the
    handlers that update them: the header click (179-193), the search update
    (105-121) and the paging buttons of src/yew/controls.rs:14-28. */
module YewTable {
  import opened Types
  import opened Paging
  import opened Pipeline
  import opened ViewState

  class Table {
    var page: nat
    var sortColumn: Option<string>
    var sortOrder: SortOrder
    var searchQuery: string

    /** The state cells as one value. */
    function State(): ViewState.State
      reads this
    {
      ViewState.State(page, sortColumn, sortOrder, searchQuery)
    }

    /** `use_state` initialisers; `urlSearch` is the `search` parameter of
        the page URL, read by the caller. */
    constructor(defaultSortColumn: Option<string>, defaultSortOrder: SortOrder, urlSearch: Option<string>)
      ensures State() == YewInitial(defaultSortColumn, defaultSortOrder, urlSearch)
    {
      page := 0;
      sortColumn := defaultSortColumn;
      sortOrder := defaultSortOrder;
      searchQuery := urlSearch.UnwrapOr("");
    }

    /** `on_sort_column(id)` */
    method OnSortColumn(id: string)
      modifies this
      ensures State() == ToggleSort(old(State()), id)
    {
      if sortColumn == Some(id) {
        sortOrder := Flip(sortOrder);
      } else {
        sortColumn := Some(id);
        sortOrder := Asc;
      }
    }

    /** `update_search_url(query)`: only the query changes, so the page may
        now start past the filtered rows (see ViewState.YewStaleSearchPanics);
        the URL rewrite is left to the caller. */
    method UpdateSearch(query: string)
      modifies this
      ensures State() == YewSearch(old(State()), query)
    {
      searchQuery := query;
    }

    /** `on_prev` of the pagination controls. */
    method OnPrev()
      modifies this
      ensures State() == PrevPage(old(State()))
    {
      if page > 0 {
        page := page - 1;
      }
    }

    /** `on_next` of the pagination controls: no upper bound. */
    method OnNext()
      modifies this
      ensures State() == YewNextPage(old(State()))
    {
      page := page + 1;
    }

    /** The rows the component renders for its current state, or the slice
        panic. */
    method Render(data: seq<Row>, columns: seq<Column>, pageSize: nat) returns (r: Result<PageView, SliceError>)
      requires pageSize > 0
      ensures r == View(State(), data, columns, pageSize)
      ensures r.Ok? <==> page * pageSize <= |Search.Filter(data, columns, searchQuery)|
    {
      r := RenderRows(data, columns, searchQuery, sortColumn, sortOrder, page, pageSize);
      DeriveOkIff(data, columns, searchQuery, sortColumn, sortOrder, page, pageSize);
    }
  }
}
