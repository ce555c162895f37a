/** The Dioxus `Table` component's signals (src/dioxus/table.rs:83-86) and the
    handlers that set them: the header click (149-159), the search input
    (183-189) and the paging buttons of src/dioxus/controls.rs:12-22. The
    URL mount effect (88-97) is modelled too, although its `cfg` gate names
    an architecture no Rust target reports, so as written it is never
    compiled. */
module DioxusTable {
  import opened Types
  import opened Paging
  import opened Pipeline
  import opened ViewState

  class Table {
    var page: nat
    var sortColumn: Option<string>
    var sortOrder: SortOrder
    var searchQuery: string

    /** The signals as one value. */
    function State(): ViewState.State
      reads this
    {
      ViewState.State(page, sortColumn, sortOrder, searchQuery)
    }

    /** `use_signal` initialisers. */
    constructor()
      ensures State() == DioxusInitial()
    {
      page := 0;
      sortColumn := None;
      sortOrder := DEFAULT_SORT_ORDER;
      searchQuery := "";
    }

    /** The body of the mount effect: `urlSearch` is the `search` parameter
        of the page URL, read by the caller. The effect is compiled only under
        `cfg(target_arch = "wasm")`, an architecture name no Rust target
        reports, so as written the component never runs it. */
    method Hydrate(urlSearch: Option<string>)
      modifies this
      ensures State() == DioxusHydrate(old(State()), urlSearch)
    {
      if urlSearch.Some? {
        searchQuery := urlSearch.value;
      }
    }

    /** `on_sort_column(id)` */
    method OnSortColumn(id: string)
      modifies this
      ensures State() == ToggleSort(old(State()), id)
    {
      if sortColumn == Some(id) {
        sortOrder := Flip(sortOrder);
      } else {
        sortColumn := Some(id);
        sortOrder := Asc;
      }
    }

    /** `oninput` of the search box; the URL rewrite is left to the caller. */
    method OnSearchInput(query: string)
      modifies this
      ensures State() == SearchInput(old(State()), query)
    {
      searchQuery := query;
      page := 0;
    }

    /** `on_prev` of the pagination controls. */
    method OnPrev()
      modifies this
      ensures State() == PrevPage(old(State()))
    {
      if page > 0 {
        page := page - 1;
      }
    }

    /** `on_next` of the pagination controls, given the page count shown. */
    method OnNext(totalPages: nat)
      modifies this
      ensures State() == DioxusNextPage(old(State()), totalPages)
    {
      if page + 1 < totalPages {
        page := page + 1;
      }
    }

    /** The rows the component renders for its current signals, or the slice
        panic. */
    method Render(data: seq<Row>, columns: seq<Column>, pageSize: nat) returns (r: Result<PageView, SliceError>)
      requires pageSize > 0
      ensures r == View(State(), data, columns, pageSize)
      ensures r.Ok? <==> page * pageSize <= |Search.Filter(data, columns, searchQuery)|
    {
      r := RenderRows(data, columns, searchQuery, sortColumn, sortOrder, page, pageSize);
      DeriveOkIff(data, columns, searchQuery, sortColumn, sortOrder, page, pageSize);
    }
  }
}
