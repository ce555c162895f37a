/** The view pipeline shared by both bindings (src/yew/table.rs:149-177,
    src/dioxus/table.rs:115-147): copy the data, keep the rows that match the
    search query, sort them by the chosen column, count the pages and cut out
    the current one. */
module Pipeline {
  import opened Text
  import opened Types
  import opened Seqs
  import opened Search
  import opened Sorting
  import opened Paging

  /** What the table body and the pagination controls receive. */
  datatype PageView = PageView(rows: seq<Row>, totalPages: nat)

  /** The filtered and sorted rows, before slicing. */
  function Arranged(data: seq<Row>, columns: seq<Column>, query: string,
                    sortColumn: Option<string>, order: SortOrder): seq<Row>
  {
    SortStep(Filter(data, columns, query), columns, sortColumn, order)
  }

  /** The current page of the arranged rows, with the page count, or the
      panic the slice raises when the page starts past the last row. */
  function Derive(data: seq<Row>, columns: seq<Column>, query: string,
                  sortColumn: Option<string>, order: SortOrder,
                  page: nat, pageSize: nat): Result<PageView, SliceError>
    requires pageSize > 0
  {
    var rows := Arranged(data, columns, query, sortColumn, order);
    var slice := PageSlice(rows, page, pageSize);
    if slice.Ok? then Ok(PageView(slice.value, TotalPages(|rows|, pageSize)))
    else Err(slice.error)
  }

  /** Sorting keeps the filtered rows, so the arranged rows are a permutation
      of the filtered ones and as many. */
  lemma {:induction false} ArrangedPermutesFilter(data: seq<Row>, columns: seq<Column>, query: string,
                               sortColumn: Option<string>, order: SortOrder)
    ensures multiset(Arranged(data, columns, query, sortColumn, order))
            == multiset(Filter(data, columns, query))
    ensures |Arranged(data, columns, query, sortColumn, order)| == |Filter(data, columns, query)|
  {
    var f := Filter(data, columns, query);
    SortStepSpec(f, columns, sortColumn, order);
    assert |multiset(Arranged(data, columns, query, sortColumn, order))| == |multiset(f)|;
  }

  /** The page the pipeline shows is the window of the arranged rows. */
  lemma {:induction false} DeriveWindow(data: seq<Row>, columns: seq<Column>, query: string,
                     sortColumn: Option<string>, order: SortOrder, page: nat, pageSize: nat)
    requires pageSize > 0
    requires Derive(data, columns, query, sortColumn, order, page, pageSize).Ok?
    ensures var rows := Arranged(data, columns, query, sortColumn, order);
            var w := Derive(data, columns, query, sortColumn, order, page, pageSize).value.rows;
            PageSlice(rows, page, pageSize).Ok? && w == PageSlice(rows, page, pageSize).value
  {
  }

  /** The pipeline panics exactly when the page starts past the last
      filtered row; the page count is that of the filtered rows. */
  lemma {:induction false} DeriveOkIff(data: seq<Row>, columns: seq<Column>, query: string,
                    sortColumn: Option<string>, order: SortOrder, page: nat, pageSize: nat)
    requires pageSize > 0
    ensures Derive(data, columns, query, sortColumn, order, page, pageSize).Ok?
            <==> page * pageSize <= |Filter(data, columns, query)|
    ensures Derive(data, columns, query, sortColumn, order, page, pageSize).Ok?
            ==> Derive(data, columns, query, sortColumn, order, page, pageSize).value.totalPages
                == TotalPages(|Filter(data, columns, query)|, pageSize)
  {
    ArrangedPermutesFilter(data, columns, query, sortColumn, order);
  }

  /** The first page never panics, whatever the data and the query. */
  lemma {:induction false} FirstPageOk(data: seq<Row>, columns: seq<Column>, query: string,
                    sortColumn: Option<string>, order: SortOrder, pageSize: nat)
    requires pageSize > 0
    ensures Derive(data, columns, query, sortColumn, order, 0, pageSize).Ok?
  {
    DeriveOkIff(data, columns, query, sortColumn, order, 0, pageSize);
  }

  /** Every visible row is a data row; with a non-empty query it matches
      the query in some listed column. */
  lemma {:induction false} VisibleRowsMatch(data: seq<Row>, columns: seq<Column>, query: string,
                         sortColumn: Option<string>, order: SortOrder, page: nat, pageSize: nat,
                         row: Row)
    requires pageSize > 0
    requires Derive(data, columns, query, sortColumn, order, page, pageSize).Ok?
    requires row in Derive(data, columns, query, sortColumn, order, page, pageSize).value.rows
    ensures row in data
    ensures query != [] ==> exists i :: 0 <= i < |columns| && ColumnMatches(row, columns[i], query)
  {
    var rows := Arranged(data, columns, query, sortColumn, order);
    DeriveWindow(data, columns, query, sortColumn, order, page, pageSize);
    PageMember(rows, page, pageSize, row);
    ArrangedPermutesFilter(data, columns, query, sortColumn, order);
    var f := Filter(data, columns, query);
    assert row in f by {
      assert row in multiset(rows);
    }
    if query == [] {
      FilterIsSubsequence(data, columns, query);
    } else {
      FilterKeepsExactlyMatching(data, columns, query, row);
    }
  }

  /** A page holds at most `pageSize` rows, and every page before the last
      is full. */
  lemma {:induction false} PageSize(data: seq<Row>, columns: seq<Column>, query: string,
                 sortColumn: Option<string>, order: SortOrder, page: nat, pageSize: nat)
    requires pageSize > 0
    requires Derive(data, columns, query, sortColumn, order, page, pageSize).Ok?
    ensures var v := Derive(data, columns, query, sortColumn, order, page, pageSize).value;
            |v.rows| <= pageSize && (page + 1 < v.totalPages ==> |v.rows| == pageSize)
  {
    var rows := Arranged(data, columns, query, sortColumn, order);
    var n := TotalPages(|rows|, pageSize);
    if page + 1 < n {
      MulMono(page + 2, n, pageSize);
      assert (page + 1) * pageSize < |rows| by {
        MulMono(page + 1, n - 1, pageSize);
      }
    }
  }

  /** Every page below the page count the controls show is displayed
      without panicking, holds at least one row, and is the window of the
      arranged rows. */
  lemma {:induction false} EveryPageShown(data: seq<Row>, columns: seq<Column>, query: string,
                                          sortColumn: Option<string>, order: SortOrder, pageSize: nat, p: nat)
    requires pageSize > 0
    requires p < TotalPages(|Filter(data, columns, query)|, pageSize)
    ensures Derive(data, columns, query, sortColumn, order, p, pageSize).Ok?
    ensures Derive(data, columns, query, sortColumn, order, p, pageSize).value.rows
            == PageSlice(Arranged(data, columns, query, sortColumn, order), p, pageSize).value
    ensures Derive(data, columns, query, sortColumn, order, p, pageSize).value.rows != []
  {
    var rows := Arranged(data, columns, query, sortColumn, order);
    ArrangedPermutesFilter(data, columns, query, sortColumn, order);
    PageNonEmptyIff(rows, p, pageSize);
  }

  /** With no search and no sort, the pages are windows of the data itself,
      in data order. */
  lemma {:induction false} PlainPaging(data: seq<Row>, columns: seq<Column>, page: nat, pageSize: nat)
    requires pageSize > 0
    ensures Arranged(data, columns, "", None, Asc) == data
    ensures Derive(data, columns, "", None, Asc, page, pageSize).Ok?
            ==> Derive(data, columns, "", None, Asc, page, pageSize).value.rows
                == PageSlice(data, page, pageSize).value
  {
    SortStepSpec(data, columns, None, Asc);
  }

  /** With a listed sort column, each page is in comparator order and is the
      stable sort's window: rows with equal keys keep their data order. */
  lemma {:induction false} PageSorted(data: seq<Row>, columns: seq<Column>, query: string,
                   col: string, order: SortOrder, page: nat, pageSize: nat)
    requires pageSize > 0
    requires exists i :: 0 <= i < |columns| && columns[i].id == col
    requires Derive(data, columns, query, Some(col), order, page, pageSize).Ok?
    ensures Sorted(Derive(data, columns, query, Some(col), order, page, pageSize).value.rows, col, order)
    ensures Arranged(data, columns, query, Some(col), order)
            == SortRows(Filter(data, columns, query), col, order)
  {
    var f := Filter(data, columns, query);
    var rows := Arranged(data, columns, query, Some(col), order);
    assert FindColumn(columns, col).Some?;
    assert rows == SortRows(f, col, order);
    SortRowsSorted(f, col, order);
    DeriveWindow(data, columns, query, Some(col), order, page, pageSize);
    SortedPage(rows, page, pageSize, col, order);
  }

  /** A page of sorted rows is sorted. */
  lemma {:induction false} SortedPage(rows: seq<Row>, page: nat, pageSize: nat, col: string, order: SortOrder)
    requires Sorted(rows, col, order) && PageSlice(rows, page, pageSize).Ok?
    ensures Sorted(PageSlice(rows, page, pageSize).value, col, order)
  {
    var w := PageSlice(rows, page, pageSize).value;
    forall i, j | 0 <= i < j < |w|
      ensures Before(order, CellValue(w[i], col), CellValue(w[j], col))
    {
      assert w[i] == rows[page * pageSize + i] && w[j] == rows[page * pageSize + j];
    }
  }

  /** The render-time computation as the bindings write it: clone the data
      into a buffer, `retain` the matches in place when the query is
      non-empty, `sort_by` the listed sort column in place, then count the
      pages and slice. */
  method RenderRows(data: seq<Row>, columns: seq<Column>, query: string,
                    sortColumn: Option<string>, order: SortOrder, page: nat, pageSize: nat)
    returns (r: Result<PageView, SliceError>)
    requires pageSize > 0
    ensures r == Derive(data, columns, query, sortColumn, order, page, pageSize)
  {
    var a := new Row[|data|];
    forall i | 0 <= i < |data| {
      a[i] := data[i];
    }
    assert a[..] == data;
    var len := |data|;
    assert a[..len] == data;
    if query != [] {
      len := RetainInPlace(a, len, Matcher(columns, query));
    }
    assert a[..len] == Filter(data, columns, query);
    if sortColumn.Some? {
      var col := FindColumn(columns, sortColumn.value);
      if col.Some? {
        SortInPlace(a, len, col.value.id, order);
      }
    }
    var rows := a[..len];
    assert rows == Arranged(data, columns, query, sortColumn, order);
    var total := TotalPages(len, pageSize);
    var slice := PageSlice(rows, page, pageSize);
    if slice.Ok? {
      r := Ok(PageView(slice.value, total));
    } else {
      r := Err(slice.error);
    }
  }
}
