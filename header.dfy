/** The table header (src/yew/header.rs, src/dioxus/header.rs): one header
    cell per column, in column order, carrying the column's label, the id a
    click emits when the column is sortable, the `aria-sort` value, the class
    and the style; Dioxus adds an empty trailing cell when rows have an end
    component. */
module Header {
  import opened Types
  import opened ViewState

  /** A rendered header cell. `onClick` is the id the click handler emits,
      `None` when clicking does nothing. */
  datatype HeaderCell =
    | ColumnHeader(title: string, onClick: Option<string>, ariaSort: string, cssClass: string, style: string)
    | RowEndHeader(cssClass: string)

  /** The `aria-sort` attribute: the sort direction on the sort column,
      "none" on every other. */
  function AriaSort(id: string, sortColumn: Option<string>, order: SortOrder): (r: string)
    ensures r == "ascending" <==> sortColumn == Some(id) && order == Asc
    ensures r == "descending" <==> sortColumn == Some(id) && order == Desc
    ensures r == "none" <==> sortColumn != Some(id)
  {
    if sortColumn == Some(id) then
      match order
      case Asc => "ascending"
      case Desc => "descending"
    else "none"
  }

  /** The click handler: sortable columns emit their id, others nothing. */
  function ClickTarget(col: Column): (r: Option<string>)
    ensures r.Some? <==> col.sortable
    ensures r.Some? ==> r.value == col.id
  {
    if col.sortable then Some(col.id) else None
  }

  /** One Yew header cell: absent class and style read as "". */
  function YewHeaderCell(col: Column, sortColumn: Option<string>, order: SortOrder): HeaderCell
  {
    ColumnHeader(col.header, ClickTarget(col), AriaSort(col.id, sortColumn, order),
                 col.cssClass.UnwrapOr(""), col.style.UnwrapOr(""))
  }

  /** The Yew header row. */
  function YewHeader(columns: seq<Column>, sortColumn: Option<string>, order: SortOrder): (r: seq<HeaderCell>)
    ensures |r| == |columns|
    ensures forall i :: 0 <= i < |r| ==> r[i].ColumnHeader? && r[i].title == columns[i].header
    ensures forall i :: 0 <= i < |r| ==> r[i].onClick == ClickTarget(columns[i])
    ensures forall i :: 0 <= i < |r| ==> r[i].ariaSort == AriaSort(columns[i].id, sortColumn, order)
    ensures forall i :: 0 <= i < |r| ==>
              r[i].cssClass == columns[i].cssClass.UnwrapOr("") && r[i].style == columns[i].style.UnwrapOr("")
  {
    seq(|columns|, i requires 0 <= i < |columns| => YewHeaderCell(columns[i], sortColumn, order))
  }

  /** One Dioxus header cell: the class is the header-cell class, a space,
      and the column's class or "". */
  function DioxusHeaderCell(col: Column, sortColumn: Option<string>, order: SortOrder, headerCell: string): HeaderCell
  {
    ColumnHeader(col.header, ClickTarget(col), AriaSort(col.id, sortColumn, order),
                 headerCell + " " + col.cssClass.UnwrapOr(""), col.style.UnwrapOr(""))
  }

  /** The Dioxus header row, with the trailing cell when `hasRowEnd`. */
  function DioxusHeader(columns: seq<Column>, sortColumn: Option<string>, order: SortOrder,
                        headerCell: string, hasRowEnd: bool): (r: seq<HeaderCell>)
    ensures |r| == |columns| + (if hasRowEnd then 1 else 0)
    ensures forall i :: 0 <= i < |columns| ==>
              r[i].ColumnHeader? && r[i].cssClass == headerCell + " " + columns[i].cssClass.UnwrapOr("")
    ensures hasRowEnd ==> r[|columns|] == RowEndHeader(headerCell)
  {
    seq(|columns|, i requires 0 <= i < |columns| => DioxusHeaderCell(columns[i], sortColumn, order, headerCell))
    + (if hasRowEnd then [RowEndHeader(headerCell)] else [])
  }

  /** The bindings render the same column cells apart from the class, which
      Dioxus prefixes with the header-cell class. */
  lemma {:induction false} HeadersAgreeButClass(columns: seq<Column>, sortColumn: Option<string>, order: SortOrder,
                                                headerCell: string, hasRowEnd: bool)
    ensures var y := YewHeader(columns, sortColumn, order);
            var d := DioxusHeader(columns, sortColumn, order, headerCell, hasRowEnd);
            forall i :: 0 <= i < |columns| ==>
              d[i] == y[i].(cssClass := headerCell + " " + columns[i].cssClass.UnwrapOr(""))
  {
  }

  /** With distinct column ids at most one header cell announces a sort
      direction, and only the sort column's cell does. */
  lemma {:induction false} AtMostOneSortedHeader(columns: seq<Column>, sortColumn: Option<string>, order: SortOrder,
                                                 i: nat, j: nat)
    requires forall a, b :: 0 <= a < b < |columns| ==> columns[a].id != columns[b].id
    requires i < |columns| && j < |columns|
    requires YewHeader(columns, sortColumn, order)[i].ariaSort != "none"
    requires YewHeader(columns, sortColumn, order)[j].ariaSort != "none"
    ensures i == j && sortColumn == Some(columns[i].id)
  {
  }

  /** Clicking a sortable header and applying the toggle sorts by that
      column: the order flips on the current sort column and is ascending
      on any other, matching the `aria-sort` the header then shows. */
  lemma {:induction false} HeaderClickSorts(columns: seq<Column>, s: State, i: nat)
    requires i < |columns| && columns[i].sortable
    ensures var cell := YewHeader(columns, s.sortColumn, s.sortOrder)[i];
            var t := ToggleSort(s, cell.onClick.value);
            var after := YewHeader(columns, t.sortColumn, t.sortOrder)[i].ariaSort;
            cell.onClick.Some?
            && (cell.ariaSort == "none" ==> after == "ascending")
            && (cell.ariaSort == "ascending" ==> after == "descending")
            && (cell.ariaSort == "descending" ==> after == "ascending")
  {
  }

  /** With the default classes a column without its own class gets "th ",
      trailing space included. */
  lemma DefaultHeaderClass(col: Column, sortColumn: Option<string>, order: SortOrder)
    requires col.cssClass.None?
    ensures DioxusHeaderCell(col, sortColumn, order, DefaultClasses().headerCell).cssClass == "th "
  {
  }
}
