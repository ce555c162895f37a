/** The table body (src/yew/body.rs, src/dioxus/body.rs): a loading row while
    loading, else an empty-message row when there are no rows, else one row
    per data row with one cell per column. */
module Body {
  import opened Types

  /** A cell's content: the raw text, or the text handed to the column's
      renderer. */
  datatype Cell = Raw(text: string) | Rendered(renderer: Renderer, content: string)

  datatype BodyRow =
    | LoadingRow(colspan: nat, text: string)
    | EmptyRow(colspan: nat, text: string)
    | DataRow(cells: seq<Cell>)

  /** A data row in the Yew binding: the raw text of each column, "" when
      the row lacks the key. */
  function YewDataRow(row: Row, columns: seq<Column>): seq<Cell>
  {
    seq(|columns|, j requires 0 <= j < |columns| => Raw(CellValue(row, columns[j].id)))
  }

  /** The Yew body. */
  function YewBody(columns: seq<Column>, rows: seq<Row>, loading: bool, texts: TableTexts): (r: seq<BodyRow>)
    ensures loading ==> r == [LoadingRow(|columns|, texts.loading)]
    ensures !loading && rows == [] ==> r == [EmptyRow(|columns|, texts.empty)]
    ensures !loading && rows != [] ==>
              |r| == |rows|
              && forall i :: 0 <= i < |rows| ==>
                   r[i].DataRow? && |r[i].cells| == |columns|
                   && forall j :: 0 <= j < |columns| ==> r[i].cells[j] == Raw(CellValue(rows[i], columns[j].id))
  {
    if loading then [LoadingRow(|columns|, texts.loading)]
    else if rows == [] then [EmptyRow(|columns|, texts.empty)]
    else seq(|rows|, i requires 0 <= i < |rows| => DataRow(YewDataRow(rows[i], columns)))
  }

  /** `BodyCell`: the column's renderer when it has one, else the text. */
  function BodyCell(column: Column, content: string): (c: Cell)
    ensures column.cell.Some? <==> c.Rendered?
    ensures c.Rendered? ==> c.renderer == column.cell.value && c.content == content
    ensures c.Raw? ==> c.text == content
  {
    if column.cell.Some? then Rendered(column.cell.value, content) else Raw(content)
  }

  function DioxusDataRow(row: Row, columns: seq<Column>): seq<Cell>
  {
    seq(|columns|, j requires 0 <= j < |columns| => BodyCell(columns[j], CellValue(row, columns[j].id)))
  }

  /** The Dioxus body. */
  function DioxusBody(columns: seq<Column>, rows: seq<Row>, loading: bool, texts: TableTexts): (r: seq<BodyRow>)
    ensures loading ==> r == [LoadingRow(|columns|, texts.loading)]
    ensures !loading && rows == [] ==> r == [EmptyRow(|columns|, texts.empty)]
    ensures !loading && rows != [] ==>
              |r| == |rows|
              && forall i :: 0 <= i < |rows| ==>
                   r[i].DataRow? && |r[i].cells| == |columns|
                   && forall j :: 0 <= j < |columns| ==>
                        r[i].cells[j] == BodyCell(columns[j], CellValue(rows[i], columns[j].id))
  {
    if loading then [LoadingRow(|columns|, texts.loading)]
    else if rows == [] then [EmptyRow(|columns|, texts.empty)]
    else seq(|rows|, i requires 0 <= i < |rows| => DataRow(DioxusDataRow(rows[i], columns)))
  }

  /** Without custom renderers the two bindings render the same body. */
  lemma {:induction false} BodiesAgreeWithoutRenderers(columns: seq<Column>, rows: seq<Row>, loading: bool, texts: TableTexts)
    requires forall j :: 0 <= j < |columns| ==> columns[j].cell.None?
    ensures DioxusBody(columns, rows, loading, texts) == YewBody(columns, rows, loading, texts)
  {
    if !loading && rows != [] {
      forall i | 0 <= i < |rows|
        ensures DioxusDataRow(rows[i], columns) == YewDataRow(rows[i], columns)
      {
      }
    }
  }

  /** The text a body shows in column `j` of its data rows, in row order:
      the rows' values for that column. */
  lemma {:induction false} ColumnTexts(columns: seq<Column>, rows: seq<Row>, texts: TableTexts, j: nat)
    requires rows != [] && j < |columns|
    ensures var b := YewBody(columns, rows, false, texts);
            forall i :: 0 <= i < |rows| ==> b[i].cells[j].text == CellValue(rows[i], columns[j].id)
  {
  }
}
