/** The table's value types (src/dioxus/types.rs; the Yew binding uses the same
    shapes): columns, rows, sort order, texts, classes, props and their defaults. */
module Types {
  import opened Text

  datatype Option<T> = None | Some(value: T)
  {
    /** `unwrap_or(default)` */
    function UnwrapOr(default: T): T
    {
      if Some? then value else default
    }
  }

  datatype Result<T, E> = Ok(value: T) | Err(error: E)

  /** Sort direction; the derived `Default` is `Asc`. */
  datatype SortOrder = Asc | Desc

  const DEFAULT_SORT_ORDER: SortOrder := Asc

  /** A custom cell renderer (`Column::cell`) is a foreign closure; the model
      keeps only a handle that tells renderers apart. */
  datatype Renderer = Renderer(name: string)

  /** One column definition. `minWidth` is a `u32` in the source. */
  datatype Column = Column(
    id: string,
    header: string,
    sortable: bool,
    minWidth: nat,
    style: Option<string>,
    cssClass: Option<string>,
    cell: Option<Renderer>)

  /** `#[props(default = 100)]`: the value the props builder fills in. */
  const PROPS_DEFAULT_MIN_WIDTH: nat := 100

  /** `Column::default()`, produced by `#[derive(Default)]`: every field takes
      its type's default, so `minWidth` is 0 whatever the props attribute says. */
  function DerivedDefaultColumn(): (c: Column)
    ensures c.id == "" && c.header == "" && !c.sortable && c.minWidth == 0
    ensures c.style.None? && c.cssClass.None? && c.cell.None?
  {
    Column("", "", false, 0, None, None, None)
  }

  /** A column built through the props builder with only `id` and `header`
      given: not sortable, 100 wide, no style, class or renderer. */
  function BuilderColumn(id: string, header: string): (c: Column)
    ensures c.id == id && c.header == header && !c.sortable
    ensures c.minWidth == PROPS_DEFAULT_MIN_WIDTH
    ensures c.style.None? && c.cssClass.None? && c.cell.None?
  {
    Column(id, header, false, PROPS_DEFAULT_MIN_WIDTH, None, None, None)
  }

  /** One data row: column id to display string. */
  type Row = map<string, string>

  /** `row.get(id).unwrap_or("")`: the text a row holds for a column, a
      missing key reading as the empty string. */
  function CellValue(row: Row, id: string): string
  {
    if id in row then row[id] else ""
  }

  datatype TableTexts = TableTexts(
    loading: string,
    empty: string,
    searchPlaceholder: string,
    previousButton: string,
    nextButton: string,
    pageIndicator: string)

  /** `TableTexts::default()`; the props defaults carry the same strings. */
  function DefaultTexts(): TableTexts
  {
    TableTexts("Loading...", "No results found", "Search...", "Previous", "Next",
               "Page {current} of {total}")
  }

  datatype TableClasses = TableClasses(
    container: string,
    table: string,
    thead: string,
    tbody: string,
    pagination: string,
    searchInput: string,
    headerCell: string,
    bodyCell: string,
    row: string,
    loadingRow: string,
    emptyRow: string,
    paginationButton: string)

  /** `TableClasses::default()` */
  function DefaultClasses(): TableClasses
  {
    TableClasses("table-container", "table", "thead", "tbody", "pagination-controls",
                 "search-input", "th", "td", "tr", "loading-row", "empty-row",
                 "pagination-button")
  }

  /** Component props. `hasRowEnd` records whether `row_end_component` is set;
      the component itself is a foreign closure. */
  datatype TableProps = TableProps(
    data: seq<Row>,
    columns: seq<Column>,
    pageSize: nat,
    loading: bool,
    paginate: bool,
    search: bool,
    texts: TableTexts,
    classes: TableClasses,
    hasRowEnd: bool)

  /** The props a `Table` gets when only `data` and `columns` are given. */
  function DefaultProps(data: seq<Row>, columns: seq<Column>): (p: TableProps)
    ensures p.data == data && p.columns == columns
    ensures p.pageSize == 10 && !p.loading && !p.paginate && !p.search && !p.hasRowEnd
    ensures p.texts == DefaultTexts() && p.classes == DefaultClasses()
  {
    TableProps(data, columns, 10, false, false, false, DefaultTexts(), DefaultClasses(), false)
  }

  /** The default page indicator carries both placeholders, `{current}` at
      index 5 and `{total}` at index 18. */
  lemma DefaultIndicatorHasPlaceholders()
    ensures Contains(DefaultTexts().pageIndicator, "{current}")
    ensures Contains(DefaultTexts().pageIndicator, "{total}")
  {
    var s := DefaultTexts().pageIndicator;
    assert OccursAt(s, "{current}", 5);
    assert OccursAt(s, "{total}", 18);
  }

  /** The derived default and the props default disagree on `min_width`. */
  lemma DefaultMinWidthDiffers()
    ensures DerivedDefaultColumn().minWidth == 0
    ensures BuilderColumn("", "").minWidth == 100
    ensures DerivedDefaultColumn() != BuilderColumn("", "")
  {
  }
}
