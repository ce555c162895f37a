# table-rs view model

A Dafny model of the core of table-rs, a data table component for the Yew
and Dioxus web frameworks. Each binding renders a table from rows (maps from
column id to text) and column definitions. The core modelled here is the
same in both bindings:

- **The view pipeline.** Clone the rows. When the search query is
  non-empty, `retain` in place the rows in which some listed column's
  lower-cased value contains the lower-cased query. Stable-sort (`sort_by`)
  by the chosen column when it names a listed column; a missing key sorts as
  `""` and descending order uses the reversed comparator. Count the pages
  with a ceiling division, then slice out the current page. The slice panics
  when the page starts past the last row.
- **The view state.** Each component keeps four cells: page, sort column,
  sort order and search query. The cells change on a header click, a search
  update and the previous/next buttons. Each binding has its initial values.
- **The pure view decisions.** Per header cell: the `aria-sort` value, the
  click target, the class and the style. For the body: the loading row, the
  empty row, or the data rows and their cells. The page-indicator text. The
  defaults of the Dioxus types.

Module layout:

- `Text`: ASCII lower-casing, substring search, string order, `replace` and
  decimal formatting.
- `Types`: the value types and their defaults.
- `Seqs`: order-preserving filtering (`Keep`) and the in-place `retain`
  loop.
- `Search`: the search filter.
- `Sorting`: the stable sort as a function, and the in-place insertion sort
  proved equal to it.
- `Paging`: page count and page slice.
- `Pipeline`: the whole derivation, with an imperative rendering that runs
  the in-place steps on a buffer and is proved equal to the pure one.
- `Controls`: the pagination handlers and the page indicator.
- `ViewState`: the state transitions of both bindings.
- `YewTable`, `DioxusTable`: the components as classes whose fields are the
  state cells.
- `Header`, `Body`: the header and body rows.

Both bindings run the same pipeline. The Yew binding does not reset the page
when the search query changes; see "Findings".

## Model

| member | source | states |
|---|---|---|
| Text.Lower | src/yew/table.rs:154 | `to_lowercase` (ASCII): the length is kept, each character is mapped on its own, and no upper-case letter is left |
| Text.LowerIdempotent | src/yew/table.rs:154 | lower-casing twice is lower-casing once |
| Text.Contains | src/yew/table.rs:154 | `contains` holds iff the needle occurs at some index of the haystack |
| Text.LexLe | src/yew/table.rs:167 | `String::cmp` as an order: a prefix comes first, otherwise the first differing character decides; its properties are in `Text.LexLeTotal`, `Text.LexLeAntisymmetric` and `Text.LexLeTransitive` |
| Text.LexLeTotal | src/yew/table.rs:167 | `String::cmp` (lexicographic on characters) is total |
| Text.LexLeAntisymmetric | src/yew/table.rs:167 | two strings each at most the other are equal |
| Text.LexLeTransitive | src/yew/table.rs:167 | the string order is transitive |
| Text.ReplaceAll | src/yew/controls.rs:36 | `str::replace`: non-overlapping occurrences found left to right are each replaced; its properties are in `Text.ReplaceAllAtFront`, `Text.ReplaceAllSkips`, `Text.ReplaceAllShort` and `Controls.ReplaceSingle` |
| Text.ReplaceAllShort | src/yew/controls.rs:36 | `replace` leaves a text shorter than the pattern unchanged |
| Text.ReplaceAllAtFront | src/yew/controls.rs:36 | `replace` substitutes an occurrence at the front and carries on after it |
| Text.ReplaceAllSkips | src/yew/controls.rs:36 | `replace` leaves alone a prefix that cannot start an occurrence |
| Text.NatToString | src/yew/controls.rs:36 | `to_string` of a number is a non-empty run of decimal digits, with no leading zero |
| Text.NatToStringRoundTrip | src/yew/controls.rs:36 | reading the digits back gives the number |
| Types.CellValue | src/yew/body.rs:83 | `row.get(id).unwrap_or("")`: the row's text for the column, "" when the key is missing; used by the sort key, the body cells and `Body.ColumnTexts` |
| Types.DefaultTexts | src/dioxus/types.rs:58-69 | `TableTexts::default()`: "Loading...", "No results found", "Search...", "Previous", "Next" and "Page {current} of {total}"; `Types.DefaultIndicatorHasPlaceholders` and `Controls.DefaultIndicator` state what the indicator gives |
| Types.DefaultClasses | src/dioxus/types.rs:111-128 | `TableClasses::default()`: the twelve fixed class names; `Header.DefaultHeaderClass` states the header-cell class they give |
| Types.DerivedDefaultColumn | src/dioxus/types.rs:5-28 | `Column::default()` has empty id and header, is not sortable, is 0 wide, and has no style or class |
| Types.BuilderColumn | src/dioxus/types.rs:13-19 | a column built from props is not sortable by default, is 100 wide, and has no style or class |
| Types.DefaultMinWidthDiffers | src/dioxus/types.rs:17-19 | the props default `min_width` is 100, while the derived `Default` gives 0 |
| Types.DefaultProps | src/dioxus/types.rs:131-168 | `page_size` defaults to 10; `loading`, `paginate` and `search` default to false; texts and classes take their defaults |
| Types.DefaultIndicatorHasPlaceholders | src/dioxus/types.rs:58-69 | the default page indicator contains both `{current}` and `{total}` |
| Header.DefaultHeaderClass | src/dioxus/types.rs:111-128 | with the default classes, a header cell without its own class gets the class "th " |
| Seqs.Keep | src/yew/table.rs:151-157 | `retain`'s result is no longer than its input |
| Seqs.KeepCount | src/yew/table.rs:151-157 | `retain` keeps every copy of an element the predicate accepts and no copy of one it rejects |
| Seqs.KeepMember | src/yew/table.rs:151-157 | an element is kept iff it was present and the predicate accepts it |
| Seqs.KeepIsSubsequence | src/yew/table.rs:151-157 | `retain` keeps the survivors in their original order |
| Seqs.KeepAppend | src/yew/table.rs:151-157 | filtering distributes over concatenation |
| Seqs.RetainInPlace | src/yew/table.rs:151-157 | the in-place `retain` loop leaves exactly `Keep` of the old contents at the front of the buffer and returns their count; later cells are untouched |
| Search.ColumnMatches | src/yew/table.rs:153-155 | one column's vote: the row has the column's key and its lower-cased value contains the lower-cased query; a missing key votes no |
| Search.Filter | src/yew/table.rs:149-158 | the search step: the data itself for an empty query, otherwise `Keep` with `AnyColumnMatches`; its properties are in `Search.FilterIsSubsequence`, `Search.FilterKeepsExactlyMatching`, `Search.FilterIgnoresQueryCase` and `Pipeline.RenderRows` |
| Search.AnyColumnMatches | src/yew/table.rs:152-156 | a row matches iff some listed column holds the key and its lower-cased value contains the lower-cased query |
| Search.FilterIsSubsequence | src/yew/table.rs:149-158 | the filtered rows are an order-preserving subsequence of the data, and equal to it when the query is empty |
| Search.FilterKeepsExactlyMatching | src/dioxus/table.rs:116-125 | with a non-empty query a row is kept, with every copy, iff some listed column matches |
| Search.OnlyListedColumnsMatter | src/yew/table.rs:152-156 | keys outside the listed columns never affect a match |
| Search.FilterIgnoresQueryCase | src/yew/table.rs:154 | the query's letter case does not change the filtered rows |
| Sorting.Before | src/yew/table.rs:166-169 | the comparator: `a_val.cmp(b_val)` for `Asc` and `b_val.cmp(a_val)` for `Desc`, read as "may come first"; its properties are in `Sorting.BeforeTotal`, `Sorting.BeforeTransitive` and `Sorting.BeforeAntisymmetric` |
| Sorting.BeforeTotal | src/yew/table.rs:162-170 | the comparator, in either direction, orders any two keys |
| Sorting.BeforeTransitive | src/yew/table.rs:162-170 | the comparator is transitive in either direction |
| Sorting.BeforeAntisymmetric | src/yew/table.rs:162-170 | keys ordered both ways are equal |
| Sorting.InsertLastPermutation | src/yew/table.rs:162-170 | one insertion step adds exactly the inserted row |
| Sorting.SortRows | src/yew/table.rs:162-170 | the stable sort by one column as a function (insertion from the left); its properties are in `Sorting.SortRowsPermutation`, `Sorting.SortRowsSorted`, `Sorting.SortRowsStable` and `Sorting.StableSortUnique`, and `Sorting.SortInPlace` computes it in place |
| Sorting.SortRowsPermutation | src/yew/table.rs:162-170 | the sort is a permutation |
| Sorting.SortRowsSorted | src/yew/table.rs:162-170 | the sorted rows are in comparator order, with a missing key read as "" |
| Sorting.SortRowsStable | src/dioxus/table.rs:129-137 | rows with equal keys keep their relative order, in both directions |
| Sorting.SortedSameKeyOrderEqual | src/dioxus/table.rs:129-137 | two sorted sequences that keep the same order within every key group are equal |
| Sorting.StableSortUnique | src/yew/table.rs:162-170 | every stable sort of the rows gives the same result as the model, so the model agrees with `sort_by` |
| Sorting.SortRowsIdempotent | src/yew/table.rs:162-170 | sorting already sorted rows changes nothing |
| Sorting.FindColumn | src/yew/table.rs:161 | `find` returns a listed column with the id, and nothing iff no listed column has it |
| Sorting.SortStep | src/yew/table.rs:160-172 | the sort step: `SortRows` by the found column when the sort column names a listed column, else the rows unchanged; its properties are in `Sorting.SortStepSpec` |
| Sorting.SortStepSpec | src/yew/table.rs:160-172 | the sort step permutes the rows; without a sort column, or with one no listed column has, the order is unchanged; otherwise the result is sorted on that column and stable |
| Sorting.SortInPlace | src/dioxus/table.rs:127-139 | the in-place insertion sort leaves the buffer's first `len` cells equal to `SortRows` of their old contents, and the rest untouched |
| Sorting.InsertAt | src/dioxus/table.rs:129-137 | one in-place insertion step places the next row after every row it does not precede |
| Paging.TotalPages | src/yew/table.rs:174 | the page count is the least `n` with `len <= n * page_size`; it is 0 iff there are no rows |
| Paging.TotalPagesLeast | src/yew/table.rs:174 | no smaller page count covers the rows |
| Paging.PageSlice | src/yew/table.rs:175-177 | the slice is defined iff `page * page_size <= len`; it has at most `page_size` rows, ends at `min((page + 1) * page_size, len)` and holds the rows from the start index on; otherwise it is the out-of-range panic |
| Paging.PageNonEmptyIff | src/dioxus/table.rs:144-147 | a page is defined and non-empty iff it is below the page count |
| Paging.PagesCover | src/yew/table.rs:174-177 | the pages `0 .. total_pages - 1`, concatenated, are the rows, each once, in order |
| Paging.RowOnPage | src/yew/table.rs:174-177 | row `i` is entry `i % page_size` of page `i / page_size`, which is below the page count |
| Pipeline.Arranged | src/yew/table.rs:149-172 | the filtered and sorted rows: `SortStep` of `Filter`; properties in `Pipeline.ArrangedPermutesFilter` and `Pipeline.PageSorted` |
| Pipeline.Derive | src/yew/table.rs:149-177 | the whole render-time derivation: the page slice of the arranged rows and the page count, or the slice panic; its properties are in `Pipeline.DeriveOkIff`, `Pipeline.VisibleRowsMatch`, `Pipeline.PageSize`, `Pipeline.EveryPageShown`, `Pipeline.PlainPaging` and `Pipeline.PageSorted`, and `Pipeline.RenderRows` computes it in place |
| Pipeline.ArrangedPermutesFilter | src/yew/table.rs:149-172 | the filtered and sorted rows are a permutation of the filtered ones |
| Pipeline.DeriveOkIff | src/yew/table.rs:174-177 | the pipeline panics iff the page starts past the last filtered row; the page count is that of the filtered rows |
| Pipeline.FirstPageOk | src/dioxus/table.rs:144-147 | page 0 never panics |
| Pipeline.VisibleRowsMatch | src/yew/table.rs:149-177 | every visible row is a data row and, with a non-empty query, matches it in a listed column |
| Pipeline.PageSize | src/yew/table.rs:175-177 | a page holds at most `page_size` rows, and every page before the last is full |
| Pipeline.EveryPageShown | src/dioxus/table.rs:144-147 | each page below the page count displays without panic, is non-empty and is the window of the arranged rows |
| Pipeline.PlainPaging | src/yew/table.rs:149-177 | with no query and no sort column the pages are windows of the data in data order |
| Pipeline.PageSorted | src/yew/table.rs:160-177 | with a listed sort column the arranged rows are the stable sort of the filtered rows, and each page is in comparator order |
| Pipeline.RenderRows | src/dioxus/table.rs:115-147 | the clone, in-place `retain`, in-place `sort_by`, page count and slice compute exactly `Derive` |
| Controls.PrevDisabled | src/yew/controls.rs:32 | the previous button is disabled exactly on page 0; `Controls.Prev` is a no-op exactly then |
| Controls.NextDisabled | src/yew/controls.rs:41 | the next button is disabled exactly when `page + 1 >= total_pages`, so also when there are no pages; `Controls.DioxusNext` is a no-op exactly then |
| Controls.Prev | src/yew/controls.rs:14-21 | `on_prev` never goes below 0; it changes nothing iff the button is disabled (page 0), and otherwise steps back one |
| Controls.YewNext | src/yew/controls.rs:23-28 | Yew's `on_next` always steps one page on |
| Controls.DioxusNext | src/dioxus/controls.rs:18-22 | Dioxus' `on_next` changes nothing iff the button is disabled (`page + 1 >= total_pages`), and otherwise steps on; `page < total_pages` is kept |
| Controls.NextHandlersAgreeWhenEnabled | src/yew/controls.rs:41 | the two next handlers agree while the button is enabled; when it is disabled, Yew's handler reaches or passes the page count |
| Controls.PrevUndoesNext | src/dioxus/controls.rs:12-22 | previous after an enabled next returns to the same page |
| Controls.NextTimesStops | src/dioxus/controls.rs:18-22 | `n` next presses reach `min(page + n, total_pages - 1)`, or stay put when already at or past the end |
| Controls.NextReachesLastPage | src/dioxus/controls.rs:18-22 | enough presses end at `max(page, total_pages - 1)`, and one more press there changes nothing |
| Controls.PageIndicator | src/yew/controls.rs:36 | the indicator text: `{current}` replaced by `page + 1`, then `{total}` by the page count, both in decimal; `Controls.DefaultIndicator` gives its value for the default template |
| Controls.DefaultIndicator | src/dioxus/controls.rs:33-37 | with the default template the indicator is "Page " + (page + 1) + " of " + total_pages |
| Controls.ReplaceSingle | src/yew/controls.rs:36 | `replace` on a text with one occurrence of the placeholder substitutes that occurrence and nothing else |
| ViewState.Flip | src/yew/table.rs:184-187 | the flipped order differs from the current one |
| ViewState.ToggleSort | src/yew/table.rs:179-193 | clicking the sort column flips its order; clicking another selects it ascending; page and query stay |
| ViewState.View | src/yew/table.rs:149-177 | what a state shows: `Derive` of the state's query, sort column, order and page; `ViewState.ToggleKeepsView`, `ViewState.SearchInputInRange` and `ViewState.DioxusKeepsViewInRange` state how transitions affect it |
| ViewState.ToggleParity | src/dioxus/table.rs:149-159 | `n` clicks on one header sort by it, flipped `n - 1` times from the first click's order |
| ViewState.ToggleTwice | src/dioxus/table.rs:149-159 | two clicks on the sort column restore the state |
| ViewState.ToggleKeepsView | src/yew/table.rs:179-193 | a header click changes neither whether the view panics nor the page count |
| ViewState.YewSearch | src/yew/table.rs:119 | Yew's search update sets only the query; page and sort stay |
| ViewState.SearchInput | src/dioxus/table.rs:183-189 | a search input sets the query and resets the page to 0; the sort stays |
| ViewState.SearchInputInRange | src/dioxus/table.rs:183-189 | after a search input the view never panics, whatever the query |
| ViewState.PrevPage | src/dioxus/controls.rs:12-16 | the previous button only lowers the page |
| ViewState.YewNextPage | src/yew/controls.rs:23-28 | Yew's next button raises the page by one and changes nothing else |
| ViewState.DioxusNextPage | src/dioxus/controls.rs:18-22 | Dioxus' next button raises the page by one when `page + 1 < total_pages` and otherwise leaves the state unchanged; sort and query never change, and `page < total_pages` is kept |
| ViewState.YewInitial | src/yew/table.rs:93-101 | Yew starts at page 0 with the default sort props and the URL's `search` parameter or "" |
| ViewState.DioxusInitial | src/dioxus/table.rs:83-86 | Dioxus starts at page 0, with no sort column, the default order `Asc` and an empty query |
| ViewState.DioxusHydrate | src/dioxus/table.rs:88-97 | the body of the mount effect: a `search` URL parameter, when present, becomes the query, and nothing else changes (the effect is never compiled as written; see Left out) |
| ViewState.DioxusKeepsViewInRange | src/dioxus/table.rs:149-189 | from a view that does not panic, a header click, a search input, previous and the guarded next all lead to a view that does not panic; the mount effect does too when it runs at page 0 |
| ViewState.YewStaleSearchPanics | src/yew/table.rs:105-121 | two rows, one per page, on page 1: a search matching nothing makes the slice panic |
| ViewState.NoRowContainsZ | src/yew/table.rs:149-158 | the filter of that example leaves no rows |
| ViewState.YewStaleSearchCorrected | src/dioxus/table.rs:183-186 | the same scenario with the page reset stays in range |
| YewTable.Table.constructor | src/yew/table.rs:93-101 | the state cells start at `YewInitial` |
| YewTable.Table.OnSortColumn | src/yew/table.rs:179-193 | the new state is `ToggleSort` of the old one |
| YewTable.Table.UpdateSearch | src/yew/table.rs:105-121 | the new state is `YewSearch` of the old one: only the query changes and the page is kept, so the view may then panic (see Findings) |
| YewTable.Table.OnPrev | src/yew/controls.rs:14-21 | the new state is `PrevPage` of the old one |
| YewTable.Table.OnNext | src/yew/controls.rs:23-28 | the new state is `YewNextPage` of the old one |
| YewTable.Table.Render | src/yew/table.rs:149-177 | the rendered page is the view of the current state; it panics iff the page starts past the filtered rows |
| DioxusTable.Table.constructor | src/dioxus/table.rs:83-86 | the signals start at `DioxusInitial` |
| DioxusTable.Table.Hydrate | src/dioxus/table.rs:88-97 | the new state is `DioxusHydrate` of the old one (the effect is never compiled as written; see Left out) |
| DioxusTable.Table.OnSortColumn | src/dioxus/table.rs:149-159 | the new state is `ToggleSort` of the old one |
| DioxusTable.Table.OnSearchInput | src/dioxus/table.rs:183-189 | the new state is `SearchInput` of the old one |
| DioxusTable.Table.OnPrev | src/dioxus/controls.rs:12-16 | the new state is `PrevPage` of the old one |
| DioxusTable.Table.OnNext | src/dioxus/controls.rs:18-22 | the new state is `DioxusNextPage` of the old one |
| DioxusTable.Table.Render | src/dioxus/table.rs:115-147 | the rendered page is the view of the current signals; it panics iff the page starts past the filtered rows |
| Header.AriaSort | src/yew/header.rs:33-42 | "ascending" or "descending" iff the column is the sort column, following the order; otherwise "none" |
| Header.ClickTarget | src/yew/header.rs:19-25 | a click handler exists iff the column is sortable, and it emits the column's id |
| Header.YewHeaderCell | src/yew/header.rs:18-42 | one Yew header cell: the header text, `ClickTarget`, `AriaSort`, and the class and style or ""; `Header.YewHeader` states these per column |
| Header.YewHeader | src/yew/header.rs:17-45 | one cell per column, in column order, with the header text, click target, `aria-sort`, and the class and style or "" |
| Header.DioxusHeaderCell | src/dioxus/header.rs:68-88 | one Dioxus header cell: as in Yew, but the class is `header_cell + " " + class`; `Header.DioxusHeader` and `Header.HeadersAgreeButClass` state this per column |
| Header.DioxusHeader | src/dioxus/header.rs:68-112 | one cell per column, plus one trailing cell when rows have an end component; classes are `header_cell + " " + class` |
| Header.HeadersAgreeButClass | src/dioxus/header.rs:68-88 | the Dioxus column cells are the Yew ones with the class prefixed |
| Header.AtMostOneSortedHeader | src/yew/header.rs:33-42 | with distinct ids, at most one header cell announces a sort direction, and it is the sort column's |
| Header.HeaderClickSorts | src/yew/header.rs:19-25 | clicking a sortable header moves its `aria-sort` from "none" or "descending" to "ascending", and from "ascending" to "descending" |
| Body.YewDataRow | src/yew/body.rs:82-84 | one Yew data row: per column in order, the raw text `CellValue`; `Body.YewBody` states it per cell |
| Body.YewBody | src/yew/body.rs:70-88 | a loading row takes precedence over an empty row, and an empty row over data rows; both span all columns; data rows hold each column's value or "" |
| Body.BodyCell | src/dioxus/body.rs:111-120 | the column's renderer gets the content when there is one; otherwise the raw content is shown |
| Body.DioxusDataRow | src/dioxus/body.rs:91-97 | one Dioxus data row: per column in order, `BodyCell` of `CellValue`; `Body.DioxusBody` and `Body.BodiesAgreeWithoutRenderers` state it per cell |
| Body.DioxusBody | src/dioxus/body.rs:69-101 | the same precedence and spans; each data cell is `BodyCell` of the column's value or "" |
| Body.BodiesAgreeWithoutRenderers | src/dioxus/body.rs:88-101 | without custom renderers both bindings render the same body |
| Body.ColumnTexts | src/yew/body.rs:79-86 | column `j` of the data rows shows the rows' values for that column, in row order |

## Left out

- Browser I/O is not modelled: reading the `search` URL parameter, and writing it back with `history.replaceState`. The parameter's value is passed in (`urlSearch`), and only the resulting assignment to the query is modelled.
- The search debounce `Timeout` of the Yew binding is not modelled. It is a timer; the update it schedules is `YewTable.Table.UpdateSearch`.
- Paging.TotalPages: `total_pages` is computed in `f64` and rounded up. The model uses integer ceiling division. The two agree while the row count is below 2^53, which always holds where `usize` is 32 bits, as on wasm32. The model requires `page_size > 0`; with 0 the float path yields infinity or NaN casts, which are not modelled.
- Page and index arithmetic is unbounded. The `usize` overflow of `page * page_size` is not modelled.
- Text.Lower: Unicode `to_lowercase` is modelled as ASCII lower-casing; other letters are left unchanged.
- Markup, CSS classes and inline styles are not modelled beyond the header and body cell values. Neither are `role` attributes or the pagination buttons' markup.
- Custom cell renderers are foreign closures. A renderer is a `Renderer` handle that `BodyCell` passes the content to. `row_end_component` is represented only by whether it is set (`hasRowEnd`).
- src/yew/types.rs is not part of this model. Its prop structs do not declare every field the Yew components read. The model follows what the components do.
- `Column` in src/dioxus/types.rs declares no `cell` field, although src/dioxus/body.rs:113 reads one. The model's `Column` carries `cell`.
- DioxusTable.Table.Hydrate: the Dioxus mount effect that reads the `search` URL parameter (src/dioxus/table.rs:88-97), and the URL update of the search input (lines 99-113 and 187-188), are gated on `cfg(target_arch = "wasm")`. No Rust target reports that architecture; WebAssembly targets report `wasm32` or `wasm64`. As written, that code is never compiled. The Dioxus table then starts at `ViewState.DioxusInitial` and never takes its query from the URL. `DioxusHydrate` and `Hydrate` model what the effect's body would do if compiled, and the model makes no claim that the component runs it.
- The Dioxus `Table` component does not pass `has_row_end` to its header. `Header.DioxusHeader` takes it as a parameter.
- The demo and benchmark pages are not part of this model.

## Findings

| source | as written | input that shows it | evidently intended | confidence | as-written member | corrected member |
|---|---|---|---|---|---|---|
| src/yew/table.rs:105-121 | the search update sets the query but keeps the page, and the slice at src/yew/table.rs:175-177 then panics when the page starts past the filtered rows | rows `{name: "a"}` and `{name: "b"}`, one listed column `name`, page size 1; press next (page 1), then search "z": 0 filtered rows, slice start 1 > 0 | reset the page to 0 on a search update, as the Dioxus binding does at src/dioxus/table.rs:186 | not executed | ViewState.YewStaleSearchPanics | ViewState.SearchInputInRange |
