/** The search filter of the view pipeline (src/yew/table.rs:149-158,
    src/dioxus/table.rs:116-125): with a non-empty query, `retain` keeps the rows
    in which some listed column's value, lower-cased, contains the lower-cased
    query. */
module Search {
  import opened Text
  import opened Types
  import opened Seqs

  /** One column's vote: the row has the column's key and its value contains
      the query, both lower-cased. A missing key votes no. */
  predicate ColumnMatches(row: Row, col: Column, query: string)
  {
    col.id in row && Contains(Lower(row[col.id]), Lower(query))
  }

  /** `columns.iter().any(...)`: some listed column votes yes. */
  function AnyColumnMatches(row: Row, columns: seq<Column>, query: string): (b: bool)
    ensures b <==> exists i :: 0 <= i < |columns| && ColumnMatches(row, columns[i], query)
  {
    if columns == [] then false
    else
      assert forall i :: 1 <= i < |columns| ==> columns[i] == columns[1..][i - 1];
      ColumnMatches(row, columns[0], query) || AnyColumnMatches(row, columns[1..], query)
  }

  /** The `retain` predicate as a value. */
  function Matcher(columns: seq<Column>, query: string): Row -> bool
  {
    row => AnyColumnMatches(row, columns, query)
  }

  /** The filtered rows, before sorting. */
  function Filter(rows: seq<Row>, columns: seq<Column>, query: string): seq<Row>
  {
    if query == [] then rows else Keep(rows, Matcher(columns, query))
  }

  /** Filtering keeps the rows' order and invents nothing: the result is a
      subsequence of the data; with an empty query it is the data itself. */
  lemma FilterIsSubsequence(rows: seq<Row>, columns: seq<Column>, query: string)
    ensures IsSubsequence(Filter(rows, columns, query), rows)
    ensures query == [] ==> Filter(rows, columns, query) == rows
  {
    if query == [] {
      SubsequenceReflexive(rows);
    } else {
      KeepIsSubsequence(rows, Matcher(columns, query));
    }
  }

  lemma {:induction false} SubsequenceReflexive(s: seq<Row>)
    ensures IsSubsequence(s, s)
    decreases |s|
  {
    if s != [] {
      SubsequenceReflexive(s[..|s| - 1]);
    }
  }

  /** With a non-empty query, a row is kept (as many times as the data holds
      it) exactly when some listed column matches, and dropped otherwise. */
  lemma FilterKeepsExactlyMatching(rows: seq<Row>, columns: seq<Column>, query: string, row: Row)
    requires query != []
    ensures multiset(Filter(rows, columns, query))[row]
            == if exists i :: 0 <= i < |columns| && ColumnMatches(row, columns[i], query)
               then multiset(rows)[row] else 0
    ensures row in Filter(rows, columns, query)
            <==> row in rows && exists i :: 0 <= i < |columns| && ColumnMatches(row, columns[i], query)
  {
    KeepCount(rows, Matcher(columns, query), row);
    KeepMember(rows, Matcher(columns, query), row);
  }

  /** Only listed columns can make a row match: dropping every key that names
      no column leaves the verdict unchanged. */
  lemma OnlyListedColumnsMatter(row: Row, columns: seq<Column>, query: string)
    ensures AnyColumnMatches(row, columns, query)
            == AnyColumnMatches(ListedOnly(row, columns), columns, query)
  {
    var listed := ListedOnly(row, columns);
    forall i | 0 <= i < |columns|
      ensures ColumnMatches(row, columns[i], query) == ColumnMatches(listed, columns[i], query)
    {
      assert columns[i].id in Ids(columns);
    }
  }

  function Ids(columns: seq<Column>): set<string>
  {
    set i | 0 <= i < |columns| :: columns[i].id
  }

  /** The row restricted to the keys that name a listed column. */
  function ListedOnly(row: Row, columns: seq<Column>): Row
  {
    map k | k in row && k in Ids(columns) :: row[k]
  }

  /** The search is case-insensitive: a query and its lower-cased form keep the
      same rows. */
  lemma FilterIgnoresQueryCase(rows: seq<Row>, columns: seq<Column>, query: string)
    ensures Filter(rows, columns, query) == Filter(rows, columns, Lower(query))
  {
    LowerIdempotent(query);
    if query != [] {
      KeepSamePredicate(rows, Matcher(columns, query), Matcher(columns, Lower(query)));
    }
  }

}
