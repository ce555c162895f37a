/** The sort step of the view pipeline (src/yew/table.rs:160-172,
    src/dioxus/table.rs:127-139): when the sort column names a listed column,
    the rows are stable-sorted by that column's text (missing keys read as
    ""), with the comparator `a.cmp(b)` for `Asc` and `b.cmp(a)` for `Desc`. */
module Sorting {
  import opened Text
  import opened Types
  import opened Seqs

  /** The comparator does not put `a` after `b`: `cmp(a, b) != Greater`. */
  predicate Before(order: SortOrder, a: string, b: string)
  {
    match order
    case Asc => LexLe(a, b)
    case Desc => LexLe(b, a)
  }

  lemma BeforeReflexive(order: SortOrder, a: string)
    ensures Before(order, a, a)
  {
    LexLeReflexive(a);
  }

  lemma BeforeTotal(order: SortOrder, a: string, b: string)
    ensures Before(order, a, b) || Before(order, b, a)
  {
    LexLeTotal(a, b);
  }

  lemma BeforeTransitive(order: SortOrder, a: string, b: string, c: string)
    requires Before(order, a, b) && Before(order, b, c)
    ensures Before(order, a, c)
  {
    match order
    case Asc => LexLeTransitive(a, b, c);
    case Desc => LexLeTransitive(c, b, a);
  }

  lemma BeforeAntisymmetric(order: SortOrder, a: string, b: string)
    requires Before(order, a, b) && Before(order, b, a)
    ensures a == b
  {
    LexLeAntisymmetric(a, b);
  }

  /** Every pair of rows is in comparator order on column `id`. */
  predicate Sorted(s: seq<Row>, id: string, order: SortOrder)
  {
    forall i, j :: 0 <= i < j < |s| ==> Before(order, CellValue(s[i], id), CellValue(s[j], id))
  }

  /** Rows whose text in column `id` is `k`. */
  function HasKey(id: string, k: string): Row -> bool
  {
    row => CellValue(row, id) == k
  }

  /** Stability: for every key, the rows carrying that key appear in `t` in
      the same order, and as often, as in `s`. */
  ghost predicate SameKeyOrder(t: seq<Row>, s: seq<Row>, id: string)
  {
    forall k :: Keep(t, HasKey(id, k)) == Keep(s, HasKey(id, k))
  }

  /** Inserts `x` into sorted `t` after every row the comparator does not put
      after it: the step of an insertion sort that keeps ties in order. */
  function InsertLast(t: seq<Row>, x: Row, id: string, order: SortOrder): seq<Row>
    decreases |t|
  {
    if t == [] then [x]
    else if Before(order, CellValue(t[|t| - 1], id), CellValue(x, id)) then t + [x]
    else InsertLast(t[..|t| - 1], x, id, order) + [t[|t| - 1]]
  }

  lemma {:induction false} InsertLastPermutation(t: seq<Row>, x: Row, id: string, order: SortOrder)
    ensures multiset(InsertLast(t, x, id, order)) == multiset(t) + multiset{x}
    decreases |t|
  {
    if t != [] {
      var init, last := t[..|t| - 1], t[|t| - 1];
      assert t == init + [last];
      if !Before(order, CellValue(last, id), CellValue(x, id)) {
        InsertLastPermutation(init, x, id, order);
        assert InsertLast(t, x, id, order) == InsertLast(init, x, id, order) + [last];
      }
    }
  }

  /** The stable sort: insertion sort from the left. */
  function SortRows(s: seq<Row>, id: string, order: SortOrder): (r: seq<Row>)
    decreases |s|
  {
    if s == [] then []
    else InsertLast(SortRows(s[..|s| - 1], id, order), s[|s| - 1], id, order)
  }

  /** Sorting is a permutation of its input. */
  lemma {:induction false} SortRowsPermutation(s: seq<Row>, id: string, order: SortOrder)
    ensures multiset(SortRows(s, id, order)) == multiset(s)
    decreases |s|
  {
    if s != [] {
      SortRowsPermutation(s[..|s| - 1], id, order);
      InsertLastPermutation(SortRows(s[..|s| - 1], id, order), s[|s| - 1], id, order);
      assert s == s[..|s| - 1] + [s[|s| - 1]];
    }
  }

  /** Every row of `t` may precede `y`. */
  predicate AllBefore(t: seq<Row>, y: Row, id: string, order: SortOrder)
  {
    forall i :: 0 <= i < |t| ==> Before(order, CellValue(t[i], id), CellValue(y, id))
  }

  /** A row that every row of a sorted sequence may precede extends it sorted. */
  lemma SortedSnoc(t: seq<Row>, y: Row, id: string, order: SortOrder)
    requires Sorted(t, id, order) && AllBefore(t, y, id, order)
    ensures Sorted(t + [y], id, order)
  {
    var r := t + [y];
    forall i, j | 0 <= i < j < |r|
      ensures Before(order, CellValue(r[i], id), CellValue(r[j], id))
    {
      if j == |t| {
        assert r[i] == t[i];
      }
    }
  }

  /** Insertion keeps an upper bound shared by `t` and `x`. */
  lemma {:induction false} InsertLastBounded(t: seq<Row>, x: Row, y: Row, id: string, order: SortOrder)
    requires AllBefore(t, y, id, order)
    requires Before(order, CellValue(x, id), CellValue(y, id))
    ensures AllBefore(InsertLast(t, x, id, order), y, id, order)
    decreases |t|
  {
    if t != [] {
      var init, last := t[..|t| - 1], t[|t| - 1];
      if !Before(order, CellValue(last, id), CellValue(x, id)) {
        InsertLastBounded(init, x, y, id, order);
        var m := InsertLast(init, x, id, order);
        assert InsertLast(t, x, id, order) == m + [last];
      }
    }
  }

  lemma {:induction false} InsertLastSorted(t: seq<Row>, x: Row, id: string, order: SortOrder)
    requires Sorted(t, id, order)
    ensures Sorted(InsertLast(t, x, id, order), id, order)
    decreases |t|
  {
    if t != [] {
      var init, last := t[..|t| - 1], t[|t| - 1];
      var kx := CellValue(x, id);
      if Before(order, CellValue(last, id), kx) {
        forall i | 0 <= i < |t|
          ensures Before(order, CellValue(t[i], id), kx)
        {
          if i < |t| - 1 {
            BeforeTransitive(order, CellValue(t[i], id), CellValue(last, id), kx);
          } else {
            assert t[i] == last;
          }
        }
        SortedSnoc(t, x, id, order);
      } else {
        InsertLastSorted(init, x, id, order);
        BeforeTotal(order, CellValue(last, id), kx);
        assert AllBefore(init, last, id, order);
        InsertLastBounded(init, x, last, id, order);
        SortedSnoc(InsertLast(init, x, id, order), last, id, order);
      }
    }
  }

  /** The sorted rows are in comparator order: non-decreasing for `Asc`,
      non-increasing for `Desc`. */
  lemma {:induction false} SortRowsSorted(s: seq<Row>, id: string, order: SortOrder)
    ensures Sorted(SortRows(s, id, order), id, order)
    decreases |s|
  {
    if s != [] {
      SortRowsSorted(s[..|s| - 1], id, order);
      InsertLastSorted(SortRows(s[..|s| - 1], id, order), s[|s| - 1], id, order);
    }
  }

  /** Inserting `x` after every row it does not precede leaves `x` last among
      the rows of its key. */
  lemma {:induction false} InsertLastStable(t: seq<Row>, x: Row, id: string, order: SortOrder, k: string)
    ensures Keep(InsertLast(t, x, id, order), HasKey(id, k))
            == Keep(t, HasKey(id, k)) + (if CellValue(x, id) == k then [x] else [])
    decreases |t|
  {
    var p := HasKey(id, k);
    var xs := if CellValue(x, id) == k then [x] else [];
    if t == [] {
      KeepSnoc([], x, p);
      assert [] + [x] == [x];
    } else {
      var init, last := t[..|t| - 1], t[|t| - 1];
      assert t == init + [last];
      if Before(order, CellValue(last, id), CellValue(x, id)) {
        KeepSnoc(t, x, p);
      } else {
        var m := InsertLast(init, x, id, order);
        assert InsertLast(t, x, id, order) == m + [last];
        var ls := if CellValue(last, id) == k then [last] else [];
        if CellValue(last, id) == k && CellValue(x, id) == k {
          BeforeReflexive(order, k);
        }
        InsertLastStable(init, x, id, order, k);
        KeepSnoc(m, last, p);
        KeepSnoc(init, last, p);
        SwapGroups(Keep(init, p), xs, ls);
      }
    }
  }

  /** At most one of two groups is non-empty, so their order does not matter. */
  lemma SwapGroups(a: seq<Row>, xs: seq<Row>, ls: seq<Row>)
    requires xs == [] || ls == []
    ensures a + xs + ls == a + ls + xs
  {
    if xs == [] {
      assert a + xs == a && ls + xs == ls;
    } else {
      assert a + ls == a && a + xs + ls == a + xs;
    }
  }

  /** The sort is stable: rows with equal keys keep their input order, in
      both directions. */
  lemma {:induction false} SortRowsStable(s: seq<Row>, id: string, order: SortOrder)
    ensures SameKeyOrder(SortRows(s, id, order), s, id)
    decreases |s|
  {
    if s != [] {
      var init := s[..|s| - 1];
      var x := s[|s| - 1];
      SortRowsStable(init, id, order);
      forall k
        ensures Keep(SortRows(s, id, order), HasKey(id, k)) == Keep(s, HasKey(id, k))
      {
        InsertLastStable(SortRows(init, id, order), x, id, order, k);
        assert s == init + [x];
        KeepSnoc(init, x, HasKey(id, k));
      }
    }
  }

  /** Two sorted sequences with the same rows per key, in the same order, are
      equal. */
  lemma {:induction false} SortedSameKeyOrderEqual(t: seq<Row>, u: seq<Row>, id: string, order: SortOrder)
    requires Sorted(t, id, order) && Sorted(u, id, order)
    requires SameKeyOrder(t, u, id)
    ensures t == u
    decreases |t| + |u|
  {
    BothEmptyOrNeither(t, u, id);
    if t != [] {
      var t', u' := t[..|t| - 1], u[..|u| - 1];
      LastRowsEqual(t, u, id, order);
      SameKeyOrderDropLast(t, u, id);
      assert Sorted(t', id, order) && Sorted(u', id, order);
      SortedSameKeyOrderEqual(t', u', id, order);
      assert t == t' + [t[|t| - 1]] && u == u' + [u[|u| - 1]];
    }
  }

  /** Sorted sequences with the same rows per key end with the same row. */
  lemma LastRowsEqual(t: seq<Row>, u: seq<Row>, id: string, order: SortOrder)
    requires t != [] && u != []
    requires Sorted(t, id, order) && Sorted(u, id, order)
    requires SameKeyOrder(t, u, id)
    ensures t[|t| - 1] == u[|u| - 1]
  {
    var a, b := t[|t| - 1], u[|u| - 1];
    var t', u' := t[..|t| - 1], u[..|u| - 1];
    var ka, kb := CellValue(a, id), CellValue(b, id);
    assert t == t' + [a] && u == u' + [b];
    // the last rows carry the same key: each precedes the other
    KeepSnoc(t', a, HasKey(id, ka));
    assert Keep(t, HasKey(id, ka)) == Keep(u, HasKey(id, ka));
    KeepMember(u, HasKey(id, ka), a);
    LastIsGreatest(u, id, order, a);
    KeepSnoc(u', b, HasKey(id, kb));
    assert Keep(t, HasKey(id, kb)) == Keep(u, HasKey(id, kb));
    KeepMember(t, HasKey(id, kb), b);
    LastIsGreatest(t, id, order, b);
    BeforeAntisymmetric(order, ka, kb);
    // and they are the same row: the last of that key's group
    var g := Keep(t, HasKey(id, ka));
    assert g == Keep(t', HasKey(id, ka)) + [a];
    assert g == Keep(u', HasKey(id, ka)) + [b];
    assert g[|g| - 1] == a && g[|g| - 1] == b;
  }

  /** Dropping the same last row from both keeps the same rows per key. */
  lemma SameKeyOrderDropLast(t: seq<Row>, u: seq<Row>, id: string)
    requires t != [] && u != [] && t[|t| - 1] == u[|u| - 1]
    requires SameKeyOrder(t, u, id)
    ensures SameKeyOrder(t[..|t| - 1], u[..|u| - 1], id)
  {
    var a := t[|t| - 1];
    var t', u' := t[..|t| - 1], u[..|u| - 1];
    assert t == t' + [a] && u == u' + [a];
    forall k
      ensures Keep(t', HasKey(id, k)) == Keep(u', HasKey(id, k))
    {
      KeepSnoc(t', a, HasKey(id, k));
      KeepSnoc(u', a, HasKey(id, k));
      assert Keep(t, HasKey(id, k)) == Keep(u, HasKey(id, k));
      DropSameSuffix(Keep(t', HasKey(id, k)), Keep(u', HasKey(id, k)),
                     if CellValue(a, id) == k then [a] else []);
    }
  }

  lemma DropSameSuffix(x: seq<Row>, y: seq<Row>, z: seq<Row>)
    requires x + z == y + z
    ensures x == y
  {
    assert |x| == |y|;
    assert x == (x + z)[..|x|];
    assert y == (y + z)[..|y|];
  }

  /** Sequences with the same rows per key are both empty or both not. */
  lemma BothEmptyOrNeither(t: seq<Row>, u: seq<Row>, id: string)
    requires SameKeyOrder(t, u, id)
    ensures t == [] <==> u == []
  {
    if t != [] {
      var k0 := CellValue(t[0], id);
      NonEmptyKeyGroup(t, id);
      assert Keep(t, HasKey(id, k0)) == Keep(u, HasKey(id, k0));
    }
    if u != [] {
      var k0 := CellValue(u[0], id);
      NonEmptyKeyGroup(u, id);
      assert Keep(t, HasKey(id, k0)) == Keep(u, HasKey(id, k0));
    }
  }

  /** A non-empty sequence has a non-empty group for its first row's key. */
  lemma NonEmptyKeyGroup(t: seq<Row>, id: string)
    requires t != []
    ensures Keep(t, HasKey(id, CellValue(t[0], id))) != []
  {
    KeepMember(t, HasKey(id, CellValue(t[0], id)), t[0]);
  }

  /** In a sorted sequence every row precedes (or ties with) the last one. */
  lemma LastIsGreatest(u: seq<Row>, id: string, order: SortOrder, e: Row)
    requires Sorted(u, id, order) && e in u
    ensures Before(order, CellValue(e, id), CellValue(u[|u| - 1], id))
  {
    var i :| 0 <= i < |u| && u[i] == e;
    if i == |u| - 1 {
      BeforeReflexive(order, CellValue(e, id));
    }
  }

  /** A stable sort has exactly one possible result: any sorted sequence with
      the input's rows per key, in the input's order, is SortRows' result. So
      the model agrees with Rust's `sort_by`, whatever algorithm it uses. */
  lemma StableSortUnique(s: seq<Row>, t: seq<Row>, id: string, order: SortOrder)
    requires Sorted(t, id, order) && SameKeyOrder(t, s, id)
    ensures t == SortRows(s, id, order)
  {
    SortRowsSorted(s, id, order);
    SortRowsStable(s, id, order);
    SortedSameKeyOrderEqual(t, SortRows(s, id, order), id, order);
  }

  /** Sorting rows that are already in order changes nothing; in particular
      sorting twice is sorting once, and rows that all lack the key (all
      reading "") keep their order. */
  lemma SortRowsIdempotent(s: seq<Row>, id: string, order: SortOrder)
    requires Sorted(s, id, order)
    ensures SortRows(s, id, order) == s
  {
    StableSortUnique(s, s, id, order);
  }

  /** The first listed column whose id is `id` (`columns.iter().find`). */
  function FindColumn(columns: seq<Column>, id: string): (r: Option<Column>)
    ensures r.Some? ==> r.value.id == id && r.value in columns
    ensures r.None? <==> forall i :: 0 <= i < |columns| ==> columns[i].id != id
  {
    if columns == [] then None
    else if columns[0].id == id then Some(columns[0])
    else
      assert forall i :: 1 <= i < |columns| ==> columns[i] == columns[1..][i - 1];
      FindColumn(columns[1..], id)
  }

  /** The sort step: sort by the chosen column when it is listed, otherwise
      keep the order. */
  function SortStep(rows: seq<Row>, columns: seq<Column>, sortColumn: Option<string>, order: SortOrder): seq<Row>
  {
    if sortColumn.Some? && FindColumn(columns, sortColumn.value).Some? then
      SortRows(rows, FindColumn(columns, sortColumn.value).value.id, order)
    else rows
  }

  /** What the sort step promises: a permutation; with no sort column, or one
      that names no listed column, the same sequence; otherwise sorted on that
      column and stable. */
  lemma SortStepSpec(rows: seq<Row>, columns: seq<Column>, sortColumn: Option<string>, order: SortOrder)
    ensures multiset(SortStep(rows, columns, sortColumn, order)) == multiset(rows)
    ensures sortColumn.None? || (forall i :: 0 <= i < |columns| ==> columns[i].id != sortColumn.value)
            ==> SortStep(rows, columns, sortColumn, order) == rows
    ensures sortColumn.Some? && (exists i :: 0 <= i < |columns| && columns[i].id == sortColumn.value)
            ==> Sorted(SortStep(rows, columns, sortColumn, order), sortColumn.value, order)
                && SameKeyOrder(SortStep(rows, columns, sortColumn, order), rows, sortColumn.value)
  {
    if sortColumn.Some? && FindColumn(columns, sortColumn.value).Some? {
      var id := sortColumn.value;
      SortRowsPermutation(rows, id, order);
      SortRowsSorted(rows, id, order);
      SortRowsStable(rows, id, order);
    }
  }

  /** `sort_by` on the first `len` slots of a buffer, as an insertion sort:
      the sorted prefix grows by one row per step. */
  method SortInPlace(a: array<Row>, len: nat, id: string, order: SortOrder)
    requires len <= a.Length
    modifies a
    ensures a[..len] == SortRows(old(a[..len]), id, order)
    ensures forall k :: len <= k < a.Length ==> a[k] == old(a[k])
  {
    ghost var orig := a[..len];
    var i := 0;
    while i < len
      invariant i <= len
      invariant a[..i] == SortRows(orig[..i], id, order)
      invariant forall k :: i <= k < len ==> a[k] == orig[k]
      invariant forall k :: len <= k < a.Length ==> a[k] == old(a[k])
    {
      assert orig[..i + 1][..i] == orig[..i];
      InsertAt(a, i, id, order);
      i := i + 1;
    }
    assert orig[..len] == orig;
  }

  /** One insertion step: the row at index `i` moves left past every row of
      the sorted prefix that the comparator puts strictly after it. */
  method InsertAt(a: array<Row>, i: nat, id: string, order: SortOrder)
    requires i < a.Length
    modifies a
    ensures a[..i + 1] == InsertLast(old(a[..i]), old(a[i]), id, order)
    ensures forall k :: i < k < a.Length ==> a[k] == old(a[k])
  {
    var x := a[i];
    ghost var t := a[..i];
    var j := i;
    while j > 0 && !Before(order, CellValue(a[j - 1], id), CellValue(x, id))
      invariant 0 <= j <= i
      invariant forall k :: 0 <= k < j ==> a[k] == t[k]
      invariant forall k :: j < k <= i ==> a[k] == t[k - 1]
      invariant forall k :: j <= k < i ==> !Before(order, CellValue(t[k], id), CellValue(x, id))
      invariant forall k :: i < k < a.Length ==> a[k] == old(a[k])
    {
      assert a[j - 1] == t[j - 1];
      a[j] := a[j - 1];
      j := j - 1;
    }
    a[j] := x;
    InsertLastAt(t, x, id, order, j);
    Assemble(a[..i + 1], t, x, j);
  }

  /** A sequence that agrees with `t` before `j`, holds `x` at `j` and `t`
      shifted right after it, is `t` with `x` inserted at `j`. */
  lemma Assemble(b: seq<Row>, t: seq<Row>, x: Row, j: nat)
    requires j <= |t| && |b| == |t| + 1
    requires forall k :: 0 <= k < j ==> b[k] == t[k]
    requires b[j] == x
    requires forall k :: j < k < |b| ==> b[k] == t[k - 1]
    ensures b == t[..j] + [x] + t[j..]
  {
  }

  /** Where InsertLast puts `x`: after the last row that may precede it, with
      every later row moved one place right. */
  lemma {:induction false} InsertLastAt(t: seq<Row>, x: Row, id: string, order: SortOrder, j: nat)
    requires j <= |t|
    requires j == 0 || Before(order, CellValue(t[j - 1], id), CellValue(x, id))
    requires forall k :: j <= k < |t| ==> !Before(order, CellValue(t[k], id), CellValue(x, id))
    ensures InsertLast(t, x, id, order) == t[..j] + [x] + t[j..]
    decreases |t|
  {
    if t != [] && j < |t| {
      var init, last := t[..|t| - 1], t[|t| - 1];
      InsertLastAt(init, x, id, order, j);
      InsertLastStep(t, x, id, order, j);
    } else if t != [] {
      assert InsertLast(t, x, id, order) == t + [x];
      assert t[..j] == t && t[j..] == [];
    }
  }

  /** The recursive case of InsertLastAt: `x` passes the last row. */
  lemma InsertLastStep(t: seq<Row>, x: Row, id: string, order: SortOrder, j: nat)
    requires j < |t|
    requires !Before(order, CellValue(t[|t| - 1], id), CellValue(x, id))
    requires InsertLast(t[..|t| - 1], x, id, order) == t[..|t| - 1][..j] + [x] + t[..|t| - 1][j..]
    ensures InsertLast(t, x, id, order) == t[..j] + [x] + t[j..]
  {
    var init, last := t[..|t| - 1], t[|t| - 1];
    assert InsertLast(t, x, id, order) == InsertLast(init, x, id, order) + [last];
    assert init[..j] == t[..j];
    assert t[j..] == init[j..] + [last];
  }



}
