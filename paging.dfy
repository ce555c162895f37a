/** Pagination arithmetic of the view pipeline (src/yew/table.rs:174-177,
    src/dioxus/table.rs:144-147): the page count is the ceiling of the row
    count over the page size, and a page is the window
    `[page * size, min((page + 1) * size, len))`, which panics when its start
    lies past the end of the rows. */
module Paging {
  import opened Types

  /** `(len as f64 / size as f64).ceil() as usize`, for a non-zero size: the
      fewest pages of `size` rows that hold `len` rows. */
  function TotalPages(len: nat, size: nat): (n: nat)
    requires size > 0
    ensures len <= n * size
    ensures n == 0 || (n - 1) * size < len
    ensures n == 0 <==> len == 0
  {
    var n := (len + size - 1) / size;
    assert n * size <= len + size - 1 < n * size + size;
    n
  }

  /** The page count is the least that holds every row. */
  lemma TotalPagesLeast(len: nat, size: nat, m: nat)
    requires size > 0 && len <= m * size
    ensures TotalPages(len, size) <= m
  {
    var n := TotalPages(len, size);
    if n > m {
      assert (n - 1) * size >= m * size by {
        MulMono(m, n - 1, size);
      }
    }
  }

  lemma MulMono(a: nat, b: nat, c: nat)
    requires a <= b
    ensures a * c <= b * c
  {
  }

  /** The panic of `&rows[start..end]` when `start > end`. */
  datatype SliceError = SliceOutOfRange(start: nat, end: nat)

  /** The rows of one page, or the panic the slice raises. */
  function PageSlice<T>(s: seq<T>, page: nat, size: nat): (r: Result<seq<T>, SliceError>)
    ensures r.Ok? <==> page * size <= |s|
    ensures r.Ok? ==> |r.value| <= size
    ensures r.Ok? ==> page * size + |r.value| == if (page + 1) * size < |s| then (page + 1) * size else |s|
    ensures r.Ok? ==> forall k :: 0 <= k < |r.value| ==> r.value[k] == s[page * size + k]
    ensures r.Err? ==> r.error.start == page * size && r.error.end == |s| < r.error.start
  {
    var start := page * size;
    var end := if (page + 1) * size < |s| then (page + 1) * size else |s|;
    if start > end then Err(SliceOutOfRange(start, end)) else Ok(s[start..end])
  }

  /** A page holds only rows of the sequence. */
  lemma PageMember<T>(s: seq<T>, page: nat, size: nat, x: T)
    requires PageSlice(s, page, size).Ok? && x in PageSlice(s, page, size).value
    ensures x in s
  {
    var w := PageSlice(s, page, size).value;
    var k :| 0 <= k < |w| && w[k] == x;
    assert s[page * size + k] == x;
  }

  /** For a non-zero size, a page has rows exactly when it is one of the
      first `TotalPages` pages. */
  lemma PageNonEmptyIff<T>(s: seq<T>, page: nat, size: nat)
    requires size > 0
    ensures PageSlice(s, page, size).Ok? && PageSlice(s, page, size).value != []
            <==> page < TotalPages(|s|, size)
  {
    var n := TotalPages(|s|, size);
    if page < n {
      MulMono(page, n - 1, size);
    } else {
      MulMono(n, page, size);
    }
  }

  /** The rows of pages `0 .. n - 1`, one after another. */
  function Pages<T>(s: seq<T>, size: nat, n: nat): seq<T>
    requires size > 0
    requires (n == 0 || (n - 1) * size <= |s|)
  {
    if n == 0 then []
    else
      assert n - 1 == 0 || (n - 2) * size <= |s| by {
        if n >= 2 {
          MulMono(n - 2, n - 1, size);
        }
      }
      Pages(s, size, n - 1) + PageSlice(s, n - 1, size).value
  }

  /** The first `n` pages are the first `min(n * size, |s|)` rows. */
  lemma {:induction false} PagesPrefix<T>(s: seq<T>, size: nat, n: nat)
    requires size > 0 && (n == 0 || (n - 1) * size <= |s|)
    ensures Pages(s, size, n) == s[..if n * size < |s| then n * size else |s|]
  {
    if n > 0 {
      var m := n - 1;
      if m > 0 {
        MulMono(m - 1, m, size);
      }
      PagesPrefix(s, size, m);
      assert m * size <= |s|;
      var w := PageSlice(s, m, size).value;
      var e := if n * size < |s| then n * size else |s|;
      assert s[..e] == s[..m * size] + w;
    }
  }

  /** Concatenating the pages `0 .. TotalPages - 1` gives back every row,
      each once, in order. */
  lemma PagesCover<T>(s: seq<T>, size: nat)
    requires size > 0
    ensures var n := TotalPages(|s|, size);
            (n == 0 || (n - 1) * size <= |s|) && Pages(s, size, n) == s
  {
    var n := TotalPages(|s|, size);
    PagesPrefix(s, size, n);
    assert s[..|s|] == s;
  }

  /** Every row lies on exactly one page: row `i` is entry `i % size` of page
      `i / size`, and that page is one of the first `TotalPages`. */
  lemma RowOnPage<T>(s: seq<T>, size: nat, i: nat)
    requires size > 0 && i < |s|
    ensures var p := i / size;
            p < TotalPages(|s|, size)
            && PageSlice(s, p, size).Ok?
            && i % size < |PageSlice(s, p, size).value|
            && PageSlice(s, p, size).value[i % size] == s[i]
  {
    var p := i / size;
    assert p * size + i % size == i;
    PageNonEmptyIff(s, p, size);
    var n := TotalPages(|s|, size);
    if p >= n {
      MulMono(n, p, size);
    }
  }
}
