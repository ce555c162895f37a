/** The pagination controls (src/yew/controls.rs, src/dioxus/controls.rs):
    when the previous and next buttons are disabled, what their handlers do
    to the page number, and the page indicator text. */
module Controls {
  import opened Text

  /** The previous button is disabled on the first page. */
  predicate PrevDisabled(page: nat)
  {
    page == 0
  }

  /** The next button is disabled when no page follows (also when there are
      no pages at all). */
  predicate NextDisabled(page: nat, totalPages: nat)
  {
    page + 1 >= totalPages
  }

  /** `on_prev`, identical in both bindings: step back unless on the first
      page. */
  function Prev(page: nat): (r: nat)
    ensures r <= page
    ensures r == page <==> PrevDisabled(page)
    ensures !PrevDisabled(page) ==> r + 1 == page
  {
    if page > 0 then page - 1 else page
  }

  /** Yew's `on_next`: always one page on, with no upper bound; it relies on
      the button being disabled. */
  function YewNext(page: nat): (r: nat)
    ensures r == page + 1
  {
    page + 1
  }

  /** Dioxus' `on_next`: one page on only while a next page exists. */
  function DioxusNext(page: nat, totalPages: nat): (r: nat)
    ensures r == page <==> NextDisabled(page, totalPages)
    ensures !NextDisabled(page, totalPages) ==> r == page + 1
    ensures page < totalPages ==> r < totalPages
  {
    if page + 1 < totalPages then page + 1 else page
  }

  /** The two next handlers agree whenever the button is enabled; when it is
      disabled Yew's handler still moves past the last page. */
  lemma NextHandlersAgreeWhenEnabled(page: nat, totalPages: nat)
    ensures !NextDisabled(page, totalPages) ==> YewNext(page) == DioxusNext(page, totalPages)
    ensures NextDisabled(page, totalPages) ==> YewNext(page) >= totalPages && DioxusNext(page, totalPages) == page
  {
  }

  /** Stepping forward and back returns to the same page. */
  lemma PrevUndoesNext(page: nat, totalPages: nat)
    ensures Prev(YewNext(page)) == page
    ensures !NextDisabled(page, totalPages) ==> Prev(DioxusNext(page, totalPages)) == page
  {
  }

  /** `n` presses of the Dioxus next button. */
  function NextTimes(page: nat, totalPages: nat, n: nat): nat
  {
    if n == 0 then page else DioxusNext(NextTimes(page, totalPages, n - 1), totalPages)
  }

  /** Repeated next presses climb one page at a time and stop at the last
      page (or stay where they are when already at or past it). */
  lemma {:induction false} NextTimesStops(page: nat, totalPages: nat, n: nat)
    ensures NextDisabled(page, totalPages) ==> NextTimes(page, totalPages, n) == page
    ensures !NextDisabled(page, totalPages) ==>
              NextTimes(page, totalPages, n) == if page + n < totalPages - 1 then page + n else totalPages - 1
  {
    if n > 0 {
      NextTimesStops(page, totalPages, n - 1);
    }
  }

  /** Enough presses reach `max(page, totalPages - 1)`, and one more press
      there changes nothing. */
  lemma NextReachesLastPage(page: nat, totalPages: nat, n: nat)
    requires n >= totalPages
    ensures var last := if page + 1 >= totalPages then page else totalPages - 1;
            NextTimes(page, totalPages, n) == last && DioxusNext(last, totalPages) == last
  {
    NextTimesStops(page, totalPages, n);
  }

  /** `template.replace("{current}", page + 1).replace("{total}", total)`. */
  function PageIndicator(template: string, page: nat, totalPages: nat): string
  {
    ReplaceAll(ReplaceAll(template, "{current}", NatToString(page + 1)), "{total}", NatToString(totalPages))
  }

  /** With the default template the indicator reads
      "Page <page + 1> of <totalPages>", both numbers in decimal. */
  lemma {:induction false} DefaultIndicator(page: nat, totalPages: nat)
    ensures PageIndicator("Page {current} of {total}", page, totalPages)
            == "Page " + NatToString(page + 1) + " of " + NatToString(totalPages)
  {
    var cur, tot := NatToString(page + 1), NatToString(totalPages);
    var template := "Page {current} of {total}";
    assert template == "Page " + "{current}" + " of " + "{total}";
    ReplaceSingle("Page ", "{current}", " of ", "{total}", cur);
    var first := "Page " + cur + " of " + "{total}";
    assert first == ("Page " + cur + " of ") + "{total}" + [] + [];
    ReplaceSingle("Page " + cur + " of ", "{total}", [], [], tot);
    assert "Page " + cur + " of " + tot + [] + [] == "Page " + cur + " of " + tot;
  }

  /** A text whose only possible match of `pat` is one occurrence after a
      prefix free of `pat`'s first character, followed by such a text and a
      tail too short to match, has that occurrence replaced and nothing else. */
  lemma {:induction false} ReplaceSingle(pre: string, pat: string, mid: string, tail: string, with: string)
    requires |pat| > 0 && |tail| < |pat|
    requires forall i :: 0 <= i < |pre| ==> pre[i] != pat[0]
    requires forall i :: 0 <= i < |mid| ==> mid[i] != pat[0]
    ensures ReplaceAll(pre + pat + mid + tail, pat, with) == pre + with + mid + tail
  {
    var rest := mid + tail;
    var from := pat + rest;
    ReplaceAllAtFront(pat, rest, with);
    ReplaceAllSkips(mid, tail, pat, with);
    ReplaceAllShort(tail, pat, with);
    ReplaceAllSkips(pre, from, pat, with);
    assert pre + pat + mid + tail == pre + from;
    assert pre + (with + (mid + tail)) == pre + with + mid + tail;
  }
}
