/** Client-side pagination: the index arithmetic and `slice` that pick the
    rows of the current page, and the page count handed to the pagination
    control. */
module Paginator {

  function Min(a: int, b: int): int
  {
    if a <= b then a else b
  }

  /** How `Array.prototype.slice` reads one of its arguments: a negative
      index counts back from the end, and the result is clamped to
      `[0, len]`. */
  function SliceIndex(i: int, len: nat): (r: nat)
    ensures r <= len
  {
    if i < 0 then (if len + i < 0 then 0 else len + i)
    else Min(i, len)
  }

  /** `s.slice(start, end)`: the elements from the clamped start up to the
      clamped end, or none when the end does not lie past the start. */
  function Slice<T>(s: seq<T>, start: int, end: int): (r: seq<T>)
    ensures |r| <= |s|
  {
    var from, to := SliceIndex(start, |s|), SliceIndex(end, |s|);
    if from < to then s[from..to] else []
  }

  /** The rows of page `page` when `perPage` rows fit on a page:
      `lastUserIndex = currentPage * perPage`,
      `firstUserIndex = lastUserIndex - perPage`,
      `sortedUsers.slice(firstUserIndex, lastUserIndex)`. */
  function Window<T>(sorted: seq<T>, page: int, perPage: nat): (r: seq<T>)
    ensures |r| <= perPage
  {
    var last := page * perPage;
    var first := last - perPage;
    Slice(sorted, first, last)
  }

  /** `Math.ceil(users.length / perPage)`. */
  function TotalPages(len: nat, perPage: nat): (r: nat)
    requires perPage > 0
    ensures len <= r * perPage
    ensures r == 0 || (r - 1) * perPage < len
  {
    (len + perPage - 1) / perPage
  }

  /** `page * perPage` is one page further than `(page - 1) * perPage`. */
  lemma NextPageStart(page: int, perPage: nat)
    ensures page * perPage == (page - 1) * perPage + perPage
  {
  }

  /** From page 1 on, the window is the stretch of the list from
      `(page - 1) * perPage` to `page * perPage`, cut off at the end of the
      list. */
  lemma WindowIsClippedSlice<T>(sorted: seq<T>, page: int, perPage: nat)
    requires page >= 1
    ensures (page - 1) * perPage <= page * perPage
    ensures Window(sorted, page, perPage) ==
      sorted[Min((page - 1) * perPage, |sorted|)..Min(page * perPage, |sorted|)]
  {
    NextPageStart(page, perPage);
    MulNonNegative(page - 1, perPage);
    SliceInRange(sorted, (page - 1) * perPage, page * perPage);
  }

  lemma MulNonNegative(a: int, b: int)
    requires a >= 0 && b >= 0
    ensures a * b >= 0
  {
  }

  /** With non-negative arguments, `slice` only clamps to the length. */
  lemma SliceInRange<T>(s: seq<T>, start: int, end: int)
    requires 0 <= start <= end
    ensures Slice(s, start, end) == s[Min(start, |s|)..Min(end, |s|)]
  {
  }

  /** A page that starts at or past the end of the list shows no rows. */
  lemma WindowEmptyPastEnd<T>(sorted: seq<T>, page: int, perPage: nat)
    requires page >= 1
    ensures (page - 1) * perPage >= |sorted| ==> Window(sorted, page, perPage) == []
  {
    WindowIsClippedSlice(sorted, page, perPage);
  }

  /** A clipped stretch `s[min(first, |s|)..min(last, |s|)]` is the run of
      consecutive elements of `s` that starts at `first`. */
  lemma ClippedRun<T>(s: seq<T>, first: int, last: int)
    requires 0 <= first <= last
    ensures forall k :: 0 <= k < |s[Min(first, |s|)..Min(last, |s|)]| ==>
      first + k < |s| && s[Min(first, |s|)..Min(last, |s|)][k] == s[first + k]
  {
  }

  /** The window is a contiguous, order-preserving run of the list: its
      `k`-th row is row `(page - 1) * perPage + k` of the list. */
  lemma WindowIsContiguous<T>(sorted: seq<T>, page: int, perPage: nat)
    requires page >= 1
    ensures forall k :: 0 <= k < |Window(sorted, page, perPage)| ==>
      (page - 1) * perPage + k < |sorted| &&
      Window(sorted, page, perPage)[k] == sorted[(page - 1) * perPage + k]
  {
    WindowIsClippedSlice(sorted, page, perPage);
    MulNonNegative(page - 1, perPage);
    ClippedRun(sorted, (page - 1) * perPage, page * perPage);
  }

  /** Every page the pagination control offers holds `perPage` rows, or
      what is left of the list on the last page. */
  lemma PageLength<T>(sorted: seq<T>, page: int, perPage: nat)
    requires perPage > 0 && 1 <= page <= TotalPages(|sorted|, perPage)
    ensures (page - 1) * perPage < |sorted|
    ensures |Window(sorted, page, perPage)| == Min(perPage, |sorted| - (page - 1) * perPage)
  {
    PageStartsInList(|sorted|, page, perPage);
    WindowLength(sorted, page, perPage);
  }

  /** A page that starts inside the list holds `perPage` rows or what is
      left of the list. */
  lemma WindowLength<T>(sorted: seq<T>, page: int, perPage: nat)
    requires page >= 1 && (page - 1) * perPage < |sorted|
    ensures |Window(sorted, page, perPage)| == Min(perPage, |sorted| - (page - 1) * perPage)
  {
    WindowIsClippedSlice(sorted, page, perPage);
    NextPageStart(page, perPage);
    MulNonNegative(page - 1, perPage);
    ClippedLength(sorted, (page - 1) * perPage, page * perPage, perPage);
  }

  lemma ClippedLength<T>(s: seq<T>, first: int, last: int, count: nat)
    requires 0 <= first < |s| && last == first + count
    ensures |s[Min(first, |s|)..Min(last, |s|)]| == Min(count, |s| - first)
  {
  }

  /** Every page the pagination control offers starts inside the list. */
  lemma PageStartsInList(len: nat, page: int, perPage: nat)
    requires perPage > 0 && 1 <= page <= TotalPages(len, perPage)
    ensures (page - 1) * perPage < len
  {
    MulMonotone(page - 1, TotalPages(len, perPage) - 1, perPage);
  }

  lemma MulMonotone(a: nat, b: nat, c: nat)
    requires a <= b
    ensures a * c <= b * c
  {
  }

  /** Pages 1 to `n`, laid end to end. */
  function Pages<T>(sorted: seq<T>, perPage: nat, n: nat): seq<T>
  {
    if n == 0 then [] else Pages(sorted, perPage, n - 1) + Window(sorted, n, perPage)
  }

  /** The first `n` pages together are the first `n * perPage` rows. */
  lemma {:induction false} PagesArePrefix<T>(sorted: seq<T>, perPage: nat, n: nat)
    ensures Pages(sorted, perPage, n) == sorted[..Min(n * perPage, |sorted|)]
  {
    if n > 0 {
      PagesArePrefix(sorted, perPage, n - 1);
      WindowIsClippedSlice(sorted, n, perPage);
      MulNonNegative(n - 1, perPage);
      PrefixThenRun(sorted, (n - 1) * perPage, n * perPage);
    }
  }

  /** A clipped prefix followed by the clipped run after it is the longer
      clipped prefix. */
  lemma PrefixThenRun<T>(s: seq<T>, first: int, last: int)
    requires 0 <= first <= last
    ensures s[..Min(first, |s|)] + s[Min(first, |s|)..Min(last, |s|)] == s[..Min(last, |s|)]
  {
  }

  /** Pages 1 to `TotalPages` show every row of the list exactly once, in
      order. */
  lemma PagesCoverList<T>(sorted: seq<T>, perPage: nat)
    requires perPage > 0
    ensures Pages(sorted, perPage, TotalPages(|sorted|, perPage)) == sorted
  {
    PagesArePrefix(sorted, perPage, TotalPages(|sorted|, perPage));
  }

  /** Twelve rows, five to a page: page 1 holds rows 1-5 and page 3 only
      rows 11-12; at ten to a page, page 3 is empty. */
  lemma TwelveRowsScenario<T>(sorted: seq<T>)
    requires |sorted| == 12
    ensures TotalPages(12, 5) == 3 && TotalPages(12, 10) == 2
    ensures Window(sorted, 1, 5) == sorted[..5]
    ensures Window(sorted, 3, 5) == sorted[10..]
    ensures Window(sorted, 3, 10) == []
  {
  }
}
