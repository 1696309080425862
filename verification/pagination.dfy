/**
 * Pagination of the visible records: a fixed page size, the page count the
 * page buttons are drawn from, and the slice of the current page.
 */
module Pagination {

  /** `recordsPerPage` */
  const RecordsPerPage: nat := 5

  /** `Math.ceil(n / recordsPerPage)`: the fewest pages that hold `n` records. */
  function PageCount(n: nat): (c: nat)
    ensures c * RecordsPerPage >= n
    ensures c == 0 || (c - 1) * RecordsPerPage < n
    ensures c == 0 <==> n == 0
  {
    (n + RecordsPerPage - 1) / RecordsPerPage
  }

  /** How `Array.prototype.slice` turns an argument into a position: negative counts from the end. */
  function ClampIndex(k: int, len: nat): (j: nat)
    ensures j <= len
    ensures 0 <= k <= len ==> j == k
  {
    if k < 0 then (if len + k < 0 then 0 else len + k)
    else if k > len then len
    else k
  }

  /** `s.slice(start, end)`: the positions from the clamped start up to the clamped end. */
  function JsSlice<T>(s: seq<T>, start: int, end: int): (r: seq<T>)
    ensures |r| <= |s|
    ensures start <= end ==> |r| <= end - start
    ensures 0 <= start ==> forall k :: 0 <= k < |r| ==> start + k < |s| && r[k] == s[start + k]
    ensures 0 <= start <= end && start <= |s| ==> |r| == (if end <= |s| then end else |s|) - start
    ensures end == 0 ==> r == []
  {
    var from := ClampIndex(start, |s|);
    var to := ClampIndex(end, |s|);
    if from < to then s[from..to] else []
  }

  /**
   * The records shown on page `page`:
   * `xs.slice((page - 1) * recordsPerPage, page * recordsPerPage)`.
   */
  function PageSlice<T>(xs: seq<T>, page: int): (r: seq<T>)
    ensures |r| <= RecordsPerPage
    ensures page >= 1 ==> forall k :: 0 <= k < |r| ==>
      (page - 1) * RecordsPerPage + k < |xs| && r[k] == xs[(page - 1) * RecordsPerPage + k]
    ensures page == 0 ==> r == []
    ensures 1 <= page <= PageCount(|xs|) ==> 0 < |r|
    ensures 1 <= page < PageCount(|xs|) ==> |r| == RecordsPerPage
    ensures 1 <= page <= PageCount(|xs|) ==>
      |r| == if page * RecordsPerPage <= |xs| then RecordsPerPage else |xs| - (page - 1) * RecordsPerPage
    ensures page > PageCount(|xs|) ==> r == []
  {
    JsSlice(xs, (page - 1) * RecordsPerPage, page * RecordsPerPage)
  }

  /**
   * The pages partition the records: record `i` is shown on page
   * `i / recordsPerPage + 1`, at row `i % recordsPerPage`, and that page has a button.
   */
  lemma PageOfIndex<T>(xs: seq<T>, i: int)
    requires 0 <= i < |xs|
    ensures var p := i / RecordsPerPage + 1;
      && 1 <= p <= PageCount(|xs|)
      && i % RecordsPerPage < |PageSlice(xs, p)|
      && PageSlice(xs, p)[i % RecordsPerPage] == xs[i]
  {
    var p := i / RecordsPerPage + 1;
    var c := PageCount(|xs|);
    assert (p - 1) * RecordsPerPage + i % RecordsPerPage == i;
    assert (p - 1) * RecordsPerPage <= i < c * RecordsPerPage;
  }

  /** Every row of any page slice is one of the sliced records. */
  lemma SliceMembers<T>(xs: seq<T>, page: int)
    ensures forall k :: 0 <= k < |PageSlice(xs, page)| ==> PageSlice(xs, page)[k] in xs
  {
    var from := ClampIndex((page - 1) * RecordsPerPage, |xs|);
    var to := ClampIndex(page * RecordsPerPage, |xs|);
    if from < to {
      assert PageSlice(xs, page) == xs[from..to];
      forall k | 0 <= k < to - from
        ensures xs[from..to][k] in xs
      {
        assert xs[from..to][k] == xs[from + k];
      }
    }
  }
}
