/** The page arithmetic both editors use (src/app/cadet-editor.js,
    src/app/afsc-editor.js): fifteen rows per page, pages numbered from 1. The
    page number starts at 1 and the "Previous" button is disabled on page 1,
    so it never drops below 1. */
module Pagination {

  const ItemsPerPage: nat := 15

  /** `(currentPage - 1) * itemsPerPage`. */
  function StartIndex(page: nat): nat
    requires page >= 1
  {
    (page - 1) * ItemsPerPage
  }

  /** `currentPage * itemsPerPage`. */
  function EndIndex(page: nat): nat {
    page * ItemsPerPage
  }

  function Min(a: nat, b: nat): nat {
    if a <= b then a else b
  }

  /** `s.slice(start, end)` for non-negative bounds: both are clamped to the length. */
  function Slice<T>(s: seq<T>, start: nat, end: nat): (r: seq<T>)
    ensures |r| == if Min(start, |s|) <= Min(end, |s|) then Min(end, |s|) - Min(start, |s|) else 0
    ensures |r| > 0 ==> start + |r| <= |s|
    ensures forall k :: 0 <= k < |r| ==> r[k] == s[start + k]
  {
    var lo, hi := Min(start, |s|), Min(end, |s|);
    if lo <= hi then s[lo..hi] else []
  }

  /** The rows shown on page `page`. */
  function PageSlice<T>(s: seq<T>, page: nat): (rows: seq<T>)
    requires page >= 1
    ensures |rows| <= ItemsPerPage
    ensures |rows| > 0 ==> StartIndex(page) + |rows| <= |s|
    ensures forall k :: 0 <= k < |rows| ==> rows[k] == s[StartIndex(page) + k]
    ensures StartIndex(page) + |rows| == Min(EndIndex(page), |s|) || (rows == [] && StartIndex(page) >= |s|)
  {
    Slice(s, StartIndex(page), EndIndex(page))
  }

  /** `Math.ceil(n / itemsPerPage)`. */
  function TotalPages(n: nat): (pages: nat)
    ensures pages * ItemsPerPage >= n
    ensures pages > 0 ==> (pages - 1) * ItemsPerPage < n
  {
    (n + ItemsPerPage - 1) / ItemsPerPage
  }

  /** A page up to the last one is never empty; pages after it are. */
  lemma PageNonEmptyIff<T>(s: seq<T>, page: nat)
    requires page >= 1
    ensures PageSlice(s, page) != [] <==> page <= TotalPages(|s|)
  {
    if page <= TotalPages(|s|) {
      assert StartIndex(page) < |s|;
      assert PageSlice(s, page)[0] == s[StartIndex(page)];
    } else {
      assert StartIndex(page) >= TotalPages(|s|) * ItemsPerPage;
    }
  }

  /** The first `count` pages, one after another. */
  function Pages<T>(s: seq<T>, count: nat): seq<T> {
    if count == 0 then [] else Pages(s, count - 1) + PageSlice(s, count)
  }

  /** The first `count` pages are the first `count * 15` rows (or all of them). */
  lemma {:induction false} PagesArePrefix<T>(s: seq<T>, count: nat)
    ensures Pages(s, count) == s[..Min(EndIndex(count), |s|)]
  {
    if count > 0 {
      PagesArePrefix(s, count - 1);
      var lo := Min(EndIndex(count - 1), |s|);
      var hi := Min(EndIndex(count), |s|);
      assert EndIndex(count - 1) == StartIndex(count);
      assert PageSlice(s, count) == s[lo..hi];
      assert s[..lo] + s[lo..hi] == s[..hi];
    }
  }

  /** Paging through all pages shows every row exactly once, in order. */
  lemma AllPagesCoverList<T>(s: seq<T>)
    ensures Pages(s, TotalPages(|s|)) == s
  {
    PagesArePrefix(s, TotalPages(|s|));
  }

  /** The list position of row `row` of page `page`: `startIndex + index`. */
  function RowPosition(page: nat, row: nat): nat
    requires page >= 1
  {
    StartIndex(page) + row
  }

  /** Row `row` of the page shows the element at its list position. */
  lemma RowPositionShown<T>(s: seq<T>, page: nat, row: nat)
    requires page >= 1 && row < |PageSlice(s, page)|
    ensures RowPosition(page, row) < |s| && s[RowPosition(page, row)] == PageSlice(s, page)[row]
  {
  }

  /** Replacing the element that row `row` shows changes that row of the page
      and no other. */
  lemma PageSliceUpdateShown<T>(s: seq<T>, page: nat, row: nat, x: T)
    requires page >= 1 && row < |PageSlice(s, page)|
    ensures RowPosition(page, row) < |s|
    ensures PageSlice(s[RowPosition(page, row) := x], page) == PageSlice(s, page)[row := x]
  {
    var t := s[RowPosition(page, row) := x];
    assert PageSlice(t, page) == t[StartIndex(page)..Min(EndIndex(page), |t|)];
    assert PageSlice(s, page) == s[StartIndex(page)..Min(EndIndex(page), |s|)];
  }

  /** Replacing an element of an earlier page leaves the page as it was. */
  lemma PageSliceUpdateEarlier<T>(s: seq<T>, page: nat, i: nat, x: T)
    requires page >= 1 && i < |s| && i < StartIndex(page)
    ensures PageSlice(s[i := x], page) == PageSlice(s, page)
  {
    var t := s[i := x];
    if StartIndex(page) < |s| {
      assert PageSlice(t, page) == t[StartIndex(page)..Min(EndIndex(page), |t|)];
      assert PageSlice(s, page) == s[StartIndex(page)..Min(EndIndex(page), |s|)];
    }
  }
}
