/**
  The values the table derives from its row count, its page size and its
  current page (src/Table.tsx:46, 66-68, 121-137): the page count, the rows
  of the visible page, the footer's "Showing a to b of N entries", and the
  Previous/Next handlers with the conditions that disable their buttons.
 */
module Pagination {

  function Min(a: int, b: int): int { if a <= b then a else b }

  function Max(a: int, b: int): int { if a <= b then b else a }

  /** `Math.ceil(n / perPage)`: the fewest pages of `perPage` rows that hold `n` rows. */
  function TotalPages(n: nat, perPage: nat): (r: nat)
    requires perPage > 0
    ensures n <= r * perPage
    ensures r == 0 || (r - 1) * perPage < n
  {
    var q := (n + perPage - 1) / perPage;
    assert q * perPage + (n + perPage - 1) % perPage == n + perPage - 1;
    q
  }

  /** `startIndex`: the index of the first row on `page` (pages count from 1). */
  function StartIndex(page: nat, perPage: nat): nat
    requires page >= 1
  {
    (page - 1) * perPage
  }

  /**
    `rows.slice(startIndex, startIndex + perPage)`: the rows shown on `page`.
    They are the rows from `StartIndex` on, at most `perPage` of them, and as
    many as there are left.
   */
  function VisibleRows<T>(rows: seq<T>, page: nat, perPage: nat): (r: seq<T>)
    requires page >= 1 && perPage > 0
    ensures |r| <= perPage
    ensures forall k :: 0 <= k < |r| ==>
              StartIndex(page, perPage) + k < |rows| && r[k] == rows[StartIndex(page, perPage) + k]
    ensures StartIndex(page, perPage) + |r| == Min(StartIndex(page, perPage) + perPage, |rows|)
            || (r == [] && StartIndex(page, perPage) >= |rows|)
  {
    var start := StartIndex(page, perPage);
    if start >= |rows| then [] else rows[start..Min(start + perPage, |rows|)]
  }

  /** Row `i` is shown on page `i / perPage + 1`, at position `i % perPage`, and that page exists. */
  lemma RowIsOnItsPage<T>(rows: seq<T>, perPage: nat, i: nat)
    requires perPage > 0 && i < |rows|
    ensures 1 <= i / perPage + 1 <= TotalPages(|rows|, perPage)
    ensures i % perPage < |VisibleRows(rows, i / perPage + 1, perPage)|
    ensures VisibleRows(rows, i / perPage + 1, perPage)[i % perPage] == rows[i]
  {
    var p := i / perPage + 1;
    var total := TotalPages(|rows|, perPage);
    assert StartIndex(p, perPage) + i % perPage == i;
    if total < p {
      MulMonotone(total, p - 1, perPage);
      assert false;
    }
  }

  lemma MulMonotone(a: nat, b: nat, c: nat)
    requires a <= b
    ensures a * c <= b * c
  {
  }

  /** A page within the page count has rows, and all pages but the last are full. */
  lemma PagesInRangeAreFilled<T>(rows: seq<T>, page: nat, perPage: nat)
    requires perPage > 0 && 1 <= page <= TotalPages(|rows|, perPage)
    ensures 0 < |VisibleRows(rows, page, perPage)|
    ensures page < TotalPages(|rows|, perPage) ==> |VisibleRows(rows, page, perPage)| == perPage
  {
    var total := TotalPages(|rows|, perPage);
    MulMonotone(page - 1, total - 1, perPage);
    if page < total {
      MulMonotone(page, total - 1, perPage);
    }
  }

  /** The footer is rendered when the rows do not fit on one page. */
  predicate FooterShown(n: nat, perPage: nat) {
    n > perPage
  }

  /** The "a" of "Showing a to b of N entries". */
  function FooterFrom(page: nat, perPage: nat): nat
    requires page >= 1
  {
    StartIndex(page, perPage) + 1
  }

  /** The "b" of "Showing a to b of N entries". */
  function FooterTo(page: nat, perPage: nat, n: nat): nat
    requires page >= 1
  {
    Min(StartIndex(page, perPage) + perPage, n)
  }

  /** The footer is shown exactly when there is more than one page. */
  lemma FooterShownIffSeveralPages(n: nat, perPage: nat)
    requires perPage > 0
    ensures FooterShown(n, perPage) <==> TotalPages(n, perPage) > 1
  {
    var total := TotalPages(n, perPage);
    if total <= 1 {
      MulMonotone(total, 1, perPage);
      assert n <= perPage;
    } else {
      MulMonotone(1, total - 1, perPage);
      assert perPage <= (total - 1) * perPage < n;
    }
  }

  /**
    On a page within the page count, "Showing a to b of N" names exactly the
    rows of the visible page, counted from 1.
   */
  lemma FooterDescribesVisibleRows<T>(rows: seq<T>, page: nat, perPage: nat)
    requires perPage > 0 && 1 <= page <= TotalPages(|rows|, perPage)
    ensures 1 <= FooterFrom(page, perPage) <= FooterTo(page, perPage, |rows|) <= |rows|
    ensures VisibleRows(rows, page, perPage) == rows[FooterFrom(page, perPage) - 1..FooterTo(page, perPage, |rows|)]
  {
    PagesInRangeAreFilled(rows, page, perPage);
  }

  /**
    The page size is a property read afresh on every render, while the page
    is state that nothing clamps: on page 3 of 30 rows at 10 per page, a new
    `rowsPerPage` of 50 leaves one page in all, an empty slice on page 3, and
    no footer, so no button to go back with.
   */
  lemma StalePageAfterPageSizeChange<T>(rows: seq<T>)
    requires |rows| == 30
    ensures TotalPages(|rows|, 10) == 3 && |VisibleRows(rows, 3, 10)| == 10
    ensures TotalPages(|rows|, 50) == 1 && VisibleRows(rows, 3, 50) == []
    ensures !FooterShown(|rows|, 50)
  {
  }

  /** The Previous handler: `Math.max(prev - 1, 1)`. */
  function PrevPage(page: nat): nat {
    if page - 1 > 1 then page - 1 else 1
  }

  /** The Next handler: `Math.min(prev + 1, totalPages)`. */
  function NextPage(page: nat, total: nat): nat {
    if page + 1 < total then page + 1 else total
  }

  /** `disabled={currentPage === 1}` */
  predicate PrevDisabled(page: nat) {
    page == 1
  }

  /** `disabled={currentPage === totalPages}` */
  predicate NextDisabled(page: nat, total: nat) {
    page == total
  }

  /** A page in `[1, max(1, total)]` stays there under Previous. */
  lemma PrevStaysInRange(page: nat, total: nat)
    requires 1 <= page <= Max(1, total)
    ensures 1 <= PrevPage(page) <= Max(1, total)
    ensures PrevPage(page) <= page
  {
  }

  /** A page in `[1, total]` stays there under Next (with no pages Next would give page 0). */
  lemma NextStaysInRange(page: nat, total: nat)
    requires 1 <= page <= total
    ensures 1 <= NextPage(page, total) <= total
    ensures page <= NextPage(page, total)
  {
  }

  /** Previous moves back one page exactly when its button is enabled, and is a no-op otherwise. */
  lemma PrevMovesUnlessDisabled(page: nat)
    requires page >= 1
    ensures PrevDisabled(page) <==> PrevPage(page) == page
    ensures !PrevDisabled(page) ==> PrevPage(page) == page - 1
  {
  }

  /** Next moves on one page exactly when its button is enabled, and is a no-op otherwise. */
  lemma NextMovesUnlessDisabled(page: nat, total: nat)
    requires 1 <= page <= total
    ensures NextDisabled(page, total) <==> NextPage(page, total) == page
    ensures !NextDisabled(page, total) ==> NextPage(page, total) == page + 1
  {
  }
}
