/**
  The state of the `Table` component (src/Table.tsx:41-45) and the three
  transitions that change it: activating a header (sort by that column),
  Previous and Next. The component's `useState` cells become the fields of a
  class; each setter call becomes an assignment to a field.
 */
module TableState {
  import opened RowSort
  import opened Pagination

  datatype Option<T> = None | Some(value: T)

  /** The default of the `rowsPerPage` property (the literal 10 at src/Table.tsx:39), which equals the configuration's default. */
  const DefaultRowsPerPage: nat := 10

  /**
    The direction a header activation sorts in (src/Table.tsx:50-54): `desc`
    when that column is already sorted ascending, `asc` otherwise.
   */
  function NextDirection(sortKey: Option<(nat, Dir)>, col: nat): Dir {
    if sortKey == Some((col, Asc)) then Desc else Asc
  }

  /** The direction rule, both ways. */
  lemma DirectionRule(sortKey: Option<(nat, Dir)>, col: nat)
    ensures NextDirection(sortKey, col) == Desc <==>
              (sortKey.Some? && sortKey.value.0 == col && sortKey.value.1 == Asc)
    ensures sortKey.None? ==> NextDirection(sortKey, col) == Asc
    ensures sortKey.Some? && sortKey.value.0 != col ==> NextDirection(sortKey, col) == Asc
    ensures sortKey.Some? && sortKey.value.1 == Desc ==> NextDirection(sortKey, col) == Asc
  {
  }

  /** Activating one column again and again sorts asc, desc, asc, ... */
  lemma SameColumnToggles(sortKey: Option<(nat, Dir)>, col: nat)
    ensures NextDirection(Some((col, NextDirection(sortKey, col))), col) != NextDirection(sortKey, col)
  {
  }

  class Table {
    /** `sortedRows`: the working copy of the rows. */
    var rows: seq<Row>
    /** `sortConfig`: the column and direction of the last sort, if any. */
    var sortKey: Option<(nat, Dir)>
    /** `currentPage`, counted from 1. */
    var page: nat
    const rowsPerPage: nat
    /** The rows the caller supplied; the working copy is always a permutation of them. */
    ghost const initialRows: seq<Row>

    ghost predicate Valid()
      reads this
    {
      && rowsPerPage > 0
      && multiset(rows) == multiset(initialRows)
      && 1 <= page <= Max(1, TotalPages(|rows|, rowsPerPage))
    }

    constructor (initial: seq<Row>, perPage: nat)
      requires perPage > 0
      ensures Valid()
      ensures rows == initial && initialRows == initial
      ensures sortKey == None && page == 1 && rowsPerPage == perPage
    {
      rows := initial;
      initialRows := initial;
      sortKey := None;
      page := 1;
      rowsPerPage := perPage;
    }

    /** A table built without a `rowsPerPage` property uses the default of 10 at src/Table.tsx:39. */
    constructor WithDefaultPageSize(initial: seq<Row>)
      ensures Valid()
      ensures rows == initial && initialRows == initial
      ensures sortKey == None && page == 1 && rowsPerPage == DefaultRowsPerPage
    {
      rows := initial;
      initialRows := initial;
      sortKey := None;
      page := 1;
      rowsPerPage := DefaultRowsPerPage;
    }

    /** `totalPages` */
    function Pages(): nat
      reads this
      requires rowsPerPage > 0
    {
      TotalPages(|rows|, rowsPerPage)
    }

    /** `currentRows`: the rows the body renders. */
    function CurrentRows(): seq<Row>
      reads this
      requires Valid()
    {
      VisibleRows(rows, page, rowsPerPage)
    }

    /** The Previous button is rendered and not disabled. */
    predicate PrevEnabled()
      reads this
    {
      FooterShown(|rows|, rowsPerPage) && !PrevDisabled(page)
    }

    /** The Next button is rendered and not disabled. */
    predicate NextEnabled()
      reads this
      requires rowsPerPage > 0
    {
      FooterShown(|rows|, rowsPerPage) && !NextDisabled(page, Pages())
    }

    /**
      `onHeaderClick(col)`: sorts a copy of the rows by the cell at `col` in
      the next direction and records the new sort key; the page is left as it
      was, so a re-sort keeps showing the same page number.
     */
    method HeaderClick(col: nat)
      requires Valid()
      modifies this
      ensures Valid()
      ensures sortKey == Some((col, NextDirection(old(sortKey), col)))
      ensures page == old(page)
      ensures multiset(rows) == multiset(old(rows)) && |rows| == |old(rows)|
      ensures AllHaveColumn(old(rows), col) ==>
                AllHaveColumn(rows, col) && Ordered(rows, col, NextDirection(old(sortKey), col))
      ensures exists origin :: Rearranged(old(rows), rows, origin) &&
                OvertakesOnlyGreater(rows, origin, col, NextDirection(old(sortKey), col))
    {
      var direction := NextDirection(sortKey, col);
      var sorted, origin := SortedCopy(rows, col, direction);
      assert |multiset(sorted)| == |multiset(rows)|;
      rows := sorted;
      sortKey := Some((col, direction));
    }

    /**
      Activating Previous: runs `Math.max(prev - 1, 1)` when the button is
      rendered and enabled; a missing or disabled button does nothing.
     */
    method Prev()
      requires Valid()
      modifies this
      ensures Valid()
      ensures rows == old(rows) && sortKey == old(sortKey)
      ensures page == if old(PrevEnabled()) then PrevPage(old(page)) else old(page)
    {
      if PrevEnabled() {
        PrevStaysInRange(page, Pages());
        page := PrevPage(page);
      }
    }

    /**
      Activating Next: runs `Math.min(prev + 1, totalPages)` when the button is
      rendered and enabled; a missing or disabled button does nothing.
     */
    method Next()
      requires Valid()
      modifies this
      ensures Valid()
      ensures rows == old(rows) && sortKey == old(sortKey)
      ensures page == if old(NextEnabled()) then NextPage(old(page), old(Pages())) else old(page)
    {
      if NextEnabled() {
        FooterShownIffSeveralPages(|rows|, rowsPerPage);
        NextStaysInRange(page, Pages());
        page := NextPage(page, Pages());
      }
    }

    /** Resorting and paging never change the number of pages; the page is always one that exists or page 1. */
    lemma PageCountFixed()
      requires Valid()
      ensures Pages() == TotalPages(|initialRows|, rowsPerPage)
      ensures 1 <= page && (page == 1 || page <= Pages())
    {
      assert |multiset(rows)| == |multiset(initialRows)|;
    }
  }
}
