# Sortable, paginated table: a Dafny model

This project models the state machine inside the `Table` React component of
the `components.table` package. The component owns three pieces of state:

- a working copy of the rows (`sortedRows`);
- an optional sort key, made of a column index and a direction;
- the current page, counted from 1.

Three events change that state:

- activating a header sorts the rows by that column;
- activating Previous moves back a page;
- activating Next moves on a page.

Everything else the component shows is computed from the state. That covers
the page count, the rows of the visible page, the footer text
"Showing a to b of N entries", the stripe colour of each row and the
alignment of each cell.

Files and modules:

- `string_order.dfy`, module `StringOrder`: JavaScript's `<` on strings. It
  is lexicographic, and a proper prefix comes first. The module proves that
  it is a strict total order.
- `row_sort.dfy`, module `RowSort`: the comparator passed to
  `Array.prototype.sort`, and the sort itself. The sort is an insertion sort
  by adjacent swaps on an `array`. It swaps two rows only when the comparator
  says they are strictly out of order, so it is stable, like the ES2019
  `Array.prototype.sort`. Its contract proves this: a row only overtakes a row
  that the comparator puts strictly after it.
- `pagination.dfy`, module `Pagination`: the page count, the visible slice,
  the footer numbers, and the Previous and Next handlers with their disabled
  conditions.
- `row_style.dfy`, module `RowStyle`: the stripe choice of each rendered
  row and the alignment fallback of each cell.
- `table.dfy`, module `TableState`: class `Table`. Its fields are `rows`,
  `sortKey` and `page`, plus the constant `rowsPerPage`. Its methods are
  `HeaderClick`, `Prev` and `Next`. The invariant `Valid()` says three
  things: the page size is positive, the working rows are a permutation of
  the rows the caller gave, and the page lies in `[1, max(1, totalPages)]`.
- `scenarios.dfy`, module `Scenarios`: the three-row data of the component's
  tests, with page sizes 2 and 10, and the sort by Name.

Modelling choices:

- A missing cell in a ragged row reads as `undefined` in JavaScript. Both
  `undefined < s` and `undefined > s` are false, so the comparator returns 0
  whenever either cell is missing. `RowSort.Compare` does the same.
- `Prev` and `Next` model pressing the button, not the bare handler. The
  handler runs only when the footer is rendered and the button is not
  disabled; otherwise nothing happens. The handlers themselves are
  `Pagination.PrevPage` and `Pagination.NextPage`. The guard matters for an
  empty table: `Math.min(1 + 1, 0)` would set the page to 0, but the footer,
  and so the Next button, is absent then.
- Rows that tie on the sorted cell keep their previous relative order. The
  code calls `Array.prototype.sort`, which is stable since ES2019, and the
  model's sort is proved stable (`RowSort.TiesKeepInputOrder`).
- The default page size of 10 is `TableState.DefaultRowsPerPage`. It is
  used by the constructor `WithDefaultPageSize`.

## Model

| member | source | states |
|---|---|---|
| `StringOrder.LexLess` | src/Table.tsx:57-58 | JavaScript's `a < b` on strings: lexicographic by character, with the empty string before any other |
| `StringOrder.LexLessIrreflexive` | src/Table.tsx:57-58 | no string is less than itself |
| `StringOrder.LexLessAsymmetric` | src/Table.tsx:57-58 | `a < b` and `b < a` never both hold, so the comparator's two tests cannot both fire |
| `StringOrder.LexLessTransitive` | src/Table.tsx:57-58 | the string order is transitive |
| `StringOrder.LexLessTotal` | src/Table.tsx:57-59 | two strings are equal or one is less: the comparator returns 0 only for equal cells |
| `StringOrder.LexLessOrEqualTransitive` | src/Table.tsx:57-59 | the non-strict string order is transitive |
| `StringOrder.ProperPrefixIsLess` | src/Table.tsx:57 | a proper prefix sorts before the longer string |
| `StringOrder.TextOrderExamples` | src/Table.tsx:57 | no numeric coercion ("10" sorts before "2"), and "Alice" < "Jane Smith" < "John Doe" |
| `RowSort.Compare` | src/Table.tsx:56-60 | the comparator returns -1, 0 or 1; it returns 0 when a cell is missing or the cells are equal; when the first cell is less it returns -1 ascending and 1 descending |
| `RowSort.CompareAntisymmetric` | src/Table.tsx:56-60 | swapping the two rows negates the comparison |
| `RowSort.CompareDescIsReversedAsc` | src/Table.tsx:57-58 | the descending comparison is the negated ascending one |
| `RowSort.InOrderMeans` | src/Table.tsx:56-60 | for rows with the cell, the comparator allows `a` before `b` exactly when `a[col] <= b[col]` (ascending) or `b[col] <= a[col]` (descending) |
| `RowSort.InOrderTransitive` | src/Table.tsx:56-60 | on rows with the cell, "allowed before" is transitive |
| `RowSort.TiesKeepInputOrder` | src/Table.tsx:56-60 | in a rearrangement where rows only overtake rows the comparator puts strictly after them, rows that compare equal keep their input order (stability) |
| `RowSort.SortByColumn` | src/Table.tsx:56-60 | the array ends a permutation of what it held, given by an explicit rearrangement in which a row overtakes an earlier row only when the comparator puts that earlier row strictly after it (so the sort is stable); if every row has the column, it is ordered by that column in the direction given |
| `RowSort.SortedCopy` | src/Table.tsx:56-60 | `[...rows].sort(cmp)`: the result is a stable rearrangement and a permutation of the rows, ordered by the column when every row has that cell |
| `RowSort.Swap` | src/Table.tsx:56-60 | the in-place exchange of two array slots that the sort is built from; the multiset of the array is kept |
| `RowSort.SinkLast` | src/Table.tsx:56-60 | one insertion pass keeps the multiset and the rearrangement history, and extends the ordered prefix by one row |
| `Pagination.TotalPages` | src/Table.tsx:46 | `ceil(n / perPage)`: `n <= r * perPage`, and `r - 1` pages of `perPage` rows are too few |
| `Pagination.StartIndex` | src/Table.tsx:66 | `startIndex = (currentPage - 1) * rowsPerPage` |
| `Pagination.VisibleRows` | src/Table.tsx:66-68 | the page's rows are the rows from `(page-1)*perPage` on, in order, at most `perPage` of them, ending at `min(start + perPage, N)`; a page past the end is empty |
| `Pagination.RowIsOnItsPage` | src/Table.tsx:66-68 | every row `i` appears on page `i / perPage + 1` at position `i % perPage`, and that page is within the page count |
| `Pagination.PagesInRangeAreFilled` | src/Table.tsx:66-68 | a page within the page count is non-empty, and every page before the last is full |
| `Pagination.FooterShown` | src/Table.tsx:121 | the footer is rendered when `rows.length > rowsPerPage` |
| `Pagination.FooterFrom` | src/Table.tsx:124 | the first number of the footer text, `startIndex + 1` |
| `Pagination.FooterTo` | src/Table.tsx:124 | the second number of the footer text, `Math.min(startIndex + rowsPerPage, rows.length)` |
| `Pagination.FooterShownIffSeveralPages` | src/Table.tsx:121 | the footer (`N > rowsPerPage`) shows exactly when there is more than one page |
| `Pagination.FooterDescribesVisibleRows` | src/Table.tsx:123-125 | on an existing page, `1 <= a <= b <= N` and "Showing a to b" names exactly the visible rows |
| `Pagination.StalePageAfterPageSizeChange` | src/Table.tsx:39-46 | with 30 rows on page 3, changing the page size from 10 to 50 leaves one page, an empty page 3 and no footer, since the page is not clamped |
| `Pagination.PrevPage` | src/Table.tsx:129 | the Previous handler's new page, `Math.max(prev - 1, 1)` |
| `Pagination.NextPage` | src/Table.tsx:136 | the Next handler's new page, `Math.min(prev + 1, totalPages)` |
| `Pagination.PrevDisabled` | src/Table.tsx:130 | the Previous button is disabled on page 1 |
| `Pagination.NextDisabled` | src/Table.tsx:137 | the Next button is disabled on page `totalPages` |
| `Pagination.PrevStaysInRange` | src/Table.tsx:129 | `max(page - 1, 1)` keeps a page in `[1, max(1, totalPages)]` and never moves forward |
| `Pagination.NextStaysInRange` | src/Table.tsx:136 | `min(page + 1, totalPages)` keeps a page in `[1, totalPages]` and never moves back |
| `Pagination.PrevMovesUnlessDisabled` | src/Table.tsx:129-130 | Previous leaves the page unchanged exactly when its button is disabled (`page = 1`), and otherwise goes back one page |
| `Pagination.NextMovesUnlessDisabled` | src/Table.tsx:136-137 | Next leaves the page unchanged exactly when its button is disabled (`page = totalPages`), and otherwise goes on one page |
| `RowStyle.RowShade` | src/Table.tsx:98 | the shade of a body row: the alternate colour when striped and its index on the page is even, the row colour otherwise |
| `RowStyle.PageShades` | src/Table.tsx:94-98 | the shades of the rendered rows of a page, indexed by position on the page |
| `RowStyle.ShadesAlternate` | src/Table.tsx:94-98 | striped rows alternate colours and the first row of a page gets the alternate colour; unstriped rows all get the row colour |
| `RowStyle.RowShadeIsLocalToPage` | src/Table.tsx:94-98 | table row `i` is rendered on page `i / perPage + 1` with the shade of its position `i % perPage` there, so every page starts with the alternate colour when striped |
| `RowStyle.OddPageSizeRestartsStripes` | src/Table.tsx:94-98 | at three rows per page, row 3 (odd) opens page 2 with the alternate colour, just as row 2 ended page 1 with it |
| `RowStyle.CellAlignment` | src/Table.tsx:109 | the declared alignment of the column, or `left` past the end of the list; the header cells use the same rule at line 81 |
| `RowStyle.RowAlignments` | src/Table.tsx:109 | the alignments of a row of `n` cells are the declared ones in column order, as far as they go, then `left` for every further column |
| `RowStyle.DefaultAlignsLeft` | src/Table.tsx:38 | with the default `columnAlignments = []` every column is left-aligned |
| `RowStyle.AlignmentIgnoresLaterEntries` | src/Table.tsx:81 | declaring alignments for more columns leaves the alignment of the already declared columns unchanged |
| `TableState.NextDirection` | src/Table.tsx:50-54 | the direction of a header activation: `desc` when the key is that column ascending, `asc` otherwise |
| `TableState.DirectionRule` | src/Table.tsx:50-54 | the next direction is `desc` exactly when the same column is sorted `asc`; with no sort, another column or a prior `desc` it is `asc` |
| `TableState.SameColumnToggles` | src/Table.tsx:50-54 | activating the same column again always flips the direction (asc, desc, asc, ...) |
| `TableState.Table.constructor` | src/Table.tsx:41-45 | the initial state is the caller's rows, no sort key, page 1 |
| `TableState.Table.WithDefaultPageSize` | src/Table.tsx:39 | without a `rowsPerPage` property the page size is 10 |
| `TableState.Table.Pages` | src/Table.tsx:46 | `totalPages` of the working rows |
| `TableState.Table.CurrentRows` | src/Table.tsx:66-68 | `currentRows`: the working rows of the current page |
| `TableState.Table.PrevEnabled` | src/Table.tsx:121-130 | the Previous button is rendered (footer shown, line 121) and not disabled |
| `TableState.Table.NextEnabled` | src/Table.tsx:121-137 | the Next button is rendered (footer shown, line 121) and not disabled |
| `TableState.Table.HeaderClick` | src/Table.tsx:49-64 | the sort key becomes `(col, next direction)`; the page is unchanged; the rows are a permutation of the previous rows and a stable rearrangement of them, ordered by `col` when every row has that cell; the invariant is kept |
| `TableState.Table.Prev` | src/Table.tsx:128-130 | when the button is rendered and enabled the page becomes `max(page - 1, 1)`, otherwise nothing changes; rows and sort key are unchanged; the page stays in range |
| `TableState.Table.Next` | src/Table.tsx:135-137 | when the button is rendered and enabled the page becomes `min(page + 1, totalPages)`, otherwise nothing changes; rows and sort key are unchanged; the page stays in range |
| `TableState.Table.PageCountFixed` | src/Table.tsx:46 | the page count is always that of the caller's rows, and the page is 1 or an existing page |
| `Scenarios.ThreeRowsTwoPerPage` | src/__tests__/index.test.tsx:44-50 | three rows at two per page: the footer shows "Showing 1 to 2 of 3", there are 2 pages, Previous is disabled and Next enabled |
| `Scenarios.ThreeRowsTenPerPage` | src/__tests__/index.test.tsx:52-58 | three rows at ten per page: one page, no footer |
| `Scenarios.NameAscendingOrder` | src/Table.tsx:56-60 | the only ascending sort by Name of the test rows is Alice, Jane Smith, John Doe |
| `Scenarios.NameDescendingOrder` | src/Table.tsx:56-60 | the only descending sort by Name of the test rows is John Doe, Jane Smith, Alice |
| `Scenarios.ActivateNameTwice` | src/Table.tsx:49-64 | on the test table, activating Name gives the ascending order, activating it again the descending order, with sort key `(0, desc)` and page 1 |
| `Scenarios.PageThroughTwoPerPage` | src/Table.tsx:128-137 | at two rows per page, Next shows Alice alone on page 2, a second Next does nothing, and Previous returns to page 1 |

## Left out

- Rendering: the JSX markup, the DOM, and the class strings built with
  `cx.join` from a library that is not part of this model. The header and row
  colour tokens, the hover class and the sort indicator emoji are left out
  too. All of these are presentation only.
- The row-click callback is a call into the caller's code that changes no
  state. It receives `CurrentRows()[i]` and the page-local index `i`.
- `src/styles.ts` is a static table of class names passed to an unseen
  library function. It is not part of this model.
- `src/config/index.ts` reads a user file from the working directory and
  merges it with the defaults. That is file-system I/O and a foreign merge,
  so it is not part of this model. `src/Table.tsx` does not import it: the
  default page size is the literal 10 at `src/Table.tsx:39`, which equals the
  configuration's default, and is `TableState.DefaultRowsPerPage`.
- `RowSort.SortByColumn`: ordering is promised only when every row has the
  sorted cell. With a missing cell, JavaScript's comparator is not a
  consistent order and the engine's result order is unspecified. There the
  contract still promises a permutation, a stable rearrangement in which a
  row overtakes only a row the comparator puts strictly after it. That is
  this insertion sort's behaviour, one of the results an engine may give,
  not something JavaScript guarantees.
- `TableState.Table.HeaderClick`: its ordering promise has the same limit as
  `SortByColumn`, for the same reason.
- `StringOrder.LexLess` compares Dafny characters, which are Unicode scalar
  values. JavaScript compares UTF-16 code units. The two orders differ only
  between characters above U+FFFF and characters in U+E000 to U+FFFF.
- Page sizes that are zero, negative or fractional are not modelled. The
  constructor requires a positive page size.
- JavaScript numbers are 64-bit floats, while the model's counts and indices
  are unbounded integers. They agree for any realistic table size.
- After mounting, the component ignores changes to its `rows` property,
  because `useState` keeps its first value. The model takes the rows once,
  at construction, and has no re-render step.
- `TableState.Table.Valid`: the model fixes the page size at construction
  (`const rowsPerPage`). In the component `rowsPerPage` (`src/Table.tsx:39`)
  is an ordinary property, read again on every render: `totalPages`, the
  slice start and the footer condition (lines 46, 66, 121) are recomputed
  from it, and `currentPage` is never clamped to the new page count. So the
  invariant `1 <= page <= max(1, totalPages)` holds only for a fixed page
  size. `Pagination.StalePageAfterPageSizeChange` shows a page left past the
  end, with an empty slice and no footer to navigate back.
