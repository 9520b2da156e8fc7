/**
  The per-row and per-cell presentation choices that carry logic
  (src/Table.tsx:37-38, 81, 94-98, 109): the stripe colour of a body row and
  the alignment of a cell.
 */
module RowStyle {
  import opened Pagination

  /** Which of the two row colours a body row gets. */
  datatype Shade = AltRowColor | RowColor

  datatype Alignment = Left | Center | Right

  /** `striped = true`: rows are striped unless the caller says otherwise. */
  const DefaultStriped: bool := true

  /** `columnAlignments = []`: no column has a declared alignment unless the caller gives one. */
  const DefaultAlignments: seq<Alignment> := []

  /**
    `striped && rowIndex % 2 === 0 ? altRowColor : rowColor`, where `rowIndex`
    is the index within the visible page.
   */
  function RowShade(striped: bool, localIndex: nat): Shade {
    if striped && localIndex % 2 == 0 then AltRowColor else RowColor
  }

  /**
    `currentRows.map((row, rowIndex) => ...)`: the shade of each rendered body
    row of `page`, indexed by its position on that page.
   */
  function PageShades<T>(rows: seq<T>, page: nat, perPage: nat, striped: bool): seq<Shade>
    requires page >= 1 && perPage > 0
  {
    seq(|VisibleRows(rows, page, perPage)|, k requires 0 <= k => RowShade(striped, k))
  }

  /**
    Striped rows alternate, starting with the alternate colour on the first
    row of every page; unstriped rows all get the row colour.
   */
  lemma {:induction false} ShadesAlternate(striped: bool, localIndex: nat)
    ensures RowShade(striped, 0) == (if striped then AltRowColor else RowColor)
    ensures striped ==> RowShade(striped, localIndex) != RowShade(striped, localIndex + 1)
    ensures !striped ==> RowShade(striped, localIndex) == RowColor
    ensures striped ==> RowShade(striped, localIndex + 2) == RowShade(striped, localIndex)
  {
  }

  /**
    Row `i` of the table is rendered on page `i / perPage + 1` with the shade
    of its position `i % perPage` on that page, not of `i` itself; so the
    first row of every page gets the alternate colour when rows are striped.
   */
  lemma RowShadeIsLocalToPage<T>(rows: seq<T>, perPage: nat, i: nat, striped: bool)
    requires perPage > 0 && i < |rows|
    ensures i % perPage < |PageShades(rows, i / perPage + 1, perPage, striped)|
    ensures VisibleRows(rows, i / perPage + 1, perPage)[i % perPage] == rows[i]
    ensures PageShades(rows, i / perPage + 1, perPage, striped)[i % perPage] == RowShade(striped, i % perPage)
    ensures striped && i % perPage == 0 ==> PageShades(rows, i / perPage + 1, perPage, striped)[i % perPage] == AltRowColor
  {
    RowIsOnItsPage(rows, perPage, i);
  }

  /**
    With an odd page size the stripes restart on each page: at three rows per
    page, row 3 (an odd index) opens page 2 and gets the alternate colour,
    although row 2 before it, on page 1, got the alternate colour too.
   */
  lemma OddPageSizeRestartsStripes<T>(rows: seq<T>)
    requires |rows| >= 4
    ensures PageShades(rows, 1, 3, true)[2] == AltRowColor
    ensures PageShades(rows, 2, 3, true)[0] == AltRowColor
    ensures VisibleRows(rows, 2, 3)[0] == rows[3]
  {
    RowShadeIsLocalToPage(rows, 3, 2, true);
    RowShadeIsLocalToPage(rows, 3, 3, true);
  }

  /** `columnAlignments[idx] || 'left'`: a column without a declared alignment is left-aligned. */
  function CellAlignment(alignments: seq<Alignment>, idx: nat): Alignment {
    if idx < |alignments| then alignments[idx] else Left
  }

  /**
    The alignments of one rendered row of `n` cells (or of the header row):
    the declared alignments in column order, as far as they go, and `left`
    for every further column.
   */
  lemma RowAlignments(alignments: seq<Alignment>, n: nat)
    ensures seq(n, k requires 0 <= k => CellAlignment(alignments, k)) ==
              alignments[..Min(n, |alignments|)] + seq(n - Min(n, |alignments|), _ => Left)
  {
    var m := Min(n, |alignments|);
    var lhs := seq(n, k requires 0 <= k => CellAlignment(alignments, k));
    var rhs := alignments[..m] + seq(n - m, _ => Left);
    forall k | 0 <= k < n
      ensures lhs[k] == rhs[k]
    {
      if k < m {
        assert rhs[k] == alignments[k];
      } else {
        assert rhs[k] == seq(n - m, _ => Left)[k - m];
      }
    }
  }

  /** With the default `columnAlignments = []` every column is left-aligned. */
  lemma DefaultAlignsLeft(n: nat)
    ensures forall k :: 0 <= k < n ==> CellAlignment(DefaultAlignments, k) == Left
    ensures seq(n, k requires 0 <= k => CellAlignment(DefaultAlignments, k)) == seq(n, _ => Left)
  {
    RowAlignments(DefaultAlignments, n);
  }

  /** Declaring alignments for more columns leaves the earlier columns' alignment as it was. */
  lemma AlignmentIgnoresLaterEntries(alignments: seq<Alignment>, more: seq<Alignment>, idx: nat)
    requires idx < |alignments|
    ensures CellAlignment(alignments + more, idx) == CellAlignment(alignments, idx)
  {
  }
}
