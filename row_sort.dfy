/**
  Sorting the table's rows by one column (src/Table.tsx:56-60): the comparator
  `(a, b) => a[col] < b[col] ? ∓1 : a[col] > b[col] ? ±1 : 0` and the sort it
  drives. The sort is an insertion sort by adjacent swaps, which only swaps
  rows the comparator calls strictly out of order, so it is stable (as
  `Array.prototype.sort` is since ES2019).
 */
module RowSort {
  import opened StringOrder

  type Row = seq<string>

  datatype Dir = Asc | Desc

  /** A ragged row may lack the cell; reading it in JavaScript gives `undefined`. */
  predicate HasCell(row: Row, col: nat) {
    col < |row|
  }

  predicate AllHaveColumn(rows: seq<Row>, col: nat) {
    forall k :: 0 <= k < |rows| ==> HasCell(rows[k], col)
  }

  /**
    The comparator of the sort. `undefined < s` and `undefined > s` are both
    false in JavaScript, so a missing cell compares equal to every cell.
   */
  function Compare(a: Row, b: Row, col: nat, dir: Dir): (r: int)
    ensures -1 <= r <= 1
    ensures !HasCell(a, col) || !HasCell(b, col) ==> r == 0
    ensures HasCell(a, col) && HasCell(b, col) ==>
              (r == 0 <==> a[col] == b[col])
    ensures HasCell(a, col) && HasCell(b, col) && LexLess(a[col], b[col]) ==>
              r == (if dir == Asc then -1 else 1)
  {
    if !HasCell(a, col) || !HasCell(b, col) then 0
    else
      LexLessIrreflexive(a[col]);
      LexLessTotal(a[col], b[col]);
      if LexLess(a[col], b[col]) then (if dir == Asc then -1 else 1)
      else if LexLess(b[col], a[col]) then (if dir == Asc then 1 else -1)
      else 0
  }

  /** Swapping the arguments negates the comparison: the comparator is consistent. */
  lemma CompareAntisymmetric(a: Row, b: Row, col: nat, dir: Dir)
    ensures Compare(b, a, col, dir) == -Compare(a, b, col, dir)
  {
    if HasCell(a, col) && HasCell(b, col) {
      LexLessAsymmetric(a[col], b[col]);
    }
  }

  /** Descending order is ascending order turned around. */
  lemma CompareDescIsReversedAsc(a: Row, b: Row, col: nat)
    ensures Compare(a, b, col, Desc) == -Compare(a, b, col, Asc)
  {
    if HasCell(a, col) && HasCell(b, col) {
      LexLessAsymmetric(a[col], b[col]);
    }
  }

  /** The comparator allows `a` before `b`. */
  predicate InOrder(a: Row, b: Row, col: nat, dir: Dir) {
    Compare(a, b, col, dir) <= 0
  }

  /** On rows that have the cell, the comparator's order is the string order (or its reverse). */
  lemma InOrderMeans(a: Row, b: Row, col: nat, dir: Dir)
    requires HasCell(a, col) && HasCell(b, col)
    ensures InOrder(a, b, col, dir) <==>
              (if dir == Asc then LexLessOrEqual(a[col], b[col])
               else LexLessOrEqual(b[col], a[col]))
  {
    LexLessAsymmetric(a[col], b[col]);
    LexLessTotal(a[col], b[col]);
  }

  lemma InOrderTransitive(a: Row, b: Row, c: Row, col: nat, dir: Dir)
    requires HasCell(a, col) && HasCell(b, col) && HasCell(c, col)
    requires InOrder(a, b, col, dir) && InOrder(b, c, col, dir)
    ensures InOrder(a, c, col, dir)
  {
    InOrderMeans(a, b, col, dir);
    InOrderMeans(b, c, col, dir);
    InOrderMeans(a, c, col, dir);
    if dir == Asc {
      LexLessOrEqualTransitive(a[col], b[col], c[col]);
    } else {
      LexLessOrEqualTransitive(c[col], b[col], a[col]);
    }
  }

  /**
    The rows are ordered by the cell at `col`: non-decreasing for `Asc`,
    non-increasing for `Desc`, in the string order.
   */
  ghost predicate Ordered(rows: seq<Row>, col: nat, dir: Dir)
    requires AllHaveColumn(rows, col)
  {
    forall i, j :: 0 <= i < j < |rows| ==>
      if dir == Asc then LexLessOrEqual(rows[i][col], rows[j][col])
      else LexLessOrEqual(rows[j][col], rows[i][col])
  }

  ghost predicate PairwiseInOrder(s: seq<Row>, col: nat, dir: Dir) {
    forall k, m :: 0 <= k < m < |s| ==> InOrder(s[k], s[m], col, dir)
  }

  lemma PairwiseInOrderIsOrdered(s: seq<Row>, col: nat, dir: Dir)
    requires AllHaveColumn(s, col) && PairwiseInOrder(s, col, dir)
    ensures Ordered(s, col, dir)
  {
    forall i, j | 0 <= i < j < |s|
      ensures if dir == Asc then LexLessOrEqual(s[i][col], s[j][col])
              else LexLessOrEqual(s[j][col], s[i][col])
    {
      InOrderMeans(s[i], s[j], col, dir);
    }
  }

  /** The rows in `s[lo..hi]` are pairwise in order. */
  ghost predicate SortedSegment(s: seq<Row>, lo: nat, hi: nat, col: nat, dir: Dir)
    requires lo <= hi <= |s|
  {
    forall k, m :: lo <= k < m < hi ==> InOrder(s[k], s[m], col, dir)
  }

  /**
    `after` is `before` rearranged: row `k` of `after` is row `origin[k]` of
    `before`, and no row of `before` is used twice.
   */
  ghost predicate Rearranged(before: seq<Row>, after: seq<Row>, origin: seq<nat>) {
    && |origin| == |after| == |before|
    && (forall k :: 0 <= k < |after| ==> origin[k] < |before| && after[k] == before[origin[k]])
    && (forall k, m :: 0 <= k < m < |origin| ==> origin[k] != origin[m])
  }

  /**
    A row stands before a row that preceded it in the input only when the
    comparator puts the earlier row strictly after it.
   */
  ghost predicate OvertakesOnlyGreater(after: seq<Row>, origin: seq<nat>, col: nat, dir: Dir)
    requires |origin| == |after|
  {
    forall k, m :: 0 <= k < m < |after| && origin[k] > origin[m] ==>
      Compare(after[m], after[k], col, dir) > 0
  }

  /** The sort is stable: rows that compare equal keep the order they had in the input. */
  lemma TiesKeepInputOrder(before: seq<Row>, after: seq<Row>, origin: seq<nat>, col: nat, dir: Dir)
    requires Rearranged(before, after, origin) && OvertakesOnlyGreater(after, origin, col, dir)
    ensures forall k, m :: 0 <= k < m < |after| && Compare(after[k], after[m], col, dir) == 0 ==>
              origin[k] < origin[m]
  {
    forall k, m | 0 <= k < m < |after| && Compare(after[k], after[m], col, dir) == 0
      ensures origin[k] < origin[m]
    {
      CompareAntisymmetric(after[k], after[m], col, dir);
    }
  }

  /**
    `Array.prototype.sort` with the comparator above. The array ends up a
    rearrangement of what it held (so a permutation), in which a row overtakes
    an earlier row only when the comparator puts that row strictly after it
    (so the sort is stable), and which is ordered by the column whenever every
    row has that cell. With a missing cell the comparator is not a consistent
    order, and JavaScript leaves the result order unspecified.
   */
  method SortByColumn(a: array<Row>, col: nat, dir: Dir) returns (ghost origin: seq<nat>)
    modifies a
    ensures multiset(a[..]) == multiset(old(a[..]))
    ensures Rearranged(old(a[..]), a[..], origin) && OvertakesOnlyGreater(a[..], origin, col, dir)
    ensures AllHaveColumn(old(a[..]), col) ==> AllHaveColumn(a[..], col) && Ordered(a[..], col, dir)
  {
    ghost var before := a[..];
    ghost var wf := AllHaveColumn(a[..], col);
    origin := seq(a.Length, k => k);
    if a.Length == 0 {
      return;
    }
    StartSort(before, col, dir, wf);
    var i := 1;
    while i < a.Length
      invariant 1 <= i <= a.Length
      invariant multiset(a[..]) == multiset(before)
      invariant SortState(before, a[..], origin, i, col, dir, wf)
    {
      origin := SinkLast(a, i, col, dir, wf, before, origin);
      i := i + 1;
    }
    if wf {
      PairwiseInOrderIsOrdered(a[..], col, dir);
    }
  }

  /** What holds after `i` passes of the insertion sort. */
  ghost predicate SortState(before: seq<Row>, s: seq<Row>, origin: seq<nat>, i: nat,
                            col: nat, dir: Dir, wf: bool)
  {
    && i <= |s|
    && Rearranged(before, s, origin) && OvertakesOnlyGreater(s, origin, col, dir)
    && PrefixHistory(origin, i)
    && (wf ==> AllHaveColumn(s, col) && SortedSegment(s, 0, i, col, dir))
  }

  lemma StartSort(s: seq<Row>, col: nat, dir: Dir, wf: bool)
    requires 0 < |s| && (wf ==> AllHaveColumn(s, col))
    ensures SortState(s, s, seq(|s|, k => k), 1, col, dir, wf)
  {
  }

  /**
    `[...rows].sort(comparator)`: sorts a fresh copy of the rows, leaving the
    caller's sequence as it was.
   */
  method SortedCopy(rows: seq<Row>, col: nat, dir: Dir) returns (sorted: seq<Row>, ghost origin: seq<nat>)
    ensures multiset(sorted) == multiset(rows)
    ensures Rearranged(rows, sorted, origin) && OvertakesOnlyGreater(sorted, origin, col, dir)
    ensures AllHaveColumn(rows, col) ==> AllHaveColumn(sorted, col) && Ordered(sorted, col, dir)
  {
    var copy := new Row[|rows|](k requires 0 <= k < |rows| => rows[k]);
    assert copy[..] == rows;
    origin := SortByColumn(copy, col, dir);
    sorted := copy[..];
  }

  /** After `i` passes, rows from `i` on are still where the input had them, and the first `i` rows came from the first `i`. */
  ghost predicate PrefixHistory(origin: seq<nat>, i: nat) {
    forall k :: 0 <= k < |origin| ==> if k < i then origin[k] < i else origin[k] == k
  }

  /** During pass `i`, the row that started at `i` is at `j`, and the rows around it came from positions before `i`. */
  ghost predicate SinkHistory(origin: seq<nat>, i: nat, j: nat) {
    && j < |origin|
    && origin[j] == i
    && forall k :: 0 <= k < |origin| && k != j ==> if k <= i then origin[k] < i else origin[k] == k
  }

  /**
    One pass of the insertion sort: moves `a[i]` left past every row the
    comparator puts strictly after it, so that `a[..i+1]` is in order.
   */
  method SinkLast(a: array<Row>, i: nat, col: nat, dir: Dir, ghost wf: bool,
                  ghost before: seq<Row>, ghost origin: seq<nat>) returns (ghost origin': seq<nat>)
    requires 0 < i < a.Length
    requires SortState(before, a[..], origin, i, col, dir, wf)
    modifies a
    ensures multiset(a[..]) == multiset(old(a[..]))
    ensures SortState(before, a[..], origin', i + 1, col, dir, wf)
  {
    var j := i;
    origin' := origin;
    StartSink(before, a[..], origin, i, col, dir, wf);
    while j > 0 && Compare(a[j - 1], a[j], col, dir) > 0
      invariant 0 <= j <= i
      invariant multiset(a[..]) == multiset(old(a[..]))
      invariant SinkState(before, a[..], origin', i, j, col, dir, wf)
    {
      ghost var s := a[..];
      Swap(a, j - 1, j);
      SinkStep(before, s, origin', i, j, col, dir, wf);
      origin' := origin'[j - 1 := origin'[j]][j := origin'[j - 1]];
      j := j - 1;
    }
    StopSink(before, a[..], origin', i, j, col, dir, wf);
  }

  /** What holds during pass `i` while the row that started at `i` sits at `j`. */
  ghost predicate SinkState(before: seq<Row>, s: seq<Row>, origin: seq<nat>, i: nat, j: nat,
                            col: nat, dir: Dir, wf: bool)
  {
    && j <= i < |s|
    && Rearranged(before, s, origin) && OvertakesOnlyGreater(s, origin, col, dir)
    && SinkHistory(origin, i, j)
    && (wf ==> AllHaveColumn(s, col) && SortedApartFrom(s, i, j, col, dir) && BelowTail(s, i, j, col, dir))
  }

  lemma StartSink(before: seq<Row>, s: seq<Row>, origin: seq<nat>, i: nat, col: nat, dir: Dir, wf: bool)
    requires 0 < i < |s| && SortState(before, s, origin, i, col, dir, wf)
    ensures SinkState(before, s, origin, i, i, col, dir, wf)
  {
  }

  lemma SinkStep(before: seq<Row>, s: seq<Row>, origin: seq<nat>, i: nat, j: nat, col: nat, dir: Dir, wf: bool)
    requires 0 < j && SinkState(before, s, origin, i, j, col, dir, wf)
    requires Compare(s[j - 1], s[j], col, dir) > 0
    ensures SinkState(before, s[j - 1 := s[j]][j := s[j - 1]],
                      origin[j - 1 := origin[j]][j := origin[j - 1]], i, j - 1, col, dir, wf)
  {
    SwapKeepsHistory(before, s, origin, i, j, col, dir);
    if wf {
      SwapDownKeepsInvariant(s, i, j, col, dir);
    }
  }

  lemma StopSink(before: seq<Row>, s: seq<Row>, origin: seq<nat>, i: nat, j: nat, col: nat, dir: Dir, wf: bool)
    requires SinkState(before, s, origin, i, j, col, dir, wf)
    requires j == 0 || Compare(s[j - 1], s[j], col, dir) <= 0
    ensures SortState(before, s, origin, i + 1, col, dir, wf)
  {
    if wf {
      StoppedSinkIsSorted(s, i, j, col, dir);
    }
  }

  lemma SwapKeepsHistory(before: seq<Row>, s: seq<Row>, origin: seq<nat>, i: nat, j: nat, col: nat, dir: Dir)
    requires 0 < j <= i < |s|
    requires Rearranged(before, s, origin) && OvertakesOnlyGreater(s, origin, col, dir)
    requires SinkHistory(origin, i, j)
    requires Compare(s[j - 1], s[j], col, dir) > 0
    ensures Rearranged(before, s[j - 1 := s[j]][j := s[j - 1]], origin[j - 1 := origin[j]][j := origin[j - 1]])
    ensures OvertakesOnlyGreater(s[j - 1 := s[j]][j := s[j - 1]], origin[j - 1 := origin[j]][j := origin[j - 1]], col, dir)
    ensures SinkHistory(origin[j - 1 := origin[j]][j := origin[j - 1]], i, j - 1)
  {
    SwapKeepsRearranged(before, s, origin, j);
    SwapKeepsOvertakes(s, origin, j, col, dir);
  }

  lemma SwapKeepsRearranged(before: seq<Row>, s: seq<Row>, origin: seq<nat>, j: nat)
    requires 0 < j < |s| && Rearranged(before, s, origin)
    ensures Rearranged(before, s[j - 1 := s[j]][j := s[j - 1]], origin[j - 1 := origin[j]][j := origin[j - 1]])
  {
    var o' := origin[j - 1 := origin[j]][j := origin[j - 1]];
    forall k, m | 0 <= k < m < |o'|
      ensures o'[k] != o'[m]
    {
      var ok := if k == j - 1 then j else if k == j then j - 1 else k;
      var om := if m == j - 1 then j else if m == j then j - 1 else m;
      assert ok != om && o'[k] == origin[ok] && o'[m] == origin[om];
    }
  }

  /** Swapping a pair the comparator calls out of order, where the later row came from later in the input. */
  lemma SwapKeepsOvertakes(s: seq<Row>, origin: seq<nat>, j: nat, col: nat, dir: Dir)
    requires 0 < j < |s| == |origin| && OvertakesOnlyGreater(s, origin, col, dir)
    requires origin[j - 1] < origin[j] && Compare(s[j - 1], s[j], col, dir) > 0
    ensures OvertakesOnlyGreater(s[j - 1 := s[j]][j := s[j - 1]], origin[j - 1 := origin[j]][j := origin[j - 1]], col, dir)
  {
    var s' := s[j - 1 := s[j]][j := s[j - 1]];
    var o' := origin[j - 1 := origin[j]][j := origin[j - 1]];
    forall k, m | 0 <= k < m < |s'| && o'[k] > o'[m]
      ensures Compare(s'[m], s'[k], col, dir) > 0
    {
      // Every pair but (j - 1, j) is a pair of the old arrangement.
      var ok := if k == j - 1 then j else if k == j then j - 1 else k;
      var om := if m == j - 1 then j else if m == j then j - 1 else m;
      if !(k == j - 1 && m == j) {
        assert ok < om && s'[k] == s[ok] && s'[m] == s[om] && o'[k] == origin[ok] && o'[m] == origin[om];
      }
    }
  }

  /** `s[..i+1]` is pairwise in order once the row at `j` is set aside. */
  ghost predicate SortedApartFrom(s: seq<Row>, i: nat, j: nat, col: nat, dir: Dir)
    requires i < |s|
  {
    forall k, m :: 0 <= k < m <= i && k != j && m != j ==> InOrder(s[k], s[m], col, dir)
  }

  /** The row at `j` may come before every row of `s[j+1..i+1]`. */
  ghost predicate BelowTail(s: seq<Row>, i: nat, j: nat, col: nat, dir: Dir)
    requires j <= i < |s|
  {
    forall m :: j < m <= i ==> InOrder(s[j], s[m], col, dir)
  }

  /** Exchanges two rows of the array. */
  method Swap(a: array<Row>, x: nat, y: nat)
    requires x < y < a.Length
    modifies a
    ensures a[..] == old(a[..])[x := old(a[y])][y := old(a[x])]
    ensures multiset(a[..]) == multiset(old(a[..]))
  {
    a[x], a[y] := a[y], a[x];
  }

  lemma SwapDownKeepsInvariant(s: seq<Row>, i: nat, j: nat, col: nat, dir: Dir)
    requires 0 < j <= i < |s|
    requires SortedApartFrom(s, i, j, col, dir) && BelowTail(s, i, j, col, dir)
    requires Compare(s[j - 1], s[j], col, dir) > 0
    ensures SortedApartFrom(s[j - 1 := s[j]][j := s[j - 1]], i, j - 1, col, dir)
    ensures BelowTail(s[j - 1 := s[j]][j := s[j - 1]], i, j - 1, col, dir)
  {
    CompareAntisymmetric(s[j - 1], s[j], col, dir);
  }

  lemma StoppedSinkIsSorted(s: seq<Row>, i: nat, j: nat, col: nat, dir: Dir)
    requires j <= i < |s| && AllHaveColumn(s, col)
    requires SortedApartFrom(s, i, j, col, dir) && BelowTail(s, i, j, col, dir)
    requires j == 0 || Compare(s[j - 1], s[j], col, dir) <= 0
    ensures SortedSegment(s, 0, i + 1, col, dir)
  {
    forall k, m | 0 <= k < m <= i
      ensures InOrder(s[k], s[m], col, dir)
    {
      if m == j && k < j - 1 {
        InOrderTransitive(s[k], s[j - 1], s[j], col, dir);
      }
    }
  }
}
