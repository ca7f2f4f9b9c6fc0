/** Pairwise alignment of two sequences, as include/align.h does it:
    Smith–Waterman local alignment (`Align2`) and Needleman–Wunsch global
    alignment (`Align`). Each fills a score grid row by row and then walks
    back from one cell, emitting one column of the alignment per step. */
module Alignment {

  /** Score of a matching pair; a mismatch scores its negation. */
  const MATCH_COST := 3
  /** What the local alignment subtracts for a gap. */
  const GAP_COST := 2
  /** What the global alignment adds for a gap (a penalty, hence negative). */
  const GLOBAL_GAP_COST := -2

  function Max(a: int, b: int): int { if a >= b then a else b }

  /** The default pair score: positive exactly for equal elements. */
  function Match<T(==)>(l: T, r: T): (s: int)
    ensures s > 0 <==> l == r
    ensures s == MATCH_COST || s == -MATCH_COST
  {
    if l == r then MATCH_COST else -MATCH_COST
  }

  // ---------------------------------------------------------------------------
  // Columns of an alignment and the two output rows they spell
  // ---------------------------------------------------------------------------

  /** One step of a backtrace: both elements, or one element opposite a gap.
      There is no column with a gap on both sides. */
  datatype Column<T> =
    | Pair(l: T, r: T)     // a diagonal step
    | GapLeft(r: T)        // a step along the row: the left output gets the gap
    | GapRight(l: T)       // a step along the column: the right output gets the gap

  function LeftOf<T>(c: Column<T>, gap: T): T { if c.GapLeft? then gap else c.l }
  function RightOf<T>(c: Column<T>, gap: T): T { if c.GapRight? then gap else c.r }

  /** The left output row spelled by `cols`, writing `gap` for a gap. */
  function LeftRow<T>(cols: seq<Column<T>>, gap: T): (row: seq<T>)
    ensures |row| == |cols|
  {
    seq(|cols|, k requires 0 <= k < |cols| => LeftOf(cols[k], gap))
  }

  /** The right output row spelled by `cols`, writing `gap` for a gap. */
  function RightRow<T>(cols: seq<Column<T>>, gap: T): (row: seq<T>)
    ensures |row| == |cols|
  {
    seq(|cols|, k requires 0 <= k < |cols| => RightOf(cols[k], gap))
  }

  /** The elements of the left input that `cols` consumes, in order. */
  function LeftElems<T>(cols: seq<Column<T>>): seq<T>
  {
    if cols == [] then []
    else
      var c := cols[|cols| - 1];
      LeftElems(cols[..|cols| - 1]) + (if c.GapLeft? then [] else [c.l])
  }

  /** The elements of the right input that `cols` consumes, in order. */
  function RightElems<T>(cols: seq<Column<T>>): seq<T>
  {
    if cols == [] then []
    else
      var c := cols[|cols| - 1];
      RightElems(cols[..|cols| - 1]) + (if c.GapRight? then [] else [c.r])
  }

  lemma ElemsSnoc<T>(cols: seq<Column<T>>, c: Column<T>)
    ensures LeftElems(cols + [c]) == LeftElems(cols) + (if c.GapLeft? then [] else [c.l])
    ensures RightElems(cols + [c]) == RightElems(cols) + (if c.GapRight? then [] else [c.r])
  {
    assert (cols + [c])[..|cols|] == cols;
  }

  /** `s` read back to front (what std::reverse leaves in a vector). */
  function Reversed<T>(s: seq<T>): (r: seq<T>)
    ensures |r| == |s|
    ensures forall k :: 0 <= k < |s| ==> r[k] == s[|s| - 1 - k]
  {
    seq(|s|, k requires 0 <= k < |s| => s[|s| - 1 - k])
  }

  lemma ReversedSnoc<T>(s: seq<T>, x: T)
    ensures Reversed(s + [x]) == [x] + Reversed(s)
  {
    assert forall k :: 0 <= k < |s| + 1 ==> Reversed(s + [x])[k] == ([x] + Reversed(s))[k];
  }

  /** Pushing a column's entries onto the reversed output rows keeps them
      the reversed rows of the columns, the new column now first. */
  lemma RowsStep<T>(leftOut: seq<T>, rightOut: seq<T>, c: Column<T>, cols: seq<Column<T>>, gap: T)
    requires Reversed(leftOut) == LeftRow(cols, gap) && Reversed(rightOut) == RightRow(cols, gap)
    ensures Reversed(leftOut + [LeftOf(c, gap)]) == LeftRow([c] + cols, gap)
    ensures Reversed(rightOut + [RightOf(c, gap)]) == RightRow([c] + cols, gap)
  {
    RowsCons(c, cols, gap);
    ReversedSnoc(leftOut, LeftOf(c, gap));
    ReversedSnoc(rightOut, RightOf(c, gap));
  }

  lemma RowsCons<T>(c: Column<T>, cols: seq<Column<T>>, gap: T)
    ensures LeftRow([c] + cols, gap) == [LeftOf(c, gap)] + LeftRow(cols, gap)
    ensures RightRow([c] + cols, gap) == [RightOf(c, gap)] + RightRow(cols, gap)
  {
    assert forall k :: 0 <= k < |cols| + 1 ==> LeftRow([c] + cols, gap)[k] == ([LeftOf(c, gap)] + LeftRow(cols, gap))[k];
    assert forall k :: 0 <= k < |cols| + 1 ==> RightRow([c] + cols, gap)[k] == ([RightOf(c, gap)] + RightRow(cols, gap))[k];
  }


  // ---------------------------------------------------------------------------
  // Score tables
  // ---------------------------------------------------------------------------

  /** `g` has n + 1 rows of m + 1 cells each. */
  predicate IsGrid(g: seq<seq<int>>, n: nat, m: nat)
  {
    |g| == n + 1 && forall i :: 0 <= i <= n ==> |g[i]| == m + 1
  }

  /** Every cell on the top row and on the left column of `g` is 0. */
  predicate ZeroBorder(g: seq<seq<int>>, n: nat, m: nat)
    requires IsGrid(g, n, m)
  {
    forall i, j :: 0 <= i <= n && 0 <= j <= m && (i == 0 || j == 0) ==> g[i][j] == 0
  }

  /** Cell (i, j) is scanned after cell (i', j') when a grid is filled row by row. */
  predicate After(i: int, j: int, i': int, j': int)
  {
    i > i' || (i == i' && j > j')
  }

  // ---------------------------------------------------------------------------
  // Local alignment (Smith–Waterman), include/align.h:18-87
  // ---------------------------------------------------------------------------

  /** The Smith–Waterman recurrence: zero on the border row and column;
      inside, the best of zero, the diagonal cell plus the pair's score, and
      the cell to the left or above minus GAP_COST. */
  function LocalCell<T>(left: seq<T>, right: seq<T>, score: (T, T) -> int, i: nat, j: nat): (c: int)
    requires i <= |left| && j <= |right|
    ensures c >= 0
    ensures i == 0 || j == 0 ==> c == 0
    decreases i + j
  {
    if i == 0 || j == 0 then 0
    else
      var h1 := LocalCell(left, right, score, i - 1, j - 1) + score(left[i - 1], right[j - 1]);
      var h2 := LocalCell(left, right, score, i, j - 1) - GAP_COST;
      var h3 := LocalCell(left, right, score, i - 1, j) - GAP_COST;
      Max(0, Max(h1, Max(h2, h3)))
  }

  /** The whole Smith–Waterman grid of `left` against `right`. */
  ghost function LocalTable<T>(left: seq<T>, right: seq<T>, score: (T, T) -> int): (g: seq<seq<int>>)
    ensures IsGrid(g, |left|, |right|) && ZeroBorder(g, |left|, |right|)
    ensures forall i, j :: 0 <= i <= |left| && 0 <= j <= |right| ==> g[i][j] == LocalCell(left, right, score, i, j)
  {
    seq(|left| + 1, i requires 0 <= i <= |left| =>
      seq(|right| + 1, j requires 0 <= j <= |right| => LocalCell(left, right, score, i, j)))
  }

  /** The best of the three candidate scores of an interior cell, floored at 0. */
  function LocalBest(h1: int, h2: int, h3: int): (c: int)
    ensures c >= 0 && c >= h1 && c >= h2 && c >= h3
    ensures c == 0 || c == h1 || c == h2 || c == h3
  {
    Max(0, Max(h1, Max(h2, h3)))
  }

  /** Interior cell (i, j) of `g` obeys the Smith–Waterman recurrence with
      respect to its three predecessors. */
  predicate LocalCellOk<T>(g: seq<seq<int>>, left: seq<T>, right: seq<T>, score: (T, T) -> int, i: nat, j: nat)
    requires IsGrid(g, |left|, |right|) && 1 <= i <= |left| && 1 <= j <= |right|
  {
    g[i][j] == LocalBest(g[i - 1][j - 1] + score(left[i - 1], right[j - 1]), g[i][j - 1] - GAP_COST, g[i - 1][j] - GAP_COST)
  }

  /** `g` is a Smith–Waterman grid of `left` against `right`, checked cell by
      cell: zero border, every interior cell obeying the recurrence. */
  predicate IsLocalTable<T>(g: seq<seq<int>>, left: seq<T>, right: seq<T>, score: (T, T) -> int)
  {
    && IsGrid(g, |left|, |right|)
    && ZeroBorder(g, |left|, |right|)
    && forall i: nat, j: nat {:trigger LocalCellOk(g, left, right, score, i, j)} ::
         1 <= i <= |left| && 1 <= j <= |right| ==> LocalCellOk(g, left, right, score, i, j)
  }

  /** The recursive definition gives a table that obeys the recurrence. */
  lemma LocalTableIsLocal<T>(left: seq<T>, right: seq<T>, score: (T, T) -> int)
    ensures IsLocalTable(LocalTable(left, right, score), left, right, score)
  {
    var g := LocalTable(left, right, score);
    forall i: nat, j: nat | 1 <= i <= |left| && 1 <= j <= |right|
      ensures LocalCellOk(g, left, right, score, i, j)
    {
      assert g[i][j] == LocalCell(left, right, score, i, j);
    }
  }

  /** Each cell of a table obeying the recurrence is the recursively defined one. */
  lemma {:induction false} LocalCellsAgree<T>(g: seq<seq<int>>, left: seq<T>, right: seq<T>, score: (T, T) -> int, i: nat, j: nat)
    requires IsLocalTable(g, left, right, score)
    requires i <= |left| && j <= |right|
    ensures g[i][j] == LocalCell(left, right, score, i, j)
    decreases i + j
  {
    if i > 0 && j > 0 {
      LocalCellsAgree(g, left, right, score, i - 1, j - 1);
      LocalCellsAgree(g, left, right, score, i, j - 1);
      LocalCellsAgree(g, left, right, score, i - 1, j);
      assert LocalCellOk(g, left, right, score, i, j);
    }
  }

  /** A table obeying the recurrence is the recursively defined one. */
  lemma LocalTableIsTheTable<T>(g: seq<seq<int>>, left: seq<T>, right: seq<T>, score: (T, T) -> int)
    requires IsLocalTable(g, left, right, score)
    ensures g == LocalTable(left, right, score)
  {
    var t := LocalTable(left, right, score);
    forall i | 0 <= i <= |left|
      ensures g[i] == t[i]
    {
      forall j | 0 <= j <= |right|
        ensures g[i][j] == t[i][j]
      {
        LocalCellsAgree(g, left, right, score, i, j);
      }
    }
  }

  /** Two inputs have at most one Smith–Waterman grid. */
  lemma LocalTableUnique<T>(g: seq<seq<int>>, g': seq<seq<int>>, left: seq<T>, right: seq<T>, score: (T, T) -> int)
    requires IsLocalTable(g, left, right, score) && IsLocalTable(g', left, right, score)
    ensures g == g'
  {
    LocalTableIsTheTable(g, left, right, score);
    LocalTableIsTheTable(g', left, right, score);
  }

  /** One cell of a table obeying the recurrence, read off the table. */
  lemma LocalTableCell<T>(g: seq<seq<int>>, left: seq<T>, right: seq<T>, score: (T, T) -> int, i: nat, j: nat)
    requires IsLocalTable(g, left, right, score)
    ensures IsGrid(g, |left|, |right|)
    ensures 1 <= i <= |left| && 1 <= j <= |right| ==>
      g[i][j] == LocalBest(g[i - 1][j - 1] + score(left[i - 1], right[j - 1]), g[i][j - 1] - GAP_COST, g[i - 1][j] - GAP_COST)
  {
    if 1 <= i <= |left| && 1 <= j <= |right| {
      assert LocalCellOk(g, left, right, score, i, j);
    }
  }

  /** Every cell of a Smith–Waterman grid is nonnegative. */
  lemma LocalTableNonNegative<T>(g: seq<seq<int>>, left: seq<T>, right: seq<T>, score: (T, T) -> int)
    requires IsLocalTable(g, left, right, score)
    ensures forall i, j :: 0 <= i <= |left| && 0 <= j <= |right| ==> g[i][j] >= 0
  {
    forall i, j | 0 <= i <= |left| && 0 <= j <= |right|
      ensures g[i][j] >= 0
    {
      LocalTableCell(g, left, right, score, i, j);
    }
  }

  /** (mi, mj) is an interior cell of `g` holding its largest score, and no
      interior cell scanned after it scores as much: the cell the `>=`
      comparison of the fill loop ends on. */
  predicate LastMaxCell(g: seq<seq<int>>, n: nat, m: nat, mi: nat, mj: nat)
    requires IsGrid(g, n, m)
  {
    && 1 <= mi <= n && 1 <= mj <= m
    && forall i, j :: 1 <= i <= n && 1 <= j <= m ==>
         && g[i][j] <= g[mi][mj]
         && (After(i, j, mi, mj) ==> g[i][j] < g[mi][mj])
  }

  /** At most one cell is the last maximum. */
  lemma LastMaxCellUnique(g: seq<seq<int>>, n: nat, m: nat, mi: nat, mj: nat, mi': nat, mj': nat)
    requires IsGrid(g, n, m)
    requires LastMaxCell(g, n, m, mi, mj) && LastMaxCell(g, n, m, mi', mj')
    ensures mi == mi' && mj == mj'
  {
    // each cell scores at most what the other does, so neither lies after the other
    assert g[mi][mj] <= g[mi'][mj'] && g[mi'][mj'] <= g[mi][mj];
  }

  /** When no pair of elements scores above zero, every cell of the local
      grid is 0 and the last maximum is the bottom-right cell. */
  lemma LastMaxCellWithoutScore<T>(g: seq<seq<int>>, left: seq<T>, right: seq<T>, score: (T, T) -> int, mi: nat, mj: nat)
    requires forall i, j :: 0 <= i < |left| && 0 <= j < |right| ==> score(left[i], right[j]) <= 0
    requires IsLocalTable(g, left, right, score)
    requires LastMaxCell(g, |left|, |right|, mi, mj)
    ensures mi == |left| && mj == |right|
  {
    LocalCellsZero(left, right, score);
    LocalCellsAgree(g, left, right, score, mi, mj);
    LocalCellsAgree(g, left, right, score, |left|, |right|);
    // the bottom-right cell scores 0, as much as (mi, mj), so it cannot lie after it
    assert g[|left|][|right|] == g[mi][mj];
  }

  /** With no positive pair score every cell of the local grid is 0. */
  lemma LocalCellsZero<T>(left: seq<T>, right: seq<T>, score: (T, T) -> int)
    requires forall i, j :: 0 <= i < |left| && 0 <= j < |right| ==> score(left[i], right[j]) <= 0
    ensures forall i, j :: 0 <= i <= |left| && 0 <= j <= |right| ==> LocalCell(left, right, score, i, j) == 0
  {
    forall i, j | 0 <= i <= |left| && 0 <= j <= |right|
      ensures LocalCell(left, right, score, i, j) == 0
    {
      LocalCellZero(left, right, score, i, j);
    }
  }

  lemma {:induction false} LocalCellZero<T>(left: seq<T>, right: seq<T>, score: (T, T) -> int, i: nat, j: nat)
    requires forall i, j :: 0 <= i < |left| && 0 <= j < |right| ==> score(left[i], right[j]) <= 0
    requires i <= |left| && j <= |right|
    ensures LocalCell(left, right, score, i, j) == 0
    decreases i + j
  {
    if i > 0 && j > 0 {
      LocalCellZero(left, right, score, i - 1, j - 1);
      LocalCellZero(left, right, score, i, j - 1);
      LocalCellZero(left, right, score, i - 1, j);
    }
  }

  /** One backtrace step: a diagonal pair that ends the walk, a diagonal
      pair, a step along the row (gap in the left output) or a step along
      the column (gap in the right output). */
  datatype Move = Stop | Diag | Left | Up

  /** The cell a move leads back to from (i, j). */
  function Prev(mv: Move, i: nat, j: nat): (nat, nat)
    requires 1 <= i && 1 <= j
  {
    match mv
    case Stop => (i - 1, j - 1)
    case Diag => (i - 1, j - 1)
    case Left => (i, j - 1)
    case Up => (i - 1, j)
  }

  /** The column a move from interior cell (i, j) emits. */
  function ColumnAt<T>(mv: Move, left: seq<T>, right: seq<T>, i: nat, j: nat): (c: Column<T>)
    requires 1 <= i <= |left| && 1 <= j <= |right|
    ensures c.GapLeft? <==> mv == Left
    ensures c.GapRight? <==> mv == Up
    ensures !c.GapLeft? ==> c.l == left[i - 1]
    ensures !c.GapRight? ==> c.r == right[j - 1]
  {
    match mv
    case Left => GapLeft(right[j - 1])
    case Up => GapRight(left[i - 1])
    case _ => Pair(left[i - 1], right[j - 1])
  }

  /** The local backtrace step from interior cell (i, j) of table `g`: once
      the diagonal predecessor is 0 the walk stops after this pair;
      otherwise it prefers the cell to the left (same row), then the
      diagonal, then the cell above. A move that goes on never leaves the
      interior, because the border of the table is 0. */
  function LocalMove(g: seq<seq<int>>, n: nat, m: nat, i: nat, j: nat): (mv: Move)
    requires IsGrid(g, n, m) && ZeroBorder(g, n, m)
    requires 1 <= i <= n && 1 <= j <= m
    ensures mv == Stop <==> g[i - 1][j - 1] == 0
    ensures mv == Left <==> g[i - 1][j - 1] != 0 && g[i][j - 1] >= g[i - 1][j - 1] && g[i][j - 1] >= g[i - 1][j]
    ensures mv == Diag <==> g[i - 1][j - 1] != 0 && g[i - 1][j - 1] > g[i][j - 1] && g[i - 1][j - 1] >= g[i - 1][j]
    ensures mv == Up <==> g[i - 1][j - 1] != 0 && g[i - 1][j] > g[i][j - 1] && g[i - 1][j] > g[i - 1][j - 1]
    ensures mv != Stop ==> 1 <= Prev(mv, i, j).0 && 1 <= Prev(mv, i, j).1
  {
    var h1, h2, h3 := g[i][j - 1], g[i - 1][j - 1], g[i - 1][j];
    if h2 == 0 then Stop
    else if h1 >= h2 && h1 >= h3 then Left
    else if h2 >= h1 && h2 >= h3 then Diag
    else Up
  }

  /** The local backtrace from interior cell (i, j) of table `g`, in output
      order: the columns emitted by the steps after the current one come
      first, the current step's column last (the source pushes and then
      reverses). */
  function LocalPath<T>(left: seq<T>, right: seq<T>, g: seq<seq<int>>, i: nat, j: nat): (cols: seq<Column<T>>)
    requires IsGrid(g, |left|, |right|) && ZeroBorder(g, |left|, |right|)
    requires 1 <= i <= |left| && 1 <= j <= |right|
    ensures 1 <= |cols| <= i + j - 1 && cols[0].Pair?
    decreases i + j
  {
    var mv := LocalMove(g, |left|, |right|, i, j);
    var c := ColumnAt(mv, left, right, i, j);
    if mv == Stop then [c]
    else LocalPath(left, right, g, Prev(mv, i, j).0, Prev(mv, i, j).1) + [c]
  }

  /** One step of the local backtrace from interior cell (i, j): this
      step's column alone when the walk stops here, otherwise the path from
      the predecessor and then this step's column. */
  lemma LocalPathStep<T>(left: seq<T>, right: seq<T>, g: seq<seq<int>>, i: nat, j: nat, rest: seq<Column<T>>)
    requires IsGrid(g, |left|, |right|) && ZeroBorder(g, |left|, |right|)
    requires 1 <= i <= |left| && 1 <= j <= |right|
    ensures var mv := LocalMove(g, |left|, |right|, i, j);
      var c := ColumnAt(mv, left, right, i, j);
      LocalPath(left, right, g, i, j) + rest
        == if mv == Stop then [c] + rest
           else LocalPath(left, right, g, Prev(mv, i, j).0, Prev(mv, i, j).1) + ([c] + rest)
  {
  }

  /** `s` is the slice of `whole` that ends just before index `end`. */
  ghost predicate EndsAt<T>(s: seq<T>, whole: seq<T>, end: nat)
  {
    |s| <= end <= |whole| && s == whole[end - |s|..end]
  }

  /** Appending a column keeps the consumed left elements a slice of `left`,
      one longer exactly when the column does not put a gap on the left. */
  lemma LeftEndsAtSnoc<T>(cols: seq<Column<T>>, c: Column<T>, left: seq<T>, i: nat, i': nat)
    requires EndsAt(LeftElems(cols), left, i')
    requires if c.GapLeft? then i' == i else i' + 1 == i <= |left| && c.l == left[i - 1]
    ensures EndsAt(LeftElems(cols + [c]), left, i)
    ensures |LeftElems(cols + [c])| == |LeftElems(cols)| + i - i'
  {
    ElemsSnoc(cols, c);
    if !c.GapLeft? {
      var n := |LeftElems(cols)|;
      assert left[i' - n..i'] + [left[i']] == left[i' - n..i];
    }
  }

  /** The same for the consumed right elements. */
  lemma RightEndsAtSnoc<T>(cols: seq<Column<T>>, c: Column<T>, right: seq<T>, j: nat, j': nat)
    requires EndsAt(RightElems(cols), right, j')
    requires if c.GapRight? then j' == j else j' + 1 == j <= |right| && c.r == right[j - 1]
    ensures EndsAt(RightElems(cols + [c]), right, j)
    ensures |RightElems(cols + [c])| == |RightElems(cols)| + j - j'
  {
    ElemsSnoc(cols, c);
    if !c.GapRight? {
      var m := |RightElems(cols)|;
      assert right[j' - m..j'] + [right[j']] == right[j' - m..j];
    }
  }

  /** A local alignment ending at (i, j) starts with a pair and consumes a
      nonempty contiguous slice of each input, ending at row i of `left` and
      at column j of `right`. */
  lemma {:induction false} LocalPathSlices<T>(left: seq<T>, right: seq<T>, g: seq<seq<int>>, i: nat, j: nat)
    requires IsGrid(g, |left|, |right|) && ZeroBorder(g, |left|, |right|)
    requires 1 <= i <= |left| && 1 <= j <= |right|
    ensures var cols := LocalPath(left, right, g, i, j);
      && |cols| >= 1 && cols[0].Pair?
      && |LeftElems(cols)| >= 1 && EndsAt(LeftElems(cols), left, i)
      && |RightElems(cols)| >= 1 && EndsAt(RightElems(cols), right, j)
    decreases i + j
  {
    var mv := LocalMove(g, |left|, |right|, i, j);
    var c := ColumnAt(mv, left, right, i, j);
    if mv == Stop {
      LeftEndsAtSnoc([], c, left, i, i - 1);
      RightEndsAtSnoc([], c, right, j, j - 1);
      assert LocalPath(left, right, g, i, j) == [] + [c];
    } else {
      var (i', j') := Prev(mv, i, j);
      var p := LocalPath(left, right, g, i', j');
      assert LocalPath(left, right, g, i, j) == p + [c];
      LocalPathSlices(left, right, g, i', j');
      LeftEndsAtSnoc(p, c, left, i, i');
      RightEndsAtSnoc(p, c, right, j, j');
    }
  }

  /** What the fill loop's running maximum holds: the score, row and column
      of the best interior cell so far. */
  datatype Best = Best(max: int, mi: nat, mj: nat)

  /** One comparison of the fill loop: interior cell (i, j) replaces the
      running best when it scores at least as much (`>=`, so later cells
      win ties); border cells are not compared. */
  function Consider(b: Best, g: seq<seq<int>>, n: nat, m: nat, i: nat, j: nat): Best
    requires IsGrid(g, n, m) && i <= n && j <= m
  {
    if i >= 1 && j >= 1 && g[i][j] >= b.max then Best(g[i][j], i, j) else b
  }

  /** The running best once every cell before (i, j) in row-major order has
      been considered, starting from Best(0, 0, 0). */
  function Scanned(g: seq<seq<int>>, n: nat, m: nat, i: nat, j: nat): Best
    requires IsGrid(g, n, m) && i <= n + 1 && j <= m + 1
    decreases i, j
  {
    if j == 0 then (if i == 0 then Best(0, 0, 0) else Scanned(g, n, m, i - 1, m + 1))
    else if i == n + 1 then Scanned(g, n, m, i, 0)
    else Consider(Scanned(g, n, m, i, j - 1), g, n, m, i, j - 1)
  }

  /** Among the interior cells of `g` scanned before (i, j), `b` is the last
      holding the largest score; before any interior cell it is all zero. */
  ghost predicate BestBefore(g: seq<seq<int>>, n: nat, m: nat, i: nat, j: nat, b: Best)
    requires IsGrid(g, n, m)
  {
    && (if n >= 1 && m >= 1 && After(i, j, 1, 1)
        then 1 <= b.mi <= n && 1 <= b.mj <= m && After(i, j, b.mi, b.mj) && b.max == g[b.mi][b.mj]
        else b == Best(0, 0, 0))
    && forall i', j' :: 1 <= i' <= n && 1 <= j' <= m && After(i, j, i', j') ==>
         g[i'][j'] <= b.max && (After(i', j', b.mi, b.mj) ==> g[i'][j'] < b.max)
  }

  lemma BestBeforeConsider(g: seq<seq<int>>, n: nat, m: nat, i: nat, j: nat, b: Best)
    requires IsGrid(g, n, m) && i <= n && j <= m
    requires forall i', j' :: 1 <= i' <= n && 1 <= j' <= m ==> g[i'][j'] >= 0
    requires BestBefore(g, n, m, i, j, b)
    ensures BestBefore(g, n, m, i, j + 1, Consider(b, g, n, m, i, j))
  {
    var b' := Consider(b, g, n, m, i, j);
    forall i', j' | 1 <= i' <= n && 1 <= j' <= m && After(i, j + 1, i', j')
      ensures g[i'][j'] <= b'.max && (After(i', j', b'.mi, b'.mj) ==> g[i'][j'] < b'.max)
    {
      if After(i, j, i', j') {
        assert g[i'][j'] <= b.max && (After(i', j', b.mi, b.mj) ==> g[i'][j'] < b.max);
      }
    }
  }

  lemma BestBeforeNextRow(g: seq<seq<int>>, n: nat, m: nat, i: nat, b: Best)
    requires IsGrid(g, n, m) && 1 <= i <= n + 1
    requires BestBefore(g, n, m, i - 1, m + 1, b)
    ensures BestBefore(g, n, m, i, 0, b)
  {
    forall i', j' | 1 <= i' <= n && 1 <= j' <= m && After(i, 0, i', j')
      ensures g[i'][j'] <= b.max && (After(i', j', b.mi, b.mj) ==> g[i'][j'] < b.max)
    {
      assert After(i - 1, m + 1, i', j');
    }
  }

  lemma BestBeforeLastRow(g: seq<seq<int>>, n: nat, m: nat, j: nat, b: Best)
    requires IsGrid(g, n, m)
    requires BestBefore(g, n, m, n + 1, 0, b)
    ensures BestBefore(g, n, m, n + 1, j, b)
  {
  }

  /** Moving to the start of the next row considers no cell. */
  lemma ScannedNextRow(g: seq<seq<int>>, n: nat, m: nat, i: nat)
    requires IsGrid(g, n, m) && 1 <= i <= n + 1
    requires BestBefore(g, n, m, i - 1, m + 1, Scanned(g, n, m, i - 1, m + 1))
    ensures BestBefore(g, n, m, i, 0, Scanned(g, n, m, i, 0))
  {
    BestBeforeNextRow(g, n, m, i, Scanned(g, n, m, i - 1, m + 1));
  }

  /** Past the last row nothing is considered. */
  lemma ScannedLastRow(g: seq<seq<int>>, n: nat, m: nat, j: nat)
    requires IsGrid(g, n, m) && 1 <= j <= m + 1
    requires BestBefore(g, n, m, n + 1, 0, Scanned(g, n, m, n + 1, 0))
    ensures BestBefore(g, n, m, n + 1, j, Scanned(g, n, m, n + 1, j))
  {
    BestBeforeLastRow(g, n, m, j, Scanned(g, n, m, n + 1, 0));
  }

  /** One more cell of a row is considered. */
  lemma ScannedConsider(g: seq<seq<int>>, n: nat, m: nat, i: nat, j: nat)
    requires IsGrid(g, n, m) && i <= n && 1 <= j <= m + 1
    requires forall i', j' :: 1 <= i' <= n && 1 <= j' <= m ==> g[i'][j'] >= 0
    requires BestBefore(g, n, m, i, j - 1, Scanned(g, n, m, i, j - 1))
    ensures BestBefore(g, n, m, i, j, Scanned(g, n, m, i, j))
  {
    BestBeforeConsider(g, n, m, i, j - 1, Scanned(g, n, m, i, j - 1));
  }

  /** When every interior score is nonnegative the scan keeps the last
      maximum of the cells it has passed. */
  lemma {:induction false} ScannedIsBest(g: seq<seq<int>>, n: nat, m: nat, i: nat, j: nat)
    requires IsGrid(g, n, m) && i <= n + 1 && j <= m + 1
    requires forall i', j' :: 1 <= i' <= n && 1 <= j' <= m ==> g[i'][j'] >= 0
    ensures BestBefore(g, n, m, i, j, Scanned(g, n, m, i, j))
    decreases i, j
  {
    if j == 0 {
      if i > 0 {
        ScannedIsBest(g, n, m, i - 1, m + 1);
        ScannedNextRow(g, n, m, i);
      }
    } else if i == n + 1 {
      ScannedIsBest(g, n, m, i, 0);
      ScannedLastRow(g, n, m, j);
    } else {
      ScannedIsBest(g, n, m, i, j - 1);
      ScannedConsider(g, n, m, i, j);
    }
  }

  /** Fills the Smith–Waterman grid row by row and finds the last maximum
      cell (include/align.h:21-46). `g` is the table the grid ends up
      holding. */
  method LocalGrid<T>(left: seq<T>, right: seq<T>, score: (T, T) -> int)
    returns (grid: array2<int>, max: int, mi: nat, mj: nat, ghost g: seq<seq<int>>)
    ensures IsLocalTable(g, left, right, score)
    ensures grid.Length0 == |left| + 1 && grid.Length1 == |right| + 1
    ensures forall i, j {:trigger grid[i, j]} :: 0 <= i <= |left| && 0 <= j <= |right| ==> grid[i, j] == g[i][j]
    ensures Best(max, mi, mj) == Scanned(g, |left|, |right|, |left| + 1, 0)
    ensures |left| == 0 || |right| == 0 ==> max == 0 && mi == 0 && mj == 0
    ensures |left| > 0 && |right| > 0 ==> LastMaxCell(g, |left|, |right|, mi, mj) && max == g[mi][mj]
  {
    var llen, rlen := |left|, |right|;
    LocalTableIsLocal(left, right, score);
    g :| IsLocalTable(g, left, right, score);
    LocalTableCell(g, left, right, score, 0, 0);
    grid := new int[llen + 1, rlen + 1];
    max, mi, mj := 0, 0, 0;
    for i := 0 to llen + 1
      invariant forall i', j' {:trigger grid[i', j']} :: 0 <= i' < i && 0 <= j' <= rlen ==> grid[i', j'] == g[i'][j']
      invariant Best(max, mi, mj) == Scanned(g, llen, rlen, i, 0)
    {
      for j := 0 to rlen + 1
        invariant forall i', j' {:trigger grid[i', j']} :: 0 <= i' < i && 0 <= j' <= rlen ==> grid[i', j'] == g[i'][j']
        invariant forall j' {:trigger grid[i, j']} :: 0 <= j' < j ==> grid[i, j'] == g[i][j']
        invariant Best(max, mi, mj) == Scanned(g, llen, rlen, i, j)
      {
        if i == 0 || j == 0 {
          grid[i, j] := 0;
        } else {
          var h1 := grid[i - 1, j - 1] + score(left[i - 1], right[j - 1]);
          var h2 := grid[i, j - 1] - GAP_COST;
          var h3 := grid[i - 1, j] - GAP_COST;
          var m := Max(0, Max(h1, Max(h2, h3)));
          LocalTableCell(g, left, right, score, i, j);
          grid[i, j] := m;
          if m >= max {
            max, mi, mj := m, i, j;
          }
        }
      }
    }
    LocalTableNonNegative(g, left, right, score);
    ScannedIsBest(g, llen, rlen, llen + 1, 0);
  }

  /** The backtrace loop of include/align.h:48-84: walks back from interior
      cell (mi0, mj0), pushing one element onto each output per step, then
      reverses both outputs. `g` is the table the grid holds. */
  method LocalBacktrace<T>(grid: array2<int>, ghost g: seq<seq<int>>, left: seq<T>, right: seq<T>,
                           gap: T, mi0: nat, mj0: nat)
    returns (leftOut: seq<T>, rightOut: seq<T>)
    requires IsGrid(g, |left|, |right|) && ZeroBorder(g, |left|, |right|)
    requires grid.Length0 == |left| + 1 && grid.Length1 == |right| + 1
    requires forall i, j {:trigger grid[i, j]} :: 0 <= i <= |left| && 0 <= j <= |right| ==> grid[i, j] == g[i][j]
    requires 1 <= mi0 <= |left| && 1 <= mj0 <= |right|
    ensures leftOut == LeftRow(LocalPath(left, right, g, mi0, mj0), gap)
    ensures rightOut == RightRow(LocalPath(left, right, g, mi0, mj0), gap)
  {
    var mi, mj := mi0, mj0;
    leftOut, rightOut := [], [];
    ghost var rest: seq<Column<T>> := [];
    var shouldContinue := true;
    while shouldContinue
      invariant mi <= |left| && mj <= |right|
      invariant shouldContinue ==> 1 <= mi && 1 <= mj
      invariant shouldContinue ==> LocalPath(left, right, g, mi0, mj0) == LocalPath(left, right, g, mi, mj) + rest
      invariant !shouldContinue ==> LocalPath(left, right, g, mi0, mj0) == rest
      invariant Reversed(leftOut) == LeftRow(rest, gap) && Reversed(rightOut) == RightRow(rest, gap)
      decreases mi + mj
    {
      var h1 := grid[mi, mj - 1];
      var h2 := grid[mi - 1, mj - 1];
      var h3 := grid[mi - 1, mj];
      ghost var mv := LocalMove(g, |left|, |right|, mi, mj);
      ghost var c := ColumnAt(mv, left, right, mi, mj);
      LocalPathStep(left, right, g, mi, mj, rest);
      RowsStep(leftOut, rightOut, c, rest, gap);
      ghost var leftNext, rightNext := leftOut + [LeftOf(c, gap)], rightOut + [RightOf(c, gap)];
      ghost var next := Prev(mv, mi, mj);
      if h2 == 0 {
        leftOut, rightOut := leftOut + [left[mi - 1]], rightOut + [right[mj - 1]];
        mi, mj := mi - 1, mj - 1;
      } else if h1 >= h2 && h1 >= h3 {
        leftOut, rightOut := leftOut + [gap], rightOut + [right[mj - 1]];
        mj := mj - 1;
      } else if h2 >= h1 && h2 >= h3 {
        leftOut, rightOut := leftOut + [left[mi - 1]], rightOut + [right[mj - 1]];
        mi, mj := mi - 1, mj - 1;
      } else {
        // the source tests `h3 >= h1 && h3 >= h2` here, which always holds
        leftOut, rightOut := leftOut + [left[mi - 1]], rightOut + [gap];
        mi := mi - 1;
      }
      assert leftOut == leftNext && rightOut == rightNext && (mi, mj) == next;
      rest := [c] + rest;
      if h2 == 0 {
        shouldContinue := false;
      }
    }
    leftOut, rightOut := Reversed(leftOut), Reversed(rightOut);
  }

  /** Smith–Waterman local alignment (include/align.h:18-87). Both inputs
      must be nonempty: on an empty input the source backtraces from cell
      (0, 0) and reads outside the grid. The outputs are the rows of the
      backtrace from the last maximum cell of the local grid. */
  method Align2<T>(left: seq<T>, right: seq<T>, gap: T, score: (T, T) -> int)
    returns (leftOut: seq<T>, rightOut: seq<T>)
    requires |left| >= 1 && |right| >= 1
    ensures |leftOut| == |rightOut| >= 1
    ensures exists g, mi: nat, mj: nat ::
      && IsLocalTable(g, left, right, score)
      && LastMaxCell(g, |left|, |right|, mi, mj)
      && leftOut == LeftRow(LocalPath(left, right, g, mi, mj), gap)
      && rightOut == RightRow(LocalPath(left, right, g, mi, mj), gap)
  {
    var grid, max, mi, mj, g := LocalGrid(left, right, score);
    leftOut, rightOut := LocalBacktrace(grid, g, left, right, gap, mi, mj);
    LocalPathSlices(left, right, g, mi, mj);
  }

  /** The character wrapper of include/align.h:165-168: local alignment of
      two strings with `Match` as the score and '-' as the gap. */
  method Align2Chars(left: string, right: string) returns (leftOut: string, rightOut: string)
    requires |left| >= 1 && |right| >= 1
    ensures |leftOut| == |rightOut| >= 1
    ensures exists g, mi: nat, mj: nat ::
      && IsLocalTable(g, left, right, Match)
      && LastMaxCell(g, |left|, |right|, mi, mj)
      && leftOut == LeftRow(LocalPath(left, right, g, mi, mj), '-')
      && rightOut == RightRow(LocalPath(left, right, g, mi, mj), '-')
  {
    leftOut, rightOut := Align2(left, right, '-', Match);
  }

  // ---------------------------------------------------------------------------
  // Global alignment (Needleman–Wunsch), include/align.h:89-158
  // ---------------------------------------------------------------------------

  /** The Needleman–Wunsch recurrence: border cells are i or j times
      GLOBAL_GAP_COST; inside, the best of the left or upper cell plus
      GLOBAL_GAP_COST and the diagonal cell plus ±MATCH_COST. */
  function GlobalCell<T(==)>(left: seq<T>, right: seq<T>, i: nat, j: nat): (c: int)
    requires i <= |left| && j <= |right|
    ensures i == 0 ==> c == j * GLOBAL_GAP_COST
    ensures j == 0 ==> c == i * GLOBAL_GAP_COST
    decreases i + j
  {
    if i == 0 then j * GLOBAL_GAP_COST
    else if j == 0 then i * GLOBAL_GAP_COST
    else
      var t := GlobalCell(left, right, i, j - 1) + GLOBAL_GAP_COST;
      var l := GlobalCell(left, right, i - 1, j) + GLOBAL_GAP_COST;
      var tl := GlobalCell(left, right, i - 1, j - 1) + Match(left[i - 1], right[j - 1]);
      Max(Max(t, l), tl)
  }

  /** The whole Needleman–Wunsch grid of `left` against `right`. */
  ghost function GlobalTable<T>(left: seq<T>, right: seq<T>): (g: seq<seq<int>>)
    ensures IsGrid(g, |left|, |right|)
    ensures forall i, j :: 0 <= i <= |left| && 0 <= j <= |right| ==> g[i][j] == GlobalCell(left, right, i, j)
  {
    seq(|left| + 1, i requires 0 <= i <= |left| =>
      seq(|right| + 1, j requires 0 <= j <= |right| => GlobalCell(left, right, i, j)))
  }

  /** Interior cell (i, j) of `g` obeys the Needleman–Wunsch recurrence. */
  ghost predicate GlobalCellOk<T>(g: seq<seq<int>>, left: seq<T>, right: seq<T>, i: nat, j: nat)
    requires IsGrid(g, |left|, |right|) && 1 <= i <= |left| && 1 <= j <= |right|
  {
    g[i][j] == Max(Max(g[i][j - 1] + GLOBAL_GAP_COST, g[i - 1][j] + GLOBAL_GAP_COST),
                   g[i - 1][j - 1] + (if left[i - 1] == right[j - 1] then MATCH_COST else -MATCH_COST))
  }

  /** `g` is a Needleman–Wunsch grid of `left` against `right`, checked cell
      by cell: border cells i or j times GLOBAL_GAP_COST, every interior cell
      obeying the recurrence. */
  ghost predicate IsGlobalTable<T>(g: seq<seq<int>>, left: seq<T>, right: seq<T>)
  {
    && IsGrid(g, |left|, |right|)
    && (forall i :: 0 <= i <= |left| ==> g[i][0] == i * GLOBAL_GAP_COST)
    && (forall j :: 0 <= j <= |right| ==> g[0][j] == j * GLOBAL_GAP_COST)
    && forall i: nat, j: nat {:trigger GlobalCellOk(g, left, right, i, j)} ::
         1 <= i <= |left| && 1 <= j <= |right| ==> GlobalCellOk(g, left, right, i, j)
  }

  /** The recursive definition gives a table that obeys the recurrence. */
  lemma GlobalTableIsGlobal<T>(left: seq<T>, right: seq<T>)
    ensures IsGlobalTable(GlobalTable(left, right), left, right)
  {
    var g := GlobalTable(left, right);
    forall i: nat, j: nat | 1 <= i <= |left| && 1 <= j <= |right|
      ensures GlobalCellOk(g, left, right, i, j)
    {
      assert g[i][j] == GlobalCell(left, right, i, j);
    }
  }

  /** Two tables obeying the recurrence agree on every cell. */
  lemma {:induction false} GlobalTablesAgree<T>(g: seq<seq<int>>, g': seq<seq<int>>, left: seq<T>, right: seq<T>, i: nat, j: nat)
    requires IsGlobalTable(g, left, right) && IsGlobalTable(g', left, right)
    requires i <= |left| && j <= |right|
    ensures g[i][j] == g'[i][j]
    decreases i + j
  {
    if i > 0 && j > 0 {
      GlobalTablesAgree(g, g', left, right, i - 1, j - 1);
      GlobalTablesAgree(g, g', left, right, i, j - 1);
      GlobalTablesAgree(g, g', left, right, i - 1, j);
      assert GlobalCellOk(g, left, right, i, j) && GlobalCellOk(g', left, right, i, j);
    }
  }

  /** Each cell of a table obeying the recurrence is the recursively defined one. */
  lemma GlobalCellsAgree<T>(g: seq<seq<int>>, left: seq<T>, right: seq<T>, i: nat, j: nat)
    requires IsGlobalTable(g, left, right)
    requires i <= |left| && j <= |right|
    ensures g[i][j] == GlobalCell(left, right, i, j)
  {
    GlobalTableIsGlobal(left, right);
    GlobalTablesAgree(g, GlobalTable(left, right), left, right, i, j);
  }

  /** A table obeying the recurrence is the recursively defined one. */
  lemma GlobalTableIsTheTable<T>(g: seq<seq<int>>, left: seq<T>, right: seq<T>)
    requires IsGlobalTable(g, left, right)
    ensures g == GlobalTable(left, right)
  {
    var t := GlobalTable(left, right);
    forall i | 0 <= i <= |left|
      ensures g[i] == t[i]
    {
      forall j | 0 <= j <= |right|
        ensures g[i][j] == t[i][j]
      {
        GlobalCellsAgree(g, left, right, i, j);
      }
    }
  }

  /** Two inputs have at most one Needleman–Wunsch grid. */
  lemma GlobalTableUnique<T>(g: seq<seq<int>>, g': seq<seq<int>>, left: seq<T>, right: seq<T>)
    requires IsGlobalTable(g, left, right) && IsGlobalTable(g', left, right)
    ensures g == g'
  {
    GlobalTableIsTheTable(g, left, right);
    GlobalTableIsTheTable(g', left, right);
  }

  /** One cell of a table obeying the recurrence, read off the table. */
  lemma GlobalTableCell<T>(g: seq<seq<int>>, left: seq<T>, right: seq<T>, i: nat, j: nat)
    requires IsGlobalTable(g, left, right)
    ensures IsGrid(g, |left|, |right|)
    ensures i <= |left| && j == 0 ==> g[i][j] == i * GLOBAL_GAP_COST
    ensures i == 0 && j <= |right| ==> g[i][j] == j * GLOBAL_GAP_COST
    ensures 1 <= i <= |left| && 1 <= j <= |right| ==>
      g[i][j] == Max(Max(g[i][j - 1] + GLOBAL_GAP_COST, g[i - 1][j] + GLOBAL_GAP_COST),
                     g[i - 1][j - 1] + (if left[i - 1] == right[j - 1] then MATCH_COST else -MATCH_COST))
  {
    if 1 <= i <= |left| && 1 <= j <= |right| {
      assert GlobalCellOk(g, left, right, i, j);
    }
  }

  /** The global backtrace step from interior cell (i, j) of table `g`: to
      the left cell by default, to the diagonal only if it is strictly
      greater, and to the cell above only if that is strictly greater again. */
  function GlobalMove(g: seq<seq<int>>, n: nat, m: nat, i: nat, j: nat): (mv: Move)
    requires IsGrid(g, n, m) && 1 <= i <= n && 1 <= j <= m
    ensures mv != Stop
    ensures mv == Left <==> g[i - 1][j - 1] <= g[i][j - 1] && g[i - 1][j] <= g[i][j - 1]
    ensures mv == Diag <==> g[i - 1][j - 1] > g[i][j - 1] && g[i - 1][j] <= g[i - 1][j - 1]
    ensures mv == Up <==> g[i - 1][j] > Max(g[i][j - 1], g[i - 1][j - 1])
  {
    var diag := g[i - 1][j - 1] > g[i][j - 1];
    var best := if diag then g[i - 1][j - 1] else g[i][j - 1];
    if g[i - 1][j] > best then Up
    else if diag then Diag
    else Left
  }

  /** The global backtrace from (i, j) of table `g`, in output order; the
      walk ends as soon as i or j is 0. */
  function GlobalPath<T>(left: seq<T>, right: seq<T>, g: seq<seq<int>>, i: nat, j: nat): (cols: seq<Column<T>>)
    requires IsGrid(g, |left|, |right|) && i <= |left| && j <= |right|
    ensures |cols| <= i + j
    decreases i + j
  {
    if i == 0 || j == 0 then []
    else
      var mv := GlobalMove(g, |left|, |right|, i, j);
      GlobalPath(left, right, g, Prev(mv, i, j).0, Prev(mv, i, j).1) + [ColumnAt(mv, left, right, i, j)]
  }

  /** One step of the global backtrace from interior cell (i, j): the path
      from the predecessor, then this step's column. */
  lemma GlobalPathStep<T>(left: seq<T>, right: seq<T>, g: seq<seq<int>>, i: nat, j: nat, rest: seq<Column<T>>)
    requires IsGrid(g, |left|, |right|) && 1 <= i <= |left| && 1 <= j <= |right|
    ensures var mv := GlobalMove(g, |left|, |right|, i, j);
      GlobalPath(left, right, g, i, j) + rest
        == GlobalPath(left, right, g, Prev(mv, i, j).0, Prev(mv, i, j).1) + ([ColumnAt(mv, left, right, i, j)] + rest)
  {
  }

  /** A global backtrace from (i, j) consumes a suffix of `left[..i]` and a
      suffix of `right[..j]`, at least one of them whole, and takes at least
      one step when both are nonempty; it is no longer than i + j. */
  lemma {:induction false} GlobalPathSuffixes<T>(left: seq<T>, right: seq<T>, g: seq<seq<int>>, i: nat, j: nat)
    requires IsGrid(g, |left|, |right|) && i <= |left| && j <= |right|
    ensures var cols := GlobalPath(left, right, g, i, j);
      && ConsumesSuffixes(cols, left, right, i, j)
      && (i >= 1 && j >= 1 ==> |cols| >= 1)
      && |cols| <= i + j
    decreases i + j
  {
    if i >= 1 && j >= 1 {
      var mv := GlobalMove(g, |left|, |right|, i, j);
      var c := ColumnAt(mv, left, right, i, j);
      var i', j' := Prev(mv, i, j).0, Prev(mv, i, j).1;
      var p := GlobalPath(left, right, g, i', j');
      assert GlobalPath(left, right, g, i, j) == p + [c];
      assert |p + [c]| == |p| + 1 && i' + j' < i + j;
      GlobalPathSuffixes(left, right, g, i', j');
      SuffixesSnoc(p, c, left, right, i, j, i', j');
    }
  }

  /** `cols` consumes the elements of `left` just before index i and of
      `right` just before index j, and all of `left[..i]` or of `right[..j]`. */
  ghost predicate ConsumesSuffixes<T>(cols: seq<Column<T>>, left: seq<T>, right: seq<T>, i: nat, j: nat)
  {
    && EndsAt(LeftElems(cols), left, i) && EndsAt(RightElems(cols), right, j)
    && (|LeftElems(cols)| == i || |RightElems(cols)| == j)
  }

  /** One more column, taking at most one element from each input, keeps a
      path consuming suffixes of both, one of them whole. */
  lemma SuffixesSnoc<T>(p: seq<Column<T>>, c: Column<T>, left: seq<T>, right: seq<T>, i: nat, j: nat, i': nat, j': nat)
    requires ConsumesSuffixes(p, left, right, i', j')
    requires if c.GapLeft? then i' == i else i' + 1 == i <= |left| && c.l == left[i - 1]
    requires if c.GapRight? then j' == j else j' + 1 == j <= |right| && c.r == right[j - 1]
    ensures ConsumesSuffixes(p + [c], left, right, i, j)
  {
    LeftEndsAtSnoc(p, c, left, i, i');
    RightEndsAtSnoc(p, c, right, j, j');
  }

  /** Fills the Needleman–Wunsch grid row by row (include/align.h:93-111).
      `g` is the table the grid ends up holding. */
  method GlobalGrid<T(==)>(left: seq<T>, right: seq<T>) returns (grid: array2<int>, ghost g: seq<seq<int>>)
    ensures IsGlobalTable(g, left, right)
    ensures grid.Length0 == |left| + 1 && grid.Length1 == |right| + 1
    ensures forall i, j {:trigger grid[i, j]} :: 0 <= i <= |left| && 0 <= j <= |right| ==> grid[i, j] == g[i][j]
  {
    var llen, rlen := |left|, |right|;
    GlobalTableIsGlobal(left, right);
    g :| IsGlobalTable(g, left, right);
    GlobalTableCell(g, left, right, 0, 0);
    grid := new int[llen + 1, rlen + 1];
    for i := 0 to llen + 1
      invariant forall i', j' {:trigger grid[i', j']} :: 0 <= i' < i && 0 <= j' <= rlen ==> grid[i', j'] == g[i'][j']
    {
      for j := 0 to rlen + 1
        invariant forall i', j' {:trigger grid[i', j']} :: 0 <= i' < i && 0 <= j' <= rlen ==> grid[i', j'] == g[i'][j']
        invariant forall j' {:trigger grid[i, j']} :: 0 <= j' < j ==> grid[i, j'] == g[i][j']
      {
        GlobalTableCell(g, left, right, i, j);
        if i == 0 {
          grid[i, j] := j * GLOBAL_GAP_COST;
        } else if j == 0 {
          grid[i, j] := i * GLOBAL_GAP_COST;
        } else {
          var t := grid[i, j - 1] + GLOBAL_GAP_COST;
          var l := grid[i - 1, j] + GLOBAL_GAP_COST;
          var tl := if left[i - 1] == right[j - 1] then MATCH_COST else -MATCH_COST;
          tl := tl + grid[i - 1, j - 1];
          grid[i, j] := Max(Max(t, l), tl);
        }
      }
    }
  }

  /** The choice of step in the loop of the global backtrace
      (include/align.h:124-137): the offsets to the left cell by default,
      to the diagonal when its cell is strictly greater, and to the cell
      above when that is strictly greater again; the step `GlobalMove`
      names. */
  method GlobalChoice(grid: array2<int>, ghost g: seq<seq<int>>, len1: nat, len2: nat, i: nat, j: nat)
    returns (di: int, dj: int)
    requires IsGrid(g, len1, len2) && 1 <= i <= len1 && 1 <= j <= len2
    requires grid.Length0 == len1 + 1 && grid.Length1 == len2 + 1
    requires grid[i, j - 1] == g[i][j - 1] && grid[i - 1, j - 1] == g[i - 1][j - 1] && grid[i - 1, j] == g[i - 1][j]
    ensures GlobalMove(g, len1, len2, i, j) == (if di == -1 && dj == -1 then Diag else if di == -1 then Up else Left)
    ensures (i + di, j + dj) == Prev(GlobalMove(g, len1, len2, i, j), i, j)
  {
    di, dj := 0, -1;
    var m := grid[i + di, j + dj];
    if grid[i - 1, j - 1] > m {
      di, dj := -1, -1;
      m := grid[i + di, j + dj];
    }
    if grid[i - 1, j] > m {
      di, dj := -1, 0;
      m := grid[i + di, j + dj];
    }
  }

  /** The backtrace loop of include/align.h:113-157, from the bottom-right
      cell, without the initial push of the one-past-the-end elements. `g`
      is the table the grid holds. */
  method GlobalBacktrace<T>(grid: array2<int>, ghost g: seq<seq<int>>, left: seq<T>, right: seq<T>, gap: T)
    returns (leftOut: seq<T>, rightOut: seq<T>)
    requires IsGrid(g, |left|, |right|)
    requires grid.Length0 == |left| + 1 && grid.Length1 == |right| + 1
    requires forall i, j {:trigger grid[i, j]} :: 0 <= i <= |left| && 0 <= j <= |right| ==> grid[i, j] == g[i][j]
    ensures leftOut == LeftRow(GlobalPath(left, right, g, |left|, |right|), gap)
    ensures rightOut == RightRow(GlobalPath(left, right, g, |left|, |right|), gap)
  {
    leftOut, rightOut := [], [];
    ghost var rest: seq<Column<T>> := [];
    var i, j := |left|, |right|;
    while i >= 1 && j >= 1
      invariant 0 <= i <= |left| && 0 <= j <= |right|
      invariant GlobalPath(left, right, g, |left|, |right|) == GlobalPath(left, right, g, i, j) + rest
      invariant Reversed(leftOut) == LeftRow(rest, gap) && Reversed(rightOut) == RightRow(rest, gap)
      decreases i + j
    {
      ghost var mv := GlobalMove(g, |left|, |right|, i, j);
      ghost var c := ColumnAt(mv, left, right, i, j);
      GlobalPathStep(left, right, g, i, j, rest);
      RowsStep(leftOut, rightOut, c, rest, gap);
      ghost var leftNext, rightNext := leftOut + [LeftOf(c, gap)], rightOut + [RightOf(c, gap)];
      ghost var next := Prev(mv, i, j);
      var di, dj := GlobalChoice(grid, g, |left|, |right|, i, j);
      i, j := i + di, j + dj;
      if di == -1 && dj == -1 {
        leftOut, rightOut := leftOut + [left[i]], rightOut + [right[j]];
      } else if di == -1 && dj == 0 {
        rightOut, leftOut := rightOut + [gap], leftOut + [left[i]];
      } else {
        leftOut, rightOut := leftOut + [gap], rightOut + [right[j]];
      }
      assert leftOut == leftNext && rightOut == rightNext && (i, j) == next;
      rest := [c] + rest;
    }
    leftOut, rightOut := Reversed(leftOut), Reversed(rightOut);
  }

  /** Needleman–Wunsch global alignment (include/align.h:89-158), without
      the push of `left[llen]` and `right[rlen]` before the loop. The outputs
      are the rows of the backtrace from the bottom-right cell of the
      global grid. */
  method Align<T(==)>(left: seq<T>, right: seq<T>, gap: T) returns (leftOut: seq<T>, rightOut: seq<T>)
    ensures |leftOut| == |rightOut| <= |left| + |right|
    ensures exists g ::
      && IsGlobalTable(g, left, right)
      && leftOut == LeftRow(GlobalPath(left, right, g, |left|, |right|), gap)
      && rightOut == RightRow(GlobalPath(left, right, g, |left|, |right|), gap)
  {
    var grid, g := GlobalGrid(left, right);
    leftOut, rightOut := GlobalBacktrace(grid, g, left, right, gap);
    GlobalPathSuffixes(left, right, g, |left|, |right|);
  }
}
