/** The alignments worked through in tests/src/align_tests.cpp, derived
    from the model. */
module AlignmentExamples {
  import opened Alignment

  /** The Smith–Waterman grid of "ABCYE" against "ABCZE". */
  const TwoMaximaGrid: seq<seq<int>> := [
    [0, 0, 0, 0, 0, 0],
    [0, 3, 1, 0, 0, 0],
    [0, 1, 6, 4, 2, 0],
    [0, 0, 4, 9, 7, 5],
    [0, 0, 2, 7, 6, 4],
    [0, 0, 0, 5, 4, 9]]

  lemma TwoMaximaRow1()
    ensures forall j: nat :: 1 <= j <= 5 ==> LocalCellOk(TwoMaximaGrid, "ABCYE", "ABCZE", Match, 1, j)
  {
  }

  lemma TwoMaximaRow2()
    ensures forall j: nat :: 1 <= j <= 5 ==> LocalCellOk(TwoMaximaGrid, "ABCYE", "ABCZE", Match, 2, j)
  {
  }

  lemma TwoMaximaRow3()
    ensures forall j: nat :: 1 <= j <= 5 ==> LocalCellOk(TwoMaximaGrid, "ABCYE", "ABCZE", Match, 3, j)
  {
  }

  lemma TwoMaximaRow4()
    ensures forall j: nat :: 1 <= j <= 5 ==> LocalCellOk(TwoMaximaGrid, "ABCYE", "ABCZE", Match, 4, j)
  {
  }

  lemma TwoMaximaRow5()
    ensures forall j: nat :: 1 <= j <= 5 ==> LocalCellOk(TwoMaximaGrid, "ABCYE", "ABCZE", Match, 5, j)
  {
  }

  lemma TwoMaximaTable()
    ensures IsLocalTable(TwoMaximaGrid, "ABCYE", "ABCZE", Match)
  {
    var g, l, r := TwoMaximaGrid, "ABCYE", "ABCZE";
    assert IsGrid(g, 5, 5);
    TwoMaximaRow1(); TwoMaximaRow2(); TwoMaximaRow3(); TwoMaximaRow4(); TwoMaximaRow5();
    forall i: nat, j: nat | 1 <= i <= 5 && 1 <= j <= 5
      ensures LocalCellOk(g, l, r, Match, i, j)
    {
      assert i == 1 || i == 2 || i == 3 || i == 4 || i == 5;
    }
  }

  /** The last cell is a maximum, so it is the last maximum. */
  lemma TwoMaximaLast()
    ensures LastMaxCell(TwoMaximaGrid, 5, 5, 5, 5)
  {
    var g := TwoMaximaGrid;
    forall i, j | 1 <= i <= 5 && 1 <= j <= 5
      ensures g[i][j] <= 9
    {
      assert i == 1 || i == 2 || i == 3 || i == 4 || i == 5;
    }
  }

  /** The backtrace from (5, 5) runs down the diagonal to (1, 1). */
  lemma TwoMaximaPath()
    ensures LocalPath("ABCYE", "ABCZE", TwoMaximaGrid, 5, 5) ==
      [Pair('A', 'A'), Pair('B', 'B'), Pair('C', 'C'), Pair('Y', 'Z'), Pair('E', 'E')]
  {
    var g, l, r := TwoMaximaGrid, "ABCYE", "ABCZE";
    var p1 := LocalPath(l, r, g, 1, 1);
    assert p1 == [Pair('A', 'A')];
    var p2 := LocalPath(l, r, g, 2, 2);
    assert p2 == p1 + [Pair('B', 'B')];
    var p3 := LocalPath(l, r, g, 3, 3);
    assert p3 == p2 + [Pair('C', 'C')];
    var p4 := LocalPath(l, r, g, 4, 4);
    assert p4 == p3 + [Pair('Y', 'Z')];
    assert LocalPath(l, r, g, 5, 5) == p4 + [Pair('E', 'E')];
  }

  /** The rows of that path spell both inputs. */
  lemma TwoMaximaRows()
    ensures LeftRow(LocalPath("ABCYE", "ABCZE", TwoMaximaGrid, 5, 5), '-') == "ABCYE"
    ensures RightRow(LocalPath("ABCYE", "ABCZE", TwoMaximaGrid, 5, 5), '-') == "ABCZE"
  {
    var cols := [Pair('A', 'A'), Pair('B', 'B'), Pair('C', 'C'), Pair('Y', 'Z'), Pair('E', 'E')];
    TwoMaximaPath();
    assert LeftRow(cols, '-') == "ABCYE";
    assert RightRow(cols, '-') == "ABCZE";
  }

  /** Two cells score 9, (3, 3) and (5, 5); the fill loop keeps the later
      one, and the backtrace from it spells both inputs whole. Whatever
      `Align2Chars("ABCYE", "ABCZE")` returns is therefore the pair
      "ABCYE", "ABCZE". */
  lemma TwoMaxima(leftOut: string, rightOut: string)
    requires exists g, mi: nat, mj: nat ::
      && IsLocalTable(g, "ABCYE", "ABCZE", Match)
      && LastMaxCell(g, 5, 5, mi, mj)
      && leftOut == LeftRow(LocalPath("ABCYE", "ABCZE", g, mi, mj), '-')
      && rightOut == RightRow(LocalPath("ABCYE", "ABCZE", g, mi, mj), '-')
    ensures leftOut == "ABCYE" && rightOut == "ABCZE"
  {
    var l, r := "ABCYE", "ABCZE";
    var g, mi: nat, mj: nat :|
      && IsLocalTable(g, l, r, Match)
      && LastMaxCell(g, 5, 5, mi, mj)
      && leftOut == LeftRow(LocalPath(l, r, g, mi, mj), '-')
      && rightOut == RightRow(LocalPath(l, r, g, mi, mj), '-');
    TwoMaximaTable();
    LocalTableUnique(g, TwoMaximaGrid, l, r, Match);
    TwoMaximaLast();
    LastMaxCellUnique(g, 5, 5, mi, mj, 5, 5);
    TwoMaximaRows();
  }

  /** The Smith–Waterman grid of "ABCXE" against "ABCYZE". */
  const CommonPrefixGrid: seq<seq<int>> := [
    [0, 0, 0, 0, 0, 0, 0],
    [0, 3, 1, 0, 0, 0, 0],
    [0, 1, 6, 4, 2, 0, 0],
    [0, 0, 4, 9, 7, 5, 3],
    [0, 0, 2, 7, 6, 4, 2],
    [0, 0, 0, 5, 4, 3, 7]]

  lemma CommonPrefixRow1()
    ensures forall j: nat :: 1 <= j <= 6 ==> LocalCellOk(CommonPrefixGrid, "ABCXE", "ABCYZE", Match, 1, j)
  {
  }

  lemma CommonPrefixRow2()
    ensures forall j: nat :: 1 <= j <= 6 ==> LocalCellOk(CommonPrefixGrid, "ABCXE", "ABCYZE", Match, 2, j)
  {
  }

  lemma CommonPrefixRow3()
    ensures forall j: nat :: 1 <= j <= 6 ==> LocalCellOk(CommonPrefixGrid, "ABCXE", "ABCYZE", Match, 3, j)
  {
  }

  lemma CommonPrefixRow4()
    ensures forall j: nat :: 1 <= j <= 6 ==> LocalCellOk(CommonPrefixGrid, "ABCXE", "ABCYZE", Match, 4, j)
  {
  }

  lemma CommonPrefixRow5()
    ensures forall j: nat :: 1 <= j <= 6 ==> LocalCellOk(CommonPrefixGrid, "ABCXE", "ABCYZE", Match, 5, j)
  {
  }

  lemma CommonPrefixTable()
    ensures IsLocalTable(CommonPrefixGrid, "ABCXE", "ABCYZE", Match)
  {
    var g, l, r := CommonPrefixGrid, "ABCXE", "ABCYZE";
    assert IsGrid(g, 5, 6);
    CommonPrefixRow1(); CommonPrefixRow2(); CommonPrefixRow3(); CommonPrefixRow4(); CommonPrefixRow5();
    forall i: nat, j: nat | 1 <= i <= 5 && 1 <= j <= 6
      ensures LocalCellOk(g, l, r, Match, i, j)
    {
      assert i == 1 || i == 2 || i == 3 || i == 4 || i == 5;
    }
  }

  /** The only cell scoring 9 is (3, 3), after the common prefix "ABC". */
  lemma CommonPrefixLast()
    ensures LastMaxCell(CommonPrefixGrid, 5, 6, 3, 3)
  {
    var g := CommonPrefixGrid;
    forall i, j | 1 <= i <= 5 && 1 <= j <= 6
      ensures g[i][j] <= 9 && (After(i, j, 3, 3) ==> g[i][j] < 9)
    {
      assert i == 1 || i == 2 || i == 3 || i == 4 || i == 5;
    }
  }

  /** The backtrace from (3, 3) runs down the diagonal and stops at (1, 1). */
  lemma CommonPrefixRows()
    ensures LeftRow(LocalPath("ABCXE", "ABCYZE", CommonPrefixGrid, 3, 3), '-') == "ABC"
    ensures RightRow(LocalPath("ABCXE", "ABCYZE", CommonPrefixGrid, 3, 3), '-') == "ABC"
  {
    var g, l, r := CommonPrefixGrid, "ABCXE", "ABCYZE";
    var p1 := LocalPath(l, r, g, 1, 1);
    assert p1 == [Pair('A', 'A')];
    var p2 := LocalPath(l, r, g, 2, 2);
    assert p2 == p1 + [Pair('B', 'B')];
    var cols := p2 + [Pair('C', 'C')];
    assert LocalPath(l, r, g, 3, 3) == cols;
    assert LeftRow(cols, '-') == "ABC";
    assert RightRow(cols, '-') == "ABC";
  }

  /** The local alignment of "ABCXE" and "ABCYZE" is their common prefix
      "ABC": the mismatch X/Y followed by the gap cannot raise the score
      back to 9. */
  lemma CommonPrefix(leftOut: string, rightOut: string)
    requires exists g, mi: nat, mj: nat ::
      && IsLocalTable(g, "ABCXE", "ABCYZE", Match)
      && LastMaxCell(g, 5, 6, mi, mj)
      && leftOut == LeftRow(LocalPath("ABCXE", "ABCYZE", g, mi, mj), '-')
      && rightOut == RightRow(LocalPath("ABCXE", "ABCYZE", g, mi, mj), '-')
    ensures leftOut == "ABC" && rightOut == "ABC"
  {
    var l, r := "ABCXE", "ABCYZE";
    var g, mi: nat, mj: nat :|
      && IsLocalTable(g, l, r, Match)
      && LastMaxCell(g, 5, 6, mi, mj)
      && leftOut == LeftRow(LocalPath(l, r, g, mi, mj), '-')
      && rightOut == RightRow(LocalPath(l, r, g, mi, mj), '-');
    CommonPrefixTable();
    LocalTableUnique(g, CommonPrefixGrid, l, r, Match);
    CommonPrefixLast();
    LastMaxCellUnique(g, 5, 6, mi, mj, 3, 3);
    CommonPrefixRows();
  }

  /** The Smith–Waterman grid of "HEAGAWGHEE" against "PAWHEAE". */
  const GappedGrid: seq<seq<int>> := [
    [0, 0, 0, 0, 0, 0, 0, 0],
    [0, 0, 0, 0, 3, 1, 0, 0],
    [0, 0, 0, 0, 1, 6, 4, 3],
    [0, 0, 3, 1, 0, 4, 9, 7],
    [0, 0, 1, 0, 0, 2, 7, 6],
    [0, 0, 3, 1, 0, 0, 5, 4],
    [0, 0, 1, 6, 4, 2, 3, 2],
    [0, 0, 0, 4, 3, 1, 1, 0],
    [0, 0, 0, 2, 7, 5, 3, 1],
    [0, 0, 0, 0, 5, 10, 8, 6],
    [0, 0, 0, 0, 3, 8, 7, 11]]

  lemma GappedRow1()
    ensures forall j: nat :: 1 <= j <= 7 ==> LocalCellOk(GappedGrid, "HEAGAWGHEE", "PAWHEAE", Match, 1, j)
  {
  }

  lemma GappedRow2()
    ensures forall j: nat :: 1 <= j <= 7 ==> LocalCellOk(GappedGrid, "HEAGAWGHEE", "PAWHEAE", Match, 2, j)
  {
  }

  lemma GappedRow3()
    ensures forall j: nat :: 1 <= j <= 7 ==> LocalCellOk(GappedGrid, "HEAGAWGHEE", "PAWHEAE", Match, 3, j)
  {
  }

  lemma GappedRow4()
    ensures forall j: nat :: 1 <= j <= 7 ==> LocalCellOk(GappedGrid, "HEAGAWGHEE", "PAWHEAE", Match, 4, j)
  {
  }

  lemma GappedRow5()
    ensures forall j: nat :: 1 <= j <= 7 ==> LocalCellOk(GappedGrid, "HEAGAWGHEE", "PAWHEAE", Match, 5, j)
  {
  }

  lemma GappedRow6()
    ensures forall j: nat :: 1 <= j <= 7 ==> LocalCellOk(GappedGrid, "HEAGAWGHEE", "PAWHEAE", Match, 6, j)
  {
  }

  lemma GappedRow7()
    ensures forall j: nat :: 1 <= j <= 7 ==> LocalCellOk(GappedGrid, "HEAGAWGHEE", "PAWHEAE", Match, 7, j)
  {
  }

  lemma GappedRow8()
    ensures forall j: nat :: 1 <= j <= 7 ==> LocalCellOk(GappedGrid, "HEAGAWGHEE", "PAWHEAE", Match, 8, j)
  {
  }

  lemma GappedRow9()
    ensures forall j: nat :: 1 <= j <= 7 ==> LocalCellOk(GappedGrid, "HEAGAWGHEE", "PAWHEAE", Match, 9, j)
  {
  }

  lemma GappedRow10()
    ensures forall j: nat :: 1 <= j <= 7 ==> LocalCellOk(GappedGrid, "HEAGAWGHEE", "PAWHEAE", Match, 10, j)
  {
  }

  lemma GappedTable()
    ensures IsLocalTable(GappedGrid, "HEAGAWGHEE", "PAWHEAE", Match)
  {
    var g, l, r := GappedGrid, "HEAGAWGHEE", "PAWHEAE";
    assert IsGrid(g, 10, 7);
    GappedRow1(); GappedRow2(); GappedRow3(); GappedRow4(); GappedRow5();
    GappedRow6(); GappedRow7(); GappedRow8(); GappedRow9(); GappedRow10();
    forall i: nat, j: nat | 1 <= i <= 10 && 1 <= j <= 7
      ensures LocalCellOk(g, l, r, Match, i, j)
    {
      assert i == 1 || i == 2 || i == 3 || i == 4 || i == 5 || i == 6 || i == 7 || i == 8 || i == 9 || i == 10;
    }
  }

  /** The bottom-right cell holds the largest score, 11, so it is the last
      maximum. */
  lemma GappedLast()
    ensures LastMaxCell(GappedGrid, 10, 7, 10, 7)
  {
    var g := GappedGrid;
    forall i, j | 1 <= i <= 10 && 1 <= j <= 7
      ensures g[i][j] <= 11
    {
      assert i == 1 || i == 2 || i == 3 || i == 4 || i == 5 || i == 6 || i == 7 || i == 8 || i == 9 || i == 10;
    }
  }

  /** The backtrace from (10, 7): a diagonal, a step left (a gap in the
      left output), two diagonals, a step up (a gap in the right output),
      a diagonal, and the pair at (5, 2) whose diagonal predecessor is 0. */
  lemma GappedPath()
    ensures LocalPath("HEAGAWGHEE", "PAWHEAE", GappedGrid, 10, 7) ==
      [Pair('A', 'A'), Pair('W', 'W'), GapRight('G'), Pair('H', 'H'), Pair('E', 'E'), GapLeft('A'), Pair('E', 'E')]
  {
    var g, l, r := GappedGrid, "HEAGAWGHEE", "PAWHEAE";
    var p1 := LocalPath(l, r, g, 5, 2);
    assert p1 == [Pair('A', 'A')];
    var p2 := LocalPath(l, r, g, 6, 3);
    assert p2 == p1 + [Pair('W', 'W')];
    var p3 := LocalPath(l, r, g, 7, 3);
    assert p3 == p2 + [GapRight('G')];
    var p4 := LocalPath(l, r, g, 8, 4);
    assert p4 == p3 + [Pair('H', 'H')];
    var p5 := LocalPath(l, r, g, 9, 5);
    assert p5 == p4 + [Pair('E', 'E')];
    var p6 := LocalPath(l, r, g, 9, 6);
    assert p6 == p5 + [GapLeft('A')];
    assert LocalPath(l, r, g, 10, 7) == p6 + [Pair('E', 'E')];
  }

  /** The rows of that path, with '-' for the gaps. */
  lemma GappedRows()
    ensures LeftRow(LocalPath("HEAGAWGHEE", "PAWHEAE", GappedGrid, 10, 7), '-') == "AWGHE-E"
    ensures RightRow(LocalPath("HEAGAWGHEE", "PAWHEAE", GappedGrid, 10, 7), '-') == "AW-HEAE"
  {
    var cols := [Pair('A', 'A'), Pair('W', 'W'), GapRight('G'), Pair('H', 'H'), Pair('E', 'E'), GapLeft('A'), Pair('E', 'E')];
    GappedPath();
    assert LeftRow(cols, '-') == "AWGHE-E";
    assert RightRow(cols, '-') == "AW-HEAE";
  }

  /** The local alignment of "HEAGAWGHEE" and "PAWHEAE" is "AWGHE-E" over
      "AW-HEAE": the backtrace from the last maximum passes a cell whose
      left neighbour beats the diagonal and one whose upper neighbour beats
      both, and each puts a gap in one output. */
  lemma Gapped(leftOut: string, rightOut: string)
    requires exists g, mi: nat, mj: nat ::
      && IsLocalTable(g, "HEAGAWGHEE", "PAWHEAE", Match)
      && LastMaxCell(g, 10, 7, mi, mj)
      && leftOut == LeftRow(LocalPath("HEAGAWGHEE", "PAWHEAE", g, mi, mj), '-')
      && rightOut == RightRow(LocalPath("HEAGAWGHEE", "PAWHEAE", g, mi, mj), '-')
    ensures leftOut == "AWGHE-E" && rightOut == "AW-HEAE"
  {
    var l, r := "HEAGAWGHEE", "PAWHEAE";
    var g, mi: nat, mj: nat :|
      && IsLocalTable(g, l, r, Match)
      && LastMaxCell(g, 10, 7, mi, mj)
      && leftOut == LeftRow(LocalPath(l, r, g, mi, mj), '-')
      && rightOut == RightRow(LocalPath(l, r, g, mi, mj), '-');
    GappedTable();
    LocalTableUnique(g, GappedGrid, l, r, Match);
    GappedLast();
    LastMaxCellUnique(g, 10, 7, mi, mj, 10, 7);
    GappedRows();
  }
}
