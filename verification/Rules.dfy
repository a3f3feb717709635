/**
 * The rules of 3x3 tic-tac-toe as pure functions on a grid value: which
 * moves are legal, what placing a symbol does, which lines win, who has won
 * and when the board is full. The Board class in Board.dfy is proved against
 * these definitions.
 */
module Rules {

  /** The cell value of an unclaimed cell. */
  const Empty: char := ' '
  const X: char := 'X'
  const O: char := 'O'

  /** Three rows of three cells each, indexed grid[row][col]. */
  type Grid = g: seq<seq<char>> | |g| == 3 && forall i :: 0 <= i < |g| ==> |g[i]| == 3
    witness [[' ', ' ', ' '], [' ', ' ', ' '], [' ', ' ', ' ']]

  /** The grid of a freshly constructed board: every cell unclaimed. */
  const EmptyGrid: Grid := [[Empty, Empty, Empty], [Empty, Empty, Empty], [Empty, Empty, Empty]]

  predicate InRange(row: int, col: int) {
    0 <= row < 3 && 0 <= col < 3
  }

  /** A move is valid when it names a cell of the board and that cell is unclaimed. */
  predicate ValidMove(g: Grid, row: int, col: int) {
    InRange(row, col) && g[row][col] == Empty
  }

  /** The grid after writing `s` into cell (row, col); no check that the cell is free. */
  function Place(g: Grid, row: int, col: int, s: char): (r: Grid)
    requires InRange(row, col)
    ensures r[row][col] == s
    ensures forall i, j :: InRange(i, j) && (i != row || j != col) ==> r[i][j] == g[i][j]
  {
    g[row := g[row][col := s]]
  }

  /** Two grids that agree cell by cell are equal. */
  lemma {:induction false} GridExt(g: Grid, h: Grid)
    requires forall i, j :: InRange(i, j) ==> g[i][j] == h[i][j]
    ensures g == h
  {
    assert g[0] == h[0] by { assert forall j :: 0 <= j < 3 ==> g[0][j] == h[0][j]; }
    assert g[1] == h[1] by { assert forall j :: 0 <= j < 3 ==> g[1][j] == h[1][j]; }
    assert g[2] == h[2] by { assert forall j :: 0 <= j < 3 ==> g[2][j] == h[2][j]; }
  }

  // ---------------------------------------------------------------------------
  // Winning lines
  // ---------------------------------------------------------------------------

  datatype Pos = Pos(row: int, col: int)

  /** Three cells that win when they hold the same claimed symbol. */
  datatype Line = Line(a: Pos, b: Pos, c: Pos)

  function RowLine(i: int): Line {
    Line(Pos(i, 0), Pos(i, 1), Pos(i, 2))
  }

  function ColumnLine(j: int): Line {
    Line(Pos(0, j), Pos(1, j), Pos(2, j))
  }

  const MainDiagonal: Line := Line(Pos(0, 0), Pos(1, 1), Pos(2, 2))
  const AntiDiagonal: Line := Line(Pos(0, 2), Pos(1, 1), Pos(2, 0))

  /** All eight lines in the order the winner check scans them:
      rows top to bottom, columns left to right, main diagonal, anti-diagonal. */
  const Lines: seq<Line> := [RowLine(0), RowLine(1), RowLine(2),
                             ColumnLine(0), ColumnLine(1), ColumnLine(2),
                             MainDiagonal, AntiDiagonal]

  predicate OnGrid(p: Pos) {
    InRange(p.row, p.col)
  }

  predicate OnBoard(l: Line) {
    OnGrid(l.a) && OnGrid(l.b) && OnGrid(l.c)
  }

  predicate AllOnBoard(lines: seq<Line>) {
    forall k :: 0 <= k < |lines| ==> OnBoard(lines[k])
  }

  function At(g: Grid, p: Pos): char
    requires OnGrid(p)
  {
    g[p.row][p.col]
  }

  /** A line is complete when its three cells hold the same claimed symbol. */
  predicate Completes(g: Grid, l: Line)
    requires OnBoard(l)
  {
    At(g, l.a) != Empty && At(g, l.a) == At(g, l.b) && At(g, l.b) == At(g, l.c)
  }

  /** Where each line of the scan sits in `Lines`. */
  lemma LinesLayout()
    ensures |Lines| == 8 && AllOnBoard(Lines)
    ensures forall i :: 0 <= i < 3 ==> Lines[i] == RowLine(i) && Lines[3 + i] == ColumnLine(i)
    ensures Lines[6] == MainDiagonal && Lines[7] == AntiDiagonal
  {
  }

  /** The symbol of the first complete line of `lines`, or Empty when none is complete. */
  function FirstCompleted(g: Grid, lines: seq<Line>): char
    requires AllOnBoard(lines)
  {
    if lines == [] then Empty
    else if Completes(g, lines[0]) then At(g, lines[0].a)
    else FirstCompleted(g, lines[1..])
  }

  /** The winner of a grid: the symbol of the first complete line in scan order, or Empty. */
  function Winner(g: Grid): char {
    LinesLayout();
    FirstCompleted(g, Lines)
  }

  /** Full means no cell is unclaimed. */
  predicate Full(g: Grid) {
    forall i, j :: 0 <= i < 3 && 0 <= j < 3 ==> g[i][j] != Empty
  }

  // ---------------------------------------------------------------------------
  // Properties of the winner
  // ---------------------------------------------------------------------------

  /** If line k is the first complete line, the scan reports its symbol. */
  lemma {:induction false} FirstCompletedAt(g: Grid, lines: seq<Line>, k: nat)
    requires AllOnBoard(lines) && k < |lines|
    requires Completes(g, lines[k])
    requires forall j :: 0 <= j < k ==> !Completes(g, lines[j])
    ensures FirstCompleted(g, lines) == At(g, lines[k].a)
  {
    if k > 0 {
      assert !Completes(g, lines[0]);
      FirstCompletedAt(g, lines[1..], k - 1);
    }
  }

  /** The scan reports a symbol exactly when some line is complete, and then the
      symbol of the first complete one. */
  lemma {:induction false} FirstCompletedSpec(g: Grid, lines: seq<Line>)
    requires AllOnBoard(lines)
    ensures FirstCompleted(g, lines) != Empty <==> exists k :: 0 <= k < |lines| && Completes(g, lines[k])
    ensures FirstCompleted(g, lines) != Empty ==>
      exists k :: 0 <= k < |lines| && Completes(g, lines[k]) && FirstCompleted(g, lines) == At(g, lines[k].a) &&
        forall j :: 0 <= j < k ==> !Completes(g, lines[j])
  {
    if lines == [] {
    } else if Completes(g, lines[0]) {
      assert FirstCompleted(g, lines) == At(g, lines[0].a) != Empty;
    } else {
      var rest := lines[1..];
      FirstCompletedSpec(g, rest);
      if exists k :: 0 <= k < |lines| && Completes(g, lines[k]) {
        var k :| 0 <= k < |lines| && Completes(g, lines[k]);
        assert k > 0 && rest[k - 1] == lines[k];
      }
      if FirstCompleted(g, lines) != Empty {
        var k :| 0 <= k < |rest| && Completes(g, rest[k]) && FirstCompleted(g, rest) == At(g, rest[k].a) &&
          forall j :: 0 <= j < k ==> !Completes(g, rest[j]);
        assert lines[k + 1] == rest[k];
        assert forall j :: 0 < j < k + 1 ==> lines[j] == rest[j - 1];
      }
    }
  }

  /** Winner(g) is a claimed symbol exactly when some row, column or diagonal is complete,
      and then it is the symbol of the first complete line in scan order. */
  lemma WinnerSpec(g: Grid)
    ensures Winner(g) != Empty <==> exists k :: 0 <= k < 8 && Completes(g, Lines[k])
    ensures Winner(g) != Empty ==>
      exists k :: 0 <= k < 8 && Completes(g, Lines[k]) && Winner(g) == At(g, Lines[k].a) &&
        forall j :: 0 <= j < k ==> !Completes(g, Lines[j])
  {
    LinesLayout();
    FirstCompletedSpec(g, Lines);
  }

  /** The freshly constructed board has no winner. */
  lemma EmptyGridHasNoWinner()
    ensures Winner(EmptyGrid) == Empty
  {
    LinesLayout();
    WinnerSpec(EmptyGrid);
  }

  /** Placing a symbol on a grid without a winner can only make that symbol the winner:
      every line completed by the move runs through the cell just written. */
  lemma WinnerIsLastMover(g: Grid, row: int, col: int, s: char)
    requires InRange(row, col) && Winner(g) == Empty
    ensures Winner(Place(g, row, col, s)) == Empty || Winner(Place(g, row, col, s)) == s
  {
    var h := Place(g, row, col, s);
    var p := Pos(row, col);
    LinesLayout();
    WinnerSpec(g);
    WinnerSpec(h);
    forall k | 0 <= k < 8 && Lines[k].a != p && Lines[k].b != p && Lines[k].c != p
      ensures Completes(h, Lines[k]) == Completes(g, Lines[k])
    {
    }
  }

  /** Placing a symbol on a grid without a winner: every line that is complete afterwards
      holds that symbol, so when one move completes two lines at once the scan order does
      not change the winner. */
  lemma CompletedLinesHoldMover(g: Grid, row: int, col: int, s: char)
    requires InRange(row, col) && Winner(g) == Empty
    ensures forall k :: 0 <= k < 8 && Completes(Place(g, row, col, s), Lines[k]) ==>
      At(Place(g, row, col, s), Lines[k].a) == s
  {
    var h := Place(g, row, col, s);
    var p := Pos(row, col);
    LinesLayout();
    WinnerSpec(g);
    forall k | 0 <= k < 8 && Lines[k].a != p && Lines[k].b != p && Lines[k].c != p
      ensures Completes(h, Lines[k]) == Completes(g, Lines[k])
    {
    }
  }

  // ---------------------------------------------------------------------------
  // Counting cells
  // ---------------------------------------------------------------------------

  /** The number of cells of `row` that hold `s`. */
  function Count(row: seq<char>, s: char): nat {
    if row == [] then 0 else (if row[0] == s then 1 else 0) + Count(row[1..], s)
  }

  /** The number of cells of the grid that hold `s`. */
  function CountOf(g: Grid, s: char): nat {
    Count(g[0], s) + Count(g[1], s) + Count(g[2], s)
  }

  lemma {:induction false} CountZero(row: seq<char>, s: char)
    ensures Count(row, s) == 0 <==> forall k :: 0 <= k < |row| ==> row[k] != s
  {
    if row != [] {
      CountZero(row[1..], s);
      assert forall k :: 1 <= k < |row| ==> row[k] == row[1..][k - 1];
    }
  }

  lemma {:induction false} CountUpdate(row: seq<char>, k: nat, v: char, s: char)
    requires k < |row|
    ensures Count(row[k := v], s) == Count(row, s) - (if row[k] == s then 1 else 0) + (if v == s then 1 else 0)
  {
    if k > 0 {
      CountUpdate(row[1..], k - 1, v, s);
      assert row[k := v][1..] == row[1..][k - 1 := v];
    }
  }

  /** Writing `v` into a cell changes the count of `s` by what left the cell and what entered it. */
  lemma PlaceCount(g: Grid, row: int, col: int, v: char, s: char)
    requires InRange(row, col)
    ensures CountOf(Place(g, row, col, v), s)
         == CountOf(g, s) - (if g[row][col] == s then 1 else 0) + (if v == s then 1 else 0)
  {
    CountUpdate(g[row], col, v, s);
    var h := Place(g, row, col, v);
    if row == 0 {
      assert h[1] == g[1] && h[2] == g[2];
    } else if row == 1 {
      assert h[0] == g[0] && h[2] == g[2];
    } else {
      assert h[0] == g[0] && h[1] == g[1];
    }
  }

  /** A grid is full exactly when it holds no unclaimed cell. */
  lemma FullIffNoEmptyCell(g: Grid)
    ensures Full(g) <==> CountOf(g, Empty) == 0
  {
    CountZero(g[0], Empty);
    CountZero(g[1], Empty);
    CountZero(g[2], Empty);
    if !Full(g) {
      var i, j :| 0 <= i < 3 && 0 <= j < 3 && g[i][j] == Empty;
      assert g[i] == g[0] || g[i] == g[1] || g[i] == g[2];
    }
  }

  /** The empty grid holds nine unclaimed cells and nothing else. */
  lemma EmptyGridCounts(s: char)
    ensures CountOf(EmptyGrid, s) == if s == Empty then 9 else 0
  {
    var row := EmptyGrid[0];
    var one := if s == Empty then 1 else 0;
    assert row[1..][1..][1..] == [];
    assert Count(row[1..][1..], s) == one;
    assert Count(row[1..], s) == 2 * one;
    assert Count(row, s) == 3 * one;
    assert EmptyGrid[1] == row && EmptyGrid[2] == row;
  }

  /** A validated move with a claimed symbol overwrites no claimed cell and claims exactly one
      unclaimed cell. */
  lemma ValidMoveClaimsOneCell(g: Grid, row: int, col: int, s: char)
    requires ValidMove(g, row, col) && s != Empty
    ensures forall i, j :: InRange(i, j) && g[i][j] != Empty ==> Place(g, row, col, s)[i][j] == g[i][j]
    ensures CountOf(Place(g, row, col, s), Empty) == CountOf(g, Empty) - 1
  {
    PlaceCount(g, row, col, s, Empty);
  }
}
