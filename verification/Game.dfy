/**
 * One match: two move producers, one per symbol, and the turn loop that asks
 * them for moves in turn, applies each move to the shared board and stops at
 * the first winner or at a full board.
 */
module Game {
  import opened Rules
  import opened Boards

  /** A row or column index. A yielded move always lies on the board, so its coordinates
      are typed 0..2 here; Rules keeps plain int coordinates checked by InRange, because
      the validity check there accepts any int, as the C++ one does. */
  type Coord = i: int | 0 <= i < 3

  /** One ply: the cell chosen and the symbol of the player who chose it. */
  datatype Move = Move(row: Coord, col: Coord, symbol: char)

  /** How a match ends. */
  datatype Outcome = Won(symbol: char) | Drawn

  /** The symbol that plays ply k (counting from 0): X plays the first, third, ... move. */
  function Mover(k: nat): char {
    if k % 2 == 0 then X else O
  }

  /** The two symbols take turns: the player of ply k + 1 is the other one. */
  lemma MoverAlternates(k: nat)
    ensures Mover(k + 1) == if Mover(k) == X then O else X
  {
  }

  /** A grid on which the match is over: somebody has won or no cell is free. */
  predicate Decided(g: Grid) {
    Winner(g) != Empty || Full(g)
  }

  /** The grid reached from the empty board by applying `moves` in order. */
  function Replay(moves: seq<Move>): Grid {
    if moves == [] then EmptyGrid
    else
      var m := moves[|moves| - 1];
      Place(Replay(moves[..|moves| - 1]), m.row, m.col, m.symbol)
  }

  /** A history of a match in progress or finished: the players alternate starting with X,
      every move was valid on the grid it was made on, and no move was made once the
      match was decided. */
  predicate LegalPlay(moves: seq<Move>) {
    moves == [] ||
    var prior := moves[..|moves| - 1];
    var m := moves[|moves| - 1];
    LegalPlay(prior) && m.symbol == Mover(|prior|) &&
    !Decided(Replay(prior)) && ValidMove(Replay(prior), m.row, m.col)
  }

  // ---------------------------------------------------------------------------
  // Producer and turn loop
  // ---------------------------------------------------------------------------

  /** The move producer of one player: some cell of the 3x3 board for which the board
      reports a valid move, carrying the player's own symbol. Which free cell is drawn is
      left open. */
  method NextMove(board: Board, symbol: char) returns (m: Move)
    requires board.Valid() && !Full(board.Cells())
    ensures m.symbol == symbol
    ensures ValidMove(board.Cells(), m.row, m.col)
  {
    ghost var r, c :| 0 <= r < 3 && 0 <= c < 3 && board.Cells()[r][c] == Empty;
    assert board.IsValidMove(r, c);
    var row, col :| 0 <= row < 3 && 0 <= col < 3 && board.IsValidMove(row, col);
    assert board.IsValidMove(row, col);
    m := Move(row, col, symbol);
  }

  /** Plays one match on a new board. Returns the outcome, the moves in the order they were
      made (the ones the program announces) and the move counter. */
  method PlayGame() returns (outcome: Outcome, moves: seq<Move>, moveCount: nat)
    ensures LegalPlay(moves) && moveCount == |moves| && 1 <= moveCount <= 9
    ensures Decided(Replay(moves))
    ensures outcome == if Winner(Replay(moves)) != Empty then Won(Winner(Replay(moves))) else Drawn
    ensures outcome.Won? ==> outcome.symbol == moves[moveCount - 1].symbol
  {
    var board := new Board();
    moves := [];
    moveCount := 0;
    var currentPlayer := X;
    EmptyGridHasNoWinner();
    FullIffNoEmptyCell(EmptyGrid);
    EmptyGridCounts(Empty);

    while true
      invariant board.Valid()
      invariant LegalPlay(moves) && moveCount == |moves| <= 9
      invariant board.Cells() == Replay(moves)
      invariant !Decided(board.Cells())
      invariant currentPlayer == Mover(moveCount)
      decreases 9 - moveCount
    {
      var move := PlayTurn(board, moves, currentPlayer);
      moves := moves + [move];
      moveCount := moveCount + 1;

      var winner := board.CheckWinner();
      if winner != Empty {
        outcome := Won(winner);
        return;
      }
      var full := board.IsFull();
      if full {
        outcome := Drawn;
        return;
      }
      MoverAlternates(moveCount - 1);
      currentPlayer := if currentPlayer == X then O else X;
    }
  }

  /** The first half of a turn: the player on turn yields a move and it is written to the
      board. The history stays legal, the board shows its replay, and nobody but the mover
      can have won. */
  method PlayTurn(board: Board, moves: seq<Move>, player: char) returns (move: Move)
    requires board.Valid() && LegalPlay(moves) && board.Cells() == Replay(moves)
    requires !Decided(Replay(moves)) && player == Mover(|moves|)
    modifies board.grid
    ensures board.Valid() && move.symbol == player
    ensures LegalPlay(moves + [move]) && |moves| < 9
    ensures board.Cells() == Replay(moves + [move])
    ensures Winner(board.Cells()) == Empty || Winner(board.Cells()) == player
  {
    move := NextMove(board, player);
    board.MakeMove(move.row, move.col, move.symbol);
    LegalStep(moves, move);
  }

  /** One turn of the loop: a valid move by the player whose turn it is, on an undecided
      grid, extends a legal history to a legal one of at most nine moves whose winner, if
      any, is that player. */
  lemma LegalStep(moves: seq<Move>, m: Move)
    requires LegalPlay(moves) && !Decided(Replay(moves))
    requires m.symbol == Mover(|moves|) && ValidMove(Replay(moves), m.row, m.col)
    ensures LegalPlay(moves + [m]) && |moves + [m]| <= 9
    ensures Replay(moves + [m]) == Place(Replay(moves), m.row, m.col, m.symbol)
    ensures Winner(Replay(moves + [m])) == Empty || Winner(Replay(moves + [m])) == m.symbol
  {
    LegalExtend(moves, m);
    LegalPlayCounts(moves + [m]);
    WinnerMovedLast(moves + [m]);
    assert (moves + [m])[|moves|] == m;
  }

  // ---------------------------------------------------------------------------
  // Properties of legal play
  // ---------------------------------------------------------------------------

  /** A history extended by one move is legal exactly when the history was legal, the match
      was not yet decided, the move is valid, and it is played by the player whose turn it
      is; the new grid is the old one with that move placed. */
  lemma {:induction false} LegalExtend(moves: seq<Move>, m: Move)
    ensures LegalPlay(moves + [m]) <==>
      LegalPlay(moves) && m.symbol == Mover(|moves|) &&
      !Decided(Replay(moves)) && ValidMove(Replay(moves), m.row, m.col)
    ensures Replay(moves + [m]) == Place(Replay(moves), m.row, m.col, m.symbol)
  {
  }

  /** Every prefix of a legal history is legal. */
  lemma {:induction false} LegalPrefix(moves: seq<Move>, n: nat)
    requires LegalPlay(moves) && n <= |moves|
    ensures LegalPlay(moves[..n])
    decreases |moves| - n
  {
    if n < |moves| {
      var prior := moves[..|moves| - 1];
      LegalPrefix(prior, n);
      assert prior[..n] == moves[..n];
    } else {
      assert moves[..n] == moves;
    }
  }

  /** Ply k of `moves` was made by the player whose turn it was, on an undecided grid,
      into a free cell of that grid. */
  predicate LegalAt(moves: seq<Move>, k: nat)
    requires k < |moves|
  {
    moves[k].symbol == Mover(k) &&
    !Decided(Replay(moves[..k])) &&
    ValidMove(Replay(moves[..k]), moves[k].row, moves[k].col)
  }

  /** A history is legal exactly when every one of its plies is: in particular no move is
      ever requested once the match is decided, and X and O alternate starting with X. */
  lemma {:induction false} LegalPlayIff(moves: seq<Move>)
    ensures LegalPlay(moves) <==> forall k :: 0 <= k < |moves| ==> LegalAt(moves, k)
  {
    if moves != [] {
      var n := |moves| - 1;
      var prior := moves[..n];
      LegalPlayIff(prior);
      assert forall k :: 0 <= k < n ==> moves[..k] == prior[..k] && moves[k] == prior[k];
      assert forall k :: 0 <= k < n ==> (LegalAt(moves, k) <==> LegalAt(prior, k));
      assert LegalPlay(moves) <==> LegalPlay(prior) && LegalAt(moves, n);
      assert (forall k :: 0 <= k < |moves| ==> LegalAt(moves, k)) <==>
        (forall k :: 0 <= k < n ==> LegalAt(prior, k)) && LegalAt(moves, n);
    }
  }

  /** After n legal moves the grid holds 9 - n free cells, (n + 1) / 2 X cells and n / 2 O
      cells; in particular no legal history is longer than nine moves. */
  lemma {:induction false} LegalPlayCounts(moves: seq<Move>)
    requires LegalPlay(moves)
    ensures CountOf(Replay(moves), Empty) == 9 - |moves|
    ensures CountOf(Replay(moves), X) == (|moves| + 1) / 2
    ensures CountOf(Replay(moves), O) == |moves| / 2
    ensures |moves| <= 9
  {
    if moves == [] {
      EmptyGridCounts(Empty);
      EmptyGridCounts(X);
      EmptyGridCounts(O);
    } else {
      var n := |moves| - 1;
      var m := moves[n];
      var prior := moves[..n];
      LegalPlayCounts(prior);
      var g := Replay(prior);
      PlaceCount(g, m.row, m.col, m.symbol, Empty);
      PlaceCount(g, m.row, m.col, m.symbol, X);
      PlaceCount(g, m.row, m.col, m.symbol, O);
    }
  }

  /** Along a legal history a claimed cell keeps its symbol: no move overwrites one. */
  lemma {:induction false} ClaimedCellsStay(moves: seq<Move>, n: nat, i: int, j: int)
    requires LegalPlay(moves) && n <= |moves| && InRange(i, j)
    requires Replay(moves[..n])[i][j] != Empty
    ensures Replay(moves)[i][j] == Replay(moves[..n])[i][j]
    decreases |moves| - n
  {
    if n < |moves| {
      var last := |moves| - 1;
      var prior := moves[..last];
      var m := moves[last];
      assert prior[..n] == moves[..n];
      ClaimedCellsStay(prior, n, i, j);
      ValidMoveClaimsOneCell(Replay(prior), m.row, m.col, m.symbol);
    } else {
      assert moves[..n] == moves;
    }
  }

  /** Along a legal history exactly the cells named by some move are claimed, and such a cell
      holds the symbol of the move that named it (a cell is never named twice). */
  lemma {:induction false} ClaimedIffPlayed(moves: seq<Move>, i: int, j: int)
    requires LegalPlay(moves) && InRange(i, j)
    ensures Replay(moves)[i][j] != Empty <==>
      exists k :: 0 <= k < |moves| && moves[k].row == i && moves[k].col == j
    ensures forall k :: 0 <= k < |moves| && moves[k].row == i && moves[k].col == j ==>
      Replay(moves)[i][j] == moves[k].symbol
  {
    if moves != [] {
      var n := |moves| - 1;
      var prior := moves[..n];
      var m := moves[n];
      ClaimedIffPlayed(prior, i, j);
      assert m.symbol == Mover(n) != Empty;
      assert forall k :: 0 <= k < n ==> moves[k] == prior[k];
    }
  }

  /** In a legal history, the winner (if any) is the player who made the last move. */
  lemma {:induction false} WinnerMovedLast(moves: seq<Move>)
    requires LegalPlay(moves) && moves != []
    ensures Winner(Replay(moves)) == Empty || Winner(Replay(moves)) == moves[|moves| - 1].symbol
  {
    var m := moves[|moves| - 1];
    WinnerIsLastMover(Replay(moves[..|moves| - 1]), m.row, m.col, m.symbol);
  }

  /** In a legal history every complete line holds the symbol of the last move, so the
      winner does not depend on the order in which the lines are scanned. */
  lemma CompleteLinesAgree(moves: seq<Move>)
    requires LegalPlay(moves) && moves != []
    ensures forall k :: 0 <= k < 8 && Completes(Replay(moves), Lines[k]) ==>
      At(Replay(moves), Lines[k].a) == moves[|moves| - 1].symbol
  {
    var m := moves[|moves| - 1];
    CompletedLinesHoldMover(Replay(moves[..|moves| - 1]), m.row, m.col, m.symbol);
  }

  // ---------------------------------------------------------------------------
  // Two example matches
  // ---------------------------------------------------------------------------

  /** X takes the top row while O plays (1, 0) and (1, 1): every move is legal, and X has
      won after the fifth move. */
  lemma TopRowWinForX()
    ensures LegalPlay([Move(0, 0, X), Move(1, 0, O), Move(0, 1, X), Move(1, 1, O), Move(0, 2, X)])
    ensures Winner(Replay([Move(0, 0, X), Move(1, 0, O), Move(0, 1, X), Move(1, 1, O), Move(0, 2, X)])) == X
  {
    var m0, m1, m2, m3, m4 := Move(0, 0, X), Move(1, 0, O), Move(0, 1, X), Move(1, 1, O), Move(0, 2, X);
    var h1 := [m0];
    var h2 := h1 + [m1];
    var h3 := h2 + [m2];
    var h4 := h3 + [m3];
    var h5 := h4 + [m4];
    EmptyGridHasNoWinner();
    FullIffNoEmptyCell(EmptyGrid);
    LegalExtend([], m0);
    assert [] + [m0] == h1;
    LegalExtend(h1, m1);
    LastColumnAndRowFree(Replay(h1));
    LegalExtend(h2, m2);
    LastColumnAndRowFree(Replay(h2));
    LegalExtend(h3, m3);
    LastColumnAndRowFree(Replay(h3));
    LegalExtend(h4, m4);
    LastColumnAndRowFree(Replay(h4));
    var g := Replay(h5);
    LinesLayout();
    assert Completes(g, Lines[0]);
    FirstCompletedAt(g, Lines, 0);
    assert h5 == [m0, m1, m2, m3, m4];
  }

  /** Helper for TopRowWinForX: while the bottom row and the right column are free, every
      line has a free cell, so the grid is undecided. */
  lemma LastColumnAndRowFree(g: Grid)
    requires g[2][0] == Empty && g[2][1] == Empty && g[2][2] == Empty
    requires g[0][2] == Empty && g[1][2] == Empty
    ensures !Decided(g)
  {
    LinesLayout();
    WinnerSpec(g);
  }

  /** The full grid X O X / X O O / O X X has no three in a row: the match is a draw. */
  lemma DrawnGrid()
    ensures Winner([[X, O, X], [X, O, O], [O, X, X]]) == Empty
    ensures Full([[X, O, X], [X, O, O], [O, X, X]])
  {
    var g: Grid := [[X, O, X], [X, O, O], [O, X, X]];
    LinesLayout();
    WinnerSpec(g);
  }
}
