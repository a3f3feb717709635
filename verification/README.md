# Tic-tac-toe between two random players, in Dafny

This project models a small C++ program in which two players play tic-tac-toe against
each other. Each player is a coroutine that picks random free cells. The program has three
parts, and the model keeps all three:

- **The board** (`Board` in `main.cpp`) is a 3x3 grid of `char`. A space means the cell is
  free; `'X'` or `'O'` means a player has claimed it. It can check a move, write a move,
  look for a winner (rows, then columns, then the two diagonals) and report a full board.
- **The move producers** (`player_X` and `player_O`) draw random cells until the board
  accepts one. Each then yields a move carrying its own symbol.
- **The turn loop** in `main` starts with X. On each turn it:
  1. asks the current player for a move;
  2. applies the move and counts it;
  3. stops on a winner or on a full board;
  4. otherwise hands the turn to the other player.

The Dafny files:

- `Rules.dfy` (module `Rules`) states the rules as pure functions on a grid value:
  - `ValidMove` and `Place`;
  - the eight `Lines`, in the order the winner check scans them;
  - `Winner`, the first complete line in that order;
  - `Full` and `CountOf`.

  It also proves what these functions promise.
- `Board.dfy` (module `Boards`) has the class `Board`. It keeps the cells in an `array2<char>`
  that `MakeMove` updates in place. `CheckWinner` and `IsFull` keep the loops and the early
  returns of the C++ code. Each one is proved equal to the function of the same meaning
  from `Rules`, applied to the current cells (`Cells()`).
- `Game.dfy` (module `Game`) has the following:
  - the `Move` value;
  - `NextMove`, the producer;
  - `PlayTurn`, the first half of a turn: ask the player on turn for a move and write it;
  - `PlayGame`, the turn loop. Besides the outcome and `move_count`, it returns the list
    of moves that `main` announces one by one;
  - the history of a match: `Replay` gives the grid that a list of moves produces, and
    `LegalPlay` says when a list of moves is a legal match;
  - lemmas about legal matches, and two example matches: a win for X and a draw.

## Model

| member | source | states |
|---|---|---|
| `Boards.Board.constructor` | main.cpp:67 | a new board has all nine cells free (`Cells() == EmptyGrid`) |
| `Rules.ValidMove` | main.cpp:69-71 | definition: a move is valid when the cell is on the board and holds a space |
| `Boards.Board.IsValidMove` | main.cpp:69-71 | true exactly when `0 <= row < 3`, `0 <= col < 3` and that cell is free |
| `Boards.Board.MakeMove` | main.cpp:73-75 | the cells afterwards are the old cells with `symbol` written at (row, col), free or not |
| `Rules.Place` | main.cpp:73-75 | writing a cell sets that cell and leaves the other eight unchanged |
| `Rules.PlaceCount` | main.cpp:73-75 | writing a cell changes the count of any symbol by what left the cell and what entered it |
| `Rules.ValidMoveClaimsOneCell` | main.cpp:69-75 | a move checked with `is_valid_move` and a non-space symbol overwrites no claimed cell and leaves exactly one free cell fewer |
| `Rules.Winner` | main.cpp:77-98 | definition: the symbol of the first complete line in scan order, or a space when there is none |
| `Boards.Board.CheckWinner` | main.cpp:77-98 | the scan over rows, columns, main diagonal and anti-diagonal returns `Winner(Cells())` |
| `Rules.LinesLayout` | main.cpp:77-98 | the eight lines in scan order: rows 0-2, columns 0-2, main diagonal, anti-diagonal |
| `Rules.FirstCompletedAt` | main.cpp:77-98 | when line k is complete and no earlier line is, the scan returns line k's symbol |
| `Rules.FirstCompletedSpec` | main.cpp:77-98 | a scan over any list of lines returns a symbol exactly when one of the lines is complete, and then returns the symbol of the first complete line |
| `Rules.WinnerSpec` | main.cpp:77-98 | `Winner(g)` is not a space exactly when some row, column or diagonal holds three equal non-space cells, and then it is the symbol of the first such line in scan order |
| `Rules.EmptyGridHasNoWinner` | main.cpp:67-98 | the freshly constructed board has no winner |
| `Rules.Full` | main.cpp:100-107 | definition: no cell of the grid holds a space |
| `Boards.Board.IsFull` | main.cpp:100-107 | true exactly when no cell is a space, which is the same as the count of free cells being zero |
| `Rules.FullIffNoEmptyCell` | main.cpp:100-107 | a grid is full exactly when it has no free cell |
| `Rules.EmptyGridCounts` | main.cpp:67 | the fresh board has nine free cells and no claimed ones |
| `Game.Mover` | main.cpp:176-202 | definition: X plays plies 0, 2, 4, ... and O plies 1, 3, ...; X opens and the turn passes after every move |
| `Game.Decided` | main.cpp:191-200 | definition: the match is over once there is a winner or the board is full |
| `Game.Replay` | main.cpp:175-185 | definition: the grid reached from the empty board by applying a list of moves in order |
| `Game.LegalPlay` | main.cpp:175-203 | definition: a list of moves the loop can produce, X first and alternating, each into a free cell of an undecided grid |
| `Game.NextMove` | main.cpp:129-159 | the producer yields a cell for which `is_valid_move` holds on the current board, with the producer's own symbol |
| `Game.PlayGame` | main.cpp:175-203 | the match is a legal history of at most nine moves (`move_count` is its length). It ends on the first grid with a winner or a full board. The outcome is the winner if there is one, otherwise a draw. A winner is always the player who made the last move. |
| `Game.PlayTurn` | main.cpp:179-185 | the player on turn yields a move that is written to the board; the history stays legal and shorter than ten moves, the board shows its replay, and only the mover can have won |
| `Game.MoverAlternates` | main.cpp:202 | the turn passes from X to O and from O to X |
| `Game.LegalStep` | main.cpp:179-202 | one turn, a valid move by the player on turn on an undecided grid, keeps the history legal and at most nine moves long; the only possible winner afterwards is the player who moved |
| `Game.LegalExtend` | main.cpp:179-185 | a history extended by one move is legal exactly when the old history was legal, the match was undecided, the move was valid and it was that player's turn |
| `Game.LegalPrefix` | main.cpp:175-203 | every prefix of a legal history is legal |
| `Game.LegalPlayIff` | main.cpp:176-203 | a history is legal exactly when every ply k was played by X for even k and O for odd k, on an undecided grid, into a free cell |
| `Game.LegalPlayCounts` | main.cpp:175-203 | after n legal moves there are 9 - n free cells, (n + 1) / 2 X cells and n / 2 O cells, so n <= 9 |
| `Game.ClaimedCellsStay` | main.cpp:136-185 | along a legal history a claimed cell keeps its symbol to the end |
| `Game.ClaimedIffPlayed` | main.cpp:179-185 | along a legal history a cell is claimed exactly when some move named it, and it then holds that move's symbol |
| `Rules.WinnerIsLastMover` | main.cpp:184-194 | a move on a grid without a winner can only make the mover the winner |
| `Rules.CompletedLinesHoldMover` | main.cpp:77-98 | after a move on a grid without a winner, every complete line holds the symbol just placed |
| `Game.CompleteLinesAgree` | main.cpp:77-98 | in a legal history every complete line holds the last mover's symbol, so the scan order of `check_winner` never changes the winner, even when one move completes two lines (X (0,1), O (1,1), X (0,2), O (1,2), X (1,0), O (2,1), X (2,0), O (2,2), X (0,0) completes row 0 and column 0 at once) |
| `Game.WinnerMovedLast` | main.cpp:184-194 | in a legal history the winner, if there is one, made the last move |
| `Game.TopRowWinForX` | main.cpp:175-195 | X at (0,0), (0,1), (0,2) with O at (1,0), (1,1) is a legal five-move match that X wins |
| `Game.DrawnGrid` | main.cpp:77-107 | the grid X O X / X O O / O X X has no winner and is full; `PlayGame` reports such a final grid as `Drawn` |

## Left out

- The `TicTacToeGame` coroutine type (main.cpp:17-63) only carries moves from the producers
  to the loop. The model replaces it with a direct call to `NextMove`.
- The `if (!move_opt) break;` at main.cpp:181 is not modelled. Both producers loop forever,
  so `next()` never returns an empty result and that branch is never taken.
- The random numbers (`std::random_device`, `std::mt19937`, `uniform_int_distribution`,
  main.cpp:130-132 and 146-148) are not modelled. Neither is the loop that redraws until a
  cell is accepted (main.cpp:136-139): it ends only with probability 1.
- Game.NextMove: does not model the uniform random choice. It yields some cell for which the
  board accepts the move, with no claim about which one. It requires a board that is not
  full, as the C++ retry loop needs in order to end. The turn loop never asks for a move on
  a full or decided board.
- Console output is not modelled: `Board::print` (main.cpp:109-121) and the messages of
  `main` (main.cpp:166-167, 187-198). Neither is the Windows console setup (main.cpp:162-164).
- The unused accessor `get_grid` (main.cpp:123) is not modelled.
- Boards.Board.MakeMove: requires a cell on the board. The C++ code indexes the vectors
  without checks, which is undefined for other coordinates. It does not require the cell to
  be free: like the C++ code, it overwrites any cell. Callers check the move first
  (`Rules.ValidMoveClaimsOneCell` is what that check buys).
- A `Move` has its row and column typed 0..2. The C++ `int` fields only ever hold values
  drawn from 0..2. `move_count` never exceeds 9, so 32-bit overflow cannot occur and is not
  modelled.
