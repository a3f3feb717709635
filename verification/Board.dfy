/**
 * The game board: a 3x3 grid of cells updated in place. Each query is proved
 * against the grid functions of module Rules, read off the current contents
 * of the array through Cells().
 */
module Boards {
  import opened Rules

  class Board {
    /** grid[row, col]; Empty for an unclaimed cell, otherwise the symbol that claimed it. */
    const grid: array2<char>

    ghost predicate Valid() {
      grid.Length0 == 3 && grid.Length1 == 3
    }

    /** The current contents of the board as a grid value. */
    ghost function Cells(): (g: Grid)
      requires Valid()
      reads grid
      ensures forall i, j :: InRange(i, j) ==> g[i][j] == grid[i, j]
    {
      seq(3, i requires 0 <= i < 3 reads grid =>
        seq(3, j requires 0 <= j < 3 reads grid => grid[i, j]))
    }

    /** A new board has every cell unclaimed. */
    constructor ()
      ensures Valid() && fresh(grid)
      ensures Cells() == EmptyGrid
    {
      grid := new char[3, 3]((i, j) => Empty);
      new;
      GridExt(Cells(), EmptyGrid);
    }

    /** True exactly when (row, col) is on the board and that cell is unclaimed. */
    predicate IsValidMove(row: int, col: int)
      requires Valid()
      reads grid
      ensures IsValidMove(row, col) <==> ValidMove(Cells(), row, col)
    {
      0 <= row < 3 && 0 <= col < 3 && grid[row, col] == Empty
    }

    /** Writes `symbol` into (row, col), whether or not the cell was free. */
    method MakeMove(row: int, col: int, symbol: char)
      requires Valid() && InRange(row, col)
      modifies grid
      ensures Cells() == Place(old(Cells()), row, col, symbol)
    {
      grid[row, col] := symbol;
      GridExt(Cells(), Place(old(Cells()), row, col, symbol));
    }

    /** Scans rows, then columns, then the main and the anti-diagonal, and returns the
        symbol of the first line whose three cells hold one claimed symbol, or Empty. */
    method CheckWinner() returns (w: char)
      requires Valid()
      ensures w == Winner(Cells())
    {
      LinesLayout();
      for i := 0 to 3
        invariant forall k :: 0 <= k < i ==> !Completes(Cells(), Lines[k])
      {
        if grid[i, 0] != Empty && grid[i, 0] == grid[i, 1] && grid[i, 1] == grid[i, 2] {
          FirstCompletedAt(Cells(), Lines, i);
          return grid[i, 0];
        }
      }
      for j := 0 to 3
        invariant forall k :: 0 <= k < 3 + j ==> !Completes(Cells(), Lines[k])
      {
        if grid[0, j] != Empty && grid[0, j] == grid[1, j] && grid[1, j] == grid[2, j] {
          FirstCompletedAt(Cells(), Lines, 3 + j);
          return grid[0, j];
        }
      }
      if grid[0, 0] != Empty && grid[0, 0] == grid[1, 1] && grid[1, 1] == grid[2, 2] {
        FirstCompletedAt(Cells(), Lines, 6);
        return grid[0, 0];
      }
      if grid[0, 2] != Empty && grid[0, 2] == grid[1, 1] && grid[1, 1] == grid[2, 0] {
        FirstCompletedAt(Cells(), Lines, 7);
        return grid[0, 2];
      }
      WinnerSpec(Cells());
      return Empty;
    }

    /** True exactly when no cell of the board is unclaimed; stops at the first free cell. */
    method IsFull() returns (full: bool)
      requires Valid()
      ensures full <==> Full(Cells())
      ensures full <==> CountOf(Cells(), Empty) == 0
    {
      FullIffNoEmptyCell(Cells());
      for i := 0 to 3
        invariant forall r, c :: 0 <= r < i && 0 <= c < 3 ==> grid[r, c] != Empty
      {
        for j := 0 to 3
          invariant forall r, c :: 0 <= r < i && 0 <= c < 3 ==> grid[r, c] != Empty
          invariant forall c :: 0 <= c < j ==> grid[i, c] != Empty
        {
          if grid[i, j] == Empty {
            return false;
          }
        }
      }
      return true;
    }
  }
}
