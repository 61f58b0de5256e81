/** The grid engine of the library: a Sudoku that owns its 9x9 board and solves it in place
    by depth-first backtracking. */
module Solver {
  import opened Board

  /** The outcome of get_first_empty: the position found, or None where the source returns
      the pair [usize::MAX, usize::MAX]. */
  datatype Option<T> = None | Some(value: T)

  class Sudoku {
    /** The board, row-major; 0 means unset. */
    var board: array2<u8>
    /** The board as a value. */
    ghost var cells: Grid

    ghost predicate Valid()
      reads this, board
    {
      board.Length0 == 9 && board.Length1 == 9 && IsGrid(cells) &&
      forall r, c :: 0 <= r < 9 && 0 <= c < 9 ==> board[r, c] == cells[r][c]
    }

    /** new: the board is stored verbatim, without any check. */
    constructor (initial: Grid)
      requires IsGrid(initial)
      ensures Valid() && fresh(board)
      ensures cells == initial
    {
      board := new u8[9, 9]((r, c) requires 0 <= r < 9 && 0 <= c < 9 => initial[r][c]);
      cells := initial;
    }

    /** Default::default: every cell unset. */
    constructor Default()
      ensures Valid() && fresh(board)
      ensures cells == EmptyGrid()
    {
      board := new u8[9, 9]((r, c) => Unset);
      cells := EmptyGrid();
    }

    /** check_cell: whether v collides with no other cell of the row, no other cell of the
        column, and no box-mate that differs from (row, col) in both row and column. */
    method CheckCell(row: nat, col: nat, v: u8) returns (ok: bool)
      requires Valid() && row < 9 && col < 9
      ensures ok <==> !RowClash(cells, row, col, v) && !ColClash(cells, row, col, v) && !BoxClash(cells, row, col, v)
    {
      for i := 0 to 9
        invariant forall k :: 0 <= k < i && k != col ==> cells[row][k] != v
        invariant forall k :: 0 <= k < i && k != row ==> cells[k][col] != v
      {
        if i != col && board[row, i] == v {
          return false;
        }
        if i != row && board[i, col] == v {
          return false;
        }
      }
      var boxRow, boxCol := BoxStart(row), BoxStart(col);
      for i := boxRow to boxRow + 3
        invariant forall k, l :: boxRow <= k < i && boxCol <= l < boxCol + 3 && k != row && l != col ==> cells[k][l] != v
      {
        for j := boxCol to boxCol + 3
          invariant forall l :: boxCol <= l < j && i != row && l != col ==> cells[i][l] != v
        {
          if i != row && j != col && board[i, j] == v {
            return false;
          }
        }
      }
      return true;
    }

    /** verify_cell: an unset cell passes; a set cell passes check_cell with its own value. */
    method VerifyCell(row: nat, col: nat) returns (ok: bool)
      requires Valid() && row < 9 && col < 9
      ensures ok <==> cells[row][col] == Unset || CanPlace(cells, row, col, cells[row][col])
    {
      var v := board[row, col];
      if v == Unset {
        return true;
      }
      ok := CheckCell(row, col, v);
    }

    /** verify: every one of the 81 cells passes verify_cell, scanned row-major up to the first
        failure. */
    method Verify() returns (ok: bool)
      requires Valid()
      ensures ok <==> forall r, c :: 0 <= r < 9 && 0 <= c < 9 ==> CellConsistent(cells, r, c)
    {
      for i := 0 to 9
        invariant forall r, c :: 0 <= r < i && 0 <= c < 9 ==> CellConsistent(cells, r, c)
      {
        for j := 0 to 9
          invariant forall c :: 0 <= c < j ==> CellConsistent(cells, i, c)
        {
          var cellOk := VerifyCell(i, j);
          if !cellOk {
            assert !CellConsistent(cells, i, j);
            return false;
          }
        }
      }
      return true;
    }

    /** get_first_empty: the first unset cell in row-major order, or None when no cell is
        unset. */
    method GetFirstEmpty() returns (pos: Option<(nat, nat)>)
      requires Valid()
      ensures pos.None? <==> Full(cells)
      ensures pos.Some? ==> pos.value.0 < 9 && pos.value.1 < 9 && cells[pos.value.0][pos.value.1] == Unset
      ensures pos.Some? ==> forall i, j :: 0 <= i < 9 && 0 <= j < 9 && Before(i, j, pos.value.0, pos.value.1) ==> cells[i][j] != Unset
    {
      for i := 0 to 9
        invariant forall r, c :: 0 <= r < i && 0 <= c < 9 ==> cells[r][c] != Unset
      {
        for j := 0 to 9
          invariant forall c :: 0 <= c < j ==> cells[i][c] != Unset
        {
          if board[i, j] == Unset {
            return Some((i, j));
          }
        }
      }
      return None;
    }

    /** `board[row][col] = v`. */
    method Write(row: nat, col: nat, v: u8)
      requires Valid() && row < 9 && col < 9
      modifies this, board
      ensures Valid() && board == old(board)
      ensures cells == Place(old(cells), row, col, v)
    {
      board[row, col] := v;
      cells := Place(cells, row, col, v);
    }

    /** solve: fill the first unset cell with the smallest digit that passes check_cell and for
        which the rest of the board can be solved, undoing the placement whenever it cannot.
        On success the board is a completion of the old one; on failure it is exactly the old
        board, and the old board has no completion at all. */
    method Solve() returns (ok: bool)
      requires Valid()
      modifies this, board
      ensures Valid() && board == old(board)
      ensures ok ==> IsSolution(old(cells), cells)
      ensures ok ==> Full(cells)
      ensures ok ==> forall r, c :: 0 <= r < 9 && 0 <= c < 9 && CellConsistent(old(cells), r, c) ==> CellConsistent(cells, r, c)
      ensures ok && Consistent(old(cells)) ==> Consistent(cells)
      ensures !ok ==> cells == old(cells) && !Solvable(old(cells))
      decreases EmptyCells(cells)
    {
      ghost var g := cells;
      var pos := GetFirstEmpty();
      if pos.None? {
        FullIsOwnSolution(g);
        SolutionCompletes(g, g);
        SolutionKeepsConsistency(g, g);
        return true;
      }
      var (row, col) := pos.value;
      for v := MinDigit to MaxDigit + 1
        invariant Valid() && board == old(board) && cells == g
        invariant forall h :: IsSolution(g, h) ==> v <= h[row][col]
      {
        var fits := CheckCell(row, col, v);
        if fits {
          Write(row, col, v);
          PlaceShrinksEmpty(g, row, col, v);
          ok := Solve();
          if ok {
            SolutionExtends(g, row, col, v, cells);
            SolutionCompletes(g, cells);
            SolutionKeepsConsistency(g, cells);
            return;
          }
          Write(row, col, Unset);
          PlaceThenClear(g, row, col, v);
        }
        forall h | IsSolution(g, h) ensures h[row][col] != v {
          SolutionRestricts(g, row, col, h);
        }
      }
      forall h | IsSolution(g, h) ensures false {
        SolutionRestricts(g, row, col, h);
      }
      return false;
    }

    /** set_full: overwrite every cell with the given board, position by position. */
    method SetFull(values: Grid)
      requires Valid() && IsGrid(values)
      modifies this, board
      ensures Valid() && board == old(board)
      ensures cells == values
    {
      for i := 0 to 9
        invariant board == old(board)
        invariant forall r, c :: 0 <= r < i && 0 <= c < 9 ==> board[r, c] == values[r][c]
      {
        for j := 0 to 9
          invariant board == old(board)
          invariant forall r, c :: 0 <= r < i && 0 <= c < 9 ==> board[r, c] == values[r][c]
          invariant forall c :: 0 <= c < j ==> board[i, c] == values[i][c]
        {
          board[i, j] := values[i][j];
        }
      }
      cells := values;
    }
  }
}
