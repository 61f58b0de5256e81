# Sudoku grid engine

A Dafny model of a small 9x9 Sudoku solver. The engine owns a 9x9 board of unsigned
bytes, where 0 means unset. It can:

- check whether a digit collides with another cell of its row, its column or its 3x3 box
  (`check_cell`);
- check one cell or the whole board for consistency (`verify_cell`, `verify`);
- find the first unset cell in row-major order (`get_first_empty`);
- fill the board in place by depth-first backtracking (`solve`), undoing every tentative
  placement on a failing path.

An earlier variant of the engine (`src/main.rs`) has the same consistency checks. It also
keeps a per-cell bitmask of candidate digits, which `get_possible` decodes.

Files:

- `board.dfy`, module `Board`: the board as a value (`Grid`, a 9x9 `seq<seq<u8>>`). It
  holds the predicates the scans answer (`RowClash`, `ColClash`, `BoxClash`, `CanPlace`,
  `CellConsistent`, `Consistent`, `Full`). It defines what a completed board is
  (`IsSolution`, `Solvable`), and it proves the lemmas that the search relies on.
- `solver.dfy`, module `Solver`: the library's `Sudoku` as a class. The class holds an
  `array2<u8>` board, and a ghost `cells` mirrors the board as a value. `CheckCell`,
  `VerifyCell` and `Verify` are the source's loops, proved equal to the predicates.
  `GetFirstEmpty` is proved to return an unset cell with every earlier cell set, and None
  exactly when the board is full. `Solve` and `SetFull` update the array in place.
- `prototype.dfy`, module `Prototype`: the earlier variant. It holds the `possibles`
  bitmasks as `array2<bv16>`, the decoding `Candidates`, and its own inline `VerifyCell`
  and `Verify`.

The box scan is modelled exactly as written. A box-mate counts only when it differs from the
tested cell in both row and column (`BoxClash`). The scan's exclusion test is symmetric
(`PeerSymmetric`), and the search's correctness rests on that symmetry.

The box scan skips the box-mates that share the tested cell's row or column. This lets no
invalid placement through, because the row and column scans see those cells
(`BoxMatesArePeers`). So `verify` accepts a board, full or partial, exactly when no two set
cells of one row, column or box hold the same value (`ConsistentIffUnitsDistinct`). On a full
consistent board every row, column and box is a permutation of 1..9
(`SolvedUnitsArePermutations`).

`solve` returns true on a board with no unset cell without checking it, so an inconsistent
full board comes back as "solved". A successful `solve` therefore leaves a consistent board
only when the input was consistent. What `Solve` states is exactly this: every cell it fills
passes `verify_cell` in the result, and no cell that passed before stops passing.

## Model

| member | source | states |
|---|---|---|
| `Board.BoxStart` | src/lib.rs:67-69 | the box offset `(i / 3) * 3` is a multiple of 3, at most `i`, greater than `i - 3`, and the box fits inside the board |
| `Board.EmptyGrid` | src/lib.rs:153-160 | the default board is 9x9 with every cell unset |
| `Board.SameBand` | src/lib.rs:67-72 | an index lies in the 3-row band scanned from `r` exactly when both indices have the same box offset |
| `Board.PeerSymmetric` | src/lib.rs:55-78 | if the scans of `check_cell(r, c, _)` compare cell (i, j), then the scans of `check_cell(i, j, _)` compare (r, c); this holds for the row, the column and the box scan as written |
| `Board.CanPlaceIffNoPeer` | src/lib.rs:53-80 | `check_cell` answers true exactly when no cell that its row, column or box scan visits holds the digit |
| `Board.CanPlaceIgnoresOwnCell` | src/lib.rs:53-80 | `check_cell`'s answer does not depend on what the tested cell currently holds |
| `Board.BoxMatesArePeers` | src/lib.rs:55-78 | any two different cells of one box are compared by some scan: the box scan skips exactly the box-mates that the row and column scans see |
| `Board.ConsistentPeersDiffer` | src/lib.rs:83-92 | a set cell that passes `verify_cell` differs from every cell its scans visit |
| `Board.SameUnitIffPeer` | src/lib.rs:55-78 | two different cells share a row, a column or a box exactly when the scans of `check_cell` from one of them compare the other |
| `Board.ConsistentIffUnitsDistinct` | src/lib.rs:83-104 | `verify` accepts a board, partial or full, exactly when no two different set cells of one row, column or box hold the same value |
| `Board.RowIsPermutation` | src/lib.rs:95-104 | a board that passes `verify` and holds digits 1..9 everywhere has each row a permutation of 1..9 |
| `Board.ColumnIsPermutation` | src/lib.rs:95-104 | a board that passes `verify` and holds digits 1..9 everywhere has each column a permutation of 1..9 |
| `Board.BoxEntriesDiffer` | src/lib.rs:55-92 | a set cell of a box that passes `verify_cell` differs from every other cell of its box, including the box-mates the box scan skips |
| `Board.BoxIsPermutation` | src/lib.rs:95-104 | a board that passes `verify` and holds digits 1..9 everywhere has each box a permutation of 1..9 |
| `Board.SolvedUnitsArePermutations` | src/lib.rs:95-104 | a board that passes `verify` and holds digits 1..9 everywhere has every row, column and box a permutation of 1..9 |
| `Board.Place` | src/lib.rs:130 | writing one cell sets that cell and leaves the other 80 unchanged |
| `Board.PlaceThenClear` | src/lib.rs:130-137 | resetting a just-placed cell to 0 gives back the board before the placement, when that cell was unset |
| `Board.PlaceShrinksEmpty` | src/lib.rs:121-132 | placing a digit at an unset cell removes exactly that cell from the unset ones, so the recursion of `solve` terminates |
| `Board.SolutionCompletes` | src/lib.rs:120-141 | a completion has no unset cell |
| `Board.FullIsOwnSolution` | src/lib.rs:121-125 | a board with no unset cell counts as solved as it is, consistent or not |
| `Board.FilledCellDiffersFromPeers` | src/lib.rs:127-134 | a cell filled by a completion differs from every cell it visits and from every cell that visits it |
| `Board.SolutionExtends` | src/lib.rs:127-134 | if the digit passes `check_cell` at the unset cell, and the board with the digit placed has a completion, then that completion also completes the board before the placement |
| `Board.SolutionRestricts` | src/lib.rs:127-140 | every completion puts at the first unset cell a digit 1..9 that passes `check_cell`, and it completes the board with that digit placed; so trying 1..9 in order misses no completion |
| `Board.SolutionKeepsConsistency` | src/lib.rs:120-141 | a completion keeps every cell that passed `verify_cell` passing, so a consistent board stays consistent |
| `Board.SolutionUnitsArePermutations` | src/lib.rs:120-141 | completing a consistent board of digits 0..9 yields rows, columns and boxes that are permutations of 1..9 |
| `Board.ShiftedRowsVerifyCell` | src/main.rs:189-204 | on the test board (row 0 = 1..9, rows 1..8 = 2..9 then 1), `verify_cell(0, 0)` passes and `verify_cell(1, 0)` fails |
| `Board.RepeatedEightRejected` | src/lib.rs:202-212 | the test board with two 8s in column 0 fails `verify_cell(0, 0)` and `verify` |
| `Solver.Sudoku.constructor` | src/lib.rs:25-29 | `new` stores the given board verbatim |
| `Solver.Sudoku.Default` | src/lib.rs:153-160 | `default` gives an all-unset board |
| `Solver.Sudoku.CheckCell` | src/lib.rs:53-80 | returns true iff no other cell of the row, no other cell of the column, and no box-mate differing in both row and column holds the digit; the board is not modified |
| `Solver.Sudoku.VerifyCell` | src/lib.rs:83-92 | an unset cell passes; a set cell passes iff `check_cell` accepts its own value there |
| `Solver.Sudoku.Verify` | src/lib.rs:95-104 | returns true iff all 81 cells pass `verify_cell` |
| `Solver.Sudoku.GetFirstEmpty` | src/lib.rs:107-117 | returns the first unset cell in row-major order, with every earlier cell set; returns None (the `usize::MAX` pair) iff no cell is unset |
| `Solver.Sudoku.Write` | src/lib.rs:130 | `board[row][col] = v` changes that one cell of the board |
| `Solver.Sudoku.Solve` | src/lib.rs:120-141 | on true the board is a completion of the old one: every cell set, set cells unchanged, filled cells 1..9 and each passing `verify_cell`, consistency kept; on false the board is exactly the old one and the old board has no completion |
| `Solver.Sudoku.SetFull` | src/lib.rs:144-150 | afterwards the board equals the given one cell for cell |
| `Prototype.CandidatesStep` | src/main.rs:55-59 | one loop step of `get_possible`: digit `i` is pushed exactly when bit `1 << i` is set |
| `Prototype.CandidatesFromMembers` | src/main.rs:52-61 | a digit is collected from `lo` on exactly when it lies in lo..9 and its bit is set |
| `Prototype.CandidatesFromAscending` | src/main.rs:52-61 | the digits collected from `lo` on are strictly ascending |
| `Prototype.CandidatesMeaning` | src/main.rs:52-61 | `get_possible` yields exactly the digits 1..9 whose bit is set, in ascending order; bit 0 is ignored |
| `Prototype.FullMaskCandidates` | src/main.rs:180-187 | `MASK_FULL` (`0x1FF << 1`) decodes to `[1, 2, 3, 4, 5, 6, 7, 8, 9]` |
| `Prototype.Sudoku.Default` | src/main.rs:113-123 | `default` gives an all-unset board and `MASK_FULL` in every `possibles` entry |
| `Prototype.Sudoku.GetPossible` | src/main.rs:52-61 | returns the decoding of `possibles[row][col]` |
| `Prototype.Sudoku.VerifyCell` | src/main.rs:64-98 | answers exactly what the library's `verify_cell` answers: an unset cell passes; a set cell passes iff no other cell of its row or column, and no box-mate differing in both row and column, holds its value |
| `Prototype.Sudoku.Verify` | src/main.rs:101-110 | returns true iff all 81 cells pass `verify_cell` |

## Left out

- `display` (src/lib.rs:32-50, src/main.rs:31-49): console output only.
- `main`, `test_disp` and `test_normal_disp` in `src/main.rs`: demonstration code that only prints.
- The puzzle-file parsers (`src/sudoku_examples/parse.rs`, `sudoku_examples/parse.rs`) and `tests/basic_solve.rs`: these read the filesystem. The one assertion of the test, that `verify` holds after a successful `solve` on a consistent puzzle, is part of `Solver.Sudoku.Solve`'s contract.
- `get_first_empty`'s sentinel is `None`, not the pair `[usize::MAX, usize::MAX]`. Machine word width is not modelled. Row and column indices are `nat` below 9. The source would panic on an index of 9 or more, and its callers never pass one.
- The full-board checks of `test_verify_full` that expect `verify` to be true (src/lib.rs:191-200, 215-224): proving these would mean evaluating all 81 cells of a literal board. The general property they test, that a board obeying the Sudoku rule passes `verify`, is `Board.ConsistentIffUnitsDistinct`. Of the literal boards only the rejected one is stated (`Board.RepeatedEightRejected`).
- The solved contents of particular puzzles, for example the solved first row of the classic example: the model proves what any result of `solve` satisfies, not the value of one search.
- Running time: the search is exponential in the worst case. Only termination is proved, by the decreasing set of unset cells.
- `possibles` is never written after `default` in the source, and nothing in the engine reads it for solving. The model has no operation on it other than `GetPossible`.
