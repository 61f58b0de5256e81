/** The earlier variant of the engine: the same board and consistency checks, plus a bitmask
    of candidate digits per cell that it decodes but never uses for solving. */
module Prototype {
  import opened Board

  /** MASK_FULL: bits 1..9 set, bit 0 left clear. */
  const MaskFull: bv16 := 0x1FF << 1

  /** Bit d of a candidate mask is set. */
  predicate HasBit(mask: bv16, d: nat)
    requires d < 16
  {
    mask & (1 << d) != 0
  }

  /** The digits d in lo..9 whose bit is set in mask, ascending. */
  function CandidatesFrom(mask: bv16, lo: nat): seq<u8>
    requires 1 <= lo <= 10
    decreases 10 - lo
  {
    if lo == 10 then []
    else (if HasBit(mask, lo) then [lo as u8] else []) + CandidatesFrom(mask, lo + 1)
  }

  /** The digits 1..9 whose bit is set in mask, ascending; bit 0 and bits above 9 play no part. */
  function Candidates(mask: bv16): seq<u8>
  {
    CandidatesFrom(mask, 1)
  }

  /** One step of get_possible's loop: digit lo is appended exactly when its bit is set. */
  lemma CandidatesStep(mask: bv16, lo: nat, prefix: seq<u8>)
    requires 1 <= lo < 10
    ensures prefix + CandidatesFrom(mask, lo) ==
      (if HasBit(mask, lo) then prefix + [lo as u8] else prefix) + CandidatesFrom(mask, lo + 1)
  {
    var rest := CandidatesFrom(mask, lo + 1);
    if HasBit(mask, lo) {
      assert CandidatesFrom(mask, lo) == [lo as u8] + rest;
      assert prefix + ([lo as u8] + rest) == (prefix + [lo as u8]) + rest;
    } else {
      assert CandidatesFrom(mask, lo) == rest;
    }
  }

  /** The digits collected from lo on are exactly the set digits from lo on. */
  lemma {:induction false} CandidatesFromMembers(mask: bv16, lo: nat)
    requires 1 <= lo <= 10
    ensures forall d :: d in CandidatesFrom(mask, lo) <==> lo <= d <= 9 && HasBit(mask, d)
    decreases 10 - lo
  {
    if lo < 10 {
      CandidatesFromMembers(mask, lo + 1);
      var head: seq<u8> := if HasBit(mask, lo) then [lo as u8] else [];
      assert CandidatesFrom(mask, lo) == head + CandidatesFrom(mask, lo + 1);
      forall d ensures d in CandidatesFrom(mask, lo) <==> d in head || d in CandidatesFrom(mask, lo + 1) { }
    }
  }

  /** The digits collected from lo on are strictly ascending. */
  lemma {:induction false} CandidatesFromAscending(mask: bv16, lo: nat)
    requires 1 <= lo <= 10
    ensures forall i, j :: 0 <= i < j < |CandidatesFrom(mask, lo)| ==> CandidatesFrom(mask, lo)[i] < CandidatesFrom(mask, lo)[j]
    decreases 10 - lo
  {
    if lo < 10 {
      CandidatesFromAscending(mask, lo + 1);
      var rest := CandidatesFrom(mask, lo + 1);
      if HasBit(mask, lo) {
        CandidatesFromMembers(mask, lo + 1);
        var s := [lo as u8] + rest;
        assert CandidatesFrom(mask, lo) == s;
        forall i, j | 0 <= i < j < |s| ensures s[i] < s[j] {
          if i > 0 {
            assert s[i] == rest[i - 1];
          }
          assert s[j] == rest[j - 1];
          assert rest[j - 1] in rest;
        }
      }
    }
  }

  /** get_possible's answer: exactly the digits 1..9 whose bit is set, in ascending order. */
  lemma CandidatesMeaning(mask: bv16)
    ensures forall d :: d in Candidates(mask) <==> MinDigit <= d <= MaxDigit && HasBit(mask, d)
    ensures forall i, j :: 0 <= i < j < |Candidates(mask)| ==> Candidates(mask)[i] < Candidates(mask)[j]
  {
    CandidatesFromMembers(mask, 1);
    CandidatesFromAscending(mask, 1);
  }

  /** A fresh board offers every digit at every cell. */
  lemma FullMaskCandidates()
    ensures Candidates(MaskFull) == [1, 2, 3, 4, 5, 6, 7, 8, 9]
  {
    assert MaskFull == 0x3FE;
  }

  class Sudoku {
    /** The board, row-major; 0 means unset. */
    var board: array2<u8>
    /** The candidate digits of each cell, as a bitmask. */
    var possibles: array2<bv16>
    /** The board as a value. */
    ghost var cells: Grid

    ghost predicate Valid()
      reads this, board, possibles
    {
      board.Length0 == 9 && board.Length1 == 9 &&
      possibles.Length0 == 9 && possibles.Length1 == 9 && IsGrid(cells) &&
      forall r, c :: 0 <= r < 9 && 0 <= c < 9 ==> board[r, c] == cells[r][c]
    }

    /** Default::default: every cell unset, every digit possible everywhere. */
    constructor Default()
      ensures Valid() && fresh(board) && fresh(possibles)
      ensures cells == EmptyGrid()
      ensures forall r, c :: 0 <= r < 9 && 0 <= c < 9 ==> possibles[r, c] == MaskFull
    {
      board := new u8[9, 9]((r, c) => Unset);
      possibles := new bv16[9, 9]((r, c) => MaskFull);
      cells := EmptyGrid();
    }

    /** get_possible: the candidate digits recorded for (row, col), ascending. */
    method GetPossible(row: nat, col: nat) returns (digits: seq<u8>)
      requires Valid() && row < 9 && col < 9
      ensures digits == Candidates(possibles[row, col])
    {
      var mask := possibles[row, col];
      digits := [];
      ghost var all := Candidates(mask);
      for i := MinDigit to MaxDigit + 1
        invariant digits + CandidatesFrom(mask, i) == all
      {
        CandidatesStep(mask, i, digits);
        if HasBit(mask, i) {
          var d: u8 := i;
          digits := digits + [d];
        }
      }
    }

    /** verify_cell, with check_cell's scans written inline: an unset cell passes; a set cell
        passes when no other cell of its row or column, and no box-mate differing from it in
        both row and column, holds its value. */
    method VerifyCell(row: nat, col: nat) returns (ok: bool)
      requires Valid() && row < 9 && col < 9
      ensures ok <==> CellConsistent(cells, row, col)
    {
      var v := board[row, col];
      if v == Unset {
        return true;
      }
      for i := 0 to 9
        invariant forall k :: 0 <= k < i && k != col ==> cells[row][k] != v
        invariant forall k :: 0 <= k < i && k != row ==> cells[k][col] != v
      {
        if i != col && board[row, i] == v {
          return false;
        }
        if i != row && board[i, col] == v {
          return false;
        }
      }
      var boxRow, boxCol := BoxStart(row), BoxStart(col);
      for i := boxRow to boxRow + 3
        invariant forall k, l :: boxRow <= k < i && boxCol <= l < boxCol + 3 && k != row && l != col ==> cells[k][l] != v
      {
        for j := boxCol to boxCol + 3
          invariant forall l :: boxCol <= l < j && i != row && l != col ==> cells[i][l] != v
        {
          if i != row && j != col && board[i, j] == v {
            return false;
          }
        }
      }
      return true;
    }

    /** verify: every one of the 81 cells passes verify_cell. */
    method Verify() returns (ok: bool)
      requires Valid()
      ensures ok <==> Consistent(cells)
    {
      for i := 0 to 9
        invariant forall r, c :: 0 <= r < i && 0 <= c < 9 ==> CellConsistent(cells, r, c)
      {
        for j := 0 to 9
          invariant forall c :: 0 <= c < j ==> CellConsistent(cells, i, c)
        {
          var cellOk := VerifyCell(i, j);
          if !cellOk {
            assert !CellConsistent(cells, i, j);
            return false;
          }
        }
      }
      return true;
    }
  }
}
