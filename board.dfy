/** The 9x9 Sudoku board as a value, and the rules the engine checks a board against.

    Both source variants keep the board as a 9x9 array of unsigned bytes, 0 meaning unset.
    The classes in Solver and Prototype mirror their array in a ghost Grid, and every
    read-only scan of theirs is proved equal to one of the predicates below. */
module Board {

  /** A cell as the source stores it: an unsigned byte. */
  type u8 = x: int | 0 <= x < 256

  /** Cell values (NUM_UNSET, NUM_MIN, NUM_MAX); NUM_MAX is also the side length of the board. */
  const Unset: u8 := 0
  const MinDigit: u8 := 1
  const MaxDigit: u8 := 9

  /** A board value, row-major: g[row][col]. */
  type Grid = seq<seq<u8>>

  predicate IsGrid(g: Grid)
  {
    |g| == 9 && forall r :: 0 <= r < 9 ==> |g[r]| == 9
  }

  /** The all-unset board of Default::default. */
  function EmptyGrid(): (g: Grid)
    ensures IsGrid(g)
    ensures forall r, c :: 0 <= r < 9 && 0 <= c < 9 ==> g[r][c] == Unset
  {
    seq(9, r => seq(9, c => Unset))
  }

  /** First row (and first column) of the 3x3 box that holds row (column) i. */
  function BoxStart(i: nat): (s: nat)
    requires i < 9
    ensures s <= i < s + 3 && s % 3 == 0 && s + 3 <= 9
  {
    (i / 3) * 3
  }

  // ---------------------------------------------------------------------------
  // The three scans of check_cell(row, col, v)

  /** Some other cell of row r (column index != c) holds v. */
  predicate RowClash(g: Grid, r: nat, c: nat, v: int)
    requires IsGrid(g) && r < 9 && c < 9
  {
    exists i :: 0 <= i < 9 && i != c && g[r][i] == v
  }

  /** Some other cell of column c (row index != r) holds v. */
  predicate ColClash(g: Grid, r: nat, c: nat, v: int)
    requires IsGrid(g) && r < 9 && c < 9
  {
    exists i :: 0 <= i < 9 && i != r && g[i][c] == v
  }

  /** Some cell of the box of (r, c) that differs from (r, c) in BOTH row and column holds v.
      Box-mates sharing row r or column c are not looked at here; the row and column scans
      see them. */
  predicate BoxClash(g: Grid, r: nat, c: nat, v: int)
    requires IsGrid(g) && r < 9 && c < 9
  {
    exists i, j :: BoxStart(r) <= i < BoxStart(r) + 3 && BoxStart(c) <= j < BoxStart(c) + 3
      && i != r && j != c && g[i][j] == v
  }

  /** What check_cell(r, c, v) answers: v collides with no cell scanned from (r, c).
      The value currently stored at (r, c) plays no part. */
  predicate CanPlace(g: Grid, r: nat, c: nat, v: int)
    requires IsGrid(g) && r < 9 && c < 9
  {
    !RowClash(g, r, c, v) && !ColClash(g, r, c, v) && !BoxClash(g, r, c, v)
  }

  /** What verify_cell(r, c) answers: an unset cell is fine, a set one must pass check_cell
      with its own value. */
  predicate CellConsistent(g: Grid, r: nat, c: nat)
    requires IsGrid(g) && r < 9 && c < 9
  {
    g[r][c] == Unset || CanPlace(g, r, c, g[r][c])
  }

  /** What verify() answers: every one of the 81 cells passes verify_cell. */
  predicate Consistent(g: Grid)
    requires IsGrid(g)
  {
    forall r, c :: 0 <= r < 9 && 0 <= c < 9 ==> CellConsistent(g, r, c)
  }

  /** No cell is unset. */
  predicate Full(g: Grid)
    requires IsGrid(g)
  {
    forall r, c :: 0 <= r < 9 && 0 <= c < 9 ==> g[r][c] != Unset
  }

  /** Cell (i, j) comes before cell (r, c) in row-major order. */
  predicate Before(i: int, j: int, r: int, c: int)
  {
    i < r || (i == r && j < c)
  }

  // ---------------------------------------------------------------------------
  // The peer relation: the cells check_cell(r, c, _) looks at, as one relation

  /** check_cell at (r, c) compares cell (i, j), by its row scan, its column scan or its box scan. */
  predicate Peer(r: nat, c: nat, i: nat, j: nat)
    requires r < 9 && c < 9
  {
    i < 9 && j < 9 &&
    ((i == r && j != c) ||
     (j == c && i != r) ||
     (BoxStart(r) <= i < BoxStart(r) + 3 && BoxStart(c) <= j < BoxStart(c) + 3 && i != r && j != c))
  }

  /** Two indices lie in the same band of three exactly when their box starts agree. */
  lemma SameBand(r: nat, i: nat)
    requires r < 9 && i < 9
    ensures (BoxStart(r) <= i < BoxStart(r) + 3) <==> BoxStart(i) == BoxStart(r)
  {
    assert r / 3 == BoxStart(r) / 3;
    if BoxStart(r) <= i < BoxStart(r) + 3 {
      assert i / 3 == BoxStart(r) / 3;
    }
  }

  /** The scan is symmetric: if (r, c) looks at (i, j), then (i, j) looks at (r, c). This holds
      for the box scan as written too, since its exclusion test is symmetric in the two cells. */
  lemma PeerSymmetric(r: nat, c: nat, i: nat, j: nat)
    requires r < 9 && c < 9 && Peer(r, c, i, j)
    ensures Peer(i, j, r, c)
  {
    SameBand(r, i);
    SameBand(c, j);
    SameBand(i, r);
    SameBand(j, c);
  }

  /** check_cell's answer in terms of the peer relation. */
  lemma CanPlaceIffNoPeer(g: Grid, r: nat, c: nat, v: int)
    requires IsGrid(g) && r < 9 && c < 9
    ensures CanPlace(g, r, c, v) <==> forall i: nat, j: nat :: Peer(r, c, i, j) ==> g[i][j] != v
  {
    if !CanPlace(g, r, c, v) {
      if RowClash(g, r, c, v) {
        var i :| 0 <= i < 9 && i != c && g[r][i] == v;
        assert Peer(r, c, r, i);
      } else if ColClash(g, r, c, v) {
        var i :| 0 <= i < 9 && i != r && g[i][c] == v;
        assert Peer(r, c, i, c);
      } else {
        var i, j :| BoxStart(r) <= i < BoxStart(r) + 3 && BoxStart(c) <= j < BoxStart(c) + 3
          && i != r && j != c && g[i][j] == v;
        assert Peer(r, c, i, j);
      }
    }
  }

  // ---------------------------------------------------------------------------
  // Writing one cell, and the cells left to fill

  /** The board after `board[r][c] = v`. */
  function Place(g: Grid, r: nat, c: nat, v: u8): (p: Grid)
    requires IsGrid(g) && r < 9 && c < 9
    ensures IsGrid(p) && p[r][c] == v
    ensures forall i, j :: 0 <= i < 9 && 0 <= j < 9 && (i != r || j != c) ==> p[i][j] == g[i][j]
  {
    var row: seq<u8> := g[r][c := v];
    g[r := row]
  }

  /** Clearing a cell that was unset before a placement gives back the board as it was. */
  lemma PlaceThenClear(g: Grid, r: nat, c: nat, v: u8)
    requires IsGrid(g) && r < 9 && c < 9 && g[r][c] == Unset
    ensures Place(Place(g, r, c, v), r, c, Unset) == g
  {
    var p := Place(Place(g, r, c, v), r, c, Unset);
    forall i | 0 <= i < 9 ensures p[i] == g[i] {
      assert |p[i]| == |g[i]|;
      forall j | 0 <= j < 9 ensures p[i][j] == g[i][j] { }
    }
  }

  /** The positions still unset; solve recurses on a strictly smaller set of them. */
  ghost function EmptyCells(g: Grid): set<(int, int)>
    requires IsGrid(g)
  {
    set r, c | 0 <= r < 9 && 0 <= c < 9 && g[r][c] == Unset :: (r, c)
  }

  /** Setting an unset cell to a digit removes exactly that cell from the unset ones. */
  lemma PlaceShrinksEmpty(g: Grid, r: nat, c: nat, v: u8)
    requires IsGrid(g) && r < 9 && c < 9 && g[r][c] == Unset && v != Unset
    ensures EmptyCells(Place(g, r, c, v)) == EmptyCells(g) - {(r, c)}
    ensures EmptyCells(Place(g, r, c, v)) < EmptyCells(g)
  {
    var p := Place(g, r, c, v);
    assert (r, c) in EmptyCells(g);
    forall x | x in EmptyCells(p) ensures x in EmptyCells(g) - {(r, c)} {
      var i, j :| 0 <= i < 9 && 0 <= j < 9 && p[i][j] == Unset && x == (i, j);
    }
    forall x | x in EmptyCells(g) - {(r, c)} ensures x in EmptyCells(p) {
      var i, j :| 0 <= i < 9 && 0 <= j < 9 && g[i][j] == Unset && x == (i, j);
      assert p[i][j] == Unset;
    }
  }

  /** check_cell never looks at the cell under test: whatever (r, c) holds, the answer is the
      same. */
  lemma CanPlaceIgnoresOwnCell(g: Grid, r: nat, c: nat, v: int, w: u8)
    requires IsGrid(g) && r < 9 && c < 9
    ensures CanPlace(Place(g, r, c, w), r, c, v) == CanPlace(g, r, c, v)
  {
    var p := Place(g, r, c, w);
    CanPlaceIffNoPeer(g, r, c, v);
    CanPlaceIffNoPeer(p, r, c, v);
    forall i: nat, j: nat | Peer(r, c, i, j) ensures p[i][j] == g[i][j] { }
  }

  // ---------------------------------------------------------------------------
  // What a successful search produces

  /** h completes g the way solve fills a board: every set cell of g is kept, and every
      unset cell of g holds a digit 1..9 that passes verify_cell in h. */
  predicate IsSolution(g: Grid, h: Grid)
    requires IsGrid(g)
  {
    IsGrid(h) &&
    forall r, c :: 0 <= r < 9 && 0 <= c < 9 ==>
      if g[r][c] == Unset then MinDigit <= h[r][c] <= MaxDigit && CellConsistent(h, r, c)
      else h[r][c] == g[r][c]
  }

  ghost predicate Solvable(g: Grid)
    requires IsGrid(g)
  {
    exists h :: IsSolution(g, h)
  }

  /** A completion leaves no cell unset. */
  lemma SolutionCompletes(g: Grid, h: Grid)
    requires IsGrid(g) && IsSolution(g, h)
    ensures Full(h)
  {
    forall r, c | 0 <= r < 9 && 0 <= c < 9 ensures h[r][c] != Unset {
      assert g[r][c] == Unset || h[r][c] == g[r][c];
    }
  }

  /** A board without unset cells is its own completion, consistent or not: solve returns
      true on it without looking at its contents. */
  lemma FullIsOwnSolution(g: Grid)
    requires IsGrid(g) && Full(g)
    ensures IsSolution(g, g)
  {
    forall r, c | 0 <= r < 9 && 0 <= c < 9 ensures g[r][c] != Unset { }
  }

  /** A cell filled by a completion differs from every cell it is a peer of, and (by symmetry)
      from every cell that is a peer of it. */
  lemma FilledCellDiffersFromPeers(g: Grid, h: Grid, i: nat, j: nat, r: nat, c: nat)
    requires IsGrid(g) && IsSolution(g, h) && i < 9 && j < 9 && g[i][j] == Unset
    requires r < 9 && c < 9 && Peer(r, c, i, j)
    ensures h[r][c] != h[i][j]
  {
    assert CellConsistent(h, i, j);
    assert h[i][j] != Unset;
    PeerSymmetric(r, c, i, j);
    CanPlaceIffNoPeer(h, i, j, h[i][j]);
  }

  /** One step of the search, read upwards: if v passes check_cell at the unset cell (r, c)
      and the board with v placed there has a completion h, then h completes the board before
      the placement. */
  lemma SolutionExtends(g: Grid, r: nat, c: nat, v: u8, h: Grid)
    requires IsGrid(g) && r < 9 && c < 9 && g[r][c] == Unset
    requires MinDigit <= v <= MaxDigit && CanPlace(g, r, c, v)
    requires IsSolution(Place(g, r, c, v), h)
    ensures IsSolution(g, h)
  {
    var p := Place(g, r, c, v);
    assert h[r][c] == v;
    CanPlaceIffNoPeer(g, r, c, v);
    forall i: nat, j: nat | Peer(r, c, i, j) ensures h[i][j] != v {
      if p[i][j] == Unset {
        FilledCellDiffersFromPeers(p, h, i, j, r, c);
      } else {
        assert h[i][j] == g[i][j];
      }
    }
    CanPlaceIffNoPeer(h, r, c, v);
    forall i, j | 0 <= i < 9 && 0 <= j < 9
      ensures if g[i][j] == Unset then MinDigit <= h[i][j] <= MaxDigit && CellConsistent(h, i, j)
              else h[i][j] == g[i][j]
    {
      if i != r || j != c {
        assert p[i][j] == g[i][j];
      }
    }
  }

  /** One step of the search, read downwards: any completion h of g puts at the unset cell
      (r, c) a digit that passes check_cell there, and completes the board with that digit
      placed. */
  lemma SolutionRestricts(g: Grid, r: nat, c: nat, h: Grid)
    requires IsGrid(g) && r < 9 && c < 9 && g[r][c] == Unset && IsSolution(g, h)
    ensures MinDigit <= h[r][c] <= MaxDigit
    ensures CanPlace(g, r, c, h[r][c])
    ensures IsSolution(Place(g, r, c, h[r][c]), h)
  {
    var v := h[r][c];
    assert CellConsistent(h, r, c);
    CanPlaceIffNoPeer(h, r, c, v);
    forall i: nat, j: nat | Peer(r, c, i, j) ensures g[i][j] != v {
      assert g[i][j] == Unset || g[i][j] == h[i][j];
    }
    CanPlaceIffNoPeer(g, r, c, v);
    var p := Place(g, r, c, v);
    forall i, j | 0 <= i < 9 && 0 <= j < 9
      ensures if p[i][j] == Unset then MinDigit <= h[i][j] <= MaxDigit && CellConsistent(h, i, j)
              else h[i][j] == p[i][j]
    {
      if i != r || j != c {
        assert p[i][j] == g[i][j];
      }
    }
  }

  /** Completing a board never breaks a cell that was consistent before: the filled cells were
      each checked against every cell they see, and the peer relation is symmetric. In particular
      a consistent board stays consistent, which is what verify confirms after solve. */
  lemma SolutionKeepsConsistency(g: Grid, h: Grid)
    requires IsGrid(g) && IsSolution(g, h)
    ensures forall r, c :: 0 <= r < 9 && 0 <= c < 9 && CellConsistent(g, r, c) ==> CellConsistent(h, r, c)
    ensures Consistent(g) ==> Consistent(h)
  {
    forall r, c | 0 <= r < 9 && 0 <= c < 9 && CellConsistent(g, r, c) ensures CellConsistent(h, r, c) {
      if g[r][c] != Unset {
        var w := g[r][c];
        assert h[r][c] == w;
        CanPlaceIffNoPeer(g, r, c, w);
        forall i: nat, j: nat | Peer(r, c, i, j) ensures h[i][j] != w {
          if g[i][j] == Unset {
            FilledCellDiffersFromPeers(g, h, i, j, r, c);
          } else {
            assert h[i][j] == g[i][j];
          }
        }
        CanPlaceIffNoPeer(h, r, c, w);
      }
    }
  }

  // ---------------------------------------------------------------------------
  // Rows, columns and boxes of a solved board

  /** Pairwise different entries. */
  predicate Distinct(s: seq<int>)
  {
    forall i, j :: 0 <= i < j < |s| ==> s[i] != s[j]
  }

  /** s holds each digit 1..9 exactly once. */
  predicate IsDigitPermutation(s: seq<int>)
  {
    |s| == 9 && Distinct(s) && forall d :: MinDigit <= d <= MaxDigit ==> d in s
  }

  /** Column c, top to bottom. */
  function Column(g: Grid, c: nat): (col: seq<u8>)
    requires IsGrid(g) && c < 9
    ensures |col| == 9 && forall i :: 0 <= i < 9 ==> col[i] == g[i][c]
  {
    seq(9, i requires 0 <= i < 9 => g[i][c])
  }

  /** Row (or column) offset, within its box, of the k-th cell of a box: k / 3 for k < 9. */
  function Band(k: nat): (d: nat)
    requires k < 9
    ensures d < 3 && 3 * d <= k < 3 * d + 3
  {
    if k < 3 then 0 else if k < 6 then 1 else 2
  }

  /** First column of box b (0..8, boxes numbered row-major). */
  function BoxColumn(b: nat): (s: nat)
    requires b < 9
    ensures s % 3 == 0 && s + 3 <= 9
  {
    (b % 3) * 3
  }

  /** Box b (0..8, numbered row-major), its cells row-major: cell k is at row
      BoxStart(b) + k / 3 and column BoxColumn(b) + k % 3. */
  function Box(g: Grid, b: nat): (bx: seq<u8>)
    requires IsGrid(g) && b < 9
    ensures |bx| == 9
    ensures forall k :: 0 <= k < 9 ==> bx[k] == g[BoxStart(b) + Band(k)][BoxColumn(b) + k - 3 * Band(k)]
  {
    seq(9, k requires 0 <= k < 9 => g[BoxStart(b) + Band(k)][BoxColumn(b) + k - 3 * Band(k)])
  }

  /** A sequence without repeats fits in any set holding all its entries. */
  lemma {:induction false} DistinctFits(s: seq<int>, S: set<int>)
    requires Distinct(s) && forall i :: 0 <= i < |s| ==> s[i] in S
    ensures |s| <= |S|
  {
    if s != [] {
      forall i | 0 <= i < |s| - 1 ensures s[1..][i] in S - {s[0]} {
        assert s[1..][i] == s[i + 1] != s[0];
      }
      DistinctFits(s[1..], S - {s[0]});
    }
  }

  /** Nine different digits are all nine digits. */
  lemma NineDistinctDigits(s: seq<int>)
    requires |s| == 9 && Distinct(s) && forall i :: 0 <= i < 9 ==> MinDigit <= s[i] <= MaxDigit
    ensures forall d :: MinDigit <= d <= MaxDigit ==> d in s
  {
    var digits := {1, 2, 3, 4, 5, 6, 7, 8, 9};
    assert |digits| == 9;
    forall d | MinDigit <= d <= MaxDigit ensures d in s {
      if d !in s {
        forall i | 0 <= i < 9 ensures s[i] in digits - {d} {
          assert s[i] != d;
        }
        DistinctFits(s, digits - {d});
        assert false;
      }
    }
  }

  /** A set cell that passes verify_cell differs from every peer. */
  lemma ConsistentPeersDiffer(h: Grid, r: nat, c: nat, i: nat, j: nat)
    requires IsGrid(h) && r < 9 && c < 9 && CellConsistent(h, r, c) && h[r][c] != Unset && Peer(r, c, i, j)
    ensures h[i][j] != h[r][c]
  {
    CanPlaceIffNoPeer(h, r, c, h[r][c]);
  }

  /** Two different cells of one box are peers, although the box scan alone skips box-mates
      in the same row or column: the row and column scans cover exactly those. The box starts
      at (br, bc) and the cells sit at offsets (dr, dc) and (er, ec) within it. */
  lemma BoxMatesArePeers(br: nat, bc: nat, dr: nat, dc: nat, er: nat, ec: nat)
    requires br < 9 && bc < 9 && br % 3 == 0 && bc % 3 == 0
    requires dr < 3 && dc < 3 && er < 3 && ec < 3 && (dr != er || dc != ec)
    ensures Peer(br + dr, bc + dc, br + er, bc + ec)
  {
    SameBand(br, br + dr);
    SameBand(bc, bc + dc);
    SameBand(br, br + er);
    SameBand(bc, bc + ec);
    assert BoxStart(br) == br && BoxStart(bc) == bc;
  }

  /** Cells (r, c) and (i, j) share a row, a column or a 3x3 box: the ordinary Sudoku units,
      with no regard to how the scans are written. */
  predicate SameUnit(r: nat, c: nat, i: nat, j: nat)
    requires r < 9 && c < 9 && i < 9 && j < 9
  {
    r == i || c == j || (BoxStart(r) == BoxStart(i) && BoxStart(c) == BoxStart(j))
  }

  /** The ordinary Sudoku rule on a board that may be partly filled: no two different set
      cells of one unit hold the same value. */
  predicate UnitsDistinct(g: Grid)
    requires IsGrid(g)
  {
    forall r, c, i, j ::
      (0 <= r < 9 && 0 <= c < 9 && 0 <= i < 9 && 0 <= j < 9 &&
       (r != i || c != j) && SameUnit(r, c, i, j) && g[r][c] != Unset) ==> g[r][c] != g[i][j]
  }

  /** Two different cells of one unit are exactly the cells the scans of check_cell compare. */
  lemma SameUnitIffPeer(r: nat, c: nat, i: nat, j: nat)
    requires r < 9 && c < 9 && i < 9 && j < 9
    ensures (SameUnit(r, c, i, j) && (r != i || c != j)) <==> Peer(r, c, i, j)
  {
    SameBand(r, i);
    SameBand(c, j);
  }

  /** verify accepts a board, full or partial, exactly when it obeys the Sudoku rule: the
      narrower box scan lets no repeated value in a box through. */
  lemma ConsistentIffUnitsDistinct(g: Grid)
    requires IsGrid(g)
    ensures Consistent(g) <==> UnitsDistinct(g)
  {
    if Consistent(g) {
      forall r, c, i, j | 0 <= r < 9 && 0 <= c < 9 && 0 <= i < 9 && 0 <= j < 9 &&
        (r != i || c != j) && SameUnit(r, c, i, j) && g[r][c] != Unset
        ensures g[r][c] != g[i][j]
      {
        SameUnitIffPeer(r, c, i, j);
        assert CellConsistent(g, r, c);
        ConsistentPeersDiffer(g, r, c, i, j);
      }
    }
    if UnitsDistinct(g) {
      forall r, c | 0 <= r < 9 && 0 <= c < 9 ensures CellConsistent(g, r, c) {
        if g[r][c] != Unset {
          forall i: nat, j: nat | Peer(r, c, i, j) ensures g[i][j] != g[r][c] {
            SameUnitIffPeer(r, c, i, j);
          }
          CanPlaceIffNoPeer(g, r, c, g[r][c]);
        }
      }
    }
  }

  /** On a consistent board with digits everywhere, row k is a permutation of 1..9. */
  lemma RowIsPermutation(h: Grid, k: nat)
    requires IsGrid(h) && Consistent(h) && k < 9
    requires forall r, c :: 0 <= r < 9 && 0 <= c < 9 ==> MinDigit <= h[r][c] <= MaxDigit
    ensures IsDigitPermutation(h[k])
  {
    forall x, y | 0 <= x < y < 9 ensures h[k][x] != h[k][y] {
      assert CellConsistent(h, k, x);
      ConsistentPeersDiffer(h, k, x, k, y);
    }
    NineDistinctDigits(h[k]);
  }

  /** On a consistent board with digits everywhere, column k is a permutation of 1..9. */
  lemma ColumnIsPermutation(h: Grid, k: nat)
    requires IsGrid(h) && Consistent(h) && k < 9
    requires forall r, c :: 0 <= r < 9 && 0 <= c < 9 ==> MinDigit <= h[r][c] <= MaxDigit
    ensures IsDigitPermutation(Column(h, k))
  {
    var col := Column(h, k);
    forall x, y | 0 <= x < y < 9 ensures col[x] != col[y] {
      assert CellConsistent(h, x, k);
      ConsistentPeersDiffer(h, x, k, y, k);
    }
    NineDistinctDigits(col);
  }

  /** Two different entries of box b differ when entry x is set and passes verify_cell. */
  lemma BoxEntriesDiffer(h: Grid, b: nat, x: nat, y: nat)
    requires IsGrid(h) && b < 9 && x < 9 && y < 9 && x != y
    requires Box(h, b)[x] != Unset
    requires CellConsistent(h, BoxStart(b) + Band(x), BoxColumn(b) + x - 3 * Band(x))
    ensures Box(h, b)[x] != Box(h, b)[y]
  {
    var br, bc := BoxStart(b), BoxColumn(b);
    var dr, dc, er, ec := Band(x), x - 3 * Band(x), Band(y), y - 3 * Band(y);
    assert Box(h, b)[y] == h[br + er][bc + ec];
    BoxMatesArePeers(br, bc, dr, dc, er, ec);
    ConsistentPeersDiffer(h, br + dr, bc + dc, br + er, bc + ec);
  }

  /** On a consistent board with digits everywhere, box k is a permutation of 1..9, although
      the box scan alone skips the box-mates in the same row or column. */
  lemma BoxIsPermutation(h: Grid, k: nat)
    requires IsGrid(h) && Consistent(h) && k < 9
    requires forall r, c :: 0 <= r < 9 && 0 <= c < 9 ==> MinDigit <= h[r][c] <= MaxDigit
    ensures IsDigitPermutation(Box(h, k))
  {
    var bx := Box(h, k);
    forall x, y | 0 <= x < y < 9 ensures bx[x] != bx[y] {
      assert CellConsistent(h, BoxStart(k) + Band(x), BoxColumn(k) + x - 3 * Band(x));
      BoxEntriesDiffer(h, k, x, y);
    }
    NineDistinctDigits(bx);
  }

  /** On a consistent board with digits everywhere, every row, column and box is a permutation
      of 1..9: the check_cell scans enforce all three units despite the narrower box scan. */
  lemma SolvedUnitsArePermutations(h: Grid)
    requires IsGrid(h) && Consistent(h)
    requires forall r, c :: 0 <= r < 9 && 0 <= c < 9 ==> MinDigit <= h[r][c] <= MaxDigit
    ensures forall k :: 0 <= k < 9 ==> IsDigitPermutation(h[k])
    ensures forall k :: 0 <= k < 9 ==> IsDigitPermutation(Column(h, k))
    ensures forall k :: 0 <= k < 9 ==> IsDigitPermutation(Box(h, k))
  {
    forall k | 0 <= k < 9
      ensures IsDigitPermutation(h[k]) && IsDigitPermutation(Column(h, k)) && IsDigitPermutation(Box(h, k))
    {
      RowIsPermutation(h, k);
      ColumnIsPermutation(h, k);
      BoxIsPermutation(h, k);
    }
  }

  /** What solve delivers on a consistent board of digits 0..9: when it succeeds, every row,
      column and box of the result is a permutation of 1..9. */
  lemma SolutionUnitsArePermutations(g: Grid, h: Grid)
    requires IsGrid(g) && Consistent(g) && IsSolution(g, h)
    requires forall r, c :: 0 <= r < 9 && 0 <= c < 9 ==> g[r][c] <= MaxDigit
    ensures forall k :: 0 <= k < 9 ==> IsDigitPermutation(h[k])
    ensures forall k :: 0 <= k < 9 ==> IsDigitPermutation(Column(h, k))
    ensures forall k :: 0 <= k < 9 ==> IsDigitPermutation(Box(h, k))
  {
    SolutionKeepsConsistency(g, h);
    forall r, c | 0 <= r < 9 && 0 <= c < 9 ensures MinDigit <= h[r][c] <= MaxDigit {
      assert g[r][c] == Unset || h[r][c] == g[r][c];
    }
    SolvedUnitsArePermutations(h);
  }

  // ---------------------------------------------------------------------------
  // The boards of the source's unit tests

  /** Row 0 holds 1..9, rows 1..8 hold 2..9 followed by 1. */
  function ShiftedRowsBoard(): (g: Grid)
    ensures IsGrid(g)
  {
    seq(9, r => if r == 0 then seq(9, c requires 0 <= c < 9 => c + 1)
                else seq(9, c requires 0 <= c < 9 => (c + 1) % 9 + 1))
  }

  /** verify_cell(0, 0) passes on that board (no other 1 in row 0, column 0 or its box) and
      verify_cell(1, 0) fails (the 2 at (1, 0) repeats down column 0). */
  lemma ShiftedRowsVerifyCell()
    ensures CellConsistent(ShiftedRowsBoard(), 0, 0)
    ensures !CellConsistent(ShiftedRowsBoard(), 1, 0)
  {
    var g := ShiftedRowsBoard();
    assert g[0][0] == 1 && g[1][0] == 2;
    assert forall i :: 1 <= i < 9 ==> g[i][0] == 2;
    assert forall j :: 1 <= j < 9 ==> g[0][j] == j + 1;
    assert g[1][1] == 3 && g[1][2] == 4 && g[2][1] == 3 && g[2][2] == 4;
    assert ColClash(g, 1, 0, 2) by { assert g[2][0] == 2; }
  }

  /** The second board of the full-verify unit test: the first row's 5 turned into an 8, which
      repeats the 8 at row 3 of column 0 (and the 8 at (2, 2) of the top-left box). */
  const RepeatedEightBoard: Grid :=
    [[8, 3, 0, 0, 7, 0, 0, 0, 0],
     [6, 0, 0, 1, 9, 5, 0, 0, 0],
     [0, 9, 8, 0, 0, 0, 0, 6, 0],
     [8, 0, 0, 0, 6, 0, 0, 0, 3],
     [4, 0, 0, 8, 0, 3, 0, 0, 1],
     [7, 0, 0, 0, 2, 0, 0, 0, 6],
     [0, 6, 0, 0, 0, 0, 2, 8, 0],
     [0, 0, 0, 4, 1, 9, 0, 0, 5],
     [0, 0, 0, 0, 8, 0, 0, 7, 9]]

  /** verify() rejects that board: cell (0, 0) fails verify_cell. */
  lemma RepeatedEightRejected()
    ensures IsGrid(RepeatedEightBoard)
    ensures !CellConsistent(RepeatedEightBoard, 0, 0)
    ensures !Consistent(RepeatedEightBoard)
  {
    var g := RepeatedEightBoard;
    assert ColClash(g, 0, 0, 8) by { assert g[3][0] == 8; }
  }
}
