/**
 Board primitives of the drop-piece connection game (Connect Four): a grid of
 6 rows by 7 columns of integer cells, row 0 at the top and row 5 at the
 bottom. A cell holds Empty (0), Player (1) or AI (2); pieces fall to the
 lowest empty cell of a column.
 */
module Grid {

  const Rows: int := 6
  const Cols: int := 7
  const Player: int := 1
  const AI: int := 2
  const Empty: int := 0

  /** Row-major grid of cells; `b[r][c]` is the cell in row `r`, column `c`. */
  type Board = seq<seq<int>>

  /** The board has `Rows` rows of `Cols` cells each. */
  predicate WellFormed(b: Board) {
    |b| == Rows && forall r :: 0 <= r < Rows ==> |b[r]| == Cols
  }

  /** Every cell holds one of the three owners. */
  predicate ValidCells(b: Board)
    requires WellFormed(b)
  {
    forall r, c :: 0 <= r < Rows && 0 <= c < Cols ==> b[r][c] in {Empty, Player, AI}
  }

  /** Cell (`r`, `c`) is empty or rests on an occupied cell. */
  predicate Supported(b: Board, r: int, c: int)
    requires WellFormed(b) && 0 <= r < Rows - 1 && 0 <= c < Cols
  {
    b[r][c] != Empty ==> b[r + 1][c] != Empty
  }

  /** Gravity: an occupied cell never sits directly above an empty one. */
  predicate Settled(b: Board)
    requires WellFormed(b)
  {
    forall r, c :: 0 <= r < Rows - 1 && 0 <= c < Cols ==> Supported(b, r, c)
  }

  /** A fresh board: every cell Empty. */
  function CreateBoard(): (b: Board)
    ensures WellFormed(b) && ValidCells(b) && Settled(b)
    ensures forall r, c :: 0 <= r < Rows && 0 <= c < Cols ==> b[r][c] == Empty
  {
    seq(Rows, _ => seq(Cols, _ => Empty))
  }

  /** A move into `col` is legal when the top cell of that column is empty. */
  predicate IsValidLocation(b: Board, col: int)
    requires WellFormed(b) && 0 <= col < Cols
  {
    b[0][col] == Empty
  }

  /** Scans column `col` from row `r` upwards and returns the first empty row met, or -1. */
  function OpenRowFrom(b: Board, col: int, r: int): (row: int)
    requires WellFormed(b) && 0 <= col < Cols && -1 <= r < Rows
    ensures -1 <= row <= r
    ensures row >= 0 ==> b[row][col] == Empty
    ensures forall k :: row < k <= r ==> b[k][col] != Empty
    decreases r + 1
  {
    if r < 0 then -1
    else if b[r][col] == Empty then r
    else OpenRowFrom(b, col, r - 1)
  }

  /** The lowest empty row of column `col` (the largest row index), or -1 when the column is full. */
  function GetNextOpenRow(b: Board, col: int): (row: int)
    requires WellFormed(b) && 0 <= col < Cols
    ensures -1 <= row < Rows
    ensures row >= 0 ==> b[row][col] == Empty && forall k :: row < k < Rows ==> b[k][col] != Empty
    ensures row == -1 <==> forall k :: 0 <= k < Rows ==> b[k][col] != Empty
  {
    OpenRowFrom(b, col, Rows - 1)
  }

  /** Puts `piece` into cell (`row`, `col`); nothing else changes. */
  function DropPiece(b: Board, row: int, col: int, piece: int): (b': Board)
    requires WellFormed(b) && 0 <= row < Rows && 0 <= col < Cols
    ensures WellFormed(b')
    ensures b'[row][col] == piece
    ensures forall r, c :: 0 <= r < Rows && 0 <= c < Cols && (r != row || c != col) ==> b'[r][c] == b[r][c]
  {
    b[row := b[row][col := piece]]
  }

  /** The valid columns among `c`, `c+1`, ..., `Cols-1`, in ascending order. */
  function ValidFrom(b: Board, c: int): seq<int>
    requires WellFormed(b) && 0 <= c <= Cols
    decreases Cols - c
  {
    if c == Cols then []
    else if IsValidLocation(b, c) then [c] + ValidFrom(b, c + 1)
    else ValidFrom(b, c + 1)
  }

  /** `ValidFrom(b, c)` lists exactly the valid columns from `c` on, strictly ascending. */
  lemma {:induction false} ValidFromSpec(b: Board, c: int)
    requires WellFormed(b) && 0 <= c <= Cols
    ensures forall x :: x in ValidFrom(b, c) <==> c <= x < Cols && IsValidLocation(b, x)
    ensures forall i, j :: 0 <= i < j < |ValidFrom(b, c)| ==> ValidFrom(b, c)[i] < ValidFrom(b, c)[j]
    decreases Cols - c
  {
    if c < Cols {
      var rest := ValidFrom(b, c + 1);
      ValidFromSpec(b, c + 1);
      assert forall j :: 0 <= j < |rest| ==> rest[j] in rest;
    }
  }

  /** Every column whose top cell is empty, strictly ascending. */
  function GetValidLocations(b: Board): (cols: seq<int>)
    requires WellFormed(b)
    ensures forall x :: x in cols <==> 0 <= x < Cols && IsValidLocation(b, x)
    ensures forall i, j :: 0 <= i < j < |cols| ==> cols[i] < cols[j]
    ensures forall i :: 0 <= i < |cols| ==> 0 <= cols[i] < Cols && IsValidLocation(b, cols[i])
    ensures |cols| <= Cols
  {
    var cols := ValidFrom(b, 0);
    ValidFromSpec(b, 0);
    assert forall i :: 0 <= i < |cols| ==> cols[i] in cols;
    AscendingBounded(cols, 0, Cols);
    cols
  }

  /** A strictly ascending sequence drawn from [lo, hi) has at most hi - lo elements. */
  lemma {:induction false} AscendingBounded(s: seq<int>, lo: int, hi: int)
    requires forall x :: x in s ==> lo <= x < hi
    requires forall i, j :: 0 <= i < j < |s| ==> s[i] < s[j]
    ensures |s| <= if hi < lo then 0 else hi - lo
  {
    if |s| > 0 {
      assert s[0] in s;
      forall x | x in s[1..] ensures s[0] + 1 <= x < hi {
        var k :| 0 <= k < |s[1..]| && s[1..][k] == x;
        assert s[k + 1] == x && x in s;
      }
      AscendingBounded(s[1..], s[0] + 1, hi);
    }
  }

  /** Under gravity, an occupied cell has only occupied cells below it. */
  lemma {:induction false} OccupiedBelow(b: Board, col: int, k: int)
    requires WellFormed(b) && Settled(b) && 0 <= col < Cols && 0 <= k < Rows
    requires b[k][col] != Empty
    ensures forall j :: k <= j < Rows ==> b[j][col] != Empty
    decreases Rows - k
  {
    if k < Rows - 1 {
      assert Supported(b, k, col);
      OccupiedBelow(b, col, k + 1);
    }
  }

  /** On a settled board a column is playable exactly when it has an open row. */
  lemma ValidIffOpenRow(b: Board, col: int)
    requires WellFormed(b) && Settled(b) && 0 <= col < Cols
    ensures IsValidLocation(b, col) <==> GetNextOpenRow(b, col) != -1
  {
    if !IsValidLocation(b, col) {
      OccupiedBelow(b, col, 0);
    }
  }

  /**
   Dropping a piece into the next open row keeps the board settled and its
   cells valid, and the next open row of that column moves up by one (to -1
   once row 0 is filled).
   */
  lemma DropKeepsGravity(b: Board, col: int, piece: int)
    requires WellFormed(b) && Settled(b) && 0 <= col < Cols && IsValidLocation(b, col)
    requires piece != Empty
    ensures GetNextOpenRow(b, col) >= 0
    ensures var b' := DropPiece(b, GetNextOpenRow(b, col), col, piece);
      && Settled(b')
      && GetNextOpenRow(b', col) == GetNextOpenRow(b, col) - 1
      && (ValidCells(b) && piece in {Player, AI} ==> ValidCells(b'))
  {
    var row := GetNextOpenRow(b, col);
    var b' := DropPiece(b, row, col, piece);
    if row > 0 {
      assert Supported(b, row - 1, col);
    }
    forall r, c | 0 <= r < Rows - 1 && 0 <= c < Cols ensures Supported(b', r, c) {
      assert Supported(b, r, c);
    }
  }
}
