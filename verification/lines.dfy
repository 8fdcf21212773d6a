/**
 Line detection: four cells of one owner in a row, in one of four directions.
 The detector scans candidate lines in a fixed order (horizontal, vertical,
 positive diagonal, negative diagonal; rows outer, columns inner) and reports
 the first fully owned one.
 */
module Lines {

  import opened Optional
  import opened Grid

  datatype Direction = Horizontal | Vertical | PositiveDiagonal | NegativeDiagonal

  datatype Coord = Coord(row: int, col: int)

  /** The four cells that start at (`row`, `col`) and step in direction `dir`. */
  datatype Line = Line(dir: Direction, row: int, col: int)

  /** The `i`-th cell of line `l`: horizontal steps right, vertical steps down,
      the positive diagonal steps down-right and the negative diagonal up-right. */
  function Nth(l: Line, i: int): Coord {
    match l.dir
    case Horizontal => Coord(l.row, l.col + i)
    case Vertical => Coord(l.row + i, l.col)
    case PositiveDiagonal => Coord(l.row + i, l.col + i)
    case NegativeDiagonal => Coord(l.row - i, l.col + i)
  }

  /** The cells of a line, in traversal order. */
  function Cells(l: Line): seq<Coord> {
    [Nth(l, 0), Nth(l, 1), Nth(l, 2), Nth(l, 3)]
  }

  /** The four cells of a line are pairwise distinct. */
  lemma CellsDistinct(l: Line, i: int, j: int)
    ensures Nth(l, i) == Nth(l, j) ==> i == j
  {
  }

  predicate InGrid(p: Coord) {
    0 <= p.row < Rows && 0 <= p.col < Cols
  }

  /** All four cells of `l` lie on the board. */
  predicate OnBoard(l: Line) {
    forall i :: 0 <= i < 4 ==> InGrid(Nth(l, i))
  }

  /** The loop bounds the detector uses for the start cell of each direction. */
  predicate InScanRange(l: Line) {
    match l.dir
    case Horizontal => 0 <= l.row < Rows && 0 <= l.col < Cols - 3
    case Vertical => 0 <= l.row < Rows - 3 && 0 <= l.col < Cols
    case PositiveDiagonal => 0 <= l.row < Rows - 3 && 0 <= l.col < Cols - 3
    case NegativeDiagonal => 3 <= l.row < Rows && 0 <= l.col < Cols - 3
  }

  /** The detector's loop bounds enumerate exactly the lines that fit on the board. */
  lemma ScanRangeIsOnBoard(l: Line)
    ensures OnBoard(l) <==> InScanRange(l)
  {
    if OnBoard(l) {
      assert InGrid(Nth(l, 0)) && InGrid(Nth(l, 3));
    }
  }

  /** The values held by the cells of `l`, in traversal order. */
  function Contents(b: Board, l: Line): (w: seq<int>)
    requires WellFormed(b) && OnBoard(l)
    ensures |w| == 4
  {
    seq(4, i requires 0 <= i < 4 => b[Nth(l, i).row][Nth(l, i).col])
  }

  /** Every cell of `l` holds `p`. */
  predicate Owned(b: Board, p: int, l: Line)
    requires WellFormed(b) && OnBoard(l)
  {
    forall i :: 0 <= i < 4 ==> b[Nth(l, i).row][Nth(l, i).col] == p
  }

  /** Reference definition of a win: some line on the board is owned by `p`. */
  ghost predicate HasLine(b: Board, p: int)
    requires WellFormed(b)
  {
    exists l :: OnBoard(l) && Owned(b, p, l)
  }

  function DirRank(d: Direction): int {
    match d
    case Horizontal => 0
    case Vertical => 1
    case PositiveDiagonal => 2
    case NegativeDiagonal => 3
  }

  /** Row-major order: earlier row first, then earlier column. */
  predicate RowMajorBefore(a: Line, b: Line) {
    a.row < b.row || (a.row == b.row && a.col < b.col)
  }

  /** The scan order of the detector: by direction, then row-major. */
  predicate Precedes(a: Line, b: Line) {
    DirRank(a.dir) < DirRank(b.dir) || (a.dir == b.dir && RowMajorBefore(a, b))
  }

  /**
   The detector's four loop nests visit 69 start cells: 24 horizontal
   (6 rows by 4 columns), 21 vertical (3 by 7), 12 positive diagonal (3 by 4)
   and 12 negative diagonal (rows 3 to 5 by 4 columns).
   */
  const LineCount := 69

  /**
   The line the detector examines at step `k` of its scan: the four direction
   blocks one after another, each with rows outer and columns inner.
   */
  function ScanLine(k: int): (l: Line)
    requires 0 <= k < LineCount
    ensures InScanRange(l) && OnBoard(l)
  {
    var l :=
      if k < 24 then Line(Horizontal, k / 4, k % 4)
      else if k < 45 then Line(Vertical, (k - 24) / 7, (k - 24) % 7)
      else if k < 57 then Line(PositiveDiagonal, (k - 45) / 4, (k - 45) % 4)
      else Line(NegativeDiagonal, 3 + (k - 57) / 4, (k - 57) % 4);
    ScanRangeIsOnBoard(l);
    l
  }

  /** The step at which the scan examines `l`: every line inside the loop bounds is examined. */
  function ScanIndex(l: Line): (k: int)
    requires InScanRange(l)
    ensures 0 <= k < LineCount && ScanLine(k) == l
  {
    match l.dir
    case Horizontal => 4 * l.row + l.col
    case Vertical => 24 + 7 * l.row + l.col
    case PositiveDiagonal => 45 + 4 * l.row + l.col
    case NegativeDiagonal => 57 + 4 * (l.row - 3) + l.col
  }

  /** No line is examined twice: step `k` is the step of the line it examines. */
  lemma ScanIndexOfLine(k: int)
    requires 0 <= k < LineCount
    ensures ScanIndex(ScanLine(k)) == k
  {
    var l := ScanLine(k);
    assert ScanLine(ScanIndex(l)) == l;
  }

  /** Scan steps are ordered exactly as their lines are ordered by `Precedes`. */
  lemma ScanIndexOrder(a: Line, b: Line)
    requires InScanRange(a) && InScanRange(b)
    ensures Precedes(a, b) <==> ScanIndex(a) < ScanIndex(b)
  {
  }

  /** The scan examines lines in strictly increasing order. */
  lemma ScanOrderSorted(i: int, j: int)
    requires 0 <= i < j < LineCount
    ensures Precedes(ScanLine(i), ScanLine(j))
  {
    ScanIndexOfLine(i);
    ScanIndexOfLine(j);
    ScanIndexOrder(ScanLine(i), ScanLine(j));
  }

  /** Step of the first line at or after step `k` of the scan owned by `p`, or `LineCount` if none. */
  function FirstOwnedFrom(b: Board, p: int, k: int): (i: int)
    requires WellFormed(b) && 0 <= k <= LineCount
    ensures k <= i <= LineCount
    ensures i < LineCount ==> Owned(b, p, ScanLine(i))
    ensures forall j :: k <= j < i ==> !Owned(b, p, ScanLine(j))
    decreases LineCount - k
  {
    if k == LineCount then LineCount
    else if Owned(b, p, ScanLine(k)) then k
    else FirstOwnedFrom(b, p, k + 1)
  }

  /** Step of the scan at which `winning_move` finds a line of `p`, or `LineCount` if none. */
  function FirstWinIndex(b: Board, p: int): (i: int)
    requires WellFormed(b)
    ensures 0 <= i <= LineCount
  {
    FirstOwnedFrom(b, p, 0)
  }

  /** `l` is owned by `p`, and no other owned line comes before it in scan order. */
  ghost predicate FirstLine(b: Board, p: int, l: Line)
    requires WellFormed(b)
  {
    && OnBoard(l) && Owned(b, p, l)
    && forall l' :: OnBoard(l') && Owned(b, p, l') && l' != l ==> Precedes(l, l')
  }

  /** The step at which the scan stops holds the least owned line in scan order. */
  lemma FirstWinIndexIsFirst(b: Board, p: int)
    requires WellFormed(b)
    ensures FirstWinIndex(b, p) < LineCount <==> HasLine(b, p)
    ensures FirstWinIndex(b, p) < LineCount ==> FirstLine(b, p, ScanLine(FirstWinIndex(b, p)))
  {
    var i := FirstWinIndex(b, p);
    if HasLine(b, p) {
      var l :| OnBoard(l) && Owned(b, p, l);
      ScanRangeIsOnBoard(l);
      assert ScanLine(ScanIndex(l)) == l;
    }
    if i < LineCount {
      forall l' | OnBoard(l') && Owned(b, p, l') && l' != ScanLine(i) ensures Precedes(ScanLine(i), l') {
        ScanRangeIsOnBoard(l');
        var j := ScanIndex(l');
        assert ScanLine(j) == l';
        ScanIndexOfLine(i);
        ScanIndexOrder(ScanLine(i), l');
      }
    }
  }

  /** The cells of an owned on-board line are on the grid and all hold `p`. */
  lemma OwnedCells(b: Board, p: int, l: Line)
    requires WellFormed(b) && OnBoard(l) && Owned(b, p, l)
    ensures |Cells(l)| == 4
    ensures forall i :: 0 <= i < 4 ==> InGrid(Cells(l)[i]) && b[Cells(l)[i].row][Cells(l)[i].col] == p
  {
    forall i | 0 <= i < 4 ensures InGrid(Cells(l)[i]) && b[Cells(l)[i].row][Cells(l)[i].col] == p {
      assert Cells(l)[i] == Nth(l, i);
    }
  }

  /** `winning_move`: does `p` own four in a row anywhere on the board? */
  predicate WinningMove(b: Board, p: int)
    requires WellFormed(b)
  {
    FirstWinIndex(b, p) < LineCount
  }

  /** The scan reports a win exactly when some line on the board is owned by `p`. */
  lemma WinningMoveIffHasLine(b: Board, p: int)
    requires WellFormed(b)
    ensures WinningMove(b, p) <==> HasLine(b, p)
  {
    FirstWinIndexIsFirst(b, p);
  }

  /**
   `get_winning_combination`: the cells of the first line owned by `p` in
   scan order, or None exactly when `p` has not won.
   */
  function GetWinningCombination(b: Board, p: int): (r: Option<seq<Coord>>)
    requires WellFormed(b)
    ensures r.Some? <==> WinningMove(b, p)
    ensures r.Some? <==> HasLine(b, p)
    ensures r.Some? ==> (|r.value| == 4 &&
      forall i :: 0 <= i < 4 ==> InGrid(r.value[i]) && b[r.value[i].row][r.value[i].col] == p)
    ensures r.Some? ==> exists l :: FirstLine(b, p, l) && r.value == Cells(l)
    ensures r.Some? ==> forall l :: FirstLine(b, p, l) ==> r.value == Cells(l)
  {
    FirstWinIndexIsFirst(b, p);
    var i := FirstWinIndex(b, p);
    if i < LineCount then
      var l := ScanLine(i);
      OwnedCells(b, p, l);
      FirstLineUnique(b, p, l);
      Some(Cells(l))
    else None
  }

  /** Scan order is a strict order, so the first owned line is unique. */
  lemma FirstLineUnique(b: Board, p: int, l: Line)
    requires WellFormed(b) && FirstLine(b, p, l)
    ensures forall l' :: FirstLine(b, p, l') ==> l' == l
  {
  }
}
