/**
 The heuristic evaluator: every 4-cell window of the board is scored from one
 player's point of view, and pieces in the centre column earn a bonus.
 */
module Evaluator {

  import opened Grid
  import opened Lines

  const WindowLength: int := 4
  /** Column `Cols / 2` (floor division), the centre column. */
  const CenterCol: int := Cols / 2

  /** The other player: Player for AI, and AI for anything else. */
  function Opponent(piece: int): int {
    if piece == AI then Player else AI
  }

  /** Two different values together occur at most `|w|` times in `w`. */
  lemma {:induction false} CountPairBound(w: seq<int>, a: int, b: int)
    requires a != b
    ensures multiset(w)[a] + multiset(w)[b] <= |w|
  {
    if |w| > 0 {
      CountPairBound(w[1..], a, b);
      assert w == [w[0]] + w[1..];
      assert multiset(w) == multiset([w[0]]) + multiset(w[1..]);
    }
  }

  /**
   `evaluate_window`: +100 for four of `piece`, +5 for three and an empty
   cell, +2 for two and two empty cells, and -50 added when the opponent has
   three and an empty cell. On a 4-cell window the result is one of
   100, 5, 2, 0, -50.
   */
  function EvaluateWindow(window: seq<int>, piece: int): (score: int)
    ensures |window| == WindowLength ==> score in {100, 5, 2, 0, -50}
    ensures |window| == WindowLength ==> (score == 100 <==> multiset(window)[piece] == 4)
    ensures |window| == WindowLength ==>
      (score == 5 <==> multiset(window)[piece] == 3 && multiset(window)[Empty] == 1)
    ensures |window| == WindowLength ==>
      (score == 2 <==> multiset(window)[piece] == 2 && multiset(window)[Empty] == 2)
    ensures |window| == WindowLength ==>
      (score == -50 <==> multiset(window)[Opponent(piece)] == 3 && multiset(window)[Empty] == 1)
  {
    var mine := multiset(window)[piece];
    var empty := multiset(window)[Empty];
    var gain :=
      if mine == 4 then 100
      else if mine == 3 && empty == 1 then 5
      else if mine == 2 && empty == 2 then 2
      else 0;
    var penalty := if multiset(window)[Opponent(piece)] == 3 && empty == 1 then 50 else 0;
    CountPairBound(window, piece, Opponent(piece));
    gain - penalty
  }

  /** The "three of mine" bonus and the "three of the opponent" penalty never meet in one window. */
  lemma BonusAndPenaltyExclusive(window: seq<int>, piece: int)
    requires |window| == WindowLength
    ensures !(multiset(window)[piece] == 3 && multiset(window)[Empty] == 1
              && multiset(window)[Opponent(piece)] == 3)
  {
    CountPairBound(window, piece, Opponent(piece));
  }

  /**
   The window `score_position` scores at step `k`: the 24 horizontal windows
   (rows outer), then the 21 vertical ones (columns outer, rows inner), then
   the 12 positive diagonals and the 12 negative diagonals, which start three
   rows lower and climb. Unlike the detector's scan, the vertical windows go
   column by column.
   */
  function WindowLine(k: int): (l: Line)
    requires 0 <= k < LineCount
    ensures InScanRange(l) && OnBoard(l)
  {
    var l :=
      if k < 24 then Line(Horizontal, k / 4, k % 4)
      else if k < 45 then Line(Vertical, (k - 24) % 3, (k - 24) / 3)
      else if k < 57 then Line(PositiveDiagonal, (k - 45) / 4, (k - 45) % 4)
      else Line(NegativeDiagonal, 3 + (k - 57) / 4, (k - 57) % 4);
    ScanRangeIsOnBoard(l);
    l
  }

  /** The step at which `l` is scored: every 4-cell line on the board is among the windows. */
  function WindowIndex(l: Line): (k: int)
    requires OnBoard(l)
    ensures 0 <= k < LineCount && WindowLine(k) == l
  {
    ScanRangeIsOnBoard(l);
    match l.dir
    case Horizontal => 4 * l.row + l.col
    case Vertical => 24 + 3 * l.col + l.row
    case PositiveDiagonal => 45 + 4 * l.row + l.col
    case NegativeDiagonal => 57 + 4 * (l.row - 3) + l.col
  }

  /** No window is scored twice: step `k` is the step of the window it scores. */
  lemma WindowIndexOfLine(k: int)
    requires 0 <= k < LineCount
    ensures WindowIndex(WindowLine(k)) == k
  {
    var l := WindowLine(k);
    assert WindowLine(WindowIndex(l)) == l;
  }

  /** The windows `score_position` scores, in the order it scores them. */
  function Windows(): (ls: seq<Line>)
    ensures |ls| == LineCount
    ensures forall k :: 0 <= k < LineCount ==> OnBoard(ls[k])
  {
    seq(LineCount, k requires 0 <= k < LineCount => WindowLine(k))
  }

  /** Every 4-cell line on the board is among the scored windows, at exactly one position. */
  lemma WindowsOnce(l: Line)
    requires OnBoard(l)
    ensures Windows()[WindowIndex(l)] == l
    ensures forall k :: 0 <= k < LineCount && Windows()[k] == l ==> k == WindowIndex(l)
  {
    forall k | 0 <= k < LineCount && Windows()[k] == l ensures k == WindowIndex(l) {
      WindowIndexOfLine(k);
    }
  }

  /** Sum of the scores of the windows `ls`. */
  function SumWindows(b: Board, piece: int, ls: seq<Line>): (total: int)
    requires WellFormed(b) && forall i :: 0 <= i < |ls| ==> OnBoard(ls[i])
    ensures -50 * |ls| <= total <= 100 * |ls|
  {
    if ls == [] then 0
    else EvaluateWindow(Contents(b, ls[0]), piece) + SumWindows(b, piece, ls[1..])
  }

  /** The centre column, top to bottom. */
  function CenterColumn(b: Board): (cells: seq<int>)
    requires WellFormed(b)
    ensures |cells| == Rows
  {
    seq(Rows, r requires 0 <= r < Rows => b[r][CenterCol])
  }

  /**
   `score_position`: six points per `piece` in the centre column plus the
   window scores of every window on the board. The result lies in
   [-50 * 69, 100 * 69 + 6 * 6].
   */
  function ScorePosition(b: Board, piece: int): (score: int)
    requires WellFormed(b)
    ensures -3450 <= score <= 6936
  {
    var center := multiset(CenterColumn(b))[piece];
    CountPairBound(CenterColumn(b), piece, piece + 1);
    center * 6 + SumWindows(b, piece, Windows())
  }

  /** No cell of `b` other than (`r0`, `c0`) is occupied; (`r0`, `c0`) may lie off the board. */
  predicate OccupiedOnlyAt(b: Board, r0: int, c0: int)
    requires WellFormed(b)
  {
    forall r, c :: 0 <= r < Rows && 0 <= c < Cols && (r != r0 || c != c0) ==> b[r][c] == Empty
  }

  /** The only occupied cell of `b` is (`r0`, `c0`), and it holds `piece`. */
  predicate LonePiece(b: Board, r0: int, c0: int, piece: int)
    requires WellFormed(b)
  {
    && 0 <= r0 < Rows && 0 <= c0 < Cols && piece != Empty && b[r0][c0] == piece
    && OccupiedOnlyAt(b, r0, c0)
  }

  /** A sequence with at most one occupied entry holds any one piece at most once. */
  lemma {:induction false} AtMostOnceIn(w: seq<int>, x: int)
    requires x != Empty
    requires forall i, j :: 0 <= i < |w| && 0 <= j < |w| && w[i] != Empty && w[j] != Empty ==> i == j
    ensures multiset(w)[x] <= 1
  {
    if |w| > 0 {
      var rest := w[1..];
      assert w == [w[0]] + rest;
      assert multiset(w) == multiset([w[0]]) + multiset(rest);
      if w[0] != Empty {
        forall k | 0 <= k < |rest| ensures rest[k] != x {
          assert rest[k] == w[k + 1];
        }
        assert x !in rest;
      } else {
        forall i, j | 0 <= i < |rest| && 0 <= j < |rest| && rest[i] != Empty && rest[j] != Empty
          ensures i == j
        {
          assert rest[i] == w[i + 1] && rest[j] == w[j + 1];
        }
        AtMostOnceIn(rest, x);
      }
    }
  }

  /** A window with at most one piece in it is worth nothing. */
  lemma LonePieceWindow(w: seq<int>, piece: int)
    requires |w| == WindowLength && piece != Empty
    requires forall i, j :: 0 <= i < |w| && 0 <= j < |w| && w[i] != Empty && w[j] != Empty ==> i == j
    ensures EvaluateWindow(w, piece) == 0
  {
    AtMostOnceIn(w, piece);
    AtMostOnceIn(w, Opponent(piece));
  }

  /** On a board with at most one piece, at (`r0`, `c0`), every window is worth nothing. */
  lemma {:induction false} SparseWindowsScoreZero(b: Board, piece: int, r0: int, c0: int, ls: seq<Line>)
    requires WellFormed(b) && OccupiedOnlyAt(b, r0, c0) && piece != Empty
    requires forall i :: 0 <= i < |ls| ==> OnBoard(ls[i])
    ensures SumWindows(b, piece, ls) == 0
  {
    if ls != [] {
      var l := ls[0];
      var w := Contents(b, l);
      forall i, j | 0 <= i < |w| && 0 <= j < |w| && w[i] != Empty && w[j] != Empty
        ensures i == j
      {
        assert InGrid(Nth(l, i)) && InGrid(Nth(l, j));
        CellsDistinct(l, i, j);
      }
      LonePieceWindow(w, piece);
      SparseWindowsScoreZero(b, piece, r0, c0, ls[1..]);
    }
  }

  /** The centre column holds the lone piece once if it lies there, and not at all otherwise. */
  lemma LonePieceCenter(b: Board, r0: int, c0: int, piece: int)
    requires WellFormed(b) && LonePiece(b, r0, c0, piece)
    ensures multiset(CenterColumn(b))[piece] == if c0 == CenterCol then 1 else 0
  {
    var center := CenterColumn(b);
    if c0 == CenterCol {
      assert center[r0] == piece;
      AtMostOnceIn(center, piece);
    } else {
      assert piece !in center;
    }
  }

  /** A board holding a single piece is worth 6 to its owner when the piece is in the centre column, else 0. */
  lemma LonePieceScore(b: Board, r0: int, c0: int, piece: int)
    requires WellFormed(b) && LonePiece(b, r0, c0, piece)
    ensures ScorePosition(b, piece) == if c0 == CenterCol then 6 else 0
  {
    SparseWindowsScoreZero(b, piece, r0, c0, Windows());
    LonePieceCenter(b, r0, c0, piece);
  }

  /** The centre column of a board with no pieces holds none of `piece`. */
  lemma EmptyCenter(b: Board, piece: int)
    requires WellFormed(b) && piece != Empty
    requires forall r, c :: 0 <= r < Rows && 0 <= c < Cols ==> b[r][c] == Empty
    ensures multiset(CenterColumn(b))[piece] == 0
  {
    assert piece !in CenterColumn(b);
  }

  /** A board with no pieces, such as the one `create_board` makes, scores 0 for either player. */
  lemma EmptyBoardScoresZero(b: Board, piece: int)
    requires WellFormed(b) && piece != Empty
    requires forall r, c :: 0 <= r < Rows && 0 <= c < Cols ==> b[r][c] == Empty
    ensures ScorePosition(b, piece) == 0
  {
    SparseWindowsScoreZero(b, piece, -1, -1, Windows());
    EmptyCenter(b, piece);
  }
}
