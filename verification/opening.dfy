/**
 The first move of a game: on an empty board a one-ply search by AI picks
 the centre column. Each first drop lands on the bottom row, no window holds
 two pieces, so only the centre-column bonus separates the columns.
 */
module Opening {

  import opened Optional
  import opened Grid
  import opened Lines
  import opened Evaluator
  import opened Search

  /** No cell of `b` is occupied. */
  predicate NoPieces(b: Board)
    requires WellFormed(b)
  {
    forall r, c :: 0 <= r < Rows && 0 <= c < Cols ==> b[r][c] == Empty
  }

  /** On an empty board every column from `c` on is playable. */
  lemma {:induction false} AllValidFrom(b: Board, c: int)
    requires WellFormed(b) && NoPieces(b) && 0 <= c <= Cols
    ensures |ValidFrom(b, c)| == Cols - c
    ensures forall i :: 0 <= i < Cols - c ==> ValidFrom(b, c)[i] == c + i
    decreases Cols - c
  {
    if c < Cols {
      assert IsValidLocation(b, c);
      AllValidFrom(b, c + 1);
    }
  }

  /** On an empty board the playable columns are 0, 1, ..., 6. */
  lemma OpeningColumns(b: Board)
    requires WellFormed(b) && NoPieces(b)
    ensures |GetValidLocations(b)| == Cols
    ensures forall i :: 0 <= i < Cols ==> GetValidLocations(b)[i] == i
  {
    AllValidFrom(b, 0);
  }

  /** A board with a single piece has no line for anyone. */
  lemma LonePieceNoLine(b: Board, r0: int, c0: int, piece: int, p: int)
    requires WellFormed(b) && LonePiece(b, r0, c0, piece) && p != Empty
    ensures !HasLine(b, p)
  {
    if HasLine(b, p) {
      var l :| OnBoard(l) && Owned(b, p, l);
      assert InGrid(Nth(l, 0)) && InGrid(Nth(l, 1));
      CellsDistinct(l, 0, 1);
      assert false;
    }
  }

  /** AI's first drop into column `c` of an empty board leaves a lone AI piece on the bottom row. */
  lemma FirstDrop(b: Board, c: int)
    requires WellFormed(b) && NoPieces(b) && 0 <= c < Cols
    ensures IsValidLocation(b, c)
    ensures LonePiece(Child(b, c, AI), Rows - 1, c, AI)
  {
    assert IsValidLocation(b, c);
    ChildPlacesPiece(b, c, AI);
  }

  /** After AI's first drop into column `c`, the position is worth 6 if `c` is the centre column and 0 otherwise. */
  lemma FirstDropValue(b: Board, c: int, alpha: Ext)
    requires WellFormed(b) && NoPieces(b) && 0 <= c < Cols
    ensures IsValidLocation(b, c)
    ensures Minimax(Child(b, c, AI), 0, alpha, PosInf, false).value == if c == CenterCol then 6 else 0
  {
    FirstDrop(b, c);
    var kid := Child(b, c, AI);
    LonePieceScore(kid, Rows - 1, c, AI);
    LonePieceNoLine(kid, Rows - 1, c, AI, AI);
    LonePieceNoLine(kid, Rows - 1, c, AI, Player);
    assert IsValidLocation(kid, 0);
    TerminalMeaning(kid);
    MinimaxShape(kid, 0, alpha, PosInf, false);
    LeafValueMeaning(kid);
  }

  /** A board with no pieces has no line for anyone. */
  lemma NoPiecesNoLine(b: Board, p: int)
    requires WellFormed(b) && NoPieces(b) && p != Empty
    ensures !HasLine(b, p)
  {
    forall l | OnBoard(l) ensures !Owned(b, p, l) {
      assert InGrid(Nth(l, 0));
    }
  }

  /** An empty board is not a finished game. */
  lemma EmptyNotTerminal(b: Board)
    requires WellFormed(b) && NoPieces(b)
    ensures !IsTerminalNode(b)
  {
    TerminalMeaning(b);
    assert IsValidLocation(b, 0);
    NoPiecesNoLine(b, AI);
    NoPiecesNoLine(b, Player);
  }

  /** The trace of a depth-1 search of an empty board: columns 0..6 in order, only the centre scoring, 6. */
  predicate OpeningTrace(visits: seq<Visit>) {
    && |visits| == Cols
    && forall i :: 0 <= i < Cols ==>
         visits[i].col == i && visits[i].score == if i == CenterCol then 6 else 0
  }

  /**
   When the columns 0..6 were visited in order and only the centre scored 6,
   the first column reaching a value no visit exceeds is the centre.
   */
  lemma CenterFirst(visits: seq<Visit>, v: int, c: int)
    requires OpeningTrace(visits)
    requires forall i :: 0 <= i < |visits| ==> visits[i].score <= v
    requires FirstWith(visits, v, c)
    ensures c == CenterCol
  {
    var k :| 0 <= k < |visits| && visits[k].col == c && visits[k].score == v
      && forall j :: 0 <= j < k ==> visits[j].score != v;
    assert visits[CenterCol].score <= v;
  }

  /** The `i`-th column a depth-1 search of an empty board visits is column `i`, scoring 6 at the centre and 0 elsewhere. */
  lemma OpeningVisit(b: Board, depth: nat, i: int)
    requires WellFormed(b) && NoPieces(b) && depth == 1 && 0 <= i < Cols
    ensures !IsTerminalNode(b)
    ensures var r := Minimax(b, depth, NegInf, PosInf, true);
      && |r.visits| == Cols
      && r.visits[i].col == i && r.visits[i].score == if i == CenterCol then 6 else 0
  {
    EmptyNotTerminal(b);
    OpeningColumns(b);
    RootVisits(b, depth);
    var r := Minimax(b, depth, NegInf, PosInf, true);
    FirstDropValue(b, i, r.visits[i].alpha);
  }

  /** A depth-1 search of an empty board visits columns 0..6 in order; only the centre drop scores, 6. */
  lemma OpeningScores(b: Board, depth: nat)
    requires WellFormed(b) && NoPieces(b) && depth == 1
    ensures !IsTerminalNode(b)
    ensures OpeningTrace(Minimax(b, depth, NegInf, PosInf, true).visits)
  {
    OpeningVisit(b, depth, 0);
    forall i | 0 <= i < Cols
      ensures var r := Minimax(b, depth, NegInf, PosInf, true);
        r.visits[i].col == i && r.visits[i].score == if i == CenterCol then 6 else 0
    {
      OpeningVisit(b, depth, i);
    }
  }

  /** What the depth-1 search of an empty board records: the opening trace, its best value, and the first column reaching it. */
  lemma OpeningSearch(b: Board, depth: nat) returns (visits: seq<Visit>, value: int, column: int)
    requires WellFormed(b) && NoPieces(b) && depth == 1
    ensures GetAiMove(b, depth) == Some(column)
    ensures OpeningTrace(visits)
    ensures forall i :: 0 <= i < |visits| ==> visits[i].score <= value
    ensures FirstWith(visits, value, column)
  {
    OpeningScores(b, depth);
    RootIsBest(b, depth);
    RootFirstBest(b, depth);
    var r := Minimax(b, depth, NegInf, PosInf, true);
    visits, value, column := r.visits, r.value, r.column.value;
  }

  /**
   On an empty board, such as the one `create_board` makes, a depth-1 search
   picks column 3: the centre drop is worth 6, every other drop 0, and the
   first column reaching the best value wins.
   */
  lemma OpeningMove(b: Board)
    requires WellFormed(b) && NoPieces(b)
    ensures GetAiMove(b, 1) == Some(CenterCol)
  {
    var visits, value, column := OpeningSearch(b, 1);
    CenterFirst(visits, value, column);
  }

  /** `get_ai_move(create_board(), 1)` is column 3. */
  lemma FreshGameOpening()
    ensures GetAiMove(CreateBoard(), 1) == Some(CenterCol)
  {
    OpeningMove(CreateBoard());
  }
}
