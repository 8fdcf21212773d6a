/**
 Depth-bounded minimax with alpha-beta pruning. AI is the maximizing side;
 leaves are scored +1000000 for an AI line, -1000000 for a Player line, 0 for
 a full board, and otherwise by the heuristic from AI's point of view.
 */
module Search {

  import opened Optional
  import opened Grid
  import opened Lines
  import opened Evaluator

  /** Magnitude of a decided game; it dominates every heuristic score. */
  const WinScore: int := 1000000

  /** Integers extended with the two infinities used as alpha-beta sentinels. */
  datatype Ext = NegInf | Fin(n: int) | PosInf

  predicate Le(a: Ext, b: Ext) {
    a == NegInf || b == PosInf || (a.Fin? && b.Fin? && a.n <= b.n)
  }

  predicate Lt(a: Ext, b: Ext) {
    Le(a, b) && a != b
  }

  function Max(a: Ext, b: Ext): Ext {
    if Le(a, b) then b else a
  }

  function Min(a: Ext, b: Ext): Ext {
    if Le(a, b) then a else b
  }

  /** The starting best value of a node: the worst value for the side to move. */
  function Worst(maximizing: bool): Ext {
    if maximizing then NegInf else PosInf
  }

  /** `after` is strictly better than `before` for the side to move. */
  predicate Improves(maximizing: bool, before: Ext, after: Ext) {
    if maximizing then Lt(before, after) else Lt(after, before)
  }

  /** `x` is no better than `bound` for the side to move. */
  predicate NoBetter(maximizing: bool, x: Ext, bound: Ext) {
    if maximizing then Le(x, bound) else Le(bound, x)
  }

  /** The piece the side to move drops: AI when maximizing, Player otherwise. */
  function Mover(maximizing: bool): int {
    if maximizing then AI else Player
  }

  /** `is_terminal_node`: someone has four in a row, or no column is playable. */
  predicate IsTerminalNode(b: Board)
    requires WellFormed(b)
  {
    WinningMove(b, Player) || WinningMove(b, AI) || |GetValidLocations(b)| == 0
  }

  /** A node is terminal exactly when a line exists for either side or every column is full. */
  lemma TerminalMeaning(b: Board)
    requires WellFormed(b)
    ensures IsTerminalNode(b) <==>
      HasLine(b, Player) || HasLine(b, AI) || forall c :: 0 <= c < Cols ==> !IsValidLocation(b, c)
  {
    WinningMoveIffHasLine(b, Player);
    WinningMoveIffHasLine(b, AI);
    var valid := GetValidLocations(b);
    if |valid| > 0 {
      assert valid[0] in valid;
    }
  }

  /** The board after the side to move drops `piece` into the playable column `col`. */
  function Child(b: Board, col: int, piece: int): (b': Board)
    requires WellFormed(b) && 0 <= col < Cols && IsValidLocation(b, col)
    ensures WellFormed(b')
  {
    var row := GetNextOpenRow(b, col);
    assert b[0][col] == Empty;
    DropPiece(b, row, col, piece)
  }

  /**
   The score of a node that is not expanded (depth exhausted or game over):
   an AI line wins first, then a Player line loses, a full board is a draw,
   and any other board gets the heuristic, which lies strictly between.
   */
  function LeafValue(b: Board): (v: int)
    requires WellFormed(b)
    ensures -WinScore <= v <= WinScore
  {
    if IsTerminalNode(b) then
      if WinningMove(b, AI) then WinScore
      else if WinningMove(b, Player) then -WinScore
      else 0
    else ScorePosition(b, AI)
  }

  /**
   Terminal scores dominate: a leaf is worth +1000000 exactly when AI has a
   line, -1000000 exactly when only Player has one, 0 on a full board with no
   line, and the heuristic, strictly between the two, otherwise.
   */
  lemma LeafValueMeaning(b: Board)
    requires WellFormed(b)
    ensures LeafValue(b) == WinScore <==> HasLine(b, AI)
    ensures LeafValue(b) == -WinScore <==> !HasLine(b, AI) && HasLine(b, Player)
    ensures IsTerminalNode(b) && !HasLine(b, AI) && !HasLine(b, Player) ==>
      LeafValue(b) == 0 && GetValidLocations(b) == []
    ensures !IsTerminalNode(b) ==>
      LeafValue(b) == ScorePosition(b, AI) && -WinScore < LeafValue(b) < WinScore
  {
    WinningMoveIffHasLine(b, Player);
    WinningMoveIffHasLine(b, AI);
  }

  /** One iteration of the search loop: the column tried, the window it was searched with, the score it returned. */
  datatype Visit = Visit(col: int, alpha: Ext, beta: Ext, score: int)

  /** What the search loop ends with: best column, best value, and the columns it visited. */
  datatype LoopResult = LoopResult(column: int, value: Ext, visits: seq<Visit>)

  /** What `minimax` returns (column None at a leaf), with the visited columns of the root loop. */
  datatype SearchResult = SearchResult(column: Option<int>, value: int, visits: seq<Visit>)

  /** Column `c` is the first visited column whose score is `v`. */
  ghost predicate FirstWith(visits: seq<Visit>, v: int, c: int) {
    exists i :: 0 <= i < |visits| && visits[i].col == c && visits[i].score == v
      && forall j :: 0 <= j < i ==> visits[j].score != v
  }

  /** The loop state after one child: best column and value, and the bounds. */
  datatype Step = Step(column: int, value: Ext, alpha: Ext, beta: Ext)

  /**
   One loop iteration after child `col` returned `score`: the child replaces the
   best only when strictly better for the side to move, then the side's own
   bound moves to the best value.
   */
  function Update(maximizing: bool, alpha: Ext, beta: Ext, column: int, value: Ext,
                  col: int, score: int): (s: Step)
    ensures s.column == column || s.column == col
    ensures s.value == value || (s.value == Fin(score) && s.column == col)
    ensures Improves(maximizing, value, Fin(score)) ==> s.column == col && s.value == Fin(score)
    ensures !Improves(maximizing, value, Fin(score)) ==> s.column == column && s.value == value
    ensures Improves(maximizing, value, Fin(score)) <==> s.value != value
    ensures NoBetter(maximizing, value, s.value) && NoBetter(maximizing, Fin(score), s.value)
    ensures maximizing ==> s.alpha == Max(alpha, s.value) && s.beta == beta
    ensures !maximizing ==> s.beta == Min(beta, s.value) && s.alpha == alpha
  {
    var improves := Improves(maximizing, value, Fin(score));
    var column' := if improves then col else column;
    var value' := if improves then Fin(score) else value;
    if maximizing then Step(column', value', Max(alpha, value'), beta)
    else Step(column', value', alpha, Min(beta, value'))
  }

  /**
   The loop over the remaining columns `cols` of a node, with current bounds
   `alpha`, `beta` and the best `column` and `value` found so far; it stops
   once `alpha >= beta`. `child(c, a, b)` is the value of the child reached by
   playing `c`, searched with the window `a`, `b`.
   */
  function SearchColumns(maximizing: bool, cols: seq<int>, alpha: Ext, beta: Ext,
                         column: int, value: Ext, child: (int, Ext, Ext) -> int): (r: LoopResult)
    requires forall c, a, b :: -WinScore <= child(c, a, b) <= WinScore
    ensures |cols| > 0 ==> |r.visits| > 0
    ensures |r.visits| <= |cols|
    ensures r.column == column || r.column in cols
    ensures r.value == value || (r.value.Fin? && -WinScore <= r.value.n <= WinScore)
    ensures |cols| > 0 && value == Worst(maximizing) ==> r.value.Fin?
  {
    if |cols| == 0 then LoopResult(column, value, [])
    else
      var col := cols[0];
      var score := child(col, alpha, beta);
      var s := Update(maximizing, alpha, beta, column, value, col, score);
      var visit := Visit(col, alpha, beta, score);
      if Le(s.beta, s.alpha) then LoopResult(s.column, s.value, [visit])
      else
        var rest := SearchColumns(maximizing, cols[1..], s.alpha, s.beta, s.column, s.value, child);
        LoopResult(rest.column, rest.value, [visit] + rest.visits)
  }

  /**
   The loop visits a prefix of `cols` in order, each visit recording the value
   `child` returned for that column and window; the first child gets the
   loop's own window, and a maximising loop never changes beta.
   */
  lemma {:induction false} SearchColumnsVisits(maximizing: bool, cols: seq<int>, alpha: Ext, beta: Ext,
                                               column: int, value: Ext, child: (int, Ext, Ext) -> int)
    requires forall c, a, b :: -WinScore <= child(c, a, b) <= WinScore
    ensures var r := SearchColumns(maximizing, cols, alpha, beta, column, value, child);
      forall i :: 0 <= i < |r.visits| ==>
        r.visits[i].col == cols[i] && r.visits[i].score == child(cols[i], r.visits[i].alpha, r.visits[i].beta)
    ensures var r := SearchColumns(maximizing, cols, alpha, beta, column, value, child);
      |r.visits| > 0 ==> r.visits[0].alpha == alpha && r.visits[0].beta == beta
    ensures var r := SearchColumns(maximizing, cols, alpha, beta, column, value, child);
      maximizing ==> forall i :: 0 <= i < |r.visits| ==> r.visits[i].beta == beta
  {
    if |cols| > 0 {
      var col := cols[0];
      var score := child(col, alpha, beta);
      var s := Update(maximizing, alpha, beta, column, value, col, score);
      var visit := Visit(col, alpha, beta, score);
      var r := SearchColumns(maximizing, cols, alpha, beta, column, value, child);
      if !Le(s.beta, s.alpha) {
        SearchColumnsVisits(maximizing, cols[1..], s.alpha, s.beta, s.column, s.value, child);
        var rest := SearchColumns(maximizing, cols[1..], s.alpha, s.beta, s.column, s.value, child);
        assert r.visits == [visit] + rest.visits;
        forall i | 1 <= i < |r.visits|
          ensures r.visits[i].col == cols[i]
          ensures r.visits[i].score == child(cols[i], r.visits[i].alpha, r.visits[i].beta)
          ensures maximizing ==> r.visits[i].beta == beta
        {
          assert r.visits[i] == rest.visits[i - 1];
        }
      }
    }
  }


  /**
   The alpha-beta cut-off: every child after the first is searched with a
   window that is still open (`alpha < beta`), and a loop that stops before
   the last column stops because the step after its last visit closed the
   window.
   */
  lemma {:induction false} SearchColumnsCutoff(maximizing: bool, cols: seq<int>, alpha: Ext, beta: Ext,
                                               column: int, value: Ext, child: (int, Ext, Ext) -> int)
    requires forall c, a, b :: -WinScore <= child(c, a, b) <= WinScore
    ensures var r := SearchColumns(maximizing, cols, alpha, beta, column, value, child);
      forall i :: 1 <= i < |r.visits| ==> !Le(r.visits[i].beta, r.visits[i].alpha)
    ensures var r := SearchColumns(maximizing, cols, alpha, beta, column, value, child);
      0 < |r.visits| < |cols| ==>
        var last := r.visits[|r.visits| - 1];
        if maximizing then Le(last.beta, Max(last.alpha, r.value))
        else Le(Min(last.beta, r.value), last.alpha)
  {
    if |cols| > 0 {
      var col := cols[0];
      var score := child(col, alpha, beta);
      var s := Update(maximizing, alpha, beta, column, value, col, score);
      var visit := Visit(col, alpha, beta, score);
      var r := SearchColumns(maximizing, cols, alpha, beta, column, value, child);
      if !Le(s.beta, s.alpha) {
        var rest := SearchColumns(maximizing, cols[1..], s.alpha, s.beta, s.column, s.value, child);
        SearchColumnsCutoff(maximizing, cols[1..], s.alpha, s.beta, s.column, s.value, child);
        SearchColumnsVisits(maximizing, cols[1..], s.alpha, s.beta, s.column, s.value, child);
        assert r.visits == [visit] + rest.visits;
        forall i | 1 <= i < |r.visits| ensures !Le(r.visits[i].beta, r.visits[i].alpha) {
          assert r.visits[i] == rest.visits[i - 1];
        }
        if 0 < |r.visits| < |cols| {
          assert r.visits[|r.visits| - 1] == rest.visits[|rest.visits| - 1];
        }
      }
    }
  }

  /**
   How the window narrows from one child to the next, when the loop starts no
   better than its own bound (as it does from the worst value): a maximising
   loop raises alpha to the previous child's score if that is larger and keeps
   beta; a minimising loop lowers beta to the previous child's score if that is
   smaller and keeps alpha.
   */
  lemma {:induction false} SearchColumnsWindows(maximizing: bool, cols: seq<int>, alpha: Ext, beta: Ext,
                                                column: int, value: Ext, child: (int, Ext, Ext) -> int)
    requires forall c, a, b :: -WinScore <= child(c, a, b) <= WinScore
    requires NoBetter(maximizing, value, if maximizing then alpha else beta)
    ensures var r := SearchColumns(maximizing, cols, alpha, beta, column, value, child);
      forall i :: 0 <= i < |r.visits| - 1 ==>
        if maximizing then
          r.visits[i + 1].alpha == Max(r.visits[i].alpha, Fin(r.visits[i].score))
          && r.visits[i + 1].beta == r.visits[i].beta
        else
          r.visits[i + 1].beta == Min(r.visits[i].beta, Fin(r.visits[i].score))
          && r.visits[i + 1].alpha == r.visits[i].alpha
  {
    if |cols| > 0 {
      var col := cols[0];
      var score := child(col, alpha, beta);
      var s := Update(maximizing, alpha, beta, column, value, col, score);
      var visit := Visit(col, alpha, beta, score);
      var r := SearchColumns(maximizing, cols, alpha, beta, column, value, child);
      if !Le(s.beta, s.alpha) {
        var rest := SearchColumns(maximizing, cols[1..], s.alpha, s.beta, s.column, s.value, child);
        SearchColumnsWindows(maximizing, cols[1..], s.alpha, s.beta, s.column, s.value, child);
        SearchColumnsVisits(maximizing, cols[1..], s.alpha, s.beta, s.column, s.value, child);
        assert r.visits == [visit] + rest.visits;
        if |rest.visits| > 0 {
          if maximizing {
            assert s.alpha == Max(alpha, Fin(score));
          } else {
            assert s.beta == Min(beta, Fin(score));
          }
        }
        forall i | 1 <= i < |r.visits| - 1
          ensures if maximizing then
              r.visits[i + 1].alpha == Max(r.visits[i].alpha, Fin(r.visits[i].score))
              && r.visits[i + 1].beta == r.visits[i].beta
            else
              r.visits[i + 1].beta == Min(r.visits[i].beta, Fin(r.visits[i].score))
              && r.visits[i + 1].alpha == r.visits[i].alpha
        {
          assert r.visits[i] == rest.visits[i - 1] && r.visits[i + 1] == rest.visits[i];
        }
      }
    }
  }

  /** Putting a visit with a different score in front keeps the first visit with score `v`. */
  lemma FirstWithCons(visit: Visit, visits: seq<Visit>, v: int, c: int)
    requires FirstWith(visits, v, c) && visit.score != v
    ensures FirstWith([visit] + visits, v, c)
  {
    var i :| 0 <= i < |visits| && visits[i].col == c && visits[i].score == v
      && forall j :: 0 <= j < i ==> visits[j].score != v;
    var all := [visit] + visits;
    assert all[i + 1] == visits[i];
    forall j | 0 <= j < i + 1
      ensures all[j].score != v
    {
      if j > 0 {
        assert all[j] == visits[j - 1];
      }
    }
  }

  /**
   The loop's result relative to its starting best `value` and `column`:
   either unchanged, or a strictly better value that is the score of the first
   visit to reach it; no visit scores better than the result.
   */
  ghost predicate FirstBest(maximizing: bool, column: int, value: Ext, r: LoopResult) {
    ((r.value == value && r.column == column) ||
     (Improves(maximizing, value, r.value) && r.value.Fin? && FirstWith(r.visits, r.value.n, r.column))) &&
    forall i :: 0 <= i < |r.visits| ==> NoBetter(maximizing, Fin(r.visits[i].score), r.value)
  }

  /** One loop iteration followed by the rest of the loop keeps `FirstBest`. */
  lemma FirstBestCons(maximizing: bool, column: int, value: Ext, visit: Visit, rest: LoopResult)
    requires FirstBest(maximizing, Update(maximizing, visit.alpha, visit.beta, column, value, visit.col, visit.score).column,
                       Update(maximizing, visit.alpha, visit.beta, column, value, visit.col, visit.score).value, rest)
    ensures FirstBest(maximizing, column, value, LoopResult(rest.column, rest.value, [visit] + rest.visits))
  {
    var s := Update(maximizing, visit.alpha, visit.beta, column, value, visit.col, visit.score);
    var all := [visit] + rest.visits;
    assert all[0] == visit;
    if rest.value != s.value {
      FirstWithCons(visit, rest.visits, rest.value.n, rest.column);
    } else if s.value != value {
      assert FirstWith(all, visit.score, visit.col);
    }
    forall i | 1 <= i < |all|
      ensures NoBetter(maximizing, Fin(all[i].score), rest.value)
    {
      assert all[i] == rest.visits[i - 1];
    }
  }

  /**
   The tie-break of the loop: the best value only changes on a strictly better
   child, so when the result differs from the starting best it is the score of
   a visited child, the returned column is the FIRST visited column with that
   score, and no visited child scores better.
   */
  lemma {:induction false} SearchColumnsFirstBest(maximizing: bool, cols: seq<int>, alpha: Ext, beta: Ext,
                                                  column: int, value: Ext, child: (int, Ext, Ext) -> int)
    requires forall c, a, b :: -WinScore <= child(c, a, b) <= WinScore
    ensures FirstBest(maximizing, column, value, SearchColumns(maximizing, cols, alpha, beta, column, value, child))
  {
    if |cols| > 0 {
      var col := cols[0];
      var score := child(col, alpha, beta);
      var s := Update(maximizing, alpha, beta, column, value, col, score);
      var visit := Visit(col, alpha, beta, score);
      if Le(s.beta, s.alpha) {
        FirstBestCons(maximizing, column, value, visit, LoopResult(s.column, s.value, []));
        assert [visit] + [] == [visit];
      } else {
        SearchColumnsFirstBest(maximizing, cols[1..], s.alpha, s.beta, s.column, s.value, child);
        FirstBestCons(maximizing, column, value, visit,
                      SearchColumns(maximizing, cols[1..], s.alpha, s.beta, s.column, s.value, child));
      }
    }
  }

  /**
   At an AI node whose window is open above (beta is +infinity) nothing is ever
   cut off, so every column in `cols` is visited.
   */
  lemma {:induction false} MaximizingVisitsAll(cols: seq<int>, alpha: Ext, column: int, value: Ext,
                                               child: (int, Ext, Ext) -> int)
    requires forall c, a, b :: -WinScore <= child(c, a, b) <= WinScore
    requires alpha != PosInf && value != PosInf
    ensures |SearchColumns(true, cols, alpha, PosInf, column, value, child).visits| == |cols|
  {
    if |cols| > 0 {
      var s := Update(true, alpha, PosInf, column, value, cols[0], child(cols[0], alpha, PosInf));
      assert s.alpha != PosInf;
      MaximizingVisitsAll(cols[1..], s.alpha, s.column, s.value, child);
    }
  }

  /**
   The initial column of a loop started from the worst value never survives:
   the first child always improves on it, so any starting column gives the
   same result.
   */
  lemma InitialColumnIrrelevant(maximizing: bool, cols: seq<int>, alpha: Ext, beta: Ext,
                                column1: int, column2: int, child: (int, Ext, Ext) -> int)
    requires forall c, a, b :: -WinScore <= child(c, a, b) <= WinScore
    requires |cols| > 0
    ensures SearchColumns(maximizing, cols, alpha, beta, column1, Worst(maximizing), child)
         == SearchColumns(maximizing, cols, alpha, beta, column2, Worst(maximizing), child)
  {
    var score := child(cols[0], alpha, beta);
    assert Improves(maximizing, Worst(maximizing), Fin(score));
    assert Update(maximizing, alpha, beta, column1, Worst(maximizing), cols[0], score)
        == Update(maximizing, alpha, beta, column2, Worst(maximizing), cols[0], score);
  }

  /**
   An AI loop started from -infinity ends on a finite value that no visited
   child beats, reached first by the returned column.
   */
  lemma MaximizingFromWorst(cols: seq<int>, alpha: Ext, beta: Ext, column: int, child: (int, Ext, Ext) -> int)
    requires forall c, a, b :: -WinScore <= child(c, a, b) <= WinScore
    requires |cols| > 0
    ensures var r := SearchColumns(true, cols, alpha, beta, column, NegInf, child);
      && r.value.Fin?
      && FirstWith(r.visits, r.value.n, r.column)
      && forall i :: 0 <= i < |r.visits| ==> r.visits[i].score <= r.value.n
  {
    var r := SearchColumns(true, cols, alpha, beta, column, NegInf, child);
    SearchColumnsFirstBest(true, cols, alpha, beta, column, NegInf, child);
    forall i | 0 <= i < |r.visits|
      ensures r.visits[i].score <= r.value.n
    {
      assert NoBetter(true, Fin(r.visits[i].score), r.value);
    }
  }

  /**
   The value of the child reached when the side to move plays `col`, searched
   one ply shallower with the window `alpha`, `beta`. The loop only offers
   playable columns; any other column is given 0.
   */
  function ChildScore(b: Board, depth: nat, maximizing: bool, col: int, alpha: Ext, beta: Ext): (score: int)
    requires WellFormed(b) && depth > 0
    ensures -WinScore <= score <= WinScore
    decreases depth, 0
  {
    if 0 <= col < Cols && IsValidLocation(b, col) then
      Minimax(Child(b, col, Mover(maximizing)), depth - 1, alpha, beta, !maximizing).value
    else 0
  }

  /** The child search handed to the column loop of a node. */
  function ChildSearch(b: Board, depth: nat, maximizing: bool): (child: (int, Ext, Ext) -> int)
    requires WellFormed(b) && depth > 0
    ensures forall c, a, b' :: child(c, a, b') == ChildScore(b, depth, maximizing, c, a, b')
    decreases depth, 1
  {
    (c: int, a: Ext, b': Ext) => ChildScore(b, depth, maximizing, c, a, b')
  }

  /**
   `minimax`: at a leaf (depth 0 or a terminal node) the column is None and
   the value is the leaf score; otherwise the loop runs over the playable
   columns from the worst value for the side to move, with the first playable
   column as the initial choice. The value never leaves the range of the
   leaf scores.
   */
  function Minimax(b: Board, depth: nat, alpha: Ext, beta: Ext, maximizing: bool): (r: SearchResult)
    requires WellFormed(b)
    ensures -WinScore <= r.value <= WinScore
    decreases depth, 2
  {
    if depth == 0 || IsTerminalNode(b) then SearchResult(None, LeafValue(b), [])
    else
      var valid := GetValidLocations(b);
      var loop := SearchColumns(maximizing, valid, alpha, beta, valid[0], Worst(maximizing),
                                ChildSearch(b, depth, maximizing));
      SearchResult(Some(loop.column), loop.value.n, loop.visits)
  }

  /**
   A node gets no column exactly when it is a leaf, and then its value is the
   leaf score; an expanded node picks a playable column after visiting at
   least one child.
   */
  lemma MinimaxShape(b: Board, depth: nat, alpha: Ext, beta: Ext, maximizing: bool)
    requires WellFormed(b)
    ensures var r := Minimax(b, depth, alpha, beta, maximizing);
      (r.column.None? <==> depth == 0 || IsTerminalNode(b)) &&
      (r.column.None? ==> r.value == LeafValue(b) && r.visits == []) &&
      (r.column.Some? ==> r.column.value in GetValidLocations(b) && |r.visits| > 0)
  {
  }

  /** `get_ai_move`: the column `minimax` picks for AI from an open window; None at a leaf. */
  function GetAiMove(b: Board, depth: nat): (col: Option<int>)
    requires WellFormed(b)
    ensures col.Some? <==> depth > 0 && !IsTerminalNode(b)
    ensures col.Some? ==> col.value in GetValidLocations(b)
  {
    MinimaxShape(b, depth, NegInf, PosInf, true);
    Minimax(b, depth, NegInf, PosInf, true).column
  }

  /**
   Playing `col` puts `piece` in the column's next open row and changes no
   other cell; on a settled board the piece rests on the pieces below it and
   the board stays settled.
   */
  lemma ChildPlacesPiece(b: Board, col: int, piece: int)
    requires WellFormed(b) && 0 <= col < Cols && IsValidLocation(b, col)
    ensures var row := GetNextOpenRow(b, col);
      var b' := Child(b, col, piece);
      && 0 <= row && b[row][col] == Empty && b'[row][col] == piece
      && (forall r, c :: 0 <= r < Rows && 0 <= c < Cols && (r != row || c != col) ==> b'[r][c] == b[r][c])
      && (forall k :: row < k < Rows ==> b[k][col] != Empty)
      && (Settled(b) && piece != Empty ==> Settled(b'))
  {
    if Settled(b) && piece != Empty {
      DropKeepsGravity(b, col, piece);
    }
  }

  /**
   At the root AI searches every playable column in ascending order, each
   child one ply shallower with beta at +infinity, and records that child's
   value.
   */
  lemma RootVisits(b: Board, depth: nat)
    requires WellFormed(b) && depth > 0 && !IsTerminalNode(b)
    ensures var r := Minimax(b, depth, NegInf, PosInf, true);
      var valid := GetValidLocations(b);
      && |r.visits| == |valid|
      && forall i :: 0 <= i < |valid| ==>
           && r.visits[i].col == valid[i]
           && r.visits[i].beta == PosInf
           && r.visits[i].score == Minimax(Child(b, valid[i], AI), depth - 1, r.visits[i].alpha, PosInf, false).value
  {
    var valid := GetValidLocations(b);
    var child := ChildSearch(b, depth, true);
    var loop := SearchColumns(true, valid, NegInf, PosInf, valid[0], NegInf, child);
    var r := Minimax(b, depth, NegInf, PosInf, true);
    assert r.visits == loop.visits;
    SearchColumnsVisits(true, valid, NegInf, PosInf, valid[0], NegInf, child);
    MaximizingVisitsAll(valid, NegInf, valid[0], NegInf, child);
    forall i | 0 <= i < |valid|
      ensures r.visits[i].score == Minimax(Child(b, valid[i], AI), depth - 1, r.visits[i].alpha, PosInf, false).value
    {
      assert r.visits[i].score == child(valid[i], r.visits[i].alpha, r.visits[i].beta);
    }
  }

  /** The column loop of an expanded node, as `Minimax` runs it. */
  function NodeLoop(b: Board, depth: nat, alpha: Ext, beta: Ext, maximizing: bool): (loop: LoopResult)
    requires WellFormed(b) && depth > 0 && !IsTerminalNode(b)
    ensures loop.value.Fin?
    ensures Minimax(b, depth, alpha, beta, maximizing) == SearchResult(Some(loop.column), loop.value.n, loop.visits)
  {
    var valid := GetValidLocations(b);
    SearchColumns(maximizing, valid, alpha, beta, valid[0], Worst(maximizing), ChildSearch(b, depth, maximizing))
  }

  /** No child recorded at the root is worth more than the root value. */
  lemma RootIsBest(b: Board, depth: nat)
    requires WellFormed(b) && depth > 0 && !IsTerminalNode(b)
    ensures var r := Minimax(b, depth, NegInf, PosInf, true);
      forall i :: 0 <= i < |r.visits| ==> r.visits[i].score <= r.value
  {
    var valid := GetValidLocations(b);
    var loop := NodeLoop(b, depth, NegInf, PosInf, true);
    MaximizingFromWorst(valid, NegInf, PosInf, valid[0], ChildSearch(b, depth, true));
  }

  /**
   The column AI picks, which `get_ai_move` returns, is the FIRST visited
   column whose child reaches the root value.
   */
  lemma RootFirstBest(b: Board, depth: nat)
    requires WellFormed(b) && depth > 0 && !IsTerminalNode(b)
    ensures var r := Minimax(b, depth, NegInf, PosInf, true);
      && r.column.Some? && GetAiMove(b, depth) == r.column
      && FirstWith(r.visits, r.value, r.column.value)
  {
    var valid := GetValidLocations(b);
    var loop := NodeLoop(b, depth, NegInf, PosInf, true);
    MaximizingFromWorst(valid, NegInf, PosInf, valid[0], ChildSearch(b, depth, true));
  }

  /**
   The tie-break at every expanded node, for either side and any window: no
   visited child is better for the side to move than the node's value, and
   the returned column is the FIRST visited column whose child reaches it.
   */
  lemma NodeFirstBest(b: Board, depth: nat, alpha: Ext, beta: Ext, maximizing: bool)
    requires WellFormed(b) && depth > 0 && !IsTerminalNode(b)
    ensures var r := Minimax(b, depth, alpha, beta, maximizing);
      && r.column.Some?
      && (forall i :: 0 <= i < |r.visits| ==>
            if maximizing then r.visits[i].score <= r.value else r.value <= r.visits[i].score)
      && FirstWith(r.visits, r.value, r.column.value)
  {
    var valid := GetValidLocations(b);
    var loop := NodeLoop(b, depth, alpha, beta, maximizing);
    SearchColumnsFirstBest(maximizing, valid, alpha, beta, valid[0], Worst(maximizing), ChildSearch(b, depth, maximizing));
  }

  /** When AI can complete a line with one drop, the root value is +1000000 at every depth. */
  lemma ForcedWinValue(b: Board, depth: nat, c: int)
    requires WellFormed(b) && depth > 0 && !IsTerminalNode(b)
    requires 0 <= c < Cols && IsValidLocation(b, c) && HasLine(Child(b, c, AI), AI)
    ensures Minimax(b, depth, NegInf, PosInf, true).value == WinScore
  {
    RootVisits(b, depth);
    RootIsBest(b, depth);
    var r := Minimax(b, depth, NegInf, PosInf, true);
    var valid := GetValidLocations(b);
    assert c in valid;
    var i :| 0 <= i < |valid| && valid[i] == c;
    var kid := Child(b, c, AI);
    TerminalMeaning(kid);
    MinimaxShape(kid, depth - 1, r.visits[i].alpha, PosInf, false);
    LeafValueMeaning(kid);
  }

  /** A Player drop never completes a line for AI: any AI line after it was already there. */
  lemma PlayerDropAddsNoAiLine(b: Board, col: int)
    requires WellFormed(b) && 0 <= col < Cols && IsValidLocation(b, col)
    requires HasLine(Child(b, col, Player), AI)
    ensures HasLine(b, AI)
  {
    var b' := Child(b, col, Player);
    ChildPlacesPiece(b, col, Player);
    var l :| OnBoard(l) && Owned(b', AI, l);
    forall i | 0 <= i < 4 ensures b[Nth(l, i).row][Nth(l, i).col] == AI {
      assert InGrid(Nth(l, i));
    }
    assert Owned(b, AI, l);
  }

  /** A Player node opened above (beta +infinity) is worth no more than Player's first reply. */
  lemma FirstReplyBound(b: Board, depth: nat, alpha: Ext)
    requires WellFormed(b) && depth > 0 && !IsTerminalNode(b)
    ensures var valid := GetValidLocations(b);
      && |valid| > 0
      && Minimax(b, depth, alpha, PosInf, false).value
         <= Minimax(Child(b, valid[0], Player), depth - 1, alpha, PosInf, true).value
  {
    var valid := GetValidLocations(b);
    var child := ChildSearch(b, depth, false);
    var loop := NodeLoop(b, depth, alpha, PosInf, false);
    SearchColumnsVisits(false, valid, alpha, PosInf, valid[0], PosInf, child);
    SearchColumnsFirstBest(false, valid, alpha, PosInf, valid[0], PosInf, child);
    assert NoBetter(false, Fin(loop.visits[0].score), loop.value);
  }

  /**
   A Player node searched at most one ply deep is worth +1000000 only when AI
   already has a line on it: a Player reply cannot complete one for AI, and
   the node is worth no more than its first reply.
   */
  lemma ShallowPlayerNodeWins(b: Board, depth: int, alpha: Ext)
    requires WellFormed(b) && 0 <= depth <= 1
    ensures Minimax(b, depth, alpha, PosInf, false).value == WinScore ==> HasLine(b, AI)
  {
    if Minimax(b, depth, alpha, PosInf, false).value == WinScore {
      LeafValueMeaning(b);
      MinimaxShape(b, depth, alpha, PosInf, false);
      if depth == 1 && !IsTerminalNode(b) {
        FirstReplyBound(b, depth, alpha);
        var col := GetValidLocations(b)[0];
        var kid := Child(b, col, Player);
        MinimaxShape(kid, depth - 1, alpha, PosInf, true);
        LeafValueMeaning(kid);
        PlayerDropAddsNoAiLine(b, col);
      }
    }
  }

  /** The column AI picks leads to a child whose searched value is the root value. */
  lemma RootChoiceValue(b: Board, depth: nat) returns (m: int, a: Ext, kid: Board, d: nat)
    requires WellFormed(b) && depth > 0 && !IsTerminalNode(b)
    ensures GetAiMove(b, depth) == Some(m) && 0 <= m < Cols && IsValidLocation(b, m)
    ensures kid == Child(b, m, AI) && d == depth - 1
    ensures Minimax(kid, d, a, PosInf, false).value == Minimax(b, depth, NegInf, PosInf, true).value
    ensures var r := Minimax(b, depth, NegInf, PosInf, true);
      exists k :: 0 <= k < |r.visits| && r.visits[k].col == m && r.visits[k].alpha == a
  {
    RootVisits(b, depth);
    RootFirstBest(b, depth);
    var r := Minimax(b, depth, NegInf, PosInf, true);
    var valid := GetValidLocations(b);
    m := r.column.value;
    var k :| 0 <= k < |r.visits| && r.visits[k].col == m && r.visits[k].score == r.value;
    assert valid[k] == m && valid[k] in valid;
    a := r.visits[k].alpha;
    kid := Child(b, m, AI);
    d := depth - 1;
  }

  /**
   At depths 1 and 2, when AI can complete a line with one drop, the column it
   picks completes one.
   */
  lemma ForcedWinShallow(b: Board, depth: nat, c: int)
    requires WellFormed(b) && !IsTerminalNode(b) && 1 <= depth <= 2
    requires 0 <= c < Cols && IsValidLocation(b, c) && HasLine(Child(b, c, AI), AI)
    ensures GetAiMove(b, depth).Some? && HasLine(Child(b, GetAiMove(b, depth).value, AI), AI)
  {
    ForcedWinValue(b, depth, c);
    var m, a, kid, d := RootChoiceValue(b, depth);
    ShallowPlayerNodeWins(kid, d, a);
  }
}
