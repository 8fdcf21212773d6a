# Connect Four move search, modelled in Dafny

This project models the game engine in `connect4.py`. That engine plays
Connect Four on a 6 by 7 grid. The human side is `PLAYER` (1), the computer is
`AI` (2), and an empty cell is 0. The model covers:

- the board primitives: creating a board, testing a column, finding its next
  open row, dropping a piece, and listing the playable columns;
- the four-in-a-row detector, together with the routine that reports the
  winning cells;
- the heuristic evaluator, which scores four-cell windows and adds a
  centre-column bonus;
- the depth-limited minimax search with alpha-beta pruning, and the move
  selector built on it.

Modules, in dependency order:

- `Optional`: the `Option` type, standing for Python's `None` or a value.
- `Grid`: the board, stored as a sequence of 6 rows of 7 integers with row 0
  at the top. It holds `create_board`, `is_valid_location`,
  `get_next_open_row`, `drop_piece` and `get_valid_locations`. It also
  defines the gravity invariant `Settled`: every occupied cell rests on
  occupied cells.
- `Lines`: the 69 four-cell lines of the board and the order the detector
  visits them in. That order is horizontal, then vertical, then positive
  diagonal, then negative diagonal, with rows outer and columns inner. The
  module holds `winning_move` and `get_winning_combination`.
- `Evaluator`: `evaluate_window` and `score_position`. The evaluator walks
  the vertical windows column by column, which is not the detector's
  order. The sum is over the same 69 lines, each taken once.
- `Search`: `is_terminal_node`, `minimax` and `get_ai_move`.
  - The loop over columns is one function, `SearchColumns`. It is shared by
    the maximising and the minimising branch.
  - Python's `-math.inf` and `math.inf` become the `Ext` values `NegInf` and
    `PosInf`.
  - Every search result also carries the list of columns it visited, with
    the alpha-beta window and the score of each. The Python function does
    not return this list. It exists only so the tie-break and the
    "best child" properties can be stated.
- `Opening`: the first move of a game. On an empty board a one-ply search
  picks the centre column.

Boards are immutable values. The copy that `minimax` makes before each trial
drop is therefore implicit, and no search can change the caller's board.

## Model

| member | source | states |
|---|---|---|
| Grid.CreateBoard | connect4.py:13-14 | A new board is 6 by 7 with every cell empty. It satisfies the gravity invariant and holds only legal cell values. |
| Grid.GetNextOpenRow | connect4.py:19-23 | The result is an empty row of the column with every cell below it occupied. That makes it the lowest empty cell. The result is -1 exactly when every cell of the column is occupied. |
| Grid.ValidIffOpenRow | connect4.py:16-23 | On a board that obeys gravity, a column is playable (its top cell is empty) exactly when it has an open row. |
| Grid.DropPiece | connect4.py:25-26 | The target cell holds the piece afterwards, and every other cell is unchanged. |
| Grid.DropKeepsGravity | connect4.py:19-26 | Dropping into the open row of a playable column keeps the board settled and its cell values legal. The column's next open row moves up by one, becoming -1 once row 0 is filled. |
| Grid.GetValidLocations | connect4.py:47-48 | A column is listed exactly when its top cell is empty. The list is strictly ascending, so it has no duplicates and at most 7 entries. |
| Lines.ScanRangeIsOnBoard | connect4.py:28-44 | The loop bounds of the four scans admit exactly the lines whose four cells all lie on the board. |
| Lines.ScanLine | connect4.py:28-44 | Step k of the 69-step scan examines a line inside the four loop bounds, so all four of its cells lie on the board. Steps 0-23 are the horizontal loop, 24-44 the vertical one, 45-56 the positive diagonals and 57-68 the negative diagonals. |
| Lines.ScanIndex | connect4.py:28-44 | Every line inside the loop bounds is examined at some step of the scan. |
| Lines.ScanIndexOfLine | connect4.py:28-44 | The step of the line examined at step k is k, so no line is examined twice. |
| Lines.ScanIndexOrder | connect4.py:28-44 | Steps follow scan order: direction (horizontal, vertical, positive diagonal, negative diagonal), then row, then column. |
| Lines.ScanOrderSorted | connect4.py:28-44 | A later step examines a line that comes later in scan order. |
| Lines.FirstOwnedFrom | connect4.py:28-45 | The scan stops at an owned line if one exists, and no owned line before the stopping point is skipped. |
| Lines.WinningMoveIffHasLine | connect4.py:28-45 | `winning_move` is true exactly when the piece owns four in a row somewhere on the board. |
| Lines.FirstWinIndexIsFirst | connect4.py:166-199 | The line where the scan stops precedes, in scan order, every other line the piece owns. |
| Lines.GetWinningCombination | connect4.py:166-199 | The result is None exactly when `winning_move` is false. Otherwise it is four on-board cells that all hold the piece. These are the cells of the first owned line in scan order, and of no other line that could claim to be first. |
| Evaluator.EvaluateWindow | connect4.py:50-65 | A four-cell window scores 100, 5, 2, 0 or -50. For any piece value, each non-zero score is given exactly when its count condition holds: 4 own pieces; 3 own and 1 empty; 2 own and 2 empty; 3 opponent pieces and 1 empty. |
| Evaluator.BonusAndPenaltyExclusive | connect4.py:55-63 | No window has both three own pieces and three opponent pieces, so the +5 bonus and the -50 penalty never apply together. |
| Evaluator.WindowLine | connect4.py:76-100 | Step k of `score_position` scores a line inside its four loop bounds, which lies on the board. The vertical windows are taken column by column, unlike the detector. |
| Evaluator.WindowIndex | connect4.py:76-100 | Every four-cell line on the board is scored at some step. |
| Evaluator.WindowIndexOfLine | connect4.py:76-100 | The step of the window scored at step k is k, so no window is scored twice. |
| Evaluator.Windows | connect4.py:76-100 | The list of scored windows has 69 entries, all on the board. |
| Evaluator.WindowsOnce | connect4.py:76-100 | Every four-cell line on the board occurs in the list of scored windows at exactly one position. |
| Evaluator.SumWindows | connect4.py:76-100 | A sum of n window scores lies between -50n and 100n. |
| Evaluator.ScorePosition | connect4.py:67-102 | The heuristic score lies in [-3450, 6936]. These are the window bounds for 69 windows plus at most 6 centre pieces worth 6 each. |
| Evaluator.LonePieceWindow | connect4.py:50-65 | For a player piece, a window holding at most one piece scores 0. |
| Evaluator.SparseWindowsScoreZero | connect4.py:76-100 | On a board whose only occupied cell, if any, is one given cell, every window scores 0, so every sum of windows is 0. |
| Evaluator.LonePieceCenter | connect4.py:72-74 | With a single piece on the board, the centre column holds one of it if the piece is in column 3, and none otherwise. |
| Evaluator.LonePieceScore | connect4.py:67-102 | A board holding one piece scores 6 for that piece if it is in the centre column, and 0 otherwise. |
| Evaluator.EmptyBoardScoresZero | connect4.py:67-102 | An empty board scores 0 for either side. |
| Search.TerminalMeaning | connect4.py:104-106 | A node is terminal exactly when either side owns a line or every column is full. |
| Search.LeafValue | connect4.py:113-122 | A leaf score never leaves [-1000000, 1000000]. |
| Search.LeafValueMeaning | connect4.py:113-122 | A leaf is worth +1000000 exactly when AI has a line; AI's win is checked first. It is worth -1000000 exactly when Player has a line and AI has none. A terminal board with no line is full and worth 0. A non-terminal leaf gets AI's heuristic, which lies strictly between the two win scores. |
| Search.Update | connect4.py:132-137 | One loop step adopts the child's score and column when the score strictly improves the value for the side to move (`>` when maximising, `<` when minimising, lines 148-151), and otherwise keeps both the column and the value unchanged. The value is never worse than before nor worse than the child's score. When maximising, alpha becomes the larger of alpha and the value; when minimising, beta becomes the smaller of beta and the value. |
| Search.SearchColumns | connect4.py:124-154 | The loop visits at most the offered columns and at least one of them. The chosen column is either the initial one or an offered one. Starting from the worst value, it ends with a finite value inside the leaf range. |
| Search.SearchColumnsVisits | connect4.py:127-137 | The loop visits a prefix of the offered columns in order. Each visit records the child value for that column under the window it was searched with. The first child gets the node's own window, and a maximising loop never changes beta. |
| Search.SearchColumnsCutoff | connect4.py:135-137 | Every child after the first is searched with a window that is still open (alpha below beta). A loop that stops before the last column stops because the update after its last child made alpha reach beta (lines 151-153 for the minimising side). |
| Search.SearchColumnsWindows | connect4.py:132-135 | When the loop starts no better than its own bound, as it does from the worst value, each next child's window is the previous one narrowed by the previous child's score. A maximising loop raises alpha to that score if it is larger and keeps beta. A minimising loop lowers beta to it if it is smaller and keeps alpha (lines 148-151). |
| Search.SearchColumnsFirstBest | connect4.py:124-154 | The final value is at least as good as every visited score. If the value differs from the starting one, the chosen column is the first visited column that reaches it. This is the tie-break of the strict comparison. |
| Search.MaximizingVisitsAll | connect4.py:135-137 | With beta at +infinity the cut-off never fires, so a maximising loop visits every offered column. |
| Search.InitialColumnIrrelevant | connect4.py:124-134 | Starting from the worst value, the result does not depend on the initial column. This justifies replacing `random.choice` by the first playable column. |
| Search.MaximizingFromWorst | connect4.py:124-138 | A maximising loop started at -infinity ends at the best visited score, and its column is the first one reaching that score. |
| Search.ChildScore | connect4.py:127-131 | The value of a trial drop lies in [-1000000, 1000000]. |
| Search.Minimax | connect4.py:108-154 | The search value never leaves [-1000000, 1000000] at any depth or window. |
| Search.MinimaxShape | connect4.py:108-154 | A node returns no column exactly when the depth is 0 or the game is over, and then its value is the leaf score. Otherwise the column is playable and at least one child was searched. |
| Search.GetAiMove | connect4.py:158-162 | A move is returned exactly when the depth is positive and the game is not over, and it is always a playable column. |
| Search.ChildPlacesPiece | connect4.py:128-130 | A trial drop puts the mover's piece in the column's lowest empty cell and changes no other cell. On a settled board the result stays settled. |
| Search.RootVisits | connect4.py:124-138 | At the root, AI searches every playable column in ascending order. Each child is searched one ply shallower with beta at +infinity, and its value is recorded. |
| Search.NodeFirstBest | connect4.py:124-154 | At every expanded node, for either side and any window, no visited child is better for the side to move than the node's value. The returned column is the first visited column whose child reaches that value. |
| Search.RootIsBest | connect4.py:132-134 | No child searched at the root is worth more than the root value. |
| Search.RootFirstBest | connect4.py:124-162 | The column `get_ai_move` returns is the first searched column whose child reaches the root value. |
| Search.ForcedWinValue | connect4.py:113-138 | If one AI drop completes a line, the root value is +1000000 at every positive depth. |
| Search.PlayerDropAddsNoAiLine | connect4.py:143-147 | A Player drop never creates an AI line, so an AI line after the drop was already there. |
| Search.FirstReplyBound | connect4.py:140-154 | A minimising node searched with beta at +infinity is worth at most the value of its first reply. |
| Search.ShallowPlayerNodeWins | connect4.py:108-154 | A Player-to-move node searched to depth 0 or 1 with beta at +infinity is worth +1000000 only if AI already has a line. |
| Search.RootChoiceValue | connect4.py:124-138 | The root value is the value of the child reached by the chosen column, searched one ply shallower with beta at +infinity and the alpha recorded when the root visited that column. |
| Search.ForcedWinShallow | connect4.py:108-162 | At depth 1 or 2, when AI can complete a line with one drop, the returned column completes a line. |
| Opening.AllValidFrom | connect4.py:47-48 | On an empty board, every column from c to 6 is playable, in order. |
| Opening.OpeningColumns | connect4.py:47-48 | On an empty board the playable columns are exactly 0, 1, ..., 6, in that order. |
| Opening.LonePieceNoLine | connect4.py:28-45 | A board with a single piece has no line for either side. |
| Opening.NoPiecesNoLine | connect4.py:28-45 | An empty board has no line for either side. |
| Opening.EmptyNotTerminal | connect4.py:104-106 | An empty board is not a finished game. |
| Opening.FirstDrop | connect4.py:19-26 | AI's first drop into any column of an empty board lands on the bottom row and is the only piece. |
| Opening.FirstDropValue | connect4.py:113-122 | After AI's first drop, the position is worth 6 if the drop is in the centre column and 0 otherwise. |
| Opening.CenterFirst | connect4.py:132-134 | In the opening trace only the centre column scores 6, so the first column reaching the best value is the centre. |
| Opening.OpeningVisit | connect4.py:124-131 | A depth-1 search of an empty board visits column i as its i-th child. That child is worth 6 if i is the centre and 0 otherwise. |
| Opening.OpeningScores | connect4.py:124-138 | A depth-1 search of an empty board visits columns 0 to 6 in order, and only the centre child scores 6. |
| Opening.OpeningSearch | connect4.py:124-162 | The move a depth-1 search returns on an empty board is the first column reaching the best score in the opening trace. |
| Opening.OpeningMove | connect4.py:158-162 | On any empty board, a depth-1 search returns the centre column. |
| Opening.FreshGameOpening | connect4.py:158-162 | On the board `create_board` makes, `get_ai_move` at depth 1 returns column 3. |

## Left out

- `app.py` (the web front end), the game loop and turn handling are not part of this model. They are I/O around the engine.
- `random.choice` in `minimax` (lines 126 and 142) is replaced by the first playable column. `Search.InitialColumnIrrelevant` shows the choice never reaches the result, because the first visited child always beats the infinite starting value.
- numpy arrays and `board.copy()` are replaced by immutable sequences of rows. The in-place write of `drop_piece` becomes a function returning the new board.
- Python's `math.inf` is modelled by the `Ext` type, and Python integers by Dafny's unbounded `int`. The score range makes overflow irrelevant.
- `is_valid_location` and `get_next_open_row` are only modelled for columns 0 to 6. The source indexes the numpy array without a check, so a column from -7 to -1 wraps around to a column counted from the right, and any other out-of-range column raises.
- `drop_piece` is only modelled for rows 0 to 5. The search only passes the open row of a playable column, so the -1 sentinel never reaches it.
- Grid.DropPiece: the column is only modelled for 0 to 6. The source writes into the numpy array unchecked, so a column from -7 to -1 wraps around to a column counted from the right, and any other out-of-range column raises. The search only passes playable columns 0 to 6.
- Search.Minimax and Search.GetAiMove: the depth is a natural number. The source takes any integer: the web front end passes the requested depth on unchecked, and `minimax` only tests `depth == 0`, so a negative depth never reaches the depth-limit leaf and the search runs until every branch ends in a finished game. The depth is meant to be a non-negative integer, and the model keeps to that.
- Search.ChildScore: a column that is not playable gets 0. The loop only offers playable columns, so that branch is never taken.
- `get_ai_move`'s default depth of 5 is not a default here. The depth is always passed explicitly.
- Search.ForcedWinShallow: a winning drop is only guaranteed at depths 1 and 2. At depth 3 or more, an earlier column whose win is forced one move later is also worth +1000000, and the strict `>` keeps that earlier column, so the code does not promise the immediate win there. The model follows the code.
- `get_ai_move` at depth 0 returns None, because `minimax` treats the root as a leaf. It does not compare the columns heuristically. The model follows the code, as `Search.GetAiMove` and `Search.MinimaxShape` state.
- Blocking an opponent's immediate threat is not stated as a property. The heuristic and the search do not guarantee it in general: a double threat cannot be blocked, and a block can give the opponent the cell above it.
- No property relates the search value at one depth to the value at another. The play strength of the engine, its running time, and the effect of pruning on the number of nodes searched are not modelled.
