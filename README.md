# King & Boat vs System King — a verified model of the game engine

The program is a small board game on an 8×8 grid. The human plays a King
(UK) and a Boat (UB); the computer plays a single King (SK). This project
models the engine inside `Game` in `chess.py`, without its tkinter
front end. The engine does four things:

- it decides whether a human move is legal (`valid_move`);
- it applies a human move, with its cost, capture reward and history entry
  (`move_piece`);
- it keeps a LIFO stack of value copies of the state for "Undo Move"
  (`save_snapshot`, `undo_move`, `restart_game`);
- it picks the System King's reply (`system_move`). The reply captures an
  adjacent human King at once. Otherwise it runs a depth-3 minimax with
  alpha-beta pruning over SK-only movement, scored by the heuristic
  `evaluate_state`.

The click handler `on_click` is modelled too: the first click on a human
piece selects it, and the next click tries the move and then clears the
selection.

Modules:

- `Board.dfy` (`Board`): cells, the constants of `chess.py:7-13`, the
  eight directions in the engine's order, and the distance functions.
  A captured piece sits on the sentinel cell `CAPTURED == Pos(-1, -1)`. The
  model compares it like any other cell, as the source does.
- `ExtInt.dfy` (`ExtInt`): integers extended with ±infinity. These stand for
  the source's `±float('inf')` search bounds.
- `Rules.dfy` (`Rules`): the state a snapshot copies, and legality
  (`IsLegal`). Also the state change of a human move (`HumanMove`) and the
  board invariant `WellFormed`.
- `Search.dfy` (`Search`): the heuristic, doubled to integers (2000,
  −1000, −(2·d_uk + d_ub)). The unpruned minimax `Value`/`Fold` is the
  reference. The pruned search is written as recursive methods (`AlphaBeta`,
  `MaxNode`, `MinNode`) with loops that stop at the first cut-off. Also here:
  the root loop (`BestReply`, specified by `ReplyTarget`), the adjacency check
  (`KingInReach`) and the reply as a state change (`SystemReply`).
- `GameController.dfy` (`GameController`): the class `Game`. Its fields are
  the same state the source's `Game` updates in place. Each method is proved
  to leave exactly the state its pure counterpart computes. `Round` is one
  accepted click: the human move, then the reply when one is due.

The central result is alpha-beta soundness. For any window with
alpha < beta, `AlphaBeta` returns a fail-soft result:

- a result at or below alpha is an upper bound of the unpruned value;
- a result at or above beta is a lower bound;
- a result strictly inside the window is the unpruned value itself.

Every root candidate is searched with the window (−∞, +∞), so the search
returns exactly the unpruned minimax value. `BestReply` therefore picks the
earliest allowed neighbour of maximal minimax value.

The source's `minimax` is one nested function with two loop branches. In
the model these branches are the methods `MaxNode` and `MinNode`, which
`AlphaBeta` dispatches to. The values SK's search closes over (`self.uk`,
`self.ub`) become parameters.

The model follows the code literally, including where a cleaner design would differ:

- The captured marker is the literal pair (−1, −1), not a separate variant.
  As a consequence the model keeps one of the source's behaviours: once UK
  is captured, a further user move makes SK "capture" the sentinel exactly
  when SK stands on (0, 0). SK then moves off the board to (−1, −1) and the
  points drop by another 100 (`Search.CapturedKingRecaptured`).
- A snapshot is pushed once per accepted click, not before every move.
- Nothing checks for out-of-range coordinates. The clicked cell is an input
  that must lie on the board.
- After either capture the engine keeps accepting clicks. The model does the
  same: human moves stay possible, and no reply follows once SK is captured.

## Model

| member | source | states |
|---|---|---|
| `Board.AdjacentIffStep` | chess.py:240-243 | the eight direction offsets reach exactly the cells at Chebyshev distance 1 |
| `Board.AllowedNeighbourExists` | chess.py:258-260 | every on-board cell has a neighbour that is on the board and not the Boat's cell |
| `Rules.IsLegal` | chess.py:145-165 | the legality predicate of `valid_move`; it carries no contract of its own: `Rules.KingLegality`, `Rules.BoatLegality` and `Rules.PathClearClosedForm` characterise it, and `GameController.Game.ValidMove` computes it |
| `Rules.HumanMove` | chess.py:177-201 | the state change of `move_piece`: points change by −cost, plus 100 on a capture; one history entry; SK becomes (−1,−1) exactly on a capture; a reply is due iff the target is not SK's cell and SK is on the board (details in `Rules.NonCaptureMove`, `Rules.CaptureMove`, `GameController.Game.MovePiece`) |
| `Rules.KingLegality` | chess.py:148-151 | a King move is legal iff the target is neither human piece's cell and is one of the eight neighbours; SK's cell is allowed |
| `Rules.BoatLegality` | chess.py:145-165 | a Boat move is legal iff the target is neither human piece's cell, shares the Boat's row or column, and UK does not stand strictly between, nor does SK; diagonal and other targets are illegal |
| `Rules.PathClearClosedForm` | chess.py:153-164 | "no cell strictly between blocks the path" means exactly that neither King lies strictly between source and target |
| `Rules.NonCaptureMove` | chess.py:177-201 | a move not onto SK costs exactly 10 (King) or 20 (Boat) and puts the piece on the target; the other pieces are unchanged, one history entry is added, and a reply is due iff SK is not captured |
| `Rules.CaptureMove` | chess.py:179-192 | a move onto SK nets +90 (King) or +80 (Boat), sets SK to (−1,−1), leaves both human pieces in place, adds one entry and schedules no reply |
| `Rules.HumanMovePreservesWellFormed` | chess.py:148-149 | a legal move onto an on-board cell keeps the Boat on the board, each King on the board or captured, and no two on-board pieces on one cell |
| `Search.Evaluate` | chess.py:204-211 | the integer heuristic is exactly twice the engine's real-valued `evaluate_state` (further properties in `Search.EvaluateIsDoubled`, `Search.EvaluateRange`, `Search.CloserIsBetter`) |
| `Search.EvaluateIsDoubled` | chess.py:204-211 | the integer heuristic is exactly twice `evaluate_state` with its 0.5 weight, so it orders cells the same way |
| `Search.EvaluateRange` | chess.py:204-211 | 2000 only on UK's cell, −1000 on the Boat's, otherwise negative; an ordinary on-board cell scores between −42 and −3 |
| `Search.CloserIsBetter` | chess.py:209-211 | a cell no farther from either human piece scores at least as well |
| `Search.FoldMaxAbove` | chess.py:217-227 | a maximizing node's value is at least the value of every allowed child |
| `Search.FoldMinBelow` | chess.py:228-238 | a minimizing node's value is at most the value of every allowed child |
| `Search.ValueFinite` | chess.py:213-238 | from any on-board cell the unpruned minimax value is finite, never ±infinity |
| `Search.FullWindowExact` | chess.py:261 | a fail-soft result for the window (−∞, +∞) equals the true value |
| `Search.AlphaBeta` | chess.py:213-238 | the pruned search is fail-soft against the unpruned minimax for any window alpha < beta; terminal at depth 0 or on UK's cell |
| `Search.MaxNode` | chess.py:217-227 | the maximizing loop, raising alpha and cutting off at beta <= alpha, is fail-soft against the maximum over allowed neighbours |
| `Search.MinNode` | chess.py:228-238 | the minimizing loop, lowering beta and cutting off at beta <= alpha, is fail-soft against the minimum over allowed neighbours |
| `Search.SearchCandidate` | chess.py:261 | a root candidate searched with a fresh (−∞, +∞) window gets exactly its unpruned minimax value |
| `Search.BestPrefixSpec` | chess.py:255-264 | after k directions the root loop holds either nothing (all allowed scores so far −∞) or the first allowed candidate with a maximal score |
| `Search.ReplyTargetSpec` | chess.py:255-266 | the quiet reply stays put iff no neighbour is allowed; otherwise it is the earliest allowed neighbour of maximal minimax value; an on-board SK always moves |
| `Search.BestReply` | chess.py:255-264 | the root loop, using the pruned search, picks exactly the reply the unpruned specification picks |
| `Search.BestPrefixMove` | chess.py:255-264 | the root loop only ever keeps SK's own cell or an allowed neighbour |
| `Search.KingInReach` | chess.py:240-243 | the first loop finds UK iff UK is 8-adjacent to SK (no bounds check) |
| `Search.ImmediateCapture` | chess.py:240-253 | with UK adjacent, SK takes UK's cell, points drop by exactly 100 and UK becomes (−1,−1), independent of the heuristic |
| `Search.SystemReply` | chess.py:240-267 | the state change of `system_move`: the Boat never moves, one history entry, SK moves at most one cell; with UK adjacent SK lands on UK's cell, UK becomes (−1,−1) and 100 points are lost; otherwise UK and the points stay and SK stays or lands on an allowed cell (details in `Search.ImmediateCapture`, `Search.QuietReply`, `GameController.Game.SystemMove`) |
| `Search.QuietReply` | chess.py:255-267 | without an adjacent UK, only SK's cell and the history change; SK goes to the earliest best allowed neighbour, or stays when none exists |
| `Search.SystemReplyPreservesWellFormed` | chess.py:203-267 | the reply keeps the board invariant: SK never lands on the Boat and lands on UK only by capturing it |
| `Search.CapturedKingRecaptured` | chess.py:240-267 | with UK already captured and SK on the board, the reply puts SK on (−1,−1) exactly when SK stands on (0,0), and then takes another 100 points |
| `GameController.Round` | chess.py:79-82 | one accepted click, `move_piece` then the due `system_move` (chess.py:200-201): two history entries when a reply follows, one otherwise; the Boat ends on the target exactly when it moved without capturing |
| `GameController.RoundPreservesWellFormed` | chess.py:79-82 | an accepted click (legal move plus reply) keeps the board invariant |
| `GameController.RoundAccounting` | chess.py:177-253 | with SK on the board, a non-capturing round costs the move (plus 100 if SK then captures UK) and adds exactly two entries; the Boat ends on the target after a Boat move; UK ends on its post-move cell unless SK is then adjacent, in which case SK takes that cell and UK becomes (−1,−1) |
| `GameController.RoundMovesOpponent` | chess.py:240-266 | on a well-formed board, a legal round that does not capture SK always moves SK to a different cell |
| `GameController.Game.constructor` | chess.py:62 | a new game starts in the restart state |
| `GameController.Game.RestartGame` | chess.py:92-99 | UK (7,4), UB (7,0), SK (0,4), 1000 points, empty history, empty stack, no selection |
| `GameController.Game.ValidMove` | chess.py:145-165 | the scanning loops return exactly the legality predicate of the current state |
| `GameController.Game.SaveSnapshot` | chess.py:167-175 | pushes a copy of the positions, points and history, nothing else changes |
| `GameController.Game.UndoMove` | chess.py:64-71 | pops the latest snapshot and restores exactly its positions, points and history; on an empty stack nothing changes |
| `GameController.Game.MovePiece` | chess.py:177-201 | the object's new state and the reply flag are exactly `HumanMove` of the old state |
| `GameController.Game.SystemMove` | chess.py:203-267 | the object's new state is exactly `SystemReply` of the old state |
| `GameController.Game.OnClick` | chess.py:76-88 | without a selection, selects the human piece on the cell; with one, a legal target pushes one snapshot and plays the round, an illegal one changes nothing; the selection is cleared either way; from a valid state, a legal non-capturing move always makes SK move |
| `GameController.UndoRevertsRound` | chess.py:64-88 | an accepted click then one undo restore positions, points, history and the snapshot stack |
| `GameController.UndoAfterAnyMoves` | chess.py:167-175 | save, then any sequence of moves and replies, then undo restores the saved state and the stack length |

## Left out

- tkinter presentation is left out because it holds no game logic: window, frames, canvas, labels, buttons, images, `draw_board`, `draw_pieces`, `highlight_killable_zones`, `update_status`, the "Your Turn"/"System Turn" label and `show_end_screen` with its Victory/Game Over messages. The outcome can be read from the state instead (SK or UK on the sentinel).
- The 500 ms `root.after` delay before `system_move` is event-loop scheduling. The reply is modelled as a call made right after the human move, so an undo clicked inside that window is not modelled.
- The conversion from pixels to a cell (`CELL_SIZE`) depends on GUI events. The cell is an input with an on-board precondition.
- History entries are abstract records (`Entry`), not the source's f-strings. Properties count and compare entries.
- The heuristic's 0.5 weight is modelled by doubling every evaluation. `SourceHeuristic` states the real-valued form, and `Search.EvaluateIsDoubled` relates the two.
- GameController.Game.OnClick: the selection is held as the piece's kind, not as a reference to a `Piece` object. In the source, an undo between selecting and moving leaves `selected_piece` pointing at the detached pre-undo object. The human piece on the board then does not move, but legality is judged from its pre-undo cell, a target on SK's cell still captures SK, and SK still replies. The model judges and moves the current piece instead.
- The `platform` and `winsound` imports are never used and are not modelled.

