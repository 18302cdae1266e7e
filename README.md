# Alpha-beta minimax agent for Othello, in Dafny

This project models the game-playing agent of `kit_games/advsearch/agente_BMM`:

- `minimax.py`: a depth-bounded minimax search with alpha-beta pruning. It has two mutually recursive halves, `max_value` and `min_value`, and an entry point, `minimax_move`.
- `othello_minimax_mask.py` and `othello_minimax_count.py`: two Othello agents that plug into it, one scoring positions by a positional weight template and one by piece count.

Modules:

- `ExtInt` (`ext_int.dfy`): the search's values, meaning integers plus the two infinities that bounds and running extrema start from.
- `GameTree` (`game_tree.dfy`): the game as the search sees it. It is a finite tree of states, each with the player to move, whether the game is over, the winner, and the legal moves in enumeration order with their successors. Over it:
  - the shared cutoff rule;
  - the plain depth-limited minimax value;
  - `BestMove`, the first legal move whose successor attains the root's minimax value.
- `AlphaBeta` (`alpha_beta.dfy`): the pruned search written as functions. `MaxSearch` and `MinSearch` each run a loop over the moves (`MaxLoop` and `MinLoop`) with the running alpha or beta. Each result records:
  - the value and the move;
  - the values returned by the children it explored;
  - every call it made to the evaluation function.

  Everything the search promises is proved here as lemmas.
- `Minimax` (`minimax.dfy`): the search as the source writes it, as recursive methods with `while` loops that `break` once the window closes. Each method is proved to compute exactly what `AlphaBeta` describes. Through that, each method's contract states:
  - the fail-soft relation to the minimax value;
  - the move it picks;
  - the prefix of moves it explores, and the window each explored successor was searched with.

  `MinimaxMove` is proved to return `GameTree.BestMove`. Pruning therefore never changes the chosen move.
- `Othello` (`othello.dfy`): the 8×8 board, player symbols, the opponent of a player, and the +1/0/−1 score of a finished game.
- `OthelloMask` (`othello_minimax_mask.dfy`): the weight template; the positional evaluator, written as nested loops over rows and columns and proved against its defining function; and the agent move at depth 5.
- `OthelloCount` (`othello_minimax_count.dfy`): the piece-count evaluator, with its bound and zero-sum lemmas, and the agent move at depth 5.

Two points where the code is more precise than a common account of alpha-beta:

- A common account of alpha-beta says pruning can change which of several equally valued moves is returned. For this code it does not. `Minimax.MinimaxMove` returns no move at a cutoff root or when the root's value is −∞, and so does the unpruned search. Otherwise it returns the first move, in enumeration order, whose successor attains the root's minimax value, which is again what the unpruned search returns.
  - A cutoff root is a finished game, or one searched with a `max_depth` other than −1 that is at most 0.
  - The root's value is −∞ only when, within the bound and whatever the maximizing side plays, the minimizing side can force play into an unfinished state of the maximizing side with no legal moves (possibly the root itself). A finished game, even a lost one, is a cutoff and scores its evaluation, never −∞.
- The search is often described for a non-terminal root. The code accepts a cutoff root and returns no move for it, and so does the model.

## Model

| member | source | states |
|---|---|---|
| ExtInt.Max | kit_games/advsearch/agente_BMM/minimax.py:33 | the result bounds both arguments from above and is one of them: Python's `max` on the extended values |
| ExtInt.Min | kit_games/advsearch/agente_BMM/minimax.py:53 | the result bounds both arguments from below and is one of them: Python's `min` on the extended values |
| ExtInt.LeIsTotalOrder | kit_games/advsearch/agente_BMM/minimax.py:30 | the order used by `>`, `<`, `>=`, `<=` is a total order, so "not strictly greater" means "at most" |
| GameTree.Cutoff | kit_games/advsearch/agente_BMM/minimax.py:21 | definition, no contract: the leaf test shared by both halves (line 41 repeats it), true when the game is over or when a bound other than −1 is set and the depth has reached it |
| GameTree.FirstReaching | kit_games/advsearch/agente_BMM/minimax.py:27-32 | the index found is the first child whose minimax value reaches the target; all earlier children fall short |
| GameTree.FirstReachingIsFirst | kit_games/advsearch/agente_BMM/minimax.py:30-32 | a child that reaches the target after children that all fall short is the one FirstReaching finds |
| GameTree.ExtremeIsBound | kit_games/advsearch/agente_BMM/minimax.py:24-33 | the best of the first k children's minimax values is at least as good as each of them |
| GameTree.ExtremeIsTight | kit_games/advsearch/agente_BMM/minimax.py:24-33 | any value at least as good as each of the first k children is at least as good as their best |
| GameTree.ExtremeIsAttained | kit_games/advsearch/agente_BMM/minimax.py:24-33 | unless it is still the starting infinity, the best of the first k children is the value of one of them |
| GameTree.BestMoveIsFirstOptimal | kit_games/advsearch/agente_BMM/minimax.py:15-17 | the chosen root move is absent exactly at a cutoff or when the root's value is −∞; otherwise its successor attains the root's value and every earlier move's successor is strictly worse |
| GameTree.ReachableThroughMove | kit_games/advsearch/agente_BMM/minimax.py:28-29 | a state reached from a successor in d moves is reached from the state in d+1 moves, since depth rises by one per ply |
| AlphaBeta.MaxSearch | kit_games/advsearch/agente_BMM/minimax.py:20-37 | definition, no contract: `max_value` as a function, returning the evaluation with no move at a cutoff and otherwise running `MaxLoop` from the first move with value −∞ and no move; what it computes is stated by the lemmas below |
| AlphaBeta.MinSearch | kit_games/advsearch/agente_BMM/minimax.py:40-57 | definition, no contract: `min_value` as a function, the mirror of `MaxSearch` starting from +∞ |
| AlphaBeta.MaxLoop | kit_games/advsearch/agente_BMM/minimax.py:27-35 | definition, no contract: the `for` loop of `max_value`, searching the next successor with the running alpha, taking one step, raising alpha by the value and stopping once alpha reaches beta |
| AlphaBeta.MinLoop | kit_games/advsearch/agente_BMM/minimax.py:47-55 | definition, no contract: the loop of `min_value`, lowering beta by the value and stopping once beta falls to alpha |
| AlphaBeta.MaxStep | kit_games/advsearch/agente_BMM/minimax.py:29-32 | definition, no contract: one iteration's update, which replaces value and move only for a strictly larger child value and records the child's value and evaluation calls |
| AlphaBeta.MinStep | kit_games/advsearch/agente_BMM/minimax.py:49-52 | definition, no contract: the mirror update, for a strictly smaller child value |
| AlphaBeta.MaxOf | kit_games/advsearch/agente_BMM/minimax.py:24-32 | the largest of the explored values bounds them all, is one of them, and is −∞ for none |
| AlphaBeta.MinOf | kit_games/advsearch/agente_BMM/minimax.py:44-52 | the smallest of the explored values bounds them all, is one of them, and is +∞ for none |
| AlphaBeta.IndexOf | kit_games/advsearch/agente_BMM/minimax.py:30-32 | the position found holds the value, and no earlier position does |
| AlphaBeta.FailSoftDecidesWindow | kit_games/advsearch/agente_BMM/minimax.py:20-57 | for alpha < beta, the fail-soft guarantee gives the three alpha-beta cases: a true value inside the window is returned exactly, one at or below alpha gives a result at or below alpha, one at or above beta a result at or above beta |
| AlphaBeta.FullWindowIsExact | kit_games/advsearch/agente_BMM/minimax.py:16 | with bounds (−∞, +∞) the maximizing half returns exactly the unpruned minimax value |
| AlphaBeta.FullWindowPicksBestMove | kit_games/advsearch/agente_BMM/minimax.py:15-17 | with bounds (−∞, +∞) from depth 0 the maximizing half returns the move plain minimax designates, so pruning never changes the root move |
| AlphaBeta.MaxSearchSound | kit_games/advsearch/agente_BMM/minimax.py:20-37 | for every window alpha < beta, `max_value` is fail-soft: exact strictly inside the window, an upper bound of the minimax value at or below alpha, a lower bound at or above beta; a value above alpha comes with the first move whose successor reaches it |
| AlphaBeta.MinSearchSound | kit_games/advsearch/agente_BMM/minimax.py:40-57 | the same for `min_value`, a value below beta coming with the first move whose successor is that low |
| AlphaBeta.MaxLoopSound | kit_games/advsearch/agente_BMM/minimax.py:27-35 | from any point of the loop where its invariant holds, the loop ends with a sound result |
| AlphaBeta.MinLoopSound | kit_games/advsearch/agente_BMM/minimax.py:47-55 | the same for the loop of `min_value` |
| AlphaBeta.MaxStepSound | kit_games/advsearch/agente_BMM/minimax.py:29-33 | one iteration that leaves alpha below beta keeps the loop invariant: no explored child's minimax value exceeds the value, the move is that of the first child attaining it, and above alpha the value is that child's minimax value |
| AlphaBeta.MinStepSound | kit_games/advsearch/agente_BMM/minimax.py:49-53 | the mirror invariant is kept by one iteration of `min_value`'s loop that leaves beta above alpha |
| AlphaBeta.MaxPruned | kit_games/advsearch/agente_BMM/minimax.py:33-35 | when alpha reaches beta, the value returned is a lower bound of the minimax value, and its move is the first whose successor reaches it |
| AlphaBeta.MinPruned | kit_games/advsearch/agente_BMM/minimax.py:53-55 | when beta falls to alpha, the value returned is an upper bound of the minimax value, and its move is the first whose successor is that low |
| AlphaBeta.MaxExhausted | kit_games/advsearch/agente_BMM/minimax.py:27-37 | when every move was explored, the value is the minimax value or, at or below alpha, an upper bound of it |
| AlphaBeta.MinExhausted | kit_games/advsearch/agente_BMM/minimax.py:47-57 | when every move was explored, the value is the minimax value or, at or above beta, a lower bound of it |
| AlphaBeta.MaxSearchExplored | kit_games/advsearch/agente_BMM/minimax.py:24-35 | below a cutoff, `max_value` explores a prefix of the moves in order. Every child but the last left the value below beta. It stops early only right after a child reaching beta. The value is the maximum of the explored values, −∞ exactly when there is no move to return. The move is that of the first child returning the value |
| AlphaBeta.MinSearchExplored | kit_games/advsearch/agente_BMM/minimax.py:44-55 | the mirror for `min_value`: the explored prefix stops right after a child at or below alpha, and the value is the minimum, +∞ exactly when there is no move |
| AlphaBeta.MaxLoopExplored | kit_games/advsearch/agente_BMM/minimax.py:27-35 | from any point of the loop, the loop ends with a result whose explored values have the properties above |
| AlphaBeta.MinLoopExplored | kit_games/advsearch/agente_BMM/minimax.py:47-55 | the same for the loop of `min_value` |
| AlphaBeta.MaxStepExplored | kit_games/advsearch/agente_BMM/minimax.py:29-35 | one iteration either keeps the loop's value equal to the maximum of the explored values below beta, or breaks right after the child that reached beta |
| AlphaBeta.MinStepExplored | kit_games/advsearch/agente_BMM/minimax.py:49-55 | one iteration either keeps the value equal to the minimum of the explored values above alpha, or breaks right after the child that fell to alpha |
| AlphaBeta.MaxStepMove | kit_games/advsearch/agente_BMM/minimax.py:30-32 | with the strict `>`, after an iteration the move is absent exactly when the value is −∞, and otherwise belongs to the first explored child returning the value |
| AlphaBeta.MinStepMove | kit_games/advsearch/agente_BMM/minimax.py:50-52 | with the strict `<`, after an iteration the move is absent exactly when the value is +∞, and otherwise belongs to the first explored child returning the value |
| AlphaBeta.MaxExploredPrefix | kit_games/advsearch/agente_BMM/minimax.py:33-34 | while the loop runs, every value explored so far is below beta |
| AlphaBeta.MinExploredPrefix | kit_games/advsearch/agente_BMM/minimax.py:53-54 | while the loop runs, every value explored so far is above alpha |
| AlphaBeta.MaxSearchChildren | kit_games/advsearch/agente_BMM/minimax.py:27-33 | below a cutoff, the k-th value `max_value` explores is the value `min_value` returns for the k-th successor, one ply deeper, with alpha raised to the largest value explored before it; and each such value is fail-soft, under that window, against the successor's minimax value |
| AlphaBeta.MinSearchChildren | kit_games/advsearch/agente_BMM/minimax.py:47-53 | below a cutoff, the k-th value `min_value` explores is the value `max_value` returns for the k-th successor with beta lowered to the smallest value explored before it, and it is fail-soft under that window against the successor's minimax value |
| AlphaBeta.MaxChildrenSound | kit_games/advsearch/agente_BMM/minimax.py:29-34 | when every explored value but the last stayed below beta, each child's value is fail-soft against its minimax value under the window it was searched with |
| AlphaBeta.MinChildrenSound | kit_games/advsearch/agente_BMM/minimax.py:49-54 | when every explored value but the last stayed above alpha, each child's value is fail-soft against its minimax value under the window it was searched with |
| AlphaBeta.MaxChildSound | kit_games/advsearch/agente_BMM/minimax.py:29 | a child searched with an alpha raised by the earlier values and still below beta returns a fail-soft value for it |
| AlphaBeta.MinChildSound | kit_games/advsearch/agente_BMM/minimax.py:49 | a child searched with a beta lowered by the earlier values and still above alpha returns a fail-soft value for it |
| AlphaBeta.MaxLoopChildren | kit_games/advsearch/agente_BMM/minimax.py:27-35 | from any point of the loop where the running alpha is the initial alpha raised by the values explored so far, every explored value is the successor's search under the window of its iteration |
| AlphaBeta.MinLoopChildren | kit_games/advsearch/agente_BMM/minimax.py:47-55 | the same for the loop of `min_value` and its running beta |
| AlphaBeta.MaxStepChildren | kit_games/advsearch/agente_BMM/minimax.py:29-33 | one iteration appends exactly the searched child's value, keeps the value the maximum of the explored values, and leaves alpha equal to the initial alpha raised by that maximum |
| AlphaBeta.MinStepChildren | kit_games/advsearch/agente_BMM/minimax.py:49-53 | one iteration of `min_value` keeps the value the minimum of the explored values, and beta the initial beta lowered by it |
| AlphaBeta.MaxChildrenAppend | kit_games/advsearch/agente_BMM/minimax.py:29-33 | appending the next child's value, searched with alpha raised by the values before it, keeps every explored value tied to its successor's search |
| AlphaBeta.MinChildrenAppend | kit_games/advsearch/agente_BMM/minimax.py:49-53 | the mirror, with beta lowered by the values before it |
| AlphaBeta.IndexOfAppend | kit_games/advsearch/agente_BMM/minimax.py:30-32 | appending a child's value keeps the first occurrence of a value already present |
| AlphaBeta.MaxOfAppend | kit_games/advsearch/agente_BMM/minimax.py:30-32 | the maximum of the explored values after one more child is the larger of the old maximum and its value |
| AlphaBeta.MinOfAppend | kit_games/advsearch/agente_BMM/minimax.py:50-52 | the minimum of the explored values after one more child is the smaller of the old minimum and its value |
| AlphaBeta.ChildCallsValid | kit_games/advsearch/agente_BMM/minimax.py:29 | evaluation calls made below a successor, one ply deeper, are valid calls for the parent |
| AlphaBeta.MaxSearchCalls | kit_games/advsearch/agente_BMM/minimax.py:21-29 | every evaluation call of `max_value` is at a cutoff, on a state reached by one move per ply from the node, never deeper than `max_depth` when the search starts within it, and only on finished games when `max_depth` is −1 |
| AlphaBeta.MinSearchCalls | kit_games/advsearch/agente_BMM/minimax.py:41-49 | the same for `min_value` |
| AlphaBeta.MaxLoopCalls | kit_games/advsearch/agente_BMM/minimax.py:27-29 | the loop of `max_value` only adds valid evaluation calls |
| AlphaBeta.MinLoopCalls | kit_games/advsearch/agente_BMM/minimax.py:47-49 | the loop of `min_value` only adds valid evaluation calls |
| Minimax.MaxValue | kit_games/advsearch/agente_BMM/minimax.py:20-37 | computes what `AlphaBeta.MaxSearch` describes. At a cutoff it returns the evaluation with no move and one evaluation call. It is fail-soft against the minimax value, and above alpha returns the first move reaching its value. It explores a prefix of the moves and returns the maximum of their values. Each explored value is what `MinValue` returns for that successor with alpha raised by the values before it. With no moves it returns (−∞, no move) |
| Minimax.MinValue | kit_games/advsearch/agente_BMM/minimax.py:40-57 | the mirror of MaxValue: minimum, first move below beta, each explored value the `MaxValue` of its successor with beta lowered by the values before it, (+∞, no move) with no moves |
| Minimax.MinimaxMove | kit_games/advsearch/agente_BMM/minimax.py:5-17 | the move is that of the root's maximizing half with the full window and the root's player, and it is the move plain minimax designates: none at a cutoff root (a finished game, or a `max_depth` other than −1 that is at most 0) or when the root's value is −∞, otherwise the first one attaining the root's value |
| Othello.Opponent | kit_games/advsearch/agente_BMM/othello_minimax_count.py:37 | the opponent is 'B' exactly for 'W', 'W' for every other symbol, and never the player itself |
| Othello.OpponentIsSwap | kit_games/advsearch/agente_BMM/othello_minimax_mask.py:50 | between B and W the opponent is the other player, and taking it twice gives back the player |
| Othello.Utility | kit_games/advsearch/agente_BMM/othello_minimax_mask.py:41-48 | a finished game scores 1 exactly when the player won, 0 exactly when there is no winner, −1 exactly when the other side won |
| Othello.UtilityIsZeroSum | kit_games/advsearch/agente_BMM/othello_minimax_count.py:26-33 | between B and W a finished game's scores are opposite |
| OthelloMask.TemplateIsSymmetric | kit_games/advsearch/agente_BMM/othello_minimax_mask.py:7-18 | the template is 8×8, and each weight is unchanged by transposing the board, reversing its rows or reversing its columns |
| OthelloMask.MaskValue | kit_games/advsearch/agente_BMM/othello_minimax_mask.py:41-62 | definition, no contract: the value the positional evaluator computes, the utility of a finished game and otherwise the weighted count of the player's tiles minus the opponent's; `EvaluateMask` is proved to compute it |
| OthelloMask.EvaluateMask | kit_games/advsearch/agente_BMM/othello_minimax_mask.py:32-62 | a finished game gives its utility; otherwise the result is the template weight of the squares holding the player's tiles minus that of the squares holding the opponent's, other squares adding nothing |
| OthelloMask.Place | kit_games/advsearch/agente_BMM/othello_minimax_mask.py:54-60 | the one-square board update that `PlacingRaisesByWeight` is about: it changes that square and no other |
| OthelloMask.RowScorePlace | kit_games/advsearch/agente_BMM/othello_minimax_mask.py:55-60 | changing one square changes a row's weighted count only by what that square contributes |
| OthelloMask.ScorePlace | kit_games/advsearch/agente_BMM/othello_minimax_mask.py:54-60 | changing one square changes the board's weighted count only by what that square contributes |
| OthelloMask.PlacingRaisesByWeight | kit_games/advsearch/agente_BMM/othello_minimax_mask.py:54-62 | on an unfinished position, putting the player's tile on an empty square raises the evaluation by exactly that square's template weight |
| OthelloMask.MaskIsZeroSum | kit_games/advsearch/agente_BMM/othello_minimax_mask.py:50-62 | between B and W the evaluation for a player is the negation of the evaluation for the opponent |
| OthelloMask.MakeMove | kit_games/advsearch/agente_BMM/othello_minimax_mask.py:21-29 | the agent's move is the one plain minimax designates at depth 5 with the positional evaluation |
| OthelloCount.RowCount | kit_games/advsearch/agente_BMM/othello_minimax_count.py:36 | the number of squares of a row holding a symbol, `row.count`, is its multiplicity in the row; it is at most the row's length, and zero exactly when the symbol is absent |
| OthelloCount.TileCount | kit_games/advsearch/agente_BMM/othello_minimax_count.py:36-37 | definition, no contract: the sum of `row.count` over the first k rows of the board |
| OthelloCount.EvaluateCount | kit_games/advsearch/agente_BMM/othello_minimax_count.py:18-38 | the evaluation never exceeds the 64 squares of the board in absolute value |
| OthelloCount.RowCountsFit | kit_games/advsearch/agente_BMM/othello_minimax_count.py:36-37 | two different symbols together hold at most the squares of a row |
| OthelloCount.TileCountsFit | kit_games/advsearch/agente_BMM/othello_minimax_count.py:36-37 | two different symbols together hold at most 8 squares per row of the board |
| OthelloCount.CountIsZeroSum | kit_games/advsearch/agente_BMM/othello_minimax_count.py:26-38 | the evaluation for B is the negation of the evaluation for W |
| OthelloCount.MakeMove | kit_games/advsearch/agente_BMM/othello_minimax_count.py:7-15 | the agent's move is the one plain minimax designates at depth 5 with the piece-count evaluation |

## Left out

- Floating point: `float('-inf')` and `float('inf')` are the `ExtInt` infinities. The 1.0/0.0/−1.0 utilities and the evaluations are integers, so NaN cannot arise.
- `GameState` and `Board` are not part of this model:
  - `is_terminal`, `winner`, `legal_moves`, `next_state`, `player` and `board.tiles` are the fields of `GameTree.GameState`, a finite tree given whole in advance;
  - `Board.opponent`, used by the positional evaluator, is taken to be `Othello.Opponent`, the swap of 'B' and 'W' that the piece-count evaluator writes out.
- The evaluation function is a pure function parameter. `OthelloMask.MakeMove` passes `MaskValue`, the function `EvaluateMask` is proved to compute, because a method cannot be passed as a value.
- The unused `import random`, and the type annotations.
- The game loop that calls `make_move`, with its timing and I/O.
- Minimax.MaxValue, Minimax.MinValue: their contracts state which evaluation calls are made by equating their ghost call log with that of `AlphaBeta.MaxSearch`/`MinSearch`. What those calls are is then stated by `AlphaBeta.MaxSearchCalls` and `AlphaBeta.MinSearchCalls` rather than in the methods' own contracts.
- Minimax.MaxValue, Minimax.MinValue: they require alpha < beta. Every call in the source keeps that: the root window is (−∞, +∞), and a loop stops as soon as alpha reaches beta.
