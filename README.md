# minimax4j in Dafny

minimax4j is a game-agnostic adversarial search library. A game supplies

- `isOver`, `getPossibleMoves`, `makeMove`/`unmakeMove`, `next`/`previous`, `evaluate` and `maxEvaluateValue`.

The library then chooses a move with one of four rules:

- plain minimax;
- minimax with alpha-beta pruning;
- negamax with alpha-beta pruning;
- negascout (principal variation search).

Every rule works on one shared game state. It changes that state in place while it searches and restores it afterwards. There are several generations of the engine:

- the abstract `Minimax` class and its later copy `BasicMinimax`;
- the single-rule classes of the `impl` package;
- the oldest `fr.pixelprose` engine, which counts depth upward and chooses max or min by parity;
- engines with a transposition table, which cache child scores by position, grouped by an ordered key such as the turn.

This project models the following, and proves its properties in Dafny:

- those engines;
- the two helpers `ZobristHashing` (XOR hashing) and `Bitboard` (population counts);
- the tic-tac-toe games and the test state `BaseState` that plug into the engines.

## How the model is built

- **The game contract.** The contract is a datatype of functions, `Games.Game<S, M>`. Its fields are `isOver`, `moves`, `play`, `undo`, `next`, `previous`, `evaluate` and `maxEvaluateValue`.
  - `Games.Reversible` says that `undo` takes back a legal `play` and `previous` takes back `next`. This is what the engines rely on when they restore the state.
  - `Games.EvalBounded` says that every evaluation lies strictly between `-maxEvaluateValue` and `maxEvaluateValue`.
  - `Games.Lawful` is both.
- **Engines.** An engine is a class with a mutable `state: S`.
  - `MakeMove`, `UnmakeMove`, `Next` and `Previous` update `state` through the game.
  - Each search method is proved to leave `state` as it found it.
  - The one-slot `MoveWrapper` of the source is a second out-parameter `best: Option<M>`, with `None` for `null`.
- **Reference values.** Two pure functions give the value of a position.
  - `Values.MinimaxValue(g, s, depth, who)` follows the minimax recursion: `who * evaluate` at a leaf, a pass through `next` when there is no move, and the best child score, seeded with `-maxEvaluateValue` for max and `maxEvaluateValue` for min.
  - `Values.NegamaxValue` is the same from the side to move.
  - `Values.Choice` is the move the plain rule keeps: the first child that is strictly better than all before it.
  - `Values.MinimaxChoice` is that move for the maximizing side at the root.
- **The pruning rules** are proved against these values with the fail-soft relation `Selection.Bracketed(r, v, alpha, beta)`:
  - inside the window the result is the value;
  - when the value fails low, the result lies between the value and `alpha`;
  - when the value fails high, the result lies between `beta` and the value.

  At the root the window is `(-maxEvaluateValue, maxEvaluateValue)`, and evaluations are strictly inside it. So every rule returns exactly the minimax move. This is the property the library's own tests check, when they play the four rules against each other in tic-tac-toe.
- **Scores are integers.** Scores are `int` rather than `double`. Tic-tac-toe evaluations are integers, and negascout's `alpha + 1` window is a null window only on integers.
- **Transposition tables** are one class, `TranspositionTables.TranspositionTable`, with `tables: map<int, map<K, int>>`. Each entry maps a group to the scores of its positions.
  - The reflection that decides between an ordered group map and a single bucket becomes the parameter `Grouping`: `Ordered(groupOf)` or `Ungrouped`.
  - The cache is neither depth-safe nor window-safe in the source. So the cached engines are specified by what each lookup does on a hit and on a miss, by the frame, by the growth of the table and by what eviction keeps. With the table in use no value equality is claimed for them; with it off (`useTable` false), the `Transposition` searches are proved equal to the reference.
- **Bit-level code.** A Java `long` is a `bv64`, an `int` holding a bit pattern is a `bv32`, and `>>>` is the bit-vector shift `>>`.

`BasicMinimax` (`minimax4j/src/main/java/fr/avianey/minimax4j/BasicMinimax.java`) is the same code as `Minimax`, so one model covers both:

- constructors at lines 62-64 and 71-73;
- `getBestMove` at 76-97;
- minimax at 127-172, alpha-beta at 207-255, negamax at 294-324 and negascout at 355-389;
- the `*Score` hooks at 174, 257 and 326.

The single-rule classes `impl/AlphaBeta`, `impl/Negamax` and `impl/NegascoutPVS` are that model restricted to one algorithm:

- their `getBestMove` is `Search.Minimax.AlphaBetaBestMove`, `NegamaxBestMove` or `NegascoutBestMove`;
- their rules are the same methods.

`impl/TranspositionNegamax` is `Transposition.TranspositionMinimax` built by its `TranspositionNegamax` constructor: negamax only, the table always in use, and eviction after every search.

The transposition and parallel tic-tac-toe samples repeat the plain sample's game logic word for word. Their `isOver`, `hasWon`, `evaluate` and `maxEvaluateValue` (`minamax4j-sample/src/main/java/fr/avianey/minimax4j/sample/tictactoe/TicTacToeTranspositionIA.java:77-154` and `minimax4j-sample/src/main/java/fr/avianey/minimax4j/sample/tictactoe/TicTacToeParallelMinimax.java:82-157`) are therefore modelled by `TicTacToe.IsOver`, `TicTacToe.HasWon` and `TicTacToe.Evaluate`. `TranspositionTicTacToe.HashedIsOver`, `HashedEvaluate` and `HashedMoves` apply these to the board of a hashed position.

## Model

| member | source | states |
|---|---|---|
| `Games.Silent` | minimax4j/src/main/java/fr/avianey/minimax4j/ext/TranspositionTableBackedIA.java:195-197 | The game the pass-without-`next` engines search: every operation as in `g`, except that `next` and `previous` leave the position unchanged |
| `Games.SilentIsLawful` | minimax4j/src/main/java/fr/pixelprose/minimax4j/IA.java:114-116 | Dropping `next`/`previous` keeps a lawful game lawful, so the passing engines may rely on the same restore and bound facts |
| `Selection.Best` | minimax4j/src/main/java/fr/avianey/minimax4j/Minimax.java:169-201 | The best score of a scan from a seed is at least as good as the seed and as every child, and is the seed or one of the children (max or min by `maximizing`) |
| `Selection.BestIndex` | minimax4j/src/main/java/fr/avianey/minimax4j/Minimax.java:176-179 | The move kept by a scan: the first child that strictly improves on the seed and on every child before it; `None` exactly when no child beats the seed, in which case the best is the seed |
| `Selection.BracketedNegate` | minimax4j/src/main/java/fr/avianey/minimax4j/Minimax.java:356-358 | The fail-soft relation is preserved by negating the score and the value while swapping and negating the window, which is what `-negamax(depth-1, -beta, -alpha)` needs |
| `Selection.NullWindowProbe` | minimax4j/src/main/java/fr/avianey/minimax4j/Minimax.java:421-427 | A null-window `(alpha, alpha+1)` result that falls outside `(alpha, beta)` already meets the full-window relation, so re-searching only when `alpha < score < beta` is enough (integer scores) |
| `Selection.BestRaisedSeed` | minimax4j/src/main/java/fr/avianey/minimax4j/Minimax.java:250-266 | Scanning from `alpha` instead of a lower seed gives the larger of `alpha` and the scan's best: the max loop's seed is its window bound |
| `Selection.BestLoweredSeed` | minimax4j/src/main/java/fr/avianey/minimax4j/Minimax.java:267-284 | Scanning from `beta` instead of a higher seed gives the smaller of `beta` and the scan's best |
| `Selection.ScanStep` | minimax4j/src/main/java/fr/avianey/minimax4j/Minimax.java:172-180 | One loop step: a strictly better score becomes the best and its move the kept move; any other score changes neither |
| `Selection.MaxStep` | minimax4j/src/main/java/fr/avianey/minimax4j/Minimax.java:255-261 | One max step of alpha-beta: a score inside the window raises `alpha` and takes the slot, one at or below `alpha` changes nothing, one at or above `beta` is a cut-off bounded by the child |
| `Selection.MinStep` | minimax4j/src/main/java/fr/avianey/minimax4j/Minimax.java:272-278 | The same for a min step: below `beta` lowers `beta`, at or above changes nothing, at or below `alpha` is a cut-off |
| `Selection.MaxExit` | minimax4j/src/main/java/fr/avianey/minimax4j/Minimax.java:263-266 | A max loop that ends without a cut-off returns a result in the fail-soft relation with the node's value, and that value is below `beta` |
| `Selection.MinExit` | minimax4j/src/main/java/fr/avianey/minimax4j/Minimax.java:280-283 | A min loop that ends without a cut-off returns a result in relation with the node's value, and that value is above `alpha` |
| `Selection.MaxCut` | minimax4j/src/main/java/fr/avianey/minimax4j/Minimax.java:258-260 | A max cut-off (`alpha >= beta`) returns a result in relation with the node's value, which is itself at least `beta` |
| `Selection.MinCut` | minimax4j/src/main/java/fr/avianey/minimax4j/Minimax.java:275-277 | A min cut-off returns a result in relation with the node's value, which is itself at most `alpha` |
| `Selection.BestOfDominated` | minimax4j/src/main/java/fr/avianey/minimax4j/impl/Minimax.java:100-102 | A child score that beats the seed and is at least every other child score is the scan's best |
| `Values.Negated` | minimax4j/src/main/java/fr/avianey/minimax4j/Minimax.java:356-358 | Element-wise negation of a list of scores |
| `Values.BestNegated` | minimax4j/src/main/java/fr/avianey/minimax4j/Minimax.java:324-358 | The minimum of a list is minus the maximum of the negated list, with the seed negated |
| `Values.BestIndexNegated` | minimax4j/src/main/java/fr/avianey/minimax4j/Minimax.java:324-358 | The min scan keeps the same move as the max scan of the negated scores |
| `Values.MinimaxIsSignedNegamax` | minimax4j/src/main/java/fr/avianey/minimax4j/Minimax.java:324-358 | For `who` = 1 or -1 the minimax value is `who` times the negamax value: negamax is minimax with a sign flip |
| `Values.ChoiceAgrees` | minimax4j/src/main/java/fr/avianey/minimax4j/Minimax.java:118-123 | Negamax keeps the same root move as maximizing minimax |
| `Values.MinChoiceAgrees` | minimax4j/src/main/java/fr/avianey/minimax4j/Minimax.java:185-201 | A minimizing minimax node keeps the move negamax keeps at that node |
| `Values.MinimaxValueBounded` | minimax4j/src/main/java/fr/avianey/minimax4j/Minimax.java:170-187 | With bounded evaluations every minimax value is strictly inside `(-maxEvaluateValue, maxEvaluateValue)` |
| `Values.NegamaxValueBounded` | minimax4j/src/main/java/fr/avianey/minimax4j/Minimax.java:324-354 | The same bound for negamax values |
| `Values.RootAgreement` | minimax4j/src/main/java/fr/avianey/minimax4j/Minimax.java:111-126 | At the root both values lie strictly inside the initial window, and negamax and minimax keep the same move |
| `Values.AlphaBetaRootMove` | minimax4j/src/main/java/fr/avianey/minimax4j/Minimax.java:115-116 | A move that alpha-beta keeps whenever the value is below `beta`, at the root window, is the minimax move |
| `Values.NegamaxRootMove` | minimax4j/src/main/java/fr/avianey/minimax4j/Minimax.java:118-123 | The same for a move kept by negamax or negascout at the root window |
| `Search.Minimax.constructor` | minimax4j/src/main/java/fr/avianey/minimax4j/Minimax.java:95-97 | The engine uses the given algorithm, game and start position |
| `Search.Minimax.WithDefaultAlgorithm` | minimax4j/src/main/java/fr/avianey/minimax4j/Minimax.java:86-88 | The no-argument constructor selects negamax |
| `Search.Minimax.MakeMove` | minimax4j/src/main/java/fr/avianey/minimax4j/Minimax.java:437-445 | The state becomes the game's `play` of the move |
| `Search.Minimax.UnmakeMove` | minimax4j/src/main/java/fr/avianey/minimax4j/Minimax.java:447-455 | The state becomes the game's `undo` of the move |
| `Search.Minimax.Next` | minimax4j/src/main/java/fr/avianey/minimax4j/Minimax.java:486-492 | The state becomes the game's `next` |
| `Search.Minimax.Previous` | minimax4j/src/main/java/fr/avianey/minimax4j/Minimax.java:494-500 | The state becomes the game's `previous` |
| `Search.Minimax.GetBestMove` | minimax4j/src/main/java/fr/avianey/minimax4j/Minimax.java:106-127 | Fails exactly when `depth <= 0`; otherwise, whichever algorithm is selected (negascout also as the default), returns the minimax move (the first strictly best root move, `None` at a leaf or pass) and leaves the state unchanged |
| `Search.Minimax.MinimaxBestMove` | minimax4j/src/main/java/fr/avianey/minimax4j/Minimax.java:106-114 | The minimax branch of `getBestMove`: the depth check, then the minimax move |
| `Search.Minimax.AlphaBetaBestMove` | minimax4j/src/main/java/fr/avianey/minimax4j/impl/AlphaBeta.java:67-74 | Depth check, then alpha-beta in the root window returns the minimax move |
| `Search.Minimax.NegamaxBestMove` | minimax4j/src/main/java/fr/avianey/minimax4j/impl/Negamax.java:69-76 | Depth check, then negamax in the root window returns the minimax move |
| `Search.Minimax.NegascoutBestMove` | minimax4j/src/main/java/fr/avianey/minimax4j/impl/NegascoutPVS.java:61-68 | Depth check, then negascout in the root window returns the minimax move |
| `Search.Minimax.MinimaxRoot` | minimax4j/src/main/java/fr/avianey/minimax4j/Minimax.java:112-114 | The root call `minimax(wrapper, depth, 1)` keeps the minimax move and restores the state |
| `Search.Minimax.AlphaBetaRoot` | minimax4j/src/main/java/fr/avianey/minimax4j/Minimax.java:115-117 | The root call of alpha-beta with `(-max, max)` keeps the minimax move |
| `Search.Minimax.NegamaxRoot` | minimax4j/src/main/java/fr/avianey/minimax4j/Minimax.java:118-120 | The root call of negamax keeps the minimax move |
| `Search.Minimax.NegascoutRoot` | minimax4j/src/main/java/fr/avianey/minimax4j/Minimax.java:121-124 | The root call of negascout keeps the minimax move |
| `Search.Minimax.Minimax` | minimax4j/src/main/java/fr/avianey/minimax4j/Minimax.java:157-202 | The score is the reference minimax value, the kept move is the first strictly best child (seeded by `-max` or `max`), it is a legal move, and the state is restored, including around the pass |
| `Search.Minimax.MinimaxMoves` | minimax4j/src/main/java/fr/avianey/minimax4j/Minimax.java:169-201 | The move loop of a node that has moves: reference value and first strictly best move, state restored after every child |
| `Search.Minimax.MinimaxScore` | minimax4j/src/main/java/fr/avianey/minimax4j/Minimax.java:204-206 | The hook's score is the opponent's value one ply shallower |
| `Search.Minimax.AlphaBeta` | minimax4j/src/main/java/fr/avianey/minimax4j/Minimax.java:237-285 | Inside any window within the evaluation range, the result is in the fail-soft relation with the minimax value. When the value is below `beta` (max) or above `alpha` (min), the kept move is the first strictly improving one from the window bound. A node with moves returns at least `alpha` (max) or at most `beta` (min). The state is restored |
| `Search.Minimax.AlphaBetaMoves` | minimax4j/src/main/java/fr/avianey/minimax4j/Minimax.java:250-284 | The move loops with cut-off on `alpha >= beta`, with the same relation, move and bound facts |
| `Search.Minimax.AlphaBetaScore` | minimax4j/src/main/java/fr/avianey/minimax4j/Minimax.java:287-289 | The child score, in relation with the opponent's minimax value one ply shallower, for the same window |
| `Search.Minimax.Negamax` | minimax4j/src/main/java/fr/avianey/minimax4j/Minimax.java:324-354 | The result is in the fail-soft relation with the negamax value. Below `beta` the kept move is negamax's first strictly best move from `alpha`. A node with moves returns at least `alpha`. The state is restored |
| `Search.Minimax.NegamaxMoves` | minimax4j/src/main/java/fr/avianey/minimax4j/Minimax.java:330-353 | The negamax move loop with cut-off, with the same facts |
| `Search.Minimax.NegamaxScore` | minimax4j/src/main/java/fr/avianey/minimax4j/Minimax.java:356-358 | `-negamax(depth-1, -beta, -alpha)` is in relation with minus the child's negamax value for the window `(alpha, beta)` |
| `Search.Minimax.Negascout` | minimax4j/src/main/java/fr/avianey/minimax4j/Minimax.java:385-419 | Negascout meets the same contract as negamax: fail-soft relation with the negamax value, the negamax move below `beta`, at least `alpha` when it has moves, the state restored |
| `Search.Minimax.NegascoutMoves` | minimax4j/src/main/java/fr/avianey/minimax4j/Minimax.java:397-418 | The loop that searches the first child with `beta` and later ones with `b = alpha + 1`, with the same facts |
| `Search.Minimax.NegascoutScore` | minimax4j/src/main/java/fr/avianey/minimax4j/Minimax.java:421-428 | The probe with `b` (`beta` for the first child, `alpha + 1` after), re-searched in full only on `alpha < score < beta`, is in relation with the child's negated negamax value for the full window |
| `ScoredMinimax.MovesOf` | minimax4j/src/main/java/fr/avianey/minimax4j/impl/Minimax.java:82 | The moves of a list of scored moves, in order |
| `ScoredMinimax.Insert` | minimax4j/src/main/java/fr/avianey/minimax4j/impl/Minimax.java:74 | Inserting into a list sorted by decreasing value keeps it sorted and adds exactly that element |
| `ScoredMinimax.HeadBeforeRest` | minimax4j/src/main/java/fr/avianey/minimax4j/impl/Minimax.java:74 | The head of a sorted list comes before every later element |
| `ScoredMinimax.SortedCons` | minimax4j/src/main/java/fr/avianey/minimax4j/impl/Minimax.java:74 | Putting an element that comes before all of a sorted list in front keeps it sorted |
| `ScoredMinimax.SortScores` | minimax4j/src/main/java/fr/avianey/minimax4j/impl/Minimax.java:74 | `Collections.sort` of the moves by `Move.compareTo`: unscored moves first, then from the highest value down, and a permutation of the input |
| `ScoredMinimax.InsertStable` | minimax4j/src/main/java/fr/avianey/minimax4j/impl/Minimax.java:74 | Inserting a move puts it ahead of the moves `compareTo` finds equal to it |
| `ScoredMinimax.SortScoresStable` | minimax4j/src/main/java/fr/avianey/minimax4j/impl/Minimax.java:74 | The sort is stable, as `Collections.sort` is: the moves with one and the same value, or with none, keep their relative order |
| `ScoredMinimax.RootValueIsMinimax` | minimax4j/src/main/java/fr/avianey/minimax4j/impl/Minimax.java:78-88 | When the supplied list is the position's move list, the root search's score is the minimax value |
| `ScoredMinimax.RootScoredValues` | minimax4j/src/main/java/fr/avianey/minimax4j/impl/Minimax.java:93-99 | The marked list has the same moves in the same order, and each root move's `value` is its child's minimax score |
| `ScoredMinimax.SortedHead` | minimax4j/src/main/java/fr/avianey/minimax4j/impl/Minimax.java:74 | The head of the sorted list is one of its elements with the highest value |
| `ScoredMinimax.SortedTop` | minimax4j/src/main/java/fr/avianey/minimax4j/impl/Minimax.java:89-104 | When every move carries its score, the sorted head holds the best score of the scan |
| `ScoredMinimax.TopScoreIsMinimaxValue` | minimax4j/src/main/java/fr/avianey/minimax4j/impl/Minimax.java:69-76 | After `getBestMoves` the first move of the sorted list carries the minimax value of the root |
| `ScoredMinimax.ChildrenBounded` | minimax4j/src/main/java/fr/avianey/minimax4j/impl/Minimax.java:92-103 | With bounded evaluations each child score beats the max seed `-maxEvaluateValue` |
| `ScoredMinimax.Minimax.constructor` | minimax4j/src/main/java/fr/avianey/minimax4j/impl/Minimax.java:66 | The engine holds the game and the start position |
| `ScoredMinimax.Minimax.MakeMove` | minimax4j/src/main/java/fr/avianey/minimax4j/IA.java:105 | The state becomes `play` of the move |
| `ScoredMinimax.Minimax.UnmakeMove` | minimax4j/src/main/java/fr/avianey/minimax4j/IA.java:115 | The state becomes `undo` of the move |
| `ScoredMinimax.Minimax.Next` | minimax4j/src/main/java/fr/avianey/minimax4j/IA.java:152 | The state becomes `next` |
| `ScoredMinimax.Minimax.Previous` | minimax4j/src/main/java/fr/avianey/minimax4j/IA.java:160 | The state becomes `previous` |
| `ScoredMinimax.Minimax.GetBestMoves` | minimax4j/src/main/java/fr/avianey/minimax4j/impl/Minimax.java:69-76 | Fails exactly when `depth <= 0`; otherwise returns the supplied moves, each root move marked with its child's minimax score, sorted by value. The state is unchanged |
| `ScoredMinimax.Minimax.RootMinimax` | minimax4j/src/main/java/fr/avianey/minimax4j/impl/Minimax.java:78-122 | The root call on the supplied list: the root's score, and the list with every move's `value` set to its child score |
| `ScoredMinimax.Minimax.RootScan` | minimax4j/src/main/java/fr/avianey/minimax4j/impl/Minimax.java:89-104 | The max loop over the supplied moves: the best child score, and each move marked with its own child score, in order |
| `ScoredMinimax.Minimax.Minimax` | minimax4j/src/main/java/fr/avianey/minimax4j/impl/Minimax.java:78-122 | An inner call (no list) returns the minimax value and restores the state |
| `ScoredMinimax.Minimax.MaxScan` | minimax4j/src/main/java/fr/avianey/minimax4j/impl/Minimax.java:89-104 | The max loop returns the best child score from `-maxEvaluateValue` |
| `ScoredMinimax.Minimax.MinScan` | minimax4j/src/main/java/fr/avianey/minimax4j/impl/Minimax.java:105-121 | The min loop returns the least child score from `maxEvaluateValue` |
| `ScoredMinimax.Minimax.ChildScore` | minimax4j/src/main/java/fr/avianey/minimax4j/impl/Minimax.java:94-96 | Make, score, unmake: the opponent's value of the child one ply shallower, with the state restored |
| `ScoredMinimax.Minimax.MinimaxScore` | minimax4j/src/main/java/fr/avianey/minimax4j/impl/Minimax.java:124-126 | The hook's score is the opponent's value one ply shallower |
| `Pixelprose.EvenHeightMod` | minimax4j/src/main/java/fr/pixelprose/minimax4j/IA.java:117 | The recursive parity test agrees with `% 2` |
| `Pixelprose.Who` | minimax4j/src/main/java/fr/pixelprose/minimax4j/IA.java:108-111 | The sign of a leaf evaluation is 1 or -1 |
| `Pixelprose.WhoFlips` | minimax4j/src/main/java/fr/pixelprose/minimax4j/IA.java:155-158 | One level closer to the limit flips the sign |
| `Pixelprose.ParityTest` | minimax4j/src/main/java/fr/pixelprose/minimax4j/IA.java:108-117 | A node maximizes exactly when `depth % 2 == DEPTH % 2`, and a terminal node's sign is -1 exactly when `DEPTH - depth` is odd |
| `Pixelprose.ParityChoice` | minimax4j/src/main/java/fr/pixelprose/minimax4j/IA.java:117-148 | A node that maximizes or minimizes by parity keeps the move negamax keeps there |
| `Pixelprose.UpMaxNode` | minimax4j/src/main/java/fr/pixelprose/minimax4j/IA.java:165-181 | A maximizing node's loop result, in relation with its best child value, is in relation with the upward-counting value, and keeps its move |
| `Pixelprose.UpMinNode` | minimax4j/src/main/java/fr/pixelprose/minimax4j/IA.java:182-198 | The same for a minimizing node |
| `Pixelprose.UpIsMinimax` | minimax4j/src/main/java/fr/pixelprose/minimax4j/IA.java:105-150 | The value of the upward-counting search at `depth` is the minimax value of the silent game at remaining depth `DEPTH - depth`, for the side given by parity |
| `Pixelprose.UpChildren` | minimax4j/src/main/java/fr/pixelprose/minimax4j/IA.java:120-146 | The children's upward values are the silent game's minimax child values |
| `Pixelprose.UpChoiceIsChoice` | minimax4j/src/main/java/fr/pixelprose/minimax4j/IA.java:124-127 | The move kept by the upward search is the minimax choice of the silent game |
| `Pixelprose.UpChoiceNode` | minimax4j/src/main/java/fr/pixelprose/minimax4j/IA.java:140-143 | The same at an inner node |
| `Pixelprose.UpRootIsChoice` | minimax4j/src/main/java/fr/pixelprose/minimax4j/IA.java:88-90 | At the root (`depth = 0`) the kept move is the silent game's minimax choice |
| `Pixelprose.UpRootChoice` | minimax4j/src/main/java/fr/pixelprose/minimax4j/IA.java:85-103 | That root move is also the negamax move of the silent game |
| `Pixelprose.UpRootWindow` | minimax4j/src/main/java/fr/pixelprose/minimax4j/IA.java:91-93 | Inside the root window, alpha-beta's kept move is the plain rule's move |
| `Pixelprose.UpValue` | minimax4j/src/main/java/fr/pixelprose/minimax4j/IA.java:105-150 | With evaluations bounded by `maxEvaluateValue`, the upward minimax value of every position lies strictly inside `(-maxEvaluateValue, maxEvaluateValue)`, the root window |
| `Pixelprose.SilentBounded` | minimax4j/src/main/java/fr/pixelprose/minimax4j/IA.java:114-116 | Making passes silent keeps evaluations bounded |
| `Pixelprose.PassNode` | minimax4j/src/main/java/fr/pixelprose/minimax4j/IA.java:211-227 | A negamax loop result in relation with its best child value is in relation with the passing negamax value, and keeps its move |
| `Pixelprose.PassIsNegamax` | minimax4j/src/main/java/fr/pixelprose/minimax4j/IA.java:202-229 | The passing negamax value, with `-negamax(depth-1)` on a pass, is the negamax value of the silent game |
| `Pixelprose.PassChildren` | minimax4j/src/main/java/fr/pixelprose/minimax4j/IA.java:213-215 | The children's passing values are the silent game's negamax child values |
| `Pixelprose.PassChoiceIsNegamax` | minimax4j/src/main/java/fr/pixelprose/minimax4j/IA.java:216-219 | The passing rule keeps the negamax move of the silent game |
| `Pixelprose.PassValue` | minimax4j/src/main/java/fr/pixelprose/minimax4j/IA.java:202-229 | With bounded evaluations the passing negamax value of every position lies strictly inside the root window as well |
| `Pixelprose.IA.constructor` | minimax4j/src/main/java/fr/pixelprose/minimax4j/IA.java:81-83 | The engine uses the given algorithm, game and position |
| `Pixelprose.IA.WithDefaultAlgorithm` | minimax4j/src/main/java/fr/pixelprose/minimax4j/IA.java:71-73 | The no-argument constructor selects negamax |
| `Pixelprose.IA.MakeMove` | minimax4j/src/main/java/fr/pixelprose/minimax4j/IA.java:121 | The state becomes `play` of the move |
| `Pixelprose.IA.UnmakeMove` | minimax4j/src/main/java/fr/pixelprose/minimax4j/IA.java:123 | The state becomes `undo` of the move |
| `Pixelprose.IA.GetBestMove` | minimax4j/src/main/java/fr/pixelprose/minimax4j/IA.java:85-103 | Every algorithm returns the negamax move of the game without `next`/`previous`, and the state is unchanged |
| `Pixelprose.IA.MinimaxRoot` | minimax4j/src/main/java/fr/pixelprose/minimax4j/IA.java:88-90 | The upward minimax from depth 0 keeps that move |
| `Pixelprose.IA.AlphaBetaRoot` | minimax4j/src/main/java/fr/pixelprose/minimax4j/IA.java:91-93 | The upward alpha-beta from depth 0 keeps that move |
| `Pixelprose.IA.AlphaBetaWindow` | minimax4j/src/main/java/fr/pixelprose/minimax4j/IA.java:91-93 | The alpha-beta root call keeps the plain upward search's root move |
| `Pixelprose.IA.NegamaxRoot` | minimax4j/src/main/java/fr/pixelprose/minimax4j/IA.java:94-96 | The negamax root call keeps that move |
| `Pixelprose.IA.NegascoutRoot` | minimax4j/src/main/java/fr/pixelprose/minimax4j/IA.java:97-100 | The negascout root call keeps that move |
| `Pixelprose.IA.Minimax` | minimax4j/src/main/java/fr/pixelprose/minimax4j/IA.java:105-150 | The score is the upward-counting value (the raw `evaluate` at `DEPTH`, the signed one at a terminal node, `depth + 1` without `next` on a pass); the kept move is the first strictly best child; the state is restored |
| `Pixelprose.IA.MinimaxMax` | minimax4j/src/main/java/fr/pixelprose/minimax4j/IA.java:117-133 | The max loop returns the best child value from `-max` and its first strictly best move |
| `Pixelprose.IA.MinimaxMin` | minimax4j/src/main/java/fr/pixelprose/minimax4j/IA.java:133-149 | The min loop returns the least child value from `max` and its first strictly best move |
| `Pixelprose.IA.AlphaBeta` | minimax4j/src/main/java/fr/pixelprose/minimax4j/IA.java:152-200 | Fail-soft relation with the upward value; below `beta` (max) or above `alpha` (min) the kept move is the first strictly improving one; the state is restored |
| `Pixelprose.IA.AlphaBetaMax` | minimax4j/src/main/java/fr/pixelprose/minimax4j/IA.java:165-181 | The max loop with cut-off, with the relation to its best child value |
| `Pixelprose.IA.AlphaBetaMin` | minimax4j/src/main/java/fr/pixelprose/minimax4j/IA.java:182-198 | The min loop with cut-off, with the relation to its least child value |
| `Pixelprose.IA.Negamax` | minimax4j/src/main/java/fr/pixelprose/minimax4j/IA.java:202-229 | Fail-soft relation with the passing negamax value, its move below `beta`, the state restored |
| `Pixelprose.IA.NegamaxMoves` | minimax4j/src/main/java/fr/pixelprose/minimax4j/IA.java:211-227 | The negamax loop with cut-off, with the same facts |
| `Pixelprose.IA.Negascout` | minimax4j/src/main/java/fr/pixelprose/minimax4j/IA.java:231-265 | Negascout meets the negamax contract on the passing value |
| `Pixelprose.IA.NegascoutMoves` | minimax4j/src/main/java/fr/pixelprose/minimax4j/IA.java:241-262 | The loop with null-window probes after the first child, with the same facts |
| `Pixelprose.IA.ScoutChild` | minimax4j/src/main/java/fr/pixelprose/minimax4j/IA.java:244-249 | The probe with `b`, then the full re-search before `unmakeMove` on `alpha < score < beta` for a later child, is in relation with the child's negated value |
| `Pixelprose.IA.MinimaxChild` | minimax4j/src/main/java/fr/pixelprose/minimax4j/IA.java:121-123 | Make, search at `depth + 1`, unmake: the child's upward value, with the state restored |
| `Pixelprose.IA.AlphaBetaChild` | minimax4j/src/main/java/fr/pixelprose/minimax4j/IA.java:167-169 | The same for an alpha-beta child, in relation with its upward value |
| `Pixelprose.IA.NegamaxChild` | minimax4j/src/main/java/fr/pixelprose/minimax4j/IA.java:213-215 | The same for a negamax child, with `-negamax(depth-1, -beta, -alpha)` |
| `TranspositionTables.GroupKey` | minimax4j/src/main/java/fr/avianey/minimax4j/TranspositionMinimax.java:254-255 | The group a table is filed under is the group `getGroup()` reports, or the single key 0 when there are no groups |
| `TranspositionTables.Stored` | minimax4j/src/main/java/fr/avianey/minimax4j/TranspositionMinimax.java:273-276 | A score is found exactly when the position's group has a table holding its key, and it is the score stored there |
| `TranspositionTables.PutAll` | minimax4j/src/main/java/fr/avianey/minimax4j/TranspositionMinimax.java:256-259 | Writing one score under a list of keys: exactly the old keys and the new ones are present, and the new keys hold the score |
| `TranspositionTables.Evict` | minimax4j/src/main/java/fr/avianey/minimax4j/TranspositionMinimax.java:172-178 | `headMap(g).clear()`: exactly the groups at or above `g` remain, with their tables untouched |
| `TranspositionTables.EvictMonotone` | minimax4j/src/main/java/fr/avianey/minimax4j/TranspositionMinimax.java:172-178 | Evicting after the table has grown keeps every group at or above the bound, and every key in it, that evicting before would have kept |
| `TranspositionTables.EvictTwice` | minimax4j/src/main/java/fr/avianey/minimax4j/TranspositionMinimax.java:172-178 | Evicting twice below the same group is the same as evicting once |
| `TranspositionTables.ExtendsTransitive` | minimax4j/src/main/java/fr/avianey/minimax4j/TranspositionMinimax.java:252-261 | Table growth (no group and no key lost) composes |
| `TranspositionTables.StoredPersists` | minimax4j/src/main/java/fr/avianey/minimax4j/TranspositionMinimax.java:252-261 | An entry present before growth is still present after it |
| `TranspositionTables.TranspositionTable.constructor` | minimax4j/src/main/java/fr/avianey/minimax4j/TranspositionMinimax.java:72-76 | A new table map is empty |
| `TranspositionTables.TranspositionTable.Save` | minimax4j/src/main/java/fr/avianey/minimax4j/TranspositionMinimax.java:252-261 | `saveTransposition`: the group gets its fetched table, or a new one when it was absent, with the score under every given key; other groups are untouched |
| `TranspositionTables.TranspositionTable.ClearGroups` | minimax4j/src/main/java/fr/avianey/minimax4j/TranspositionMinimax.java:172-178 | Evicts the groups strictly below the current group, and does nothing for a `null` group |
| `TranspositionTables.TranspositionTable.Clear` | minimax4j/src/main/java/fr/avianey/minimax4j/TranspositionMinimax.java:204-206 | The map is left empty |
| `TranspositionTables.SaveExtends` | minimax4j/src/main/java/fr/avianey/minimax4j/TranspositionMinimax.java:252-261 | A save, even after the search below it has added entries, only grows the table |
| `TranspositionTables.SaveReadsBack` | minimax4j/src/main/java/fr/avianey/minimax4j/TranspositionMinimax.java:256-259 | After a save, every key it was written under reads back the saved score |
| `Transposition.TranspositionMinimax.constructor` | minimax4j/src/main/java/fr/avianey/minimax4j/TranspositionMinimax.java:63-91 | The engine with its algorithm, game, group key, transposition keys and flags, and an empty table |
| `Transposition.TranspositionMinimax.TranspositionNegamax` | minimax4j/src/main/java/fr/avianey/minimax4j/impl/TranspositionNegamax.java:65-78 | `TranspositionNegamax`: negamax, the table always used, no eviction before and eviction after every search, an empty table |
| `Transposition.TranspositionMinimax.MakeMove` | minimax4j/src/main/java/fr/avianey/minimax4j/Minimax.java:437-445 | The state becomes `play` of the move |
| `Transposition.TranspositionMinimax.UnmakeMove` | minimax4j/src/main/java/fr/avianey/minimax4j/Minimax.java:447-455 | The state becomes `undo` of the move |
| `Transposition.TranspositionMinimax.Next` | minimax4j/src/main/java/fr/avianey/minimax4j/Minimax.java:486-492 | The state becomes `next` |
| `Transposition.TranspositionMinimax.Previous` | minimax4j/src/main/java/fr/avianey/minimax4j/Minimax.java:494-500 | The state becomes `previous` |
| `Transposition.TranspositionMinimax.ClearGroups` | minimax4j/src/main/java/fr/avianey/minimax4j/TranspositionMinimax.java:172-178 | Evicts exactly the groups strictly below the current position's group; a `null` group (single bucket) removes nothing |
| `Transposition.TranspositionMinimax.ClearTranspositionTable` | minimax4j/src/main/java/fr/avianey/minimax4j/TranspositionMinimax.java:204-206 | The table map is left empty |
| `Transposition.TranspositionMinimax.GetBestMove` | minimax4j/src/main/java/fr/avianey/minimax4j/TranspositionMinimax.java:152-161 | Fails exactly when `depth <= 0` (after the optional eviction before the search). A returned move is legal and the state is unchanged. With the table off, a lawful game and a positive depth, the result is the plain minimax move. With eviction after the search, no group below the current one remains. After a search, every group at or above the current one keeps every key it held before, and without any eviction the whole table only grows; with the table off as well it is untouched |
| `Transposition.TranspositionMinimax.SaveTransposition` | minimax4j/src/main/java/fr/avianey/minimax4j/TranspositionMinimax.java:252-261 | The current group gets its fetched table (or a new one) with the score under every symmetric key |
| `Transposition.TranspositionMinimax.Minimax` | minimax4j/src/main/java/fr/avianey/minimax4j/Minimax.java:157-202 | The minimax rule through cached hooks: the state is restored, the table only grows and the kept move is legal. With the table off the score is the reference minimax value, the move the reference choice and the table untouched |
| `Transposition.TranspositionMinimax.MinimaxRoot` | minimax4j/src/main/java/fr/avianey/minimax4j/Minimax.java:112-114 | The root minimax call restores the state, only grows the table and keeps a legal move; with the table off it keeps the minimax move |
| `Transposition.TranspositionMinimax.MinimaxMoves` | minimax4j/src/main/java/fr/avianey/minimax4j/Minimax.java:169-201 | The move loop through cached hooks: state restored, table grown, legal move; with the table off, the reference value of the children and the first strictly best move |
| `Transposition.TranspositionMinimax.MinimaxScore` | minimax4j/src/main/java/fr/avianey/minimax4j/TranspositionMinimax.java:268-285 | On a hit the score is `who * stored` and nothing is written or searched; on a miss `who * score` is stored under every symmetric key; without the table it is the plain hook |
| `Transposition.TranspositionMinimax.AlphaBeta` | minimax4j/src/main/java/fr/avianey/minimax4j/Minimax.java:237-285 | Alpha-beta through cached hooks: state restored, table grows, a node with moves returns at least `alpha` (max) or at most `beta` (min), the move is legal. With the table off and a window inside the evaluation range, the result is in the fail-soft relation with the minimax value, and the kept move is the reference move when the value falls inside the window |
| `Transposition.TranspositionMinimax.AlphaBetaRoot` | minimax4j/src/main/java/fr/avianey/minimax4j/Minimax.java:115-117 | The root alpha-beta call restores the state and only grows the table; with the table off and bounded evaluations it keeps the minimax move |
| `Transposition.TranspositionMinimax.AlphaBetaMax` | minimax4j/src/main/java/fr/avianey/minimax4j/Minimax.java:250-266 | The maximizing loop: at least `alpha`; with the table off, in the fail-soft relation with the best child value, and the first strictly best move when that value is below `beta` |
| `Transposition.TranspositionMinimax.AlphaBetaMin` | minimax4j/src/main/java/fr/avianey/minimax4j/Minimax.java:267-284 | The minimizing loop: at most `beta`; with the table off, in relation with the smallest child value, and the first strictly best move when that value is above `alpha` |
| `Transposition.TranspositionMinimax.AlphaBetaScore` | minimax4j/src/main/java/fr/avianey/minimax4j/TranspositionMinimax.java:288-305 | The cached alpha-beta hook, with the same hit and miss rules as the minimax hook |
| `Transposition.TranspositionMinimax.Negamax` | minimax4j/src/main/java/fr/avianey/minimax4j/Minimax.java:324-354 | Negamax through cached hooks: state restored, table grows, at least `alpha` for a node with moves, legal move. With the table off and a window inside the evaluation range, the fail-soft relation with the negamax value and the reference move when that value is below `beta` |
| `Transposition.TranspositionMinimax.NegamaxRoot` | minimax4j/src/main/java/fr/avianey/minimax4j/Minimax.java:118-120 | The root negamax call restores the state and only grows the table; with the table off and bounded evaluations it keeps the minimax move |
| `Transposition.TranspositionMinimax.NegamaxMoves` | minimax4j/src/main/java/fr/avianey/minimax4j/Minimax.java:330-353 | The negamax loop with cut-off: at least `alpha`; with the table off, the fail-soft relation with the best negated child value and the first strictly best move below `beta` |
| `Transposition.TranspositionMinimax.NegamaxScore` | minimax4j/src/main/java/fr/avianey/minimax4j/TranspositionMinimax.java:308-325 | On a hit the stored score is returned unsearched; on a miss the score is stored as it is under every symmetric key |
| `Transposition.TranspositionMinimax.Negascout` | minimax4j/src/main/java/fr/avianey/minimax4j/Minimax.java:385-419 | Negascout through cached hooks, with the negamax facts, including the value and move claims with the table off |
| `Transposition.TranspositionMinimax.NegascoutRoot` | minimax4j/src/main/java/fr/avianey/minimax4j/Minimax.java:121-124 | The root negascout call restores the state and only grows the table; with the table off and bounded evaluations it keeps the minimax move |
| `Transposition.TranspositionMinimax.NegascoutMoves` | minimax4j/src/main/java/fr/avianey/minimax4j/Minimax.java:397-418 | The negascout loop: the same facts as the negamax loop |
| `Transposition.TranspositionMinimax.NegascoutStep` | minimax4j/src/main/java/fr/avianey/minimax4j/Minimax.java:400-412 | One child of the negascout loop (probe, conditional re-search, update): without a cut-off the scan invariant holds one child further; on a cut-off the result is in relation with the best child value and at least `beta` |
| `Transposition.TranspositionMinimax.NegascoutScore` | minimax4j/src/main/java/fr/avianey/minimax4j/TranspositionMinimax.java:328-345 | The cached negascout hook: a hit skips the probe and the re-search; a miss stores the probed (and maybe re-searched) score |
| `Transposition.TranspositionMinimax.ScoutProbe` | minimax4j/src/main/java/fr/avianey/minimax4j/Minimax.java:421-428 | The uncached probe and conditional re-search restore the state and only grow the table |
| `Transposition.TranspositionMinimax.Revisit` | minimax4j/src/main/java/fr/avianey/minimax4j/TranspositionMinimax.java:272-283 | A position stored on a miss and met again by the same side before the table changes reads back exactly the searched score |
| `InlineTransposition.TranspositionIA.constructor` | minimax4j/src/main/java/fr/avianey/minimax4j/transposition/TranspositionIA.java:60-80 | `TranspositionIA` as written: symmetric writes, and minimizing branches that store the score unnegated; an empty table |
| `InlineTransposition.TranspositionIA.Corrected` | minimax4j/src/main/java/fr/avianey/minimax4j/transposition/TranspositionIA.java:283-292 | The engine with the minimizing branches storing the negated score, so that what they read back is what they stored |
| `InlineTransposition.TranspositionIA.TableBacked` | minimax4j/src/main/java/fr/avianey/minimax4j/ext/TranspositionTableBackedIA.java:36-56 | `TranspositionTableBackedIA`: the position's own key as its only key, and negated stores in the minimizing branches |
| `InlineTransposition.TranspositionIA.MakeMove` | minimax4j/src/main/java/fr/avianey/minimax4j/transposition/TranspositionIA.java:242 | The state becomes `play` of the move |
| `InlineTransposition.TranspositionIA.UnmakeMove` | minimax4j/src/main/java/fr/avianey/minimax4j/transposition/TranspositionIA.java:261 | The state becomes `undo` of the move |
| `InlineTransposition.TranspositionIA.ClearGroups` | minimax4j/src/main/java/fr/avianey/minimax4j/transposition/TranspositionIA.java:144-150 | Evicts the groups strictly below the current one; nothing for a `null` group |
| `InlineTransposition.TranspositionIA.ClearTranspositionTable` | minimax4j/src/main/java/fr/avianey/minimax4j/transposition/TranspositionIA.java:176-178 | The map is left empty |
| `InlineTransposition.TranspositionIA.GetBestMove` | minimax4j/src/main/java/fr/avianey/minimax4j/transposition/TranspositionIA.java:132-149 | Fails exactly when `depth <= 0`. A returned move is legal and the state is unchanged. With eviction after the search, no group below the current one remains. After a search, every group at or above the current one keeps every key it held before (`headMap(g).clear()` drops only lower groups), and without any eviction the whole table only grows |
| `InlineTransposition.TranspositionIA.Save` | minimax4j/src/main/java/fr/avianey/minimax4j/transposition/TranspositionIA.java:252-259 | The current group gets its fetched table (or a new one) with the value under every symmetric key |
| `InlineTransposition.TranspositionIA.Minimax` | minimax4j/src/main/java/fr/avianey/minimax4j/transposition/TranspositionIA.java:229-305 | Inline-cached minimax: passes one ply shallower for the other side without `next`/`previous`, the state is restored on hit and miss paths, the table only grows, the move is legal |
| `InlineTransposition.TranspositionIA.MinimaxChild` | minimax4j/src/main/java/fr/avianey/minimax4j/transposition/TranspositionIA.java:242-261 | A child lookup: on a hit the score is `ReadSign(who)` times the entry and nothing is written; on a miss the searched score times `StoreSign(who)` is written under every symmetric key |
| `InlineTransposition.TranspositionIA.AlphaBeta` | minimax4j/src/main/java/fr/avianey/minimax4j/transposition/TranspositionIA.java:308-387 | Inline-cached alpha-beta: the state is restored, the table grows, the move is legal, and a node with moves returns at least `alpha` (max) or at most `beta` (min) |
| `InlineTransposition.TranspositionIA.AlphaBetaChild` | minimax4j/src/main/java/fr/avianey/minimax4j/transposition/TranspositionIA.java:320-339 | The alpha-beta child lookup with the same hit and miss signs |
| `InlineTransposition.TranspositionIA.Negamax` | minimax4j/src/main/java/fr/avianey/minimax4j/transposition/TranspositionIA.java:390-434 | Inline-cached negamax: the state is restored, the table grows, the move is legal, at least `alpha` for a node with moves |
| `InlineTransposition.TranspositionIA.NegamaxChild` | minimax4j/src/main/java/fr/avianey/minimax4j/transposition/TranspositionIA.java:401-420 | A hit returns the entry unchanged; a miss stores the negated child score as it is |
| `InlineTransposition.TranspositionIA.Negascout` | minimax4j/src/main/java/fr/avianey/minimax4j/transposition/TranspositionIA.java:437-488 | Inline-cached negascout, with the negamax facts |
| `InlineTransposition.TranspositionIA.NegascoutChild` | minimax4j/src/main/java/fr/avianey/minimax4j/transposition/TranspositionIA.java:450-472 | A hit skips probe and re-search; a miss probes with `b`, re-searches only for a later child with `alpha < score < beta`, and stores the result |
| `InlineTransposition.TranspositionIA.MinRevisit` | minimax4j/src/main/java/fr/avianey/minimax4j/transposition/TranspositionIA.java:274-293 | A position stored by a minimizing node and met again by one reads back minus the stored sign times the score: the score itself only with negated stores (or a zero score) |
| `Zobrist.FoldAppend` | minimax4j/src/main/java/fr/avianey/minimax4j/ext/ZobristHashing.java:45-48 | Folding a commutative monoid over a concatenation combines the two folds |
| `Zobrist.FoldRemove` | minimax4j/src/main/java/fr/avianey/minimax4j/ext/ZobristHashing.java:45-48 | Any element can be folded in last |
| `Zobrist.FoldPermutation` | minimax4j/src/main/java/fr/avianey/minimax4j/ext/ZobristHashing.java:45-48 | A fold of a commutative monoid depends only on the multiset of its elements |
| `Zobrist.XorAssociative` | minimax4j/src/main/java/fr/avianey/minimax4j/ext/ZobristHashing.java:46 | XOR of 32-bit patterns is associative |
| `Zobrist.XorMonoid` | minimax4j/src/main/java/fr/avianey/minimax4j/ext/ZobristHashing.java:46 | XOR with 0 is a commutative monoid |
| `Zobrist.XorKeysSnoc` | minimax4j/src/main/java/fr/avianey/minimax4j/ext/ZobristHashing.java:46 | XOR-ing one more key onto the hash of a list is the hash of the longer list |
| `Zobrist.XorKeysStep` | minimax4j/src/main/java/fr/avianey/minimax4j/ext/ZobristHashing.java:46 | The same starting from a known hash |
| `Zobrist.XorKeysTwice` | minimax4j/src/main/java/fr/avianey/minimax4j/ext/ZobristHashing.java:45-60 | Adding a key twice (or adding then removing it) gives the hash back |
| `Zobrist.XorKeysPermutation` | minimax4j/src/main/java/fr/avianey/minimax4j/ext/ZobristHashing.java:45-48 | The hash of a sequence of adds depends only on the multiset of keys, not their order |
| `Zobrist.TruncateToZero` | minimax4j/src/main/java/fr/avianey/minimax4j/ext/ZobristHashing.java:28 | Java's double-to-integer rounding: toward zero, within 1 of the argument |
| `Zobrist.Low32RoundTrip` | minimax4j/src/main/java/fr/avianey/minimax4j/ext/ZobristHashing.java:28 | Narrowing a 32-bit pattern read as a number gives the pattern back |
| `Zobrist.IntCast` | minimax4j/src/main/java/fr/avianey/minimax4j/ext/ZobristHashing.java:28 | Java's `(int)` of a double: rounded toward zero, saturated at `Integer.MAX_VALUE` and `Integer.MIN_VALUE`, the low 32 bits otherwise |
| `Zobrist.LongCast` | minimax4j/src/main/java/fr/avianey/minimax4j/ext/ZobristHashing.java:28 | Java's `(long)` of a double: rounded toward zero and clamped to the `long` range |
| `Zobrist.RandomDouble` | minimax4j/src/main/java/fr/avianey/minimax4j/ext/ZobristHashing.java:28 | A draw of `Math.random()`, `k / 2^53` for a 53-bit `k`, lies in [0, 1) |
| `Zobrist.SaturatedBitString` | minimax4j/src/main/java/fr/avianey/minimax4j/ext/ZobristHashing.java:28 | The key as written, `(int) (Math.random() * Long.MAX_VALUE)`: every draw `k` from 2^21 on (all but a 2^-32 share) gives 0x7FFFFFFF; the others give the low 32 bits of `k * 1024` |
| `Zobrist.SaturatedKeysCancel` | minimax4j/src/main/java/fr/avianey/minimax4j/ext/ZobristHashing.java:28 | Two such draws give the same key, so adding both pieces leaves the hash of the empty board |
| `Zobrist.Low32Mod` | minimax4j/src/main/java/fr/avianey/minimax4j/ext/ZobristHashing.java:28 | Narrowing to `int` depends only on the value modulo 2^32 |
| `Zobrist.LongBitString` | minimax4j/src/main/java/fr/avianey/minimax4j/ext/ZobristHashing.java:28 | The key with a cast through `long`, `(int) (long) (Math.random() * Long.MAX_VALUE)`: the low 22 bits of the draw, shifted up by 10 |
| `Zobrist.LongBitStringKeys` | minimax4j/src/main/java/fr/avianey/minimax4j/ext/ZobristHashing.java:28 | Through `long` the keys that occur are exactly the 2^22 patterns with the low 10 bits clear |
| `Zobrist.ScaledBy32Bits` | minimax4j/src/main/java/fr/avianey/minimax4j/ext/ZobristHashing.java:28 | A draw scaled by 2^32 and rounded toward zero is its top 32 bits, `k / 2^21` |
| `Zobrist.UniformBitString` | minimax4j/src/main/java/fr/avianey/minimax4j/ext/ZobristHashing.java:28 | The corrected key, `(int) (long) (Math.random() * 4294967296.0)`: the top 32 bits of the draw |
| `Zobrist.UniformBitStringCoversAll` | minimax4j/src/main/java/fr/avianey/minimax4j/ext/ZobristHashing.java:28 | Corrected, every 32-bit value is the key of some draw |
| `Zobrist.FillTable` | minimax4j/src/main/java/fr/avianey/minimax4j/ext/ZobristHashing.java:25-30 | The double loop: a fresh `pieces` by `positions` table whose every entry is the key of its cell |
| `Zobrist.ZobristHashing.constructor` | minimax4j/src/main/java/fr/avianey/minimax4j/ext/ZobristHashing.java:24-32 | A `pieces` by `positions` table, each entry the as-written key of its draw, and hash 0 |
| `Zobrist.ZobristHashing.Corrected` | minimax4j/src/main/java/fr/avianey/minimax4j/ext/ZobristHashing.java:24-32 | The same table built from the corrected keys |
| `Zobrist.ZobristHashing.Reset` | minimax4j/src/main/java/fr/avianey/minimax4j/ext/ZobristHashing.java:34-36 | The hash is 0 and no key counts any more |
| `Zobrist.ZobristHashing.Add` | minimax4j/src/main/java/fr/avianey/minimax4j/ext/ZobristHashing.java:45-48 | The hash becomes the old hash XOR the piece's bit string at the position, and that is returned; the key is recorded |
| `Zobrist.ZobristHashing.Remove` | minimax4j/src/main/java/fr/avianey/minimax4j/ext/ZobristHashing.java:57-60 | The same XOR as `add`, so a remove after an add restores the hash |
| `Zobrist.ZobristHashing.HashCode` | minimax4j/src/main/java/fr/avianey/minimax4j/ext/ZobristHashing.java:63-65 | The hash is the XOR of every key added or removed since construction or reset |
| `Bitboard.Bit` | minimax4j/src/main/java/fr/avianey/minimax4j/ext/Bitboard.java:27-34 | The lowest bit as 0 or 1 |
| `Bitboard.OnesShift` | minimax4j/src/main/java/fr/avianey/minimax4j/ext/Bitboard.java:27-34 | The number of 1 bits is the lowest bit plus the 1 bits of the rest |
| `Bitboard.ClearLowest` | minimax4j/src/main/java/fr/avianey/minimax4j/ext/Bitboard.java:30 | `i & (i - 1)` on a non-zero 64-bit value has exactly one 1 bit fewer |
| `Bitboard.ClearLowest32` | minimax4j/src/main/java/fr/avianey/minimax4j/ext/Bitboard.java:57 | The same for 32-bit values |
| `Bitboard.NumberOfSetBits64_2` | minimax4j/src/main/java/fr/avianey/minimax4j/ext/Bitboard.java:27-34 | The clearing loop returns the number of 1 bits of the 64-bit pattern (and terminates because each step clears one) |
| `Bitboard.NumberOfSetBits32_2` | minimax4j/src/main/java/fr/avianey/minimax4j/ext/Bitboard.java:54-61 | The clearing loop returns the number of 1 bits of the 32-bit pattern |
| `Bitboard.NumberOfSetBits64_1` | minimax4j/src/main/java/fr/avianey/minimax4j/ext/Bitboard.java:14-19 | The SWAR expression equals the number of 1 bits for every 64-bit input, so it agrees with the loop |
| `Bitboard.NumberOfSetBits32` | minimax4j/src/main/java/fr/avianey/minimax4j/ext/Bitboard.java:41-46 | The 32-bit SWAR expression equals the number of 1 bits for every input |
| `Bitboard.PopCountBound64` | minimax4j/src/main/java/fr/avianey/minimax4j/ext/Bitboard.java:27-34 | A 64-bit value has at most 64 bits set |
| `Bitboard.PopCountBound32` | minimax4j/src/main/java/fr/avianey/minimax4j/ext/Bitboard.java:54-61 | A 32-bit value has at most 32 bits set |
| `Bitboard.PopCountExtremes64` | minimax4j/src/main/java/fr/avianey/minimax4j/ext/Bitboard.java:27-34 | 0 has no bit set and -1 has 64 |
| `Bitboard.PopCountExtremes32` | minimax4j/src/main/java/fr/avianey/minimax4j/ext/Bitboard.java:54-61 | 0 has no bit set and -1 has 32 |
| `Bitboard.NumberOfSetBits64_1Range` | minimax4j/src/main/java/fr/avianey/minimax4j/ext/Bitboard.java:14-19 | The SWAR result is at most 64, 0 for input 0 and 64 for -1 |
| `Bitboard.NumberOfSetBits32Range` | minimax4j/src/main/java/fr/avianey/minimax4j/ext/Bitboard.java:41-46 | The 32-bit SWAR result is at most 32, 0 for input 0 and 32 for -1 |
| `TicTacToe.HasWon` | minimax4j-sample/src/main/java/fr/avianey/minimax4j/sample/tictactoe/TicTacToeMinimax.java:69-86 | The eight-line test of `hasWon` holds exactly when the player owns a whole row, column or diagonal |
| `TicTacToe.IsOver` | minimax4j-sample/src/main/java/fr/avianey/minimax4j/sample/tictactoe/TicTacToeMinimax.java:65-67 | The game is over exactly when X or O owns a line or the turn is 9 |
| `TicTacToe.Evaluate` | minimax4j-sample/src/main/java/fr/avianey/minimax4j/sample/tictactoe/TicTacToeMinimax.java:118-134 | The evaluation lies in [-2, 2], strictly inside `maxEvaluateValue() == 3`. It is 2 exactly for an own line, -2 for an opponent line only, and 1 or -1 for the centre held by the mover or the opponent when nobody has a line, in that order of checks |
| `TicTacToe.EvaluateAntisymmetric` | minimax4j-sample/src/main/java/fr/avianey/minimax4j/sample/tictactoe/TicTacToeMinimax.java:118-134 | Unless both sides have a line, switching the side to move negates the evaluation |
| `TicTacToe.NextPlayer` | minimax4j-sample/src/main/java/fr/avianey/minimax4j/sample/tictactoe/TicTacToeMinimax.java:143-145 | `next` keeps the cells and the turn and swaps X and O |
| `TicTacToe.PreviousPlayer` | minimax4j-sample/src/main/java/fr/avianey/minimax4j/sample/tictactoe/TicTacToeMinimax.java:148-150 | `previous` also swaps X and O, keeps the cells and the turn, and `next` undoes it |
| `TicTacToe.NextPreviousInverse` | minimax4j-sample/src/main/java/fr/avianey/minimax4j/sample/tictactoe/TicTacToeMinimax.java:143-150 | `next` and `previous` undo each other |
| `TicTacToe.Play` | minimax4j-sample/src/main/java/fr/avianey/minimax4j/sample/tictactoe/TicTacToeMinimax.java:89-93 | `makeMove` writes the side to move into the cell and nothing else, increments the turn and flips the side |
| `TicTacToe.Undo` | minimax4j-sample/src/main/java/fr/avianey/minimax4j/sample/tictactoe/TicTacToeMinimax.java:96-100 | `unmakeMove` frees the cell and nothing else, decrements the turn and flips the side back |
| `TicTacToe.UndoPlay` | minimax4j-sample/src/main/java/fr/avianey/minimax4j/sample/tictactoe/TicTacToeMinimax.java:89-100 | `unmakeMove` after `makeMove` on a free cell restores grid, turn and side exactly |
| `TicTacToe.FreeMovesStep` | minimax4j-sample/src/main/java/fr/avianey/minimax4j/sample/tictactoe/TicTacToeMinimax.java:105-112 | One step of the double loop appends the move of cell (i, j) exactly when it is free |
| `TicTacToe.FreeMovesExact` | minimax4j-sample/src/main/java/fr/avianey/minimax4j/sample/tictactoe/TicTacToeMinimax.java:103-115 | The first `k` cells' free moves are exactly the moves on free cells among them, tagged with the player |
| `TicTacToe.FreeMovesRowMajor` | minimax4j-sample/src/main/java/fr/avianey/minimax4j/sample/tictactoe/TicTacToeMinimax.java:103-115 | Those moves come in row-major order (i, then j) |
| `TicTacToe.PossibleMoves` | minimax4j-sample/src/main/java/fr/avianey/minimax4j/sample/tictactoe/TicTacToeMinimax.java:103-115 | A move is listed exactly when its cell is free and it is tagged with the side to move, and the list is in row-major order, each move once |
| `TicTacToe.NewBoardFacts` | minimax4j-sample/src/main/java/fr/avianey/minimax4j/sample/tictactoe/TicTacToeMinimax.java:53-62 | A new game is not over, evaluates to 0 and has nine moves |
| `TicTacToe.TicTacToeLawful` | minimax4j-sample/src/main/java/fr/avianey/minimax4j/sample/tictactoe/TicTacToeMinimax.java:89-150 | The tic-tac-toe game is lawful: unmake undoes every listed move, previous undoes next, and evaluations are inside the bound 3 |
| `TicTacToe.GridCellOf` | minimax4j-sample/src/main/java/fr/avianey/minimax4j/sample/tictactoe/TicTacToeMinimax.java:41-42 | The row-major cell list of the 3x3 array holds `grid[x][y]` at `3x + y` |
| `TicTacToe.ClearGrid` | minimax4j-sample/src/main/java/fr/avianey/minimax4j/sample/tictactoe/TicTacToeMinimax.java:54-58 | Every cell becomes FREE |
| `TicTacToe.CopyGrid` | minimax4j-sample/src/main/java/fr/avianey/minimax4j/sample/tictactoe/TicTacToeParallelMinimax.java:63-67 | The target grid gets the source's cells |
| `TicTacToe.ListFreeMoves` | minimax4j-sample/src/main/java/fr/avianey/minimax4j/sample/tictactoe/TicTacToeMinimax.java:103-115 | The double loop over the array returns the free moves of its cells, in order |
| `TicTacToe.TicTacToeMinimax.constructor` | minimax4j-sample/src/main/java/fr/avianey/minimax4j/sample/tictactoe/TicTacToeMinimax.java:47-51 | A new object with its own grid holds the new game |
| `TicTacToe.TicTacToeMinimax.NewGame` | minimax4j-sample/src/main/java/fr/avianey/minimax4j/sample/tictactoe/TicTacToeMinimax.java:53-62 | Every cell FREE, X to move, turn 0 |
| `TicTacToe.TicTacToeMinimax.MakeMove` | minimax4j-sample/src/main/java/fr/avianey/minimax4j/sample/tictactoe/TicTacToeMinimax.java:89-93 | The object now holds `play` of the move |
| `TicTacToe.TicTacToeMinimax.UnmakeMove` | minimax4j-sample/src/main/java/fr/avianey/minimax4j/sample/tictactoe/TicTacToeMinimax.java:96-100 | The object now holds `undo` of the move |
| `TicTacToe.TicTacToeMinimax.Next` | minimax4j-sample/src/main/java/fr/avianey/minimax4j/sample/tictactoe/TicTacToeMinimax.java:143-145 | The side to move becomes `3 - currentPlayer` |
| `TicTacToe.TicTacToeMinimax.Previous` | minimax4j-sample/src/main/java/fr/avianey/minimax4j/sample/tictactoe/TicTacToeMinimax.java:148-150 | The side to move becomes `3 - currentPlayer` |
| `TicTacToe.TicTacToeMinimax.GetPossibleMoves` | minimax4j-sample/src/main/java/fr/avianey/minimax4j/sample/tictactoe/TicTacToeMinimax.java:103-115 | The free cells of the object's grid, row-major, tagged with the side to move |
| `ParallelTicTacToe.TicTacToeParallelMinimax.constructor` | minimax4j-sample/src/main/java/fr/avianey/minimax4j/sample/tictactoe/TicTacToeParallelMinimax.java:53-57 | A new object with its own grid holds the new game |
| `ParallelTicTacToe.TicTacToeParallelMinimax.Copy` | minimax4j-sample/src/main/java/fr/avianey/minimax4j/sample/tictactoe/TicTacToeParallelMinimax.java:59-68 | The copy constructor: a fresh grid with the given grid's cells, and the given turn, side and algorithm |
| `ParallelTicTacToe.TicTacToeParallelMinimax.Clone` | minimax4j-sample/src/main/java/fr/avianey/minimax4j/sample/tictactoe/TicTacToeParallelMinimax.java:187-189 | The clone is a new object with a grid of its own and the same algorithm, cells, turn and side |
| `ParallelTicTacToe.TicTacToeParallelMinimax.MoveOnClone` | minimax4j-sample/src/main/java/fr/avianey/minimax4j/sample/tictactoe/TicTacToeParallelMinimax.java:59-68 | A move made on a clone changes the clone only: the original keeps its position |
| `ParallelTicTacToe.TicTacToeParallelMinimax.NewGame` | minimax4j-sample/src/main/java/fr/avianey/minimax4j/sample/tictactoe/TicTacToeParallelMinimax.java:70-79 | Every cell FREE, X to move, turn 0 |
| `ParallelTicTacToe.TicTacToeParallelMinimax.MakeMove` | minimax4j-sample/src/main/java/fr/avianey/minimax4j/sample/tictactoe/TicTacToeParallelMinimax.java:106-110 | The object now holds `play` of the move |
| `ParallelTicTacToe.TicTacToeParallelMinimax.UnmakeMove` | minimax4j-sample/src/main/java/fr/avianey/minimax4j/sample/tictactoe/TicTacToeParallelMinimax.java:113-117 | The object now holds `undo` of the move |
| `ParallelTicTacToe.TicTacToeParallelMinimax.Next` | minimax4j-sample/src/main/java/fr/avianey/minimax4j/sample/tictactoe/TicTacToeParallelMinimax.java:160-162 | The side to move is swapped |
| `ParallelTicTacToe.TicTacToeParallelMinimax.Previous` | minimax4j-sample/src/main/java/fr/avianey/minimax4j/sample/tictactoe/TicTacToeParallelMinimax.java:165-167 | The side to move is swapped back |
| `ParallelTicTacToe.TicTacToeParallelMinimax.GetPossibleMoves` | minimax4j-sample/src/main/java/fr/avianey/minimax4j/sample/tictactoe/TicTacToeParallelMinimax.java:120-132 | The free cells, row-major, tagged with the side to move |
| `TranspositionTicTacToe.CellKeys` | minamax4j-sample/src/main/java/fr/avianey/minimax4j/sample/tictactoe/TicTacToeTranspositionIA.java:103 | The nine cell keys `grid[x][y] << 2(x + 3y)`, one per cell |
| `TranspositionTicTacToe.ShiftZero` | minamax4j-sample/src/main/java/fr/avianey/minimax4j/sample/tictactoe/TicTacToeTranspositionIA.java:103 | Shifting 0 gives 0 |
| `TranspositionTicTacToe.Key` | minamax4j-sample/src/main/java/fr/avianey/minimax4j/sample/tictactoe/TicTacToeTranspositionIA.java:103 | The 2-bit key of a cell: a FREE cell contributes nothing to the hash |
| `TranspositionTicTacToe.FoldUpdate` | minamax4j-sample/src/main/java/fr/avianey/minimax4j/sample/tictactoe/TicTacToeTranspositionIA.java:103 | Replacing one element of a self-inverse fold XORs the old element out and the new one in |
| `TranspositionTicTacToe.XorKeysUpdate` | minamax4j-sample/src/main/java/fr/avianey/minimax4j/sample/tictactoe/TicTacToeTranspositionIA.java:103 | The same for the XOR of keys |
| `TranspositionTicTacToe.BoardHashUpdate` | minamax4j-sample/src/main/java/fr/avianey/minimax4j/sample/tictactoe/TicTacToeTranspositionIA.java:103 | Changing one cell changes the board hash by the old and new keys of that cell |
| `TranspositionTicTacToe.NewHashedBoardMatches` | minamax4j-sample/src/main/java/fr/avianey/minimax4j/sample/tictactoe/TicTacToeTranspositionIA.java:59-69 | After `newGame` (hash 0, all cells FREE) the hash is the XOR of the cell keys |
| `TranspositionTicTacToe.PlayMatches` | minamax4j-sample/src/main/java/fr/avianey/minimax4j/sample/tictactoe/TicTacToeTranspositionIA.java:101-106 | Placing the move's player on a free cell and XOR-ing its key keeps the hash equal to the XOR of the cell keys |
| `TranspositionTicTacToe.UndoMatches` | minamax4j-sample/src/main/java/fr/avianey/minimax4j/sample/tictactoe/TicTacToeTranspositionIA.java:109-114 | Freeing a cell that holds the move's player and XOR-ing its key again keeps the hash equal to the XOR of the cell keys |
| `TranspositionTicTacToe.PlayHashed` | minamax4j-sample/src/main/java/fr/avianey/minimax4j/sample/tictactoe/TicTacToeTranspositionIA.java:101-106 | `makeMove` writes the move's player into the cell and nothing else, increments the turn, flips the side, XORs the cell key into the hash, and for a move of the side to move gives the plain game's `makeMove` |
| `TranspositionTicTacToe.UndoHashed` | minamax4j-sample/src/main/java/fr/avianey/minimax4j/sample/tictactoe/TicTacToeTranspositionIA.java:109-114 | `unmakeMove` is the plain game's `unmakeMove` on the board and XORs the same cell key into the hash |
| `TranspositionTicTacToe.PlayHashedMatches` | minamax4j-sample/src/main/java/fr/avianey/minimax4j/sample/tictactoe/TicTacToeTranspositionIA.java:101-106 | `makeMove` on a free cell keeps the hash invariant |
| `TranspositionTicTacToe.UndoHashedMatches` | minamax4j-sample/src/main/java/fr/avianey/minimax4j/sample/tictactoe/TicTacToeTranspositionIA.java:109-114 | `unmakeMove` of the cell's own move keeps the hash invariant |
| `TranspositionTicTacToe.UndoPlayHashed` | minamax4j-sample/src/main/java/fr/avianey/minimax4j/sample/tictactoe/TicTacToeTranspositionIA.java:101-114 | `unmakeMove` after `makeMove` on a free cell restores grid, hash, turn and side |
| `TranspositionTicTacToe.TranspositionKey` | minamax4j-sample/src/main/java/fr/avianey/minimax4j/sample/tictactoe/TicTacToeTranspositionIA.java:171-174 | `getTransposition` is the incremental hash, which equals the hash of the cells whenever the hash is in step with the board |
| `TranspositionTicTacToe.Group` | minamax4j-sample/src/main/java/fr/avianey/minimax4j/sample/tictactoe/TicTacToeTranspositionIA.java:176-180 | The group (the turn) rises by one per move and falls by one per unmove |
| `TranspositionTicTacToe.HashedLawful` | minamax4j-sample/src/main/java/fr/avianey/minimax4j/sample/tictactoe/TicTacToeTranspositionIA.java:101-164 | The hashed game is lawful: unmake undoes every listed move, previous undoes next, evaluations are inside 3 |
| `TranspositionTicTacToe.ListedMoveMatches` | minamax4j-sample/src/main/java/fr/avianey/minimax4j/sample/tictactoe/TicTacToeTranspositionIA.java:117-129 | Playing any listed move keeps the hash invariant |
| `TranspositionTicTacToe.WriteCell` | minamax4j-sample/src/main/java/fr/avianey/minimax4j/sample/tictactoe/TicTacToeTranspositionIA.java:102 | One array write changes exactly that cell of the row-major view |
| `TranspositionTicTacToe.TicTacToeTranspositionIA.constructor` | minamax4j-sample/src/main/java/fr/avianey/minimax4j/sample/tictactoe/TicTacToeTranspositionIA.java:52-57 | A new object holds the new game with hash 0, which matches its cells |
| `TranspositionTicTacToe.NewTicTacToeTranspositionIA` | minamax4j-sample/src/main/java/fr/avianey/minimax4j/sample/tictactoe/TicTacToeTranspositionIA.java:52-57 | `new TicTacToeTranspositionIA(algo, depth)` fails exactly when `depth <= 0`, as the `TicTacToeDifficulty` it builds refuses it; otherwise a fresh object with that algorithm and depth holds the new game with hash 0 |
| `TranspositionTicTacToe.TicTacToeTranspositionIA.NewGame` | minamax4j-sample/src/main/java/fr/avianey/minimax4j/sample/tictactoe/TicTacToeTranspositionIA.java:59-69 | Hash 0, every cell FREE, X to move, turn 0 |
| `TranspositionTicTacToe.TicTacToeTranspositionIA.MakeMove` | minamax4j-sample/src/main/java/fr/avianey/minimax4j/sample/tictactoe/TicTacToeTranspositionIA.java:101-106 | The cell gets the move's own player, the hash is XOR-ed with its key, the turn rises and the side flips |
| `TranspositionTicTacToe.TicTacToeTranspositionIA.UnmakeMove` | minamax4j-sample/src/main/java/fr/avianey/minimax4j/sample/tictactoe/TicTacToeTranspositionIA.java:109-114 | The cell is freed, the same key is XOR-ed out, the turn falls and the side flips back |
| `TranspositionTicTacToe.TicTacToeTranspositionIA.Next` | minamax4j-sample/src/main/java/fr/avianey/minimax4j/sample/tictactoe/TicTacToeTranspositionIA.java:157-159 | The side to move is swapped |
| `TranspositionTicTacToe.TicTacToeTranspositionIA.Previous` | minamax4j-sample/src/main/java/fr/avianey/minimax4j/sample/tictactoe/TicTacToeTranspositionIA.java:162-164 | The side to move is swapped back |
| `TranspositionTicTacToe.TicTacToeTranspositionIA.GetPossibleMoves` | minamax4j-sample/src/main/java/fr/avianey/minimax4j/sample/tictactoe/TicTacToeTranspositionIA.java:117-129 | The free cells, row-major, tagged with the side to move |
| `TranspositionTicTacToe.TicTacToeTranspositionIA.Engine` | minamax4j-sample/src/main/java/fr/avianey/minimax4j/sample/tictactoe/TicTacToeTranspositionIA.java:171-189 | The caching engine for this object: hash as transposition, turn as group, eviction after the search only, an empty table |
| `TranspositionTicTacToe.TicTacToeTranspositionIA.GetBestMove` | minamax4j-sample/src/main/java/fr/avianey/minimax4j/sample/tictactoe/TicTacToeTranspositionIA.java:192-207 | Fails exactly when `depth <= 0`. The move is legal and the position unchanged. The whole table is cleared when `turn + depth < 9`. Otherwise it is not: no group below the current turn remains, and every group from the current turn on keeps every key it held before |
| `TranspositionTicTacToe.HashCode` | minamax4j-sample/src/main/java/fr/avianey/minimax4j/sample/tictactoe/TicTacToeTransposition.java:15-17 | `hashCode` is the hash, so every fingerprint `equals` to this one has the same hash code |
| `TranspositionTicTacToe.Equals` | minamax4j-sample/src/main/java/fr/avianey/minimax4j/sample/tictactoe/TicTacToeTransposition.java:19-24 | `equals` holds exactly for a non-null fingerprint with the same hash and the same side to move |
| `TranspositionTicTacToe.EqualsIsEquivalence` | minamax4j-sample/src/main/java/fr/avianey/minimax4j/sample/tictactoe/TicTacToeTransposition.java:19-24 | `equals` is reflexive, symmetric and transitive, and false for `null` and for other objects |
| `TranspositionTicTacToe.EqualsHashCode` | minamax4j-sample/src/main/java/fr/avianey/minimax4j/sample/tictactoe/TicTacToeTransposition.java:15-24 | Equal fingerprints have equal hash codes |
| `TranspositionTicTacToe.SideMatters` | minamax4j-sample/src/main/java/fr/avianey/minimax4j/sample/tictactoe/TicTacToeTransposition.java:23 | The same hash with another side to move is not equal, though the hash codes agree |
| `PixelproseTicTacToe.IsOver` | minamax4j-sample/src/main/java/fr/pixelprose/minimax4j/sample/tictactoe/TicTacToeIA.java:47-64 | Over exactly when some player owns a row, column or diagonal |
| `PixelproseTicTacToe.FullBoardNotOver` | minamax4j-sample/src/main/java/fr/pixelprose/minimax4j/sample/tictactoe/TicTacToeIA.java:47-64 | The drawn board X O X / X O O / O X X is full and has no move left, yet `isOver` is false for it |
| `PixelproseTicTacToe.Evaluate` | minamax4j-sample/src/main/java/fr/pixelprose/minimax4j/sample/tictactoe/TicTacToeIA.java:94-117 | The evaluation lies strictly between `minEvaluateValue() == -1` and `maxEvaluateValue() == 3`. It is 2 exactly when some player owns a line, else 1 exactly when the centre is the mover's, else 0 |
| `PixelproseTicTacToe.NextPlayer` | minamax4j-sample/src/main/java/fr/pixelprose/minimax4j/sample/tictactoe/TicTacToeIA.java:120-122 | `next` keeps the cells and swaps X and O |
| `PixelproseTicTacToe.PreviousPlayer` | minamax4j-sample/src/main/java/fr/pixelprose/minimax4j/sample/tictactoe/TicTacToeIA.java:125-127 | `previous` also swaps X and O and keeps the cells, and `next` undoes it |
| `PixelproseTicTacToe.NextPreviousInverse` | minamax4j-sample/src/main/java/fr/pixelprose/minimax4j/sample/tictactoe/TicTacToeIA.java:120-127 | `next` and `previous` undo each other |
| `PixelproseTicTacToe.Play` | minamax4j-sample/src/main/java/fr/pixelprose/minimax4j/sample/tictactoe/TicTacToeIA.java:67-70 | `makeMove` writes the side to move into the cell and nothing else, and flips the side |
| `PixelproseTicTacToe.Undo` | minamax4j-sample/src/main/java/fr/pixelprose/minimax4j/sample/tictactoe/TicTacToeIA.java:73-76 | `unmakeMove` frees the cell and nothing else, and flips the side back |
| `PixelproseTicTacToe.UndoPlay` | minamax4j-sample/src/main/java/fr/pixelprose/minimax4j/sample/tictactoe/TicTacToeIA.java:67-76 | `unmakeMove` after `makeMove` on a free cell restores the grid and the side |
| `PixelproseTicTacToe.PossibleMoves` | minamax4j-sample/src/main/java/fr/pixelprose/minimax4j/sample/tictactoe/TicTacToeIA.java:79-91 | A move is listed exactly when its cell is free and it carries the side to move, and the list is in row-major order |
| `PixelproseTicTacToe.NewPositionFacts` | minamax4j-sample/src/main/java/fr/pixelprose/minimax4j/sample/tictactoe/TicTacToeIA.java:31-39 | A new game is empty with X to move, not over, and has nine moves |
| `PixelproseTicTacToe.PixelproseLawful` | minamax4j-sample/src/main/java/fr/pixelprose/minimax4j/sample/tictactoe/TicTacToeIA.java:67-127 | The game is lawful for the engine: unmake undoes every listed move, previous undoes next, and evaluations are inside `maxEvaluateValue() == 3` |
| `PixelproseTicTacToe.Difficulty` | minamax4j-sample/src/main/java/fr/pixelprose/minimax4j/sample/tictactoe/TicTacToeDifficulty.java:34-39 | A difficulty exists exactly for `depth > 0`, and keeps that depth |
| `PixelproseTicTacToe.TicTacToeIA.constructor` | minamax4j-sample/src/main/java/fr/pixelprose/minimax4j/sample/tictactoe/TicTacToeIA.java:24-29 | Minimax, the given depth, a grid of its own, the new game |
| `PixelproseTicTacToe.TicTacToeIA.NewGame` | minamax4j-sample/src/main/java/fr/pixelprose/minimax4j/sample/tictactoe/TicTacToeIA.java:31-39 | Every cell FREE and X to move |
| `PixelproseTicTacToe.TicTacToeIA.MakeMove` | minamax4j-sample/src/main/java/fr/pixelprose/minimax4j/sample/tictactoe/TicTacToeIA.java:67-70 | The object now holds `play` of the move |
| `PixelproseTicTacToe.TicTacToeIA.UnmakeMove` | minamax4j-sample/src/main/java/fr/pixelprose/minimax4j/sample/tictactoe/TicTacToeIA.java:73-76 | The object now holds `undo` of the move |
| `PixelproseTicTacToe.TicTacToeIA.Next` | minamax4j-sample/src/main/java/fr/pixelprose/minimax4j/sample/tictactoe/TicTacToeIA.java:120-122 | The side to move is swapped |
| `PixelproseTicTacToe.TicTacToeIA.Previous` | minamax4j-sample/src/main/java/fr/pixelprose/minimax4j/sample/tictactoe/TicTacToeIA.java:125-127 | The side to move is swapped back |
| `PixelproseTicTacToe.TicTacToeIA.GetPossibleMoves` | minamax4j-sample/src/main/java/fr/pixelprose/minimax4j/sample/tictactoe/TicTacToeIA.java:79-91 | The free cells, row-major, tagged with the side to move |
| `PixelproseTicTacToe.TicTacToeIA.Engine` | minamax4j-sample/src/main/java/fr/pixelprose/minimax4j/sample/tictactoe/TicTacToeIA.java:9 | The engine this object is: minimax on this position of the game |
| `PixelproseTicTacToe.TicTacToeIA.GetBestMove` | minimax4j/src/main/java/fr/pixelprose/minimax4j/IA.java:85-103 | The engine's move at the object's depth is the negamax move of the silent game, and the engine's position is unchanged |
| `PixelproseTicTacToe.NewTicTacToeIA` | minamax4j-sample/src/main/java/fr/pixelprose/minimax4j/sample/tictactoe/TicTacToeDifficulty.java:34-39 | Construction fails exactly when `depth <= 0`; otherwise a fresh valid object with that depth, minimax and the new game |
| `BaseStates.CleanState` | minimax4j/src/test/java/fr/avianey/minimax4j/ia/BaseState.java:51-56 | `clean` leaves all 64 cells empty, the turn 0 and side 0 to move |
| `BaseStates.NextPlayer` | minimax4j/src/test/java/fr/avianey/minimax4j/ia/BaseState.java:84-89 | On sides 0 and 1 `next` gives the other side, and it yields a side exactly for inputs from -1 on |
| `BaseStates.PreviousPlayer` | minimax4j/src/test/java/fr/avianey/minimax4j/ia/BaseState.java:91-96 | On sides 0 and 1 `previous` gives the other side, and it yields a side exactly for inputs up to 2 |
| `BaseStates.PlayerCycle` | minimax4j/src/test/java/fr/avianey/minimax4j/ia/BaseState.java:84-96 | On sides 0 and 1, `next` and `previous` undo each other |
| `BaseStates.Play` | minimax4j/src/test/java/fr/avianey/minimax4j/ia/BaseState.java:68-74 | `makeMove` writes the side to move into the cell and nothing else, increments the turn and moves to the next side |
| `BaseStates.Undo` | minimax4j/src/test/java/fr/avianey/minimax4j/ia/BaseState.java:76-82 | `unmakeMove` empties the cell and nothing else, decrements the turn and moves to the previous side |
| `BaseStates.UndoPlay` | minimax4j/src/test/java/fr/avianey/minimax4j/ia/BaseState.java:68-82 | `unmakeMove` after `makeMove` on an empty cell restores grid, turn and side |
| `BaseStates.PlayUndo` | minimax4j/src/test/java/fr/avianey/minimax4j/ia/BaseState.java:68-82 | `makeMove` after `unmakeMove` of the last move also restores the state |
| `BaseStates.CopyCells` | minimax4j/src/test/java/fr/avianey/minimax4j/ia/BaseState.java:64 | `System.arraycopy` of the whole grid: the target holds the source's cells |
| `BaseStates.BaseState.constructor` | minimax4j/src/test/java/fr/avianey/minimax4j/ia/BaseState.java:47-49 | A new state is clean |
| `BaseStates.BaseState.Clean` | minimax4j/src/test/java/fr/avianey/minimax4j/ia/BaseState.java:51-56 | Every cell `EMPTY_CELL` (-1), turn 0, side 0 |
| `BaseStates.BaseState.Clone` | minimax4j/src/test/java/fr/avianey/minimax4j/ia/BaseState.java:59-66 | A new state with an array of its own, holding the same cells, turn and side |
| `BaseStates.BaseState.MakeMove` | minimax4j/src/test/java/fr/avianey/minimax4j/ia/BaseState.java:68-74 | The object now holds `play` of the move |
| `BaseStates.BaseState.UnmakeMove` | minimax4j/src/test/java/fr/avianey/minimax4j/ia/BaseState.java:76-82 | The object now holds `undo` of the move |
| `BaseStates.BaseState.Next` | minimax4j/src/test/java/fr/avianey/minimax4j/ia/BaseState.java:84-89 | The side becomes `next` of the old side, the turn is kept |
| `BaseStates.BaseState.Previous` | minimax4j/src/test/java/fr/avianey/minimax4j/ia/BaseState.java:91-96 | The side becomes `previous` of the old side, the turn is kept |

## Left out

- Floating point: all scores are `int` where the source uses `double`. The tic-tac-toe evaluations are integers. The test fixtures that pack a fractional score into each double cell (`ia/State.java`, `ia/Logic.java`, `ia/WeightedState.java`) are not modelled.
- `Move.compareTo` (`minimax4j/src/main/java/fr/avianey/minimax4j/Move.java:57-67`) and its NaN handling: the sort of `getBestMoves` is modelled as "sorted from the highest value down, a permutation", with moves that never got a value (NaN) first, as `compareTo` puts them. Like `Collections.sort`, the model's sort is stable: moves that `compareTo` finds equal keep their relative order (`ScoredMinimax.SortScoresStable`).
- `ScoredMinimax.Minimax.GetBestMoves`: the source sorts the caller's own list in place, writes `value` into the caller's move objects and returns that same list. The model takes the list as a sequence of values and returns a new, scored and sorted sequence. So it does not capture that the caller's list and moves are changed, nor that the returned list is the argument (aliasing).
- Parallel search (`ParallelMinimax`, `impl/ParallelNegamax`): it forks tasks on a ForkJoin pool. Only the state copy the parallel tic-tac-toe needs (`clone`) is modelled.
- The reflection in `initTranspositionTableMap`, which picks an ordered map or a single bucket by inspecting generic types, is replaced by the explicit `Grouping` parameter.
- Hash-map capacity and load-factor constructors, and the table factories, are performance settings only. So the constructors taking them are not modelled separately.
- `Math.random()` in the `ZobristHashing` constructor is a parameter `draw(piece, position)`. It gives the 53-bit integer `k` of the draw `k / 2^53` (`Zobrist.Mantissa`), which is the granularity of the doubles `Random.nextDouble` returns. Which draws occur, and how often, is not modelled.
- The `TranspositionState*` test states hash through `fr.avianey.bitboard4j.hash.ZobristHashing`, which is not part of this model.
- Drivers, runners, `toString`, timing tests and listeners (the `SampleRunner` classes, `TicTacToeRunner`, `SpeedTest`, `TranspositionSpeedTest`, `ParallelSpeedTest`) are I/O and clocks.
- Interfaces and thin wrappers with no logic of their own: `IA`, `Transposition`, `Difficulty`, `IADecorator`, `IAUtils`, the move value classes and the test wrappers. `TicTacToeDifficulty`'s `depth > 0` guard is modelled as `PixelproseTicTacToe.Difficulty`.
- `BaseState`'s getters are not modelled, because `getGrid` hands out the array itself (aliasing). The state is read through `Snapshot`.
- The pixelprose `minEvaluateValue` is only stated as a bound, because the engine never uses it.
- `fr.avianey.minimax4j.TranspositionIA`, which the transposition tic-tac-toe extends, is not part of this model. That game is wired to the `transposition/TranspositionIA.java` engine (`InlineTransposition.TranspositionIA`), whose `getBestMove` has the same shape.
- `TranspositionIA`, `TranspositionTableBackedIA` and the pixelprose `IA` have a `getBestMove()` without parameters. It takes its depth from `getDifficulty().getDepth()` and defers to a superclass `fr.avianey.minimax4j.IA` that is not part of this model. These models take the depth as a parameter. In the two caching engines a depth of 0 or less fails, which stands for the `TicTacToeDifficulty` guard (`depth > 0`). `TicTacToeTranspositionIA` is built through `TranspositionTicTacToe.NewTicTacToeTranspositionIA`, which refuses such a depth as the constructor's `TicTacToeDifficulty` does. The plain constructor, which the factory calls once the depth is accepted, takes any depth, and `GetBestMove` fails on a depth of 0 or less.
- Integer widths:
  - `turn` is unbounded rather than a 32-bit `int`; it never leaves 0..9 in tic-tac-toe.
  - The 2-bit tic-tac-toe key is modelled bit for bit in 32 bits (`Low32`, shift left).
- Out-of-range coordinates and positions: the source throws `ArrayIndexOutOfBoundsException`. Here tic-tac-toe coordinates have the type `Coord` (0..2), `BaseState` moves require a position in 0..63, and `ZobristHashing.Add` and `Remove` require a piece and a position inside the table.
- Depth-checked or bound-typed cache entries: the source stores a bare score per key, so the model claims no depth safety. The unused depth-carrying class in `impl/TranspositionNegamax` is left out.
- In the caching engines, with the table in use, the searches are specified by frame, table growth and per-lookup hit/miss rules, not by value equality with the reference, because a hit may come from another depth or window. With the table off, the `Transposition` searches are proved equal to the reference. These members state less than full value equality for that reason:
- `Transposition.TranspositionMinimax.GetBestMove`: with the table in use, no claim that the move is the minimax move, because cached entries ignore depth and window.
- `InlineTransposition.TranspositionIA.GetBestMove`: the same, since this engine always uses its table; only legality, frame, eviction, table growth and the depth check are stated.
- `TranspositionTicTacToe.TicTacToeTranspositionIA.GetBestMove`: the same, through the engine it drives.
- The engines of `TicTacToeIA` and `TicTacToeTranspositionIA` are separate objects (`Engine()`) instead of the game object itself, which in the source is its own engine by inheritance. Their `GetBestMove` requires the engine to hold the object's position.

## Findings

| source | as written | input that shows it | evidently intended | confidence | as-written member | corrected member |
|---|---|---|---|---|---|---|
| minimax4j/src/main/java/fr/avianey/minimax4j/transposition/TranspositionIA.java:274-293 | The minimizing branch of minimax (and of alpha-beta at 357-371) stores the searched score as it is, but a hit reads back `-stored` | A position first searched by a minimizing node with score 1, then met again by a minimizing node: the hit yields -1 | Store `-score` as `TranspositionTableBackedIA` does (236-248), so a hit returns the score that was searched | not executed | `InlineTransposition.TranspositionIA.MinRevisit` (with `InlineTransposition.TranspositionIA.constructor`) | `InlineTransposition.TranspositionIA.Corrected` |
| minimax4j/src/main/java/fr/avianey/minimax4j/ext/ZobristHashing.java:28 | `(int) (Math.random() * Long.MAX_VALUE)` saturates at `Integer.MAX_VALUE` for every draw of at least 2^-32. So almost every piece and position gets the key 0x7FFFFFFF, and any two such keys cancel in the hash. A cast through `long` instead, `(int) (long) (...)`, would not be enough: it leaves only 2^22 possible keys, all with the low 10 bits clear (`Zobrist.LongBitStringKeys`) | Draws 0.25 and 0.75 (`k` = 2^51 and 3 * 2^51) both give 0x7FFFFFFF | A uniform 32-bit key, for instance `(int) (long) (Math.random() * 4294967296.0)` or `Random.nextInt()`, so that every 32-bit key can be drawn | not executed | `Zobrist.SaturatedKeysCancel` (with `Zobrist.SaturatedBitString` and `Zobrist.ZobristHashing.constructor`) | `Zobrist.UniformBitStringCoversAll` (with `Zobrist.ZobristHashing.Corrected`) |
