# Adversarial search for knight's Isolation, in Dafny

This project models the search code of a game-playing agent for knight's
Isolation, a two-player game in which each player moves a knight and loses
when it has no legal move. Four pieces are modelled:

- the custom player's depth-limited alpha-beta search, which values leaves by
  the liberty difference and keeps the first best root move (`my_custom_player.py`);
- the opening-book builder (`opening_book.py`):
  - rounds of self-play driven by its own alpha-beta search;
  - random playouts;
  - a `defaultdict(Counter)` book keyed by the board;
  - the reduction of the book to one most-credited action per board;
- the Monte Carlo tree search bookkeeping (`mcts.py`):
  - nodes with visit and reward counters and parallel child lists;
  - expansion of the first untried action;
  - selection of a best-scoring child;
  - a random playout;
  - back-propagation with alternating sign along the parent links;
- the utility module's alpha-beta search and its distance-weighted score
  (`_utils.py`).

The game is abstract (module `Game`). A `State` is a finite game tree:

- an occupancy board;
- a ply count;
- the players' locations;
- a liberty function;
- the utilities;
- the list of legal moves in `actions()` order, each with its successor.

`result(a)` follows the first move labelled `a`. A state is terminal exactly
when it has no move. Python's mix of integer scores and `float("±inf")` is
the datatype `Ext` (`Values`). `max` and `min` keep their first argument
on ties, as Python's do.

The three alpha-beta copies are one parametrised search (module `AlphaBeta`).
They differ in two things:

- how a leaf is valued (`Evaluator`);
- whether the root replaces its best move on `>` or on `>=` (`TieBreak`).

Each copy is given twice, and the two are proved equal:

- as the loops of the source (`MaxValue`, `MinValue`, `AlphaBetaSearch`);
- as functions (`AbMax`, `AbMin`, `RootChoice`).

The specification is depth-limited minimax (`Minimax`). Proved about it:

- Any window (alpha, beta) gives the fail-soft guarantee (`FailSoft`): exact
  inside the window, an upper bound on failing low, a lower bound on failing
  high.
- The full window gives the exact value.
- At the root, `alpha` always equals the best child value so far.
- The `>` root returns the first move of maximal value, and nothing exactly
  when every move is lost (-inf).
- The `>=` roots return nothing only when there is no move. Otherwise they
  return the last move whose returned value reached the running best. A
  concrete two-ply tree shows this move can be worse than the best.

Randomness (`random.choice`) is modelled as an arbitrary choice: any legal
line of play, or any of the tied best children. The UCT formula is a
parameter `uct(reward, visits, parentVisits)`.

The opening-book module also behaves as follows:

- Leaves are valued for the player to move (`ply_count % 2`), as the code does.
- Its `distance` compares the row with the width bound and the column with
  the height bound. The model keeps this as the code has it.
  `Heuristics.DistanceNegativeOnRightColumns` shows the consequence: playable
  columns 9 and 10 give a negative distance.

The opening book picks its move at every level with its own alpha-beta
search, which is deterministic; the random choice that would vary it is
commented out (`opening_book.py:32`). So every round credits the same line of
at most four boards from the start state, one action each, and only the
rewards depend on the playouts. `OpeningBook.TableIsTheLine` proves the
consequence: however the playouts end, the table built by one round or two
hundred is that line. The hypothesis that the line never revisits a board
with another move holds in Isolation, where every move occupies one more cell,
so no board occurs twice along a line of play.

## Model

| member | source | states |
|---|---|---|
| `AlphaBeta.CustomCutoffZeroSum` | my_custom_player.py:94-99 | the custom player's cut-off value is its own liberties minus the opponent's, and the two players' cut-off values are each other's negation |
| `Heuristics.LibertyDifferenceAntisymmetric` | my_custom_player.py:95-99 | the custom score of one player is the negation of the other's |
| `Heuristics.Distance` | _utils.py:51-56 | the distance is the least of row, `W+1-row`, column and `H-1-column` for the side to move, with row and column from flooring division by `W+2` |
| `Heuristics.WeightedScore` | _utils.py:60-71 | the utility score never falls below the plain liberty difference, and equals it when the player to move is within distance 2 of a wall |
| `Heuristics.WeightedScoreAddsBonus` | _utils.py:60-71 | the weighted score is the liberty difference plus the own liberty count exactly when the mover's distance is at least 2, so never below the difference |
| `Heuristics.WeightZone` | _utils.py:66-68 | the doubled weight applies exactly on rows 2..W-1 and columns 2..H-3 |
| `Heuristics.DistanceNegativeOnRightColumns` | opening_book.py:92-95 | a mover in a playable column at or beyond H has a negative distance |
| `Heuristics.BookScore` | opening_book.py:97-108 | the book's score weights the liberties of the player to move, against the other player |
| `AlphaBeta.MaxScanWindow` | my_custom_player.py:73-79 | the `max_value` loop's running value bounds the best child value seen, exactly once above alpha, and yields a fail-soft result |
| `AlphaBeta.MinScanWindow` | my_custom_player.py:61-67 | the `min_value` loop dually yields a fail-soft result |
| `AlphaBeta.MaxWindow` | _utils.py:24-34 | `max_value` on a non-empty window is exact inside it, an upper bound of the minimax value when it fails low, a lower bound when it fails high |
| `AlphaBeta.MinWindow` | _utils.py:11-22 | the same for `min_value` and the minimising value |
| `AlphaBeta.FullWindowIsMinimax` | opening_book.py:50-73 | with the window (-inf, +inf) both procedures return the exact depth-limited minimax value |
| `AlphaBeta.MaxValue` | my_custom_player.py:69-79 | the loop, which stops as soon as the value reaches beta, computes `max_value`, and is fail-soft against minimax |
| `AlphaBeta.MinValue` | my_custom_player.py:57-67 | the loop, which stops as soon as the value falls to alpha, computes `min_value`, and is fail-soft against minimax |
| `AlphaBeta.BestBound` | my_custom_player.py:74-75 | every child value is bounded by the running best |
| `AlphaBeta.RootStep` | my_custom_player.py:86-88 | after each root step `alpha` is the best child value so far; a returned value beats it exactly when the child's true value does, and is then that value |
| `AlphaBeta.BestIsNegInf` | my_custom_player.py:84-86 | the running best stays -inf exactly while every child seen is lost |
| `AlphaBeta.StrictPicksNoneIffAllLost` | my_custom_player.py:85-92 | with `>`, no move is chosen exactly when the best child value is -inf |
| `AlphaBeta.StrictPicksFirstBest` | my_custom_player.py:89-91 | with `>`, the chosen move has the maximal child value and every earlier move is strictly worse |
| `AlphaBeta.StrictRootContract` | my_custom_player.py:82-92 | `None` iff every child is lost, else the first best move |
| `AlphaBeta.LenientPicksNoneIffNoAction` | _utils.py:40-47 | with `>=`, no move is chosen exactly when there is no action |
| `AlphaBeta.PickIsLastRise` | _utils.py:41-46 | the root keeps the last action whose comparison with the running best succeeded: that action passed it and no later one did |
| `AlphaBeta.LenientPicksLastRise` | _utils.py:41-46 | with `>=`, the value returned for the kept action is the best child value, and so is that child's own value unless it merely tied |
| `AlphaBeta.LenientRootContract` | opening_book.py:76-86 | `None` iff terminal, else the last move that reached the best |
| `AlphaBeta.LenientMayPickWeakerMove` | _utils.py:44-46 | on a concrete tree the `>=` root returns a move worth 3 although another is worth 5, while `>` returns the better one |
| `AlphaBeta.AlphaBetaSearch` | _utils.py:37-47 | the root loop returns exactly the root choice of the functional model |
| `CustomPlayer.AlphaBetaSearch` | my_custom_player.py:53-92 | the custom player returns `None` iff every action loses, else the first action of maximal minimax value |
| `Utils.AlphaBetaSearch` | _utils.py:7-47 | the utility search returns `None` iff the state is terminal, else the last action that reached the best |
| `OpeningBook.AlphaBetaSearch` | opening_book.py:46-86 | the book search returns `None` iff the state is terminal, else the last action that reached the best, leaves valued for the side to move |
| `OpeningBook.BookMove` | opening_book.py:33 | a non-terminal state always gets a legal searched move |
| `OpeningBook.CountAbsent` | opening_book.py:35 | a counter reads 0 for an action it never counted |
| `OpeningBook.Bump` | opening_book.py:35 | `counter[a] += r` keeps every existing key in its place and appends `a` with count r at the end exactly when it was absent |
| `OpeningBook.BumpCounts` | opening_book.py:35 | `counter[a] += r` adds r to a's count and leaves every other count alone |
| `OpeningBook.BumpDistinct` | opening_book.py:35 | a counter with no key twice keeps no key twice after `counter[a] += r` |
| `OpeningBook.CountAt` | opening_book.py:35 | in a counter with distinct keys, the count read for a key is the one stored with it |
| `OpeningBook.Record` | opening_book.py:35 | `book[board][action] += reward` creates the counter on first use and changes no other board |
| `OpeningBook.SameBoardSharesCounter` | opening_book.py:35 | positions with the same board share one counter whatever the players' locations |
| `OpeningBook.MaxIndex` | opening_book.py:27 | the first index of maximal count: every count is at most it, every earlier one strictly less |
| `OpeningBook.MostCommon` | opening_book.py:27 | `max(v, key=v.get)` is a counted action of maximal count, the first inserted among ties |
| `OpeningBook.Reduce` | opening_book.py:27 | the table has the book's boards, each mapped to its most-credited action |
| `OpeningBook.Book.constructor` | opening_book.py:21 | the book starts empty |
| `OpeningBook.ApplyAll` | opening_book.py:22-25 | replaying credits keeps every counter non-empty and duplicate-free |
| `OpeningBook.ApplyAllKeys` | opening_book.py:22-25 | the book's boards are exactly those credited |
| `OpeningBook.ApplyAllSingle` | opening_book.py:35 | replaying one credit is one `book[board][action] += reward` |
| `OpeningBook.ApplyAllConcat` | opening_book.py:22-25 | credits of successive rounds accumulate in one book |
| `OpeningBook.Simulate` | opening_book.py:38-41 | the playout follows a legal line to a terminal state and returns -1 iff the mover's utility there is negative, else 1 |
| `OpeningBook.TreeReturn` | opening_book.py:29-36 | `build_tree` returns ± the negated playout result |
| `OpeningBook.TreeLog` | opening_book.py:29-36 | at most `depth` credits per round, each ±1 times the playout sign |
| `OpeningBook.TopLevelCredit` | opening_book.py:33-36 | the searched move of the root is credited with the negation of what `build_tree` returns |
| `OpeningBook.BuildTree` | opening_book.py:29-36 | the recursion returns `TreeReturn` and leaves the book equal to the old book plus `TreeLog`'s credits |
| `OpeningBook.BuildTable` | opening_book.py:13-27 | after n rounds from `init`, each ending in a ±1 playout, the table reduces exactly those rounds' credits; with no round it is empty; otherwise its boards are those of the searched line from `init`, each mapped to the move searched there when the line never revisits a board |
| `OpeningBook.Rounds` | opening_book.py:22-25 | n rounds credit at most four times n times |
| `OpeningBook.TreeLogShape` | opening_book.py:29-36 | a round credits the same boards and actions whatever its playout returns |
| `OpeningBook.RoundsBoards` | opening_book.py:22-25 | any positive number of rounds credits exactly the boards of the searched line |
| `OpeningBook.RoundsWithinLine` | opening_book.py:22-25 | every credit of every round names a board and action of the searched line |
| `OpeningBook.ApplyAllOneAction` | opening_book.py:35 | a board whose every credit names one action holds a counter of that action alone |
| `OpeningBook.TableIsTheLine` | opening_book.py:22-27 | the reduced table's boards are the searched line's, and each maps to the move searched there when the line never revisits a board with another move |
| `Mcts.Node.constructor` | mcts.py:7-13 | a new node has one visit, no reward, no children, the given state and parent |
| `Mcts.Node.AddChild` | mcts.py:15-18 | exactly one fresh child and its action are appended; the child is a new node under this one; validity is kept for a legal untried action |
| `Mcts.Node.Update` | mcts.py:20-22 | one more visit, reward increased by r, nothing else changes; a ±1 reward keeps `|reward| <= visits - 1` |
| `Mcts.Node.FullyExplored` | mcts.py:24-25 | for a valid node whose state lists distinct actions, `len(children_actions) == len(actions())` holds exactly when every legal action has been tried |
| `Mcts.FirstUntried` | mcts.py:60-61 | the first action in `actions()` order that is not tried, or past the end |
| `Mcts.Expand` | mcts.py:57-64 | adds a child for the first untried action, or returns `None` iff every action was tried; tried actions stay distinct and legal |
| `Mcts.BestScoreIsMax` | mcts.py:74-84 | the running best score is the maximum of the scores seen |
| `Mcts.TiesAreMaximisers` | mcts.py:74-84 | `best_children` is exactly the set of maximising children, in order, non-empty when any child was scored |
| `Mcts.BestChild` | mcts.py:67-88 | the chosen child has the maximal score among the children |
| `Mcts.TreePolicy` | mcts.py:41-54 | the walk ends at an unchanged terminal node or at a fresh child of a node that was not fully explored; `None` only when a state lists an action twice |
| `Mcts.DefaultPolicy` | mcts.py:91-106 | the playout follows a legal line to the end and returns -1 iff the starting mover still has liberties there, else 1 |
| `Mcts.Alternate` | mcts.py:121 | `reward *= -1` at each step up: the reward is r or -r, and each step negates the previous one |
| `Mcts.PathDepths` | mcts.py:116-120 | the node k steps up the path has k fewer ancestors than the start, so the walk reaches `None` after the root |
| `Mcts.PathParent` | mcts.py:118 | `node = node.parent` leads from the node k steps up to the node k+1 steps up, and from the root to `None` |
| `Mcts.PathDistinct` | mcts.py:116-120 | the nodes on the path to the root are pairwise distinct, so each is updated once |
| `Mcts.Backup` | mcts.py:107-121 | the node k steps up gains one visit and `(-1)^k * r` of reward, its children are untouched, and no node off the path changes |

## Left out

- `get_action`, the answer queue and the time limit (`my_custom_player.py:25-51`) are left out: they are the game runner's interface, not search.
- The Isolation library is not part of this model: board encoding, knight moves, liberties and utilities are abstract fields of `State`.
- The model takes a state to be terminal exactly when it has no legal action.
- `_WIDTH = 11` and `_HEIGHT = 9` are taken as the library's values.
- The UCT formula is abstracted into a parameter, because its `math.sqrt`/`math.log` are floating point; `FACTOR` and `iter_limit` are left out with it.
- The commented-out MCTS driver is dead code and is left out.
- MCTS rewards are floats in the source and integers here, since only ±1 is ever added.
- Probabilities are left out: the random choices are arbitrary choices, with no distribution or convergence.
- `copy.deepcopy` of the playout's start state is left out: the model reads the start state's player directly.
- `pickle`, file output and the `__main__` block of `opening_book.py` are left out as I/O.
- The empty board every book round starts from is a parameter of `BuildTable`, because the library's initial state is not modelled.
- Symmetry canonicalisation and iterative deepening are not in the source and are not modelled.
- Locations before a player has been placed (`None` in the library) are not modelled; every location is an integer.
- Utils.AlphaBetaSearch: states "the last action that reached the running best" instead of the docstring's "best possible value", which the `>=` root does not guarantee (`AlphaBeta.LenientMayPickWeakerMove`).
- OpeningBook.AlphaBetaSearch: the same weakening, for the same `>=` root.
- Mcts.TreePolicy: does not state which children the descent passes through, only where it ends.
- Mcts.BestChild: states that the chosen child is one of the maximisers, not that every maximiser may be chosen.
- Mcts.DefaultPolicy: states the reward of some legal line of play, not of a uniformly random one.
- OpeningBook.Simulate: states the result of some legal line of play, not of a uniformly random one.
- Mcts.Backup: does not restate that ±1 rewards keep `|reward| <= visits - 1` on every node of the path; `Mcts.Node.Update` states it for each node the loop updates.
- OpeningBook.BuildTree: the playout result at the bottom of the line is a ghost output, because the model does not fix which random line is played.
