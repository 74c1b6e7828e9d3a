# Sokoban state and search, modelled in Dafny

This project models the core of a small Sokoban solver:

- `GameState` holds a character map, the player position, the list of box
  positions, the list of target positions and the cost so far. Its `move`
  walks or pushes by swapping cells of the map in place.
- `Solver` runs one named search over such a state: breadth-first,
  iterative-deepening depth-first, A* and uniform-cost, or the fixed
  `custom` answer.

The model follows the code as written, not an idealised solver.

- `move` changes its receiver and returns it. It makes no copy.
- `GameState` defines neither equality nor hashing. The closed sets of the
  searches therefore hold object identities, and are modelled as sets of
  object references. Every search stores `hash(...)` of the state; without
  a `__hash__` of its own, that hash stands for the object's identity.
- So every successor a search computes is the very object it is expanding,
  and that object was closed just before. This has consequences, and the
  contracts state and prove them:
  - breadth-first, A* and uniform-cost search push no successor at all;
  - they return the empty path exactly when the initial state is already
    solved, and otherwise give up once the initial object has made its four
    moves (for uniform-cost search, each one preceded by the neutral move
    `''`);
  - iterative deepening can only ever answer `["U"]`, or nothing. It
    answers `["U"]` when the initial state is unsolved and the move U
    solves it. It may also answer `["U"]` at a later limit, when U solves
    the state that the moves of the earlier limits left.

Layout:

- `grid.dfy` (module `Grids`): positions, the map as rows of characters,
  cell writes and the two-cell swap of a tuple assignment, and the multiset
  of characters of a map.
- `game_rules.dfy` (module `GameRules`): everything about one state as a
  value.
  - `Config` is a snapshot of a `GameState`'s fields.
  - The cell tests, and `Step`, the effect of one `move` on a `Config`.
  - `Steps`, a sequence of moves in turn.
  - The heuristic and the solved test.
  - `WellFormed`: an enclosed rectangular map whose box list matches its box
    characters. This is enough for every cell `move` reads to lie on the map.
  - The lemmas about all of these.
- `game_state.dfy` (module `GameStates`): the `GameState` class.
  - Its constructor runs the row-major scans `FindPlayer` and `ScanCells`.
  - `Move` updates the fields in place and is proved to do what `Step` says.
- `solver.dfy` (module `Solvers`): the `Solver` class and its searches.
  - The deque and the heap are sequences.
  - `heappop` becomes `PopMin`.
  - The loop over the four directions of each search becomes an expansion
    method. Each pass of that loop becomes a visit method.

## Model

| member | source | states |
|---|---|---|
| Grids.Put | modules/game_state.py:125 | writing one cell keeps the shape of the map and changes that cell only |
| Grids.Swap | modules/game_state.py:125 | the tuple assignment exchanges the two cells and leaves every other cell unchanged |
| Grids.PutCells | modules/game_state.py:125 | overwriting a cell trades its old character for the new one in the multiset of the map's characters |
| Grids.SwapCells | modules/game_state.py:125 | a swap keeps the multiset of the map's characters |
| GameRules.IsWall | modules/game_state.py:59-61 | a cell is a wall when it holds `#` |
| GameRules.IsBox | modules/game_state.py:63-65 | a cell holds a box when it holds `$` or `*` |
| GameRules.IsTarget | modules/game_state.py:67-69 | a cell is a target when it holds `.` or `*` |
| GameRules.IsEmpty | modules/game_state.py:71-73 | a cell is empty when it holds a space |
| GameRules.Shift | modules/game_state.py:96-104 | the neighbouring position one row up or down or one column left or right; any other direction string leaves the position unchanged |
| GameRules.Solved | modules/game_state.py:136-138 | every recorded target position holds a box character on the current map |
| GameRules.Step | modules/game_state.py:92-134 | one `move` on a snapshot of the state: refused into a wall or a blocked box; otherwise an optional box push, then the player's swap, one more unit of cost and a recomputed solved flag |
| GameRules.Heuristic | modules/game_state.py:75-82 | the sum over the boxes, in list order, of the distance to the nearest target |
| GameRules.RemoveFirst | modules/game_state.py:126 | `list.remove` takes exactly one occurrence of the position out of the list |
| GameRules.StepPreservesWellFormed | modules/game_state.py:92-134 | from a well-formed state every move reads only cells on the map and leads to a well-formed state with the same targets and as many boxes |
| GameRules.PushGrid | modules/game_state.py:124-130 | after a push the player's old cell holds what lay beyond the box, the box's cell holds the player, the cell beyond holds the box, and every other cell is unchanged, the walls around the border included |
| GameRules.PushBoxes | modules/game_state.py:126-127 | after a push the box list has no duplicates, the same length, and holds the old boxes minus the pushed one plus the cell beyond it |
| GameRules.PushPreservesWellFormed | modules/game_state.py:109-134 | a push keeps the box list in agreement with the box characters of the map |
| GameRules.StepsWellFormed | modules/solver.py:57-58 | a sequence of moves from a well-formed state only ever makes moves the rules define, and keeps the state well formed, the targets and the number of boxes |
| GameRules.StepsPrefix | modules/solver.py:57-58 | making move `k` after the first `k` moves is one `move` on the state those moves reached |
| GameRules.StepRefused | modules/game_state.py:106-122 | a move into a wall, or a push into a wall or a box, changes nothing: map, player, boxes, cost and solved flag stay as they were |
| GameRules.StepAdvances | modules/game_state.py:94-132 | every move that is not refused puts the player on the destination and adds exactly one to the cost, including a direction other than U, D, L, R, which leaves the player in place |
| GameRules.StepMovesBoxes | modules/game_state.py:110-127 | a push removes the pushed box's position and appends the cell one further in the same direction; the number of boxes never changes; a walk keeps the list |
| GameRules.StepPreservesCells | modules/game_state.py:124-130 | a move only swaps cells, so the multiset of characters of the map is unchanged |
| GameRules.NeutralStep | modules/solver.py:154 | the neutral move `''` on a well-formed state keeps map, player and boxes and only adds one to the cost |
| GameRules.MinDistance | modules/game_state.py:79-80 | the result is the Manhattan distance to some target, and no target is closer |
| GameRules.HeuristicZeroIffBoxesOnTargets | modules/game_state.py:75-82 | the heuristic is never negative, and it is zero exactly when every box stands on a target position |
| GameRules.HeuristicBelowAnyAssignment | modules/game_state.py:75-82 | the heuristic is at most the total distance of any assignment of boxes to targets |
| GameRules.SolvedIffTargetsCovered | modules/game_state.py:136-138 | on a well-formed state the solved flag holds exactly when every target position is in the box list, and it holds when there are no targets |
| GameRules.SolvedIffBoxesAreTargets | modules/game_state.py:136-138 | with as many boxes as distinct targets, the solved flag holds exactly when the boxes occupy precisely the target positions |
| GameRules.InitialWellFormed | modules/game_state.py:23-31 | the state a constructor builds from an enclosed map with a player is well formed |
| GameStates.FindPlayer | modules/game_state.py:33-39 | the first cell in row-major order holding `@` or `+`, or None when there is none |
| GameStates.ScanCells | modules/game_state.py:41-57 | every cell holding one of the marks, each listed once, in row-major order |
| GameStates.GameState.constructor | modules/game_state.py:23-31 | the map and cost are recorded; the player, boxes and targets are what the scans find; the solved flag is the solved test of the map |
| GameStates.GameState.GetHeuristic | modules/game_state.py:75-82 | the accumulating loop computes the sum over the boxes of the distance to the nearest target |
| GameStates.GameState.GetTotalCost | modules/game_state.py:84-86 | the cost so far plus the heuristic |
| GameStates.GameState.GetCurrentCost | modules/game_state.py:88-90 | the cost so far, the number of moves the state has made, without the heuristic |
| GameStates.GameState.Move | modules/game_state.py:92-134 | the receiver itself is returned, and its new fields are those of `Step` on its old fields |
| Solvers.PopMin | modules/solver.py:108 | the entry taken out has the least priority of the heap, and the remaining entries are all the others |
| Solvers.NeutralBefore | modules/solver.py:153-155 | the moves of a uniform-cost expansion are twice as many as the directions |
| Solvers.NeutralBeforeInterleaves | modules/solver.py:153-155 | the neutral move comes before each direction, and the directions come in order |
| Solvers.FifoEntriesInOrder | modules/solver.py:57-62 | the entries of an expansion follow U, D, L, R, each path being the parent's path plus that one direction |
| Solvers.AstarEntriesInOrder | modules/solver.py:122-128 | the entries of an A* expansion follow U, D, L, R, each keyed by the heuristic of the state just after its move, and each path is the parent's path plus one direction |
| Solvers.UcsEntriesInOrder | modules/solver.py:153-160 | the entries of a uniform-cost expansion follow U, D, L, R, each keyed by the cost so far after the neutral move and its direction, and each path is the parent's path plus one direction |
| Solvers.VisitBfs | modules/solver.py:58-62 | one move, then the successor is queued with the extended path exactly when it is not closed |
| Solvers.ExpandBfs | modules/solver.py:57-62 | the state made the four moves in order, and the queue grew by the four entries exactly when the state was not closed |
| Solvers.AstarRound | modules/solver.py:122-127 | move `k` of an A* expansion is defined, the heuristic is defined after it, it leads to the state after the first `k + 1` moves, and the key pushed for it is that state's heuristic |
| Solvers.VisitAstar | modules/solver.py:123-128 | one move, then the successor is pushed keyed by its heuristic exactly when it is not closed |
| Solvers.ExpandAstar | modules/solver.py:122-128 | the state made the four moves in order, and the heap grew by the four entries keyed by heuristic exactly when the state was not closed |
| Solvers.NeutralThenStep | modules/solver.py:154-155 | round `k` of a uniform-cost expansion, the neutral move and then direction `k`, is defined and leads to the state after `k + 1` rounds |
| Solvers.VisitUcs | modules/solver.py:154-160 | the neutral move and one direction, then the successor is pushed keyed by its cost so far exactly when it is not closed |
| Solvers.ExpandUcs | modules/solver.py:153-160 | the state made the eight moves in order, and the heap grew by the four entries keyed by cost exactly when the state was not closed |
| Solvers.DfsOutcome | modules/solver.py:83-99 | what `dfs_recursive` answers and where it leaves the object: the path when solved; nothing at depth 0; on a closed object, nothing once the four moves are made; on an unclosed one, the answer of the recursive call after U on the same, now closed, object if it is truthy, and otherwise nothing after D, L and R |
| Solvers.DfsOutcomeAnswers | modules/solver.py:83-99 | an answer is given only on a solved state, extends the given path by at most the depth limit, and is the path itself or, on an unclosed object, the path plus U; on an unsolved, unclosed object with a positive limit it is the path plus U exactly when U solves the state |
| Solvers.DfsOutcomeWellFormed | modules/solver.py:83-99 | a depth-limited search leaves a well-formed state well formed |
| Solvers.DfsPass | modules/solver.py:90-97 | the state after the first `k` passes of the direction loop when none answered |
| Solvers.DfsPassStep | modules/solver.py:90-97 | each pass of the direction loop makes one defined move on the state the earlier passes reached; on an unclosed object the first pass ends where the recursive call after U leaves it |
| Solvers.DfsPassWellFormed | modules/solver.py:90-97 | every state the direction loop passes through is well formed |
| Solvers.DfsPassComplete | modules/solver.py:90-99 | when no pass answers, the object ends in the state `DfsOutcome` gives |
| Solvers.Deepen | modules/solver.py:70-81 | limits up to 100 in turn, each with a fresh closed set, stopping at the first truthy answer |
| Solvers.DeepenStep | modules/solver.py:72-79 | a truthy answer at one limit is `["U"]` and ends iterative deepening; any other answer moves on to the next limit from the state left behind |
| Solvers.LimitStart | modules/solver.py:70-72 | the state iterative deepening has reached when a limit begins |
| Solvers.NoAnswerBelow | modules/solver.py:70-73 | no limit before the given one gave a truthy answer |
| Solvers.LimitStartWellFormed | modules/solver.py:70-72 | every limit starts from a well-formed state |
| Solvers.ResumeDeepen | modules/solver.py:70-81 | while no limit has answered, iterative deepening ends as it does when resumed at the current limit from the state reached |
| Solvers.LimitAnswered | modules/solver.py:72-79 | the answer of one limit: a truthy answer is `["U"]` and is the answer of `dfs`; otherwise the next limit begins from the state left behind, still with no answer |
| Solvers.DeepenExhausted | modules/solver.py:70-81 | when no limit up to 100 answers, `dfs` answers None and leaves the state the last limit left |
| Solvers.DeepenWellFormed | modules/solver.py:66-81 | iterative deepening leaves a well-formed state well formed |
| Solvers.DeepenAnswers | modules/solver.py:66-99 | iterative deepening answers nothing or `["U"]`, the latter only on a solved state; an initially solved state gives nothing and is not moved; an unsolved state that U solves gives `["U"]` at the first limit |
| Solvers.Solver.constructor | modules/solver.py:6-13 | the state and strategy are recorded, there is no solution, and the counters and `moves_to_goal` are zero |
| Solvers.Solver.Solve | modules/solver.py:15-30 | the strategy string selects the search, and the solution, `moves_to_goal` and the initial state's final value are those of that search; `custom` gives `["L", "L"]` and moves nothing; `greedy` fails; any other unknown name raises; neither changes anything |
| Solvers.Solver.Bfs | modules/solver.py:36-64 | the empty path exactly when the initial state is solved, with the state untouched and `moves_to_goal` set to its length; otherwise None after the initial object made the four moves |
| Solvers.Solver.Dfs | modules/solver.py:66-81 | the answer and the final state are those of iterative deepening from limit 1 (`Deepen`), and `moves_to_goal` is 1 after an answer and unchanged otherwise |
| Solvers.Solver.SearchToLimit | modules/solver.py:71-79 | one limit of `dfs`, a fresh closed set and one depth-limited search: a truthy answer is `["U"]` and is the answer of iterative deepening; otherwise the state is where the next limit begins |
| Solvers.Solver.DfsRecursive | modules/solver.py:83-99 | the answer and final state are exactly `DfsOutcome` of the initial state, whether the state was closed, the depth limit and the path; the state is added to the closed set exactly when it was unsolved and the limit was positive |
| Solvers.Solver.VisitDfs | modules/solver.py:90-97 | one pass of the direction loop: the move, closing the successor, and the recursive call; only the first pass on an object not closed on entry recurses, and its answer and final state are those of the recursive call on the object after U, now closed |
| Solvers.Solver.Astar | modules/solver.py:100-130 | the empty path exactly when the initial state is solved, with the state untouched and `moves_to_goal` set; otherwise None after the four moves |
| Solvers.Solver.Ucs | modules/solver.py:132-162 | the empty path exactly when the initial state is solved; otherwise None after the eight moves; `moves_to_goal` is never set |
| Solvers.Solver.Custom | modules/solver.py:164-165 | always the two moves `["L", "L"]`, both among U, D, L, R |
| Solvers.Solver.GetSolution | modules/solver.py:166-167 | the solution the last `solve` recorded, None before any |

## Left out

- Timing (`time.time()`, the `time` field) and every `print` are not modelled: they only measure and report.
- `main.py`, which reads map files, parses arguments and drives the solver over maps and strategies, is not part of this model.
- The `greedy` branch calls a method that does not exist. It is modelled as the `MissingMethod` outcome of `Solve`, which leaves `solution` unchanged.
- `heapq` compares `(cost, state, path)` tuples and on equal costs would compare `GameState` objects, which raises a TypeError. The heap is modelled as a priority queue on the integer key (`PopMin`) with no tie-breaking. In the code as written the heap never holds two entries at once, so no tie arises.
- The search methods require `WellFormed` on the initial state: an enclosed map with a player and a box list that matches the map. This is a sufficient condition for every cell `move` reads to lie on the map. Python's negative-index wrap-around and `IndexError` on other maps are not modelled.
- `expanded_states` and `generated_states` are initialised and never updated by the code. The model keeps them as fields that only the constructor sets.
- GameStates.GameState.GetHeuristic requires `HeuristicDefined`: boxes need at least one target. On a map with boxes and no targets, `min([])` raises `ValueError` (game_state.py:79-80), and the model does not represent that exception.
- Solvers.Solver.Astar requires `HeuristicDefined` of the initial state for the same reason, so the `ValueError` that `astar` would raise on a map with boxes and no targets is not modelled.
- Solvers.Solver.Solve requires `HeuristicDefined` when the strategy is `astar`, and inherits the same gap.
