# N-puzzle solver: a verified model of Board and Solver

This project models the core of an N-puzzle (sliding-tile) solver. It has two parts.

- `Board` is an n×n grid of integers in which `0` is the blank. Module `Boards`, in `boards.dfy`, models:
  - the two distance measures, `hamming` (tiles out of place) and `manhattan` (the sum of each tile's grid distance to its goal cell);
  - the goal test `isGoal` and the structural comparison `equals`;
  - the successor boards `neighbors` (slide a tile into the blank) and `twin` (exchange two tiles);
  - the private copying `swap` that both of them use.
- `SearchNode` and `Solver` run two best-first searches in lockstep. One starts from the initial board, the other from its twin. The first goal polled decides solvability. Module `Solvers`, in `solvers.dfy`, models them.

A board never changes after construction, so it is a value, `seq<seq<int>>`. Each board operation is a pure specification function: `Hamming`, `Manhattan`, `IsGoal`, `Neighbors`, `Twin` and `Swap`. The source's nested loops are methods (`ComputeHamming`, `CheckGoal`, `ComputeNeighbors`, `ComputeTwin`, and so on), each proved equal to its function. The properties are lemmas about those functions.

The source never checks its inputs. So a valid board (`ValidBoard`) is a precondition: n ≥ 2, square, values drawn from 0 .. n²−1, pairwise distinct, and exactly one blank.

Arithmetic follows JavaScript:
- the goal row is `Math.floor((v-1)/n)`, which is Dafny's `/` for n > 0;
- the goal column is `(v-1) % n` with JavaScript's truncating remainder (`TruncRem`), which can be negative.

One detail of `twin` is reproduced exactly. Its scan leaves only the column loop on `break`, and the row loop keeps going. So the second cell is overwritten once per later row. The tiles exchanged are therefore the first non-blank cell of row 0 and the first non-blank cell of the last row.

In the search model:
- search nodes live in an arena, a `seq<SearchNode>`, and a parent is an arena index;
- each search has its own arena, whose node 0 is its root;
- a priority queue is a frontier, a multiset of arena indices, and polling removes an arbitrary element;
- `ValidTree` is the invariant of an arena: every node's `moves` is its parent's plus one, its board is a neighbour of its parent's board, and its board differs from its grandparent's board;
- `PathToIsChain` turns that invariant into the facts about `moves()` and `solution()`.
- `History` ties a search's arena to the polls that built it:
  - the arena's indices are exactly the frontier plus the nodes polled so far;
  - each polled node before the last is not a goal and was expanded, and the last one is a goal or was expanded too;
  - the parent of every node other than the root is a polled node that is not a goal, so no node was expanded without being polled, and no goal was expanded.
- `PollStep` is the effect of one poll: the polled index leaves the frontier; a goal changes nothing else; any other node has exactly its kept children appended, and only their indices are pushed.
- The stop reasons of the loop are read off these records.

## Model

| member | source | states |
|---|---|---|
| Boards.Dimension | src/classes/board.ts:23-25 | n, the side length that bounds every scan: on a square board each row holds n cells, and a valid board has n ≥ 2 |
| Boards.Swap | src/classes/board.ts:136-140 | the result is a square board of the same size in which the two given cells hold each other's values and every other cell keeps its value; the receiver is a value and is untouched |
| Boards.SwapTwice | src/classes/board.ts:136-140 | exchanging the same two cells again gives back the original board |
| Boards.SwapKeepsValid | src/classes/board.ts:136-140 | exchanging two cells of a valid board gives a valid board (range, distinct values, a single blank) |
| Boards.ComputeHamming | src/classes/board.ts:28-38 | the loop's count equals `Hamming`, the number of cells holding a non-zero value other than row*n+col+1 |
| Boards.HammingZeroIff | src/classes/board.ts:28-38 | hamming is 0 exactly when every cell holds the blank or its own tile row*n+col+1 |
| Boards.HammingBound | src/classes/board.ts:28-38 | the blank is never counted, so a board with a blank has hamming at most n²−1 |
| Boards.GridTotalZeroIff | src/classes/board.ts:28-53 | a grid total of either measure is 0 exactly when every cell costs 0 |
| Boards.ComputeManhattan | src/classes/board.ts:41-53 | the loop's sum equals `Manhattan`: over the non-blank cells, the sum of abs(row − floor((v−1)/n)) + abs(col − (v−1)%n), with JavaScript's remainder |
| Boards.ManhattanZeroIff | src/classes/board.ts:41-53 | manhattan is 0 exactly when every non-blank tile v sits at row floor((v−1)/n), column (v−1)%n |
| Boards.MisplacedTileHasDistance | src/classes/board.ts:28-53 | a cell that hamming counts adds at least 1 to manhattan, for any tile value |
| Boards.ManhattanAtLeastHamming | src/classes/board.ts:28-53 | manhattan ≥ hamming on every square board |
| Boards.CheckGoal | src/classes/board.ts:56-65 | the loop, with its early return, answers true exactly when every cell other than the bottom-right one holds row*n+col+1 |
| Boards.GoalIffHammingZero | src/classes/board.ts:56-65 | on a square board with values in 0 .. n²−1 and a single blank, isGoal holds exactly when hamming is 0 |
| Boards.GoalCellOfOwnTile | src/classes/board.ts:46-47 | tile row*n+col+1 has goal row floor((v−1)/n) = row and goal column (v−1)%n = col |
| Boards.GoalIffManhattanZero | src/classes/board.ts:41-65 | on a square board with values in 0 .. n²−1 and a single blank, isGoal holds exactly when manhattan is 0 |
| Boards.CheckEquals | src/classes/board.ts:68-80 | false when the dimensions differ, otherwise true exactly when every cell matches; so it is exactly board equality, which is reflexive and symmetric |
| Boards.NeighborsAt | src/classes/board.ts:96-112 | for a blank at (br, bc), the list holds up to four boards (up, down, left, right when inside the grid, in that order), and at least two when n ≥ 2 |
| Boards.LocateBlank | src/classes/board.ts:85-95 | the scan, whose break leaves only the column loop, ends at the board's single blank |
| Boards.ComputeNeighbors | src/classes/board.ts:83-113 | the pushed list equals `Neighbors`, the swaps of the blank with its in-grid neighbours in up, down, left, right order |
| Boards.NeighborsAreMoves | src/classes/board.ts:83-113 | on a valid board, b is among the neighbours exactly when b is the board with the blank exchanged with an orthogonally adjacent cell; every neighbour is valid, so it has exactly one blank |
| Boards.NeighborIsMove | src/classes/board.ts:96-112 | each listed neighbour is a legal move and a valid board |
| Boards.MoveIsNeighbor | src/classes/board.ts:96-112 | each legal move is listed |
| Boards.MoveIsSymmetric | src/classes/board.ts:83-113 | a legal move can be undone by a legal move |
| Boards.NeighborsAreMutual | src/classes/board.ts:83-113 | if b is a neighbour of a valid board a, then b is valid and a is a neighbour of b |
| Boards.FirstNonBlank | src/classes/board.ts:121-131 | the column found holds a non-zero value, and every column before it holds 0 |
| Boards.ComputeTwin | src/classes/board.ts:116-134 | the scan (inner-only break included) exchanges the first non-blank cell of row 0 with the first non-blank cell of the last row |
| Boards.ValidBoardHasTwinPair | src/classes/board.ts:116-134 | a valid board has a non-blank cell in its first and in its last row, which twin needs |
| Boards.TwinExchangesTwoTiles | src/classes/board.ts:116-134 | on a valid board, twin differs from the input in exactly those two cells, both non-blank, whose values are exchanged; the result is valid and its blank is where it was |
| Solvers.NewSearchNode | src/classes/solver.ts:10-15 | the node keeps board, moves and parent, and its priority is manhattan(board) + moves |
| Solvers.UnrevisitedMembers | src/classes/solver.ts:74-78 | the boards kept by an expansion are exactly the neighbours different from the parent's board |
| Solvers.PushChild | src/classes/solver.ts:76 | appends the child node (moves + 1, parent k, priority manhattan + moves) and pushes its index |
| Solvers.PushChildren | src/classes/solver.ts:74-78 | the loop appends one child per kept neighbour, in order, and pushes exactly the new indices onto the frontier |
| Solvers.Expand | src/classes/solver.ts:73-79 | expanding node k appends one child per neighbour of its board except one equal to its parent's board, pushes them, and keeps the arena invariant |
| Solvers.ExpandKeepsValid | src/classes/solver.ts:73-79 | after an expansion every node still has moves = parent's moves + 1, a board among its parent's neighbours, a board unlike its grandparent's, and priority = manhattan + moves |
| Solvers.PathToIsChain | src/classes/solver.ts:73-79 | a node's moves is its parent-chain length minus one; the chain starts at the root board, ends at the node's board and is a chain of neighbours |
| Solvers.Poll | src/classes/solver.ts:66-95 | polls some index k off a non-empty frontier and appends k to the search's record of polled nodes; the result is a goal exactly when k's board is a goal, and then nothing is pushed; otherwise k is expanded and only its children are pushed; the arena is still exactly the frontier plus the polled nodes |
| Solvers.Round | src/classes/solver.ts:66-95 | one pass of the loop: one `PollStep` on the main search and, only when that node is not a goal, one on the twin search (otherwise the twin side is unchanged); each side's `History` grows by the node it polled; the first poll of a fresh search takes the root |
| Solvers.StartTwin | src/classes/solver.ts:62-64 | the twin search starts with one node, holding twin() of the initial board with moves 0 |
| Solvers.WalkBack | src/classes/solver.ts:49-54 | following parent links and putting each board in front gives the boards from the root to the goal node |
| Solvers.Search | src/classes/solver.ts:59-98 | the loop ends with both arenas valid and each equal to its frontier plus the nodes it polled, every polled non-goal node expanded, every non-root node the child of a polled non-goal node, one main and one twin poll per round except that the last round makes no twin poll when its main poll found a goal; true exactly when the last node polled from the main frontier is a goal, which becomes the goal node; false when the last node polled from the twin frontier is a goal, when a frontier is empty, or when all `fuel` rounds ran with both frontiers non-empty; with fuel ≥ 1 a goal initial board is found as node 0 by the first poll |
| Solvers.NeverFrontierEmpty | src/classes/solver.ts:66-98 | the fallback `return false` after the loop is never reached: a frontier can only run dry after a goal was polled, since the newest node of an arena, once polled, is a goal or has at least one child |
| Solvers.Solver.constructor | src/classes/solver.ts:24-31 | builds the initial node and runs `solve()` (`Search`); the solver records the main arena and goal node of that search with all of `Search`'s guarantees, is solvable exactly when the main search polled a goal, never stops on an empty frontier, and with fuel ≥ 1 a goal initial board is solvable with goal node 0 and moves() = 0 |
| Solvers.Solver.IsSolvable | src/classes/solver.ts:34-36 | true exactly when the main search found a goal, and then the goal node's board is a goal |
| Solvers.Solver.Moves | src/classes/solver.ts:39-41 | −1 exactly when not solvable; otherwise one less than the length of the goal node's chain back to the initial board |
| Solvers.Solver.Solution | src/classes/solver.ts:44-56 | empty when not solvable; otherwise it has moves() + 1 boards, starts at the initial board, ends at a goal board, and each board is a neighbour of the one before it |
| Solvers.Create | src/classes/solver.ts:24-27 | a null board gives the error and no search; otherwise a solver whose invariants hold |

## Left out

- `toString` (src/classes/board.ts:11-20) is presentation only.
- The ordering inside `MinHeap` from `min-heap-typed` is not modelled. The heaps are built without a comparator, so a poll removes an arbitrary element of the frontier. Every property above holds for every poll order.
- Optimality of `moves()` is not modelled. It depends on the heap order and on A* admissibility.
- The theorem that exactly one of a board and its twin is solvable is not modelled. It is a parity argument outside this code.
- Solvers.Search: the source loop has no bound. The model takes a `fuel` count of rounds (the solver's `fuel`) and stops with `FuelSpent` once that many rounds have run. The solver then reports `isSolvable()` false, `moves()` −1 and an empty `solution()`, which the source never answers for this reason; only the ghost `search.stop` tells this case apart from a twin goal. Only partial correctness is stated.
- The boards are never validated. Validity (`ValidBoard`) is a precondition wherever the code needs it.
- Boards.ComputeTwin requires only `HasTwinPair`: a non-blank cell in the first row and in the last row. Every valid board meets it (`ValidBoardHasTwinPair`). On other boards the source picks other cells, or throws when fewer than two cells are non-blank; the model does not cover those boards.
- Boards.CheckEquals requires two square boards. Ragged grids are not modelled.
- JavaScript numbers are doubles; the model uses unbounded integers. Every value here is far below 2^53, so nothing is lost.
- Object identity and garbage collection of `SearchNode` chains are not modelled. Parent links are arena indices.
- Solvers.Solver.constructor: the twin search's nodes, both frontiers, the lists of polled nodes and the round count are local to `solve()` in the source. The model keeps them in a ghost field so the final state can be stated.
