# Pathfinder2 grid core, modelled in Dafny

Pathfinder2 is a small grid application. A 15 × 15 matrix of cells, each
Walkable, Obstical, Start or End, can be edited, searched for a path
from Start to End, or filled with a randomly carved maze. This project
models and proves three parts of it.

- **The grid** (`grid.dfy`, module `Grid`):
  - the four-state cell with its `++` / `--` edit cycle;
  - the grid size;
  - integer points with component-wise `+`;
  - the distance used by the path costs. `floor(10 * dist(a, b))` is
    computed exactly as the integer square root of `100 * (dx² + dy²)`.
  - The matrix is an `array2<Node>`. The first index is the column (x),
    the second the row (y). It is rectangular by construction.
- **The output types** (`pathing.dfy`, module `Pathing`):
  - `PathPoint`: a point, an optimal flag and an optional text.
  - `SearchResult`: the two exceptions `find_path` can throw, or its
    result.
- **The best-first search** (`astar.dfy`, module `AStar`). The methods
  follow the loops of `find_path` and `calculate_h_cost`:
  - the scan for Start and End;
  - the parent-chain cost walk;
  - the nested loops of one pass;
  - the outer `for (;;)`;
  - the output loops.

  Each method is proved against a specification function:

  | method | specification function |
  |---|---|
  | `FindEndpoints` | `LastCell` |
  | `CalculateHCost` | `ChainCost` |
  | `LowestCostContender` | `Selected` |
  | `BuildResult` | `Annotate` |

  `FindPath` returns exactly `FindPathSpec(m)`, a function of the grid
  alone. The lemmas about those functions state what a search returns.
- **The maze carver** (`maze.dfy`, module `Maze`). `generate_maze` is an
  imperative loop over the matrix, kept as such:
  - the wall scan, with an offsets list it erases in place;
  - the random choice;
  - the push or pop;
  - and, as a ghost, the history of pushed cells that makes the loop
    terminate.

The search never writes the grid. `FindPath` has no `modifies` clause.
Two calls on the same grid give the same result, because the result is
`FindPathSpec(m)`. The carver's choices read only the grid's dimensions,
the visited set and the random draws, never the cell values. `Step`'s
contract shows this: the stack it leaves does not depend on `m`'s
contents.

### Behaviour worth noting

- The search examines the 4 orthogonal neighbours (0,1), (1,0), (0,-1),
  (-1,0), in that order (src/astar.cpp:58-63). It does not examine 8.
- No parent is ever reassigned after insertion: there is no relaxation
  pass.
- When a pass finds no candidate, `find_path` throws `runtime_error`
  (src/astar.cpp:91-92). It does not return an empty result. This outcome
  is `NoPath`, and it happens only when no walk of orthogonal steps over
  non-obstacle cells leads from Start to End.
- Every `text` is empty (src/astar.cpp:106). The start entry is never
  flagged optimal (src/astar.cpp:108).
- Around the top cell, the carver makes a wall an obstacle when it is
  diagonal or when the cell beyond it is *unvisited*. A wall whose far
  cell is visited is left alone (src/maze.cpp:54-55).

## Model

| member | source | states |
|---|---|---|
| Grid.Ordinal | include/node.hpp:11-16 | each state has a position below 4, in declaration order |
| Grid.OrdinalInjective | include/node.hpp:11-16 | two states share a position only if they are equal: there are exactly four |
| Grid.Succ | src/node.cpp:5-12 | `++` moves a state one position forward, modulo 4 |
| Grid.Pred | src/node.cpp:14-21 | `--` moves a state one position back, modulo 4 |
| Grid.SuccPredInverse | src/node.cpp:5-21 | `--(++n) == n` and `++(--n) == n` for every state |
| Grid.CycleOfFour | src/node.cpp:5-21 | four `++`, or four `--`, give back the original state |
| Grid.SuccNOrdinal | src/node.cpp:5-12 | k edits with `++` advance the position by k modulo 4 |
| Grid.Increment | src/node.cpp:5-12 | `++` on a cell updates it in place to its successor, returns the new state and leaves every other cell as it was |
| Grid.Decrement | src/node.cpp:14-21 | `--` on a cell updates it in place to its predecessor, returns the new state and leaves every other cell as it was |
| Grid.Add | src/node.cpp:29-31 | the `operator+` on points: the sum of the two x components and of the two y components |
| Grid.AddCommutative | src/node.cpp:29-31 | point addition is commutative |
| Grid.AddAssociative | src/node.cpp:29-31 | point addition is associative |
| Grid.AddIdentity | src/node.cpp:29-31 | (0, 0) is the identity of point addition |
| Grid.Isqrt | src/node.cpp:23-27 | the result is the integer square root: r² ≤ n < (r+1)² |
| Grid.IsqrtUnique | src/node.cpp:23-27 | any r with r² ≤ n < (r+1)² is the integer square root |
| Grid.TenDist | src/node.cpp:23-27 | the result r is floor(10 · dist): r² ≤ 100 · (dx² + dy²) < (r+1)² |
| Grid.DistSymmetric | src/node.cpp:23-27 | the squared distance and floor(10 · dist) are symmetric |
| Grid.DistZeroIff | src/node.cpp:23-27 | the distance is zero exactly when the points are equal |
| Grid.AdjacentTenDist | src/node.cpp:23-27 | one orthogonal step has squared distance 1 and floor(10 · dist) = 10 |
| Grid.ThreeFourFive | src/node.cpp:23-27 | dist((0,0),(3,4)) is exactly 5: squared distance 25, floor(10 · dist) = 50 |
| Grid.CellsFacts | include/node.hpp:21-26 | the cells of a w × h grid are exactly the in-bounds points, and there are w · h of them |
| AStar.StepAdjacent | src/astar.cpp:58-63 | each of the four contender offsets is one orthogonal step |
| AStar.LastScannedFacts | src/astar.cpp:24-36 | a cell found by a partial scan was scanned, has the state sought, and no cell scanned after it has that state; finding none means no scanned cell has it |
| AStar.LastCell | src/astar.cpp:24-36 | the cell with the given state that the scan over all columns and rows assigns last, or None when the grid has none |
| AStar.LastCellFound | src/astar.cpp:24-36 | a Start (End) cell is found exactly when the grid has one; the one found is the last in column-then-row order |
| AStar.FindEndpoints | src/astar.cpp:24-36 | the nested scan returns the last Start and the last End cell, or (-1, -1) for a missing one |
| AStar.FindPathInvalid | src/astar.cpp:38-39 | the search fails with the invalid-argument error exactly when the grid has no Start or no End cell |
| AStar.Depth | src/astar.cpp:13 | the number of parent links from an entry is at most its index, and zero only for entry 0 |
| AStar.ChainCost | src/astar.cpp:11-19 | the sum of floor(10 · dist) over each link of the parent walk from entry i back to the entry whose parent is -1 |
| AStar.ChainCostIsTenDepth | src/astar.cpp:11-19 | when every link is an orthogonal step, the cost summed along the parent chain is 10 × the entry's depth |
| AStar.CalculateHCost | src/astar.cpp:11-19 | the loop returns the sum of floor(10 · dist) over the parent chain from `ind` to the start |
| AStar.CostByDepth | src/astar.cpp:78-81 | the f of a contender is 10 · (depth of its parent + 1) plus floor(10 · dist) to End |
| AStar.EntryCandidateFacts | src/astar.cpp:58-81 | each candidate of an entry is open (unrecorded, in bounds, not an obstacle), one step from that entry, and costed through it |
| AStar.PassCandidateFacts | src/astar.cpp:55-81 | each candidate of a pass is open, one step from an earlier recorded entry, and costed through that entry |
| AStar.EntryCandidateComplete | src/astar.cpp:65-76 | every open contender of an entry is among its candidates |
| AStar.PassCandidateComplete | src/astar.cpp:55-76 | every open contender of every recorded entry is among the pass's candidates |
| AStar.FirstLeast | src/astar.cpp:83-87 | the index picked has the least f, and every candidate before it costs strictly more (ties go to the first in scan order) |
| AStar.Selected | src/astar.cpp:50-89 | one pass: the first candidate of least f over all entries in record order and their four contenders in offset order, or None when no contender is open |
| AStar.SelectedIsOpenStep | src/astar.cpp:55-87 | the appended point is open and one step from its parent, an entry already recorded; its f is the cost through that parent |
| AStar.SelectedIsLeast | src/astar.cpp:55-87 | no open contender of any recorded entry costs less than the appended one |
| AStar.SelectedNoneIff | src/astar.cpp:55-92 | a pass finds nothing exactly when every orthogonal neighbour of every recorded entry is recorded, out of bounds or an obstacle |
| AStar.AdjacentIsStep | src/astar.cpp:58-63 | every orthogonal neighbour is one of the four contender offsets |
| AStar.TracksAppend | src/astar.cpp:83-87 | the strict `<` update, or the first candidate when none is held, keeps the first least-cost candidate seen |
| AStar.ScanStep | src/astar.cpp:58-76 | scanning one more offset adds at most that contender to the candidates |
| AStar.ScanContender | src/astar.cpp:65-87 | after one contender, the variables hold the first least-cost candidate of those scanned so far |
| AStar.LowestCostContender | src/astar.cpp:50-89 | after the nested loops, cost < 0 exactly when there is no candidate; otherwise point, parent and cost are the selected candidate |
| AStar.RecordBound | src/astar.cpp:49-99 | a record without repetition, inside the grid, has at most width · height entries |
| AStar.AppendSelected | src/astar.cpp:94-95 | appending the selected point and parent keeps the record invariant: links backwards, stepwise, no repetition, in bounds, no obstacles |
| AStar.Search | src/astar.cpp:49-99 | pass after pass, appends the selected candidate and its parent; Reached with the record when End is appended, Exhausted when a pass selects nothing |
| AStar.SearchReached | src/astar.cpp:49-99 | a finished search extends its starting record, keeps the invariant, ends with End, and has End nowhere else among the new entries |
| AStar.SearchSelects | src/astar.cpp:49-99 | each entry a search appends is the selection of the pass run on the record before it |
| AStar.OnChainLinks | src/astar.cpp:108-109 | each flagged entry is not entry 0, and its parent is entry 0 or flagged too |
| AStar.Annotate | src/astar.cpp:103-111 | each recorded point in record order with no text, flagged optimal exactly when it lies on the parent walk from the last entry, entry 0 excluded |
| AStar.BuildResult | src/astar.cpp:103-111 | the output loops give, in record order, each point with an empty text, flagged exactly when it is on the parent walk from the last entry |
| AStar.FindPathSpec | src/astar.cpp:21-112 | the whole search: InvalidArgument without a Start or End cell, otherwise a search seeded with the last Start, NoPath when it is exhausted and the annotated record when it reaches the last End |
| AStar.FindPath | src/astar.cpp:21-112 | the method's result is the specification of the whole search, a function of the grid alone |
| AStar.AnnotateChain | src/astar.cpp:103-111 | entry 0 is not flagged, the last entry is; every flagged entry has an earlier entry, entry 0 or flagged, one step away |
| AStar.FoundRecord | src/astar.cpp:43-99 | behind a successful search is a record from the last Start to the last End with 2 to width · height entries that keeps the invariant |
| AStar.FoundPath | src/astar.cpp:21-112 | a result runs from the last Start to the last End; its 2 to width · height points are distinct, in-bounds non-obstacle cells; every text is empty |
| AStar.ExhaustedClosed | src/astar.cpp:49-92 | a search that runs out of candidates from a record without End ends at a larger record, still without End, on which a pass selects nothing |
| AStar.ClosedContainsWalk | src/astar.cpp:55-76 | a walk of orthogonal steps over in-bounds non-obstacle cells that starts in such a record stays within it |
| AStar.NoPathUnreachable | src/astar.cpp:91-92 | the `runtime_error` outcome happens only when no such walk runs from the last Start cell to the last End cell |
| AStar.StandardPathBound | include/node.hpp:21-22 | on the 15 × 15 grid a result has at most 225 entries |
| AStar.FoundChain | src/astar.cpp:103-111 | in a result, the start entry is unflagged and the End entry flagged; the flagged entries, with entry 0, form a chain of orthogonal steps |
| Maze.Options | src/maze.cpp:46-52 | the offsets, in order, whose wall is in bounds, that are orthogonal and whose cell beyond is unvisited |
| Maze.OptionsSnoc | src/maze.cpp:50-52 | scanning one more offset appends at most that offset to the options |
| Maze.OptionsMembers | src/maze.cpp:46-52 | an offset is an option exactly when it is scanned, its wall is in bounds, it is orthogonal and the cell beyond is unvisited |
| Maze.Walled | src/maze.cpp:54-55 | the rule of the scan's write: the cell is the current cell plus one of the eight offsets, and that offset is diagonal or the cell beyond is unvisited; the scan writes such a cell only when it is in bounds |
| Maze.MarkedByAppend | src/maze.cpp:54-55 | scanning one more offset marks at most its wall cell |
| Maze.WallEffect | src/maze.cpp:46-55 | a diagonal wall always becomes an obstacle; an orthogonal one exactly when the far cell is unvisited, which is also when it is an option |
| Maze.WalledNear | src/maze.cpp:29-36 | a scan writes only the eight neighbours of the current cell |
| Maze.ChooseIndex | src/maze.cpp:62 | `rand() % dir_opts.size()` is below the size of the option list |
| Maze.MarkWall | src/maze.cpp:46-55 | for an in-bounds wall: it becomes an obstacle when diagonal or its far cell is unvisited, otherwise is unchanged; it is an option exactly as defined |
| Maze.Aligned | src/maze.cpp:42 | erasing element i keeps the working list aligned with the remaining offsets |
| Maze.ScanPrefix | src/maze.cpp:35-56 | one more offset extends the options and the marked cells by at most its own |
| Maze.ScanOffsets | src/maze.cpp:35-56 | the loop with in-place erasure returns the options in order and marks exactly the walls the rule names, leaving every other cell unchanged |
| Maze.ScanWalls | src/maze.cpp:29-56 | the scan over the eight offsets returns the option list and writes exactly the walls named by the rule |
| Maze.Step | src/maze.cpp:26-66 | one iteration: the top is visited; with no option it is popped; otherwise one draw picks an option, its wall is carved Walkable and the cell beyond pushed; even cells keep their value |
| Maze.EvenNotWalled | src/maze.cpp:36 | a scan around an even cell never writes an even cell |
| Maze.OptionTarget | src/maze.cpp:63-64 | from an even cell, the carved wall is not even and the pushed cell is even, inside the grid and its border of one |
| Maze.CarvingStarts | src/maze.cpp:20-23 | the seeded stack (0, 0) satisfies the loop's bookkeeping |
| Maze.TopEven | src/maze.cpp:26 | the top of the stack is always an even cell |
| Maze.PopKeeps | src/maze.cpp:58-60 | popping a visited top keeps the bookkeeping |
| Maze.PushKeeps | src/maze.cpp:61-65 | pushing an option's target keeps the bookkeeping; the target was never pushed, so the history stays within the bounded set |
| Maze.GenerateMaze | src/maze.cpp:16-68 | the loop terminates; cells with two even coordinates keep their value; every other cell keeps its value or becomes Obstical or Walkable |

## Left out

- Graphics, the event loop and process start-up: windows, textures,
  fonts, drawing and input handling. They are presentation only.
- The cardinality check the caller does before a search (exactly one
  Start and one End). `FindPath` accepts any grid, as `find_path` does,
  and uses the last Start and End found.
- Floating point: `dist` returns a `float` from `std::sqrt`. The model
  computes floor(10 · dist) exactly as an integer square root. When
  dx² + dy² is a perfect square, `sqrt` and the product by 10 are exact.
  Otherwise 100 · (dx² + dy²) is at least 1 from every square, so with dx
  and dy at most 14, 10 · dist is at least about 1/400 from an integer,
  far beyond float error. The two agree on a 15 × 15 grid.
- Random numbers: the `std::mt19937` engine seeded from
  `std::random_device`. It becomes a parameter `rand`, whose i-th value
  is the i-th draw. The chosen index is that draw modulo the number of
  options, as in the code.
- Exceptions: the two thrown exceptions are `SearchResult` outcomes
  (`InvalidArgument`, `NoPath`). They carry no message text.
- The `PathingAlgorithm` interface with its virtual `find_path`, deleted
  copy operations and default constructors. `AStar` has no data members,
  so the search is a method of module `AStar` and needs no object.
- Integer width: C++ `int` is 32 bits. The model uses unbounded integers.
  All values involved (costs below a few thousand, indices below 225)
  stay far inside that range.
- The matrix type fixes the column height at 15 and lets the column
  count vary. The model takes both dimensions from the `array2` and fixes
  neither. `Grid.StandardSize` names the 15 × 15 case.
- Performance details: the by-value vector copies in `calculate_h_cost`
  and the linear `std::find`. The model's membership test has the same
  meaning.
- Maze.GenerateMaze: the contract does not state the final contents of
  the matrix as a whole, nor that the walkable cells are connected.
  `Step` states the exact effect of each iteration, and the proof shows
  that the loop terminates with every pushed cell distinct and even.
  Connectivity of the maze is not proved.
