# PathFinder — a verified model of the grid path finder of *Sauron's Revenge*

The game moves units over a 100 by 100 grid of cells. A move order is
answered by `PathFinding`. It first checks whether the line of sight between
the two cells is free, using `MathUi.HasBarrier`, which probes the cells a
straight sweep passes. If the line is free, the unit goes straight to the
target. Otherwise a bidirectional A* search runs over the 4-connected grid.
Its two open lists are array-backed binary max-heaps (`BinaryHeap<T>`) with
an inverted comparison, so each pops its smallest priority. When the two
frontiers touch, `PathOutPut` joins the two predecessor chains and drops the
first cell. `Floyd` then smooths the list in three in-place passes:

- diagonal collapse;
- merge of collinear runs;
- line-of-sight shortcut.

The project has four modules:

- `Grid` (`grid.dfy`): cells, real-valued points, the two barrier oracles, the grid constants.
- `Heap` (`binary_heap.dfy`): the heap as a class over an `array`, with heap order and a multiset of contents.
- `MathUi` (`math_ui.dfy`): the line function, the cells under a point, and the barrier sweep as a loop proved against a specification predicate.
- `Pathfinder` (`pathfinder.dfy`): heuristic, comparison, neighbours, the three smoothing passes, path output, the search and the decision logic of `PathFinding`.

What is proved:

- The heap keeps heap order and its multiset of contents. `Pop` returns a maximal element.
- `HasBarrier` answers exactly "some probed cell is a barrier". The source's quirky degenerate line encodings are kept, and shown by lemmas.
- Each smoothing pass keeps an order-preserving embedding into its input that also keeps both ends. So `Floyd` returns a subsequence with the same first and last cell.
- Every state of the search keeps these invariants in both directions:
  - the origin is its own predecessor;
  - every other reached cell's predecessor is a 4-neighbour whose cost is one less;
  - the two maps have the same keys;
  - no barrier cell other than the origin is reached;
  - each open-list entry carries its cell's cost plus heuristic, except the seed entry, which carries 0;
  - both open lists order their entries by `Compare`.
- Each expansion pops the open-list entry of least priority. It records only neighbours of the popped cell, each with that cell as predecessor and one more step of cost. Unless it stops at a meeting, it reaches every free neighbour. Its open list loses only the popped entry and gains exactly the new cells' entries.
- The search terminates. Its measure is the number of unreached cells of a bounding square plus the sizes of the open lists.
- A path the search returns is, in order, a subsequence of a real 4-connected walk from the start to the destination whose inner cells are free. Its first cell is the walk's second cell and its last cell is the destination.

## Model

| member | source | states |
|---|---|---|
| Heap.BinaryHeap.constructor | PathFinder/BinaryHeap.cs:14-23 | a new heap is valid and empty, has capacity 4, and keeps the given comparison |
| Heap.BinaryHeap.Size | PathFinder/BinaryHeap.cs:25 | the size is the number of live elements and never exceeds the capacity |
| Heap.BinaryHeap.Insert | PathFinder/BinaryHeap.cs:31-38 | heap order is kept; the contents become the old multiset plus `item`; the size grows by one; a full array is replaced by one of twice the capacity, otherwise the array stays the same |
| Heap.BinaryHeap.Pop | PathFinder/BinaryHeap.cs:44-51 | on a non-empty heap: heap order is kept; the returned item was in the heap; no element compares greater than it; the contents lose exactly that item; the size drops by one; the array is kept |
| Heap.BinaryHeap.Resize | PathFinder/BinaryHeap.cs:53-58 | a fresh array of twice the length holds the whole old array as its prefix; size and validity are unchanged |
| Heap.BinaryHeap.HeapifyUp | PathFinder/BinaryHeap.cs:60-74 | with the new element at `childIdx`, the prefix up to and including it becomes heap-ordered and is a permutation of the old prefix plus that element; cells past it are untouched |
| Heap.BinaryHeap.HeapifyDown | PathFinder/BinaryHeap.cs:76-96 | from a heap whose only violation is at the root, the live prefix becomes heap-ordered and a permutation of itself; cells at or past `mSize` are untouched |
| Heap.RootIsMaximal | PathFinder/BinaryHeap.cs:46 | in a heap-ordered prefix, no element compares greater than the root, by induction up the parent chain |
| Heap.RootIsMaximalAll | PathFinder/BinaryHeap.cs:46 | the same for every element of the live multiset |
| Heap.SiftUpStep | PathFinder/BinaryHeap.cs:62-71 | one child-parent swap moves the only order violation from the child to the parent |
| Heap.SiftUpDone | PathFinder/BinaryHeap.cs:62-65 | when the child no longer compares greater than its parent, the prefix is heap-ordered |
| Heap.SiftDownChoice | PathFinder/BinaryHeap.cs:78-88 | the chosen index is the parent or a child comparing greater than the parent, and no child compares greater than the chosen one |
| Heap.SiftDownStep | PathFinder/BinaryHeap.cs:89-94 | swapping the parent with its greatest child moves the violation down to that child |
| Heap.SiftDownRound | PathFinder/BinaryHeap.cs:78-95 | one round either finishes with a heap-ordered prefix or moves the violation to a greater child |
| Heap.SiftDownDone | PathFinder/BinaryHeap.cs:89 | when no child of the violating index compares greater, the prefix is heap-ordered |
| Heap.RootReplaced | PathFinder/BinaryHeap.cs:46-48 | moving the last live element to the root leaves a violation only at the root, and the live multiset loses the old root |
| Heap.PlacedLast | PathFinder/BinaryHeap.cs:35 | writing the new item just past the live prefix keeps that prefix heap-ordered |
| Heap.SwapPrefix | PathFinder/BinaryHeap.cs:68-70 | swapping two live cells keeps the live multiset |
| Heap.Swap | PathFinder/BinaryHeap.cs:68-70 | a swap exchanges the two cells, leaves every other cell alone and keeps the multiset |
| MathUi.GetLineFunc | PathFinder/MathUI.cs:15-33 | equal X gives `(1, x1)`; otherwise equal Y gives `(0, -y1)`; otherwise both points satisfy `y = a·x + b` with `a ≠ 0` |
| MathUi.Trunc | PathFinder/MathUI.cs:45-66 | C#'s `(int)` of a float truncates toward zero: floor for non-negative values, ceiling for negative ones |
| MathUi.CellsMeetingAt | PathFinder/MathUI.cs:39-67 | 4, 2, 2 or 1 cells, depending on which coordinates are integral; the last is always `((int)x, (int)y)` |
| MathUi.CellsMeetingAtAreTouching | PathFinder/MathUI.cs:39-67 | for a point with non-negative coordinates, the listed cells are exactly the cells whose closed square contains the point |
| MathUi.AxisCell | PathFinder/MathUI.cs:45-66 | on one axis, a cell touching a coordinate is its truncation, or its truncation minus one when the coordinate is integral |
| MathUi.Without | PathFinder/MathUI.cs:70-80 | the filtered list holds exactly the listed cells that are not excluded, and is no longer than the list |
| MathUi.WithoutNothing | PathFinder/MathUI.cs:70 | an empty exclusion set leaves the list unchanged |
| MathUi.WithoutStep | PathFinder/MathUI.cs:72-79 | one step of the remove-and-step-back loop keeps "prefix + filtered rest" unchanged, whether or not it removes |
| MathUi.GetNodesUnderPoint | PathFinder/MathUI.cs:35-82 | without an exclusion map, the result is the cells meeting at the point; with one, those cells in order with the map's keys removed |
| MathUi.SpanPositive | PathFinder/MathUI.cs:103-123 | for distinct cells the sweep's start is below its end |
| MathUi.ProbePoint | PathFinder/MathUI.cs:125-131 | along X the probe's X is the sample; along Y its Y is the sample |
| MathUi.ProbeAlongX | PathFinder/MathUI.cs:131-134 | a horizontal sweep probes the cells at `(i, a·i + b)` |
| MathUi.ProbeAlongY | PathFinder/MathUI.cs:155-157 | a vertical sweep probes the cells at `((i - b) / a, i)`, and `a` is never 0 there |
| MathUi.LineOfSightBlocked | PathFinder/MathUI.cs:90-172 | the sweep's answer is only true for distinct cells, and never on a map without barriers |
| MathUi.IntegralRemainder | PathFinder/MathUI.cs:39-40 | the integrality test agrees with the source's `Math.Abs(x % 1) <= 0` under C#'s truncating remainder, also for negative values |
| MathUi.CenterInside | PathFinder/MathUI.cs:99-100 | a cell's centre `(x + 0.5, y + 0.5)` lies inside that cell and on no grid line |
| MathUi.HasBarrier | PathFinder/MathUI.cs:90-172 | the answer is true exactly when the cells differ and some probed cell of the sweep is a static or dynamic barrier; equal cells give false |
| MathUi.SamplesInsideSpan | PathFinder/MathUI.cs:125-129 | the samples are `loopStart + 0.5`, `+ 1.5`, …, up to `loopEnd - 0.5`, so the last cell's centre is not sampled |
| MathUi.ProbeOnSweepLine | PathFinder/MathUI.cs:131-155 | every probe lies on the computed line `y = a·x + b` |
| MathUi.InverseOnLine | PathFinder/MathUI.cs:155 | solving the line for X and substituting back gives the sample |
| MathUi.TruncOfInt | PathFinder/MathUI.cs:39 | an integer is integral and truncates to itself |
| MathUi.TruncOfHalf | PathFinder/MathUI.cs:39-40 | a half-integer sample is not integral and truncates toward zero |
| MathUi.SameRowProbesMirroredRow | PathFinder/MathUI.cs:125-131 | in-grid cells on one row probe the single cell `(loopStart + k, -y1)` at sample `k`, the mirrored row the `(0, -y1)` encoding gives |
| MathUi.SameRowMissesBarrier | PathFinder/MathUI.cs:125-142 | so a barrier between two cells of row 5 is not seen |
| MathUi.SameColumnProbesDriftingColumn | PathFinder/MathUI.cs:151-157 | in-grid cells on one column probe the columns `row - x1 - 1` and `row - x1` at row `loopStart + k`, through the `(1, x1)` encoding |
| Pathfinder.Heuristic | PathFinder/Pathfinder.cs:33-36 | the distance is non-negative and zero exactly for equal cells |
| Pathfinder.HeuristicStep | PathFinder/Pathfinder.cs:33-36 | a step to a 4-neighbour changes the distance to any goal by exactly one (consistency) |
| Pathfinder.HeuristicTriangle | PathFinder/Pathfinder.cs:33-36 | the distance obeys the triangle inequality |
| Pathfinder.Compare | PathFinder/Pathfinder.cs:75-86 | 1, -1 or 0 exactly when the first priority is smaller than, greater than or equal to the second |
| Pathfinder.CompareIsTotalPreorder | PathFinder/Pathfinder.cs:75-86 | the comparison meets the heap's requirement: antisymmetric sign and transitive |
| Pathfinder.MaximalHasLeastPriority | PathFinder/Pathfinder.cs:75-86 | an entry no other compares greater than has the least priority, so the heap pops the smallest priority |
| Pathfinder.OffBoard | PathFinder/Pathfinder.cs:163 | the neighbour search's guard, both coordinates below 0 or both above 99, only fires off the grid |
| Pathfinder.FindNeighbours | PathFinder/Pathfinder.cs:160-172 | at most 4 cells, each a 4-neighbour stepping down only from above 0 and up only from below 99; none for a cell off the board on both axes; for an in-grid cell, exactly its in-grid 4-neighbours |
| Pathfinder.NeighboursStayInBox | PathFinder/Pathfinder.cs:160-172 | neighbours of a cell in a square that contains the grid stay in that square |
| Pathfinder.FloydVector | PathFinder/Pathfinder.cs:88-92 | the result is the step from `n2` to `n1`: adding it to `n2` gives `n1` |
| Pathfinder.CollapseDiagonals | PathFinder/Pathfinder.cs:102-114 | the result embeds in order into the path and keeps both ends; lists of length ≤ 2 are unchanged; every step is an input step or a diagonal jump over one cell |
| Pathfinder.CollapseOne | PathFinder/Pathfinder.cs:107-111 | one removal of a middle cell between diagonal neighbours keeps the first pass's loop invariant |
| Pathfinder.MergeStraightRuns | PathFinder/Pathfinder.cs:115-135 | the result embeds with both ends kept; lists of length ≤ 2 are unchanged; every step spans a run of equal input steps, a straight line |
| Pathfinder.MergeOne | PathFinder/Pathfinder.cs:124-128 | one removal of a cell on a straight run keeps the second pass's loop invariant |
| Pathfinder.CutCorners | PathFinder/Pathfinder.cs:136-152 | the result embeds with both ends kept; lists of length ≤ 2 are unchanged; every step is an input step or a shortcut with a clear line of sight |
| Pathfinder.ShortcutOne | PathFinder/Pathfinder.cs:142-148 | cutting out the cells strictly between `j` and `i ≥ j + 2` when the line of sight is clear keeps the third pass's loop invariant |
| Pathfinder.RemoveBetween | PathFinder/Pathfinder.cs:144-147 | the downward `RemoveAt(k)` loop leaves `path[..j+1] + path[i..]` |
| Pathfinder.RemoveBelow | PathFinder/Pathfinder.cs:146 | one more removal below the cut extends it by one cell |
| Pathfinder.Floyd | PathFinder/Pathfinder.cs:99-153 | the result is a subsequence of the path with the same first and last cell; at least 2 cells remain of 2 or more; lists of length ≤ 2 are unchanged |
| Pathfinder.EmbedsDelete | PathFinder/Pathfinder.cs:99-153 | deleting a block of interior cells keeps an end-keeping embedding |
| Pathfinder.EmbedsCompose | PathFinder/Pathfinder.cs:99-153 | embeddings compose, and so do end-keeping ones |
| Pathfinder.EmbedsEnds | PathFinder/Pathfinder.cs:99-153 | an end-keeping embedding gives a subsequence with the same ends and at least 2 cells of 2 or more |
| Pathfinder.IdentityEmbeds | PathFinder/Pathfinder.cs:99-135 | the first two passes start from the identity embedding, which keeps both ends and meets their step properties: every step is an input step |
| Pathfinder.IdentityClear | PathFinder/Pathfinder.cs:136-152 | the shortcut pass starts from the identity embedding, whose every step is an input step and so meets that pass's step property |
| Pathfinder.PathFromOrigin | PathFinder/Pathfinder.cs:52-57 | the chain from the origin to `c` has cost-of-`c` + 1 cells, runs from the origin to `c`, and terminates because the cost drops along predecessors |
| Pathfinder.PathToOrigin | PathFinder/Pathfinder.cs:58-63 | the chain from `c` back to the origin has cost + 1 cells and runs from `c` to the origin |
| Pathfinder.PathFromOriginSteps | PathFinder/Pathfinder.cs:52-57 | every cell of the forward chain is reached and consecutive cells are 4-neighbours |
| Pathfinder.PathToOriginSteps | PathFinder/Pathfinder.cs:58-63 | the same for the backward chain |
| Pathfinder.JoinedIsWalk | PathFinder/Pathfinder.cs:47-67 | at a meeting, the begin chain to `before` followed by the end chain from `after` is a 4-connected walk from start to destination whose inner cells are free, of length cost(before) + cost(after) + 2 |
| Pathfinder.PrependPredecessor | PathFinder/Pathfinder.cs:55-56 | one `Insert(0, …)` step keeps "chain to the front cell, then the rest of the list" unchanged |
| Pathfinder.AppendPredecessor | PathFinder/Pathfinder.cs:61-62 | one `Add` step keeps "the list, then the rest of the last cell's chain" unchanged |
| Pathfinder.CollectBegin | PathFinder/Pathfinder.cs:50-57 | the first loop produces the begin chain through `before`, then `after` |
| Pathfinder.CollectEnd | PathFinder/Pathfinder.cs:58-63 | the second loop appends the end chain after `after` |
| Pathfinder.JoinedTail | PathFinder/Pathfinder.cs:50-63 | before `RemoveAt(0)` the list is the joined chains, has at least 2 cells and ends at the destination |
| Pathfinder.PathOutPut | PathFinder/Pathfinder.cs:47-67 | the result is a subsequence of the joined chains without their first cell, starts at the second cell of the join, and ends at the destination |
| Pathfinder.Seeded | PathFinder/Pathfinder.cs:182-192 | a heap holding only the seed entry with priority 0, and the one-entry maps, meet the search invariants |
| Pathfinder.RootedExtend | PathFinder/Pathfinder.cs:210-217 | recording a new neighbour with cost + 1 and its predecessor keeps the predecessor maps rooted |
| Pathfinder.Record | PathFinder/Pathfinder.cs:210-217 | the cost of `next` becomes cost(`from`) + 1 and its predecessor `from`; the open list's contents gain exactly the entry with that cost plus the heuristic; the search invariants are kept |
| Pathfinder.PushQueued | PathFinder/Pathfinder.cs:213-215 | pushing the new cell's entry keeps every open-list entry reached and carrying its cost plus heuristic |
| Pathfinder.RecordedOutcome | PathFinder/Pathfinder.cs:210-217 | a free, unreached cell the other direction has not reached, recorded with cost + 1 and pushed, is the third case of a visit's outcome |
| Pathfinder.Visit | PathFinder/Pathfinder.cs:197-218 | a barrier or already reached neighbour is skipped, with maps and open list unchanged; a free, unreached neighbour the other direction has reached is reported as the meeting `(from, next)`, with nothing changed; any other is recorded with cost(`from`) + 1 and predecessor `from`, and its entry is pushed; the invariants are kept |
| Pathfinder.Expand | PathFinder/Pathfinder.cs:195-218 | pops the open-list entry of least priority (ghost output `popped`); every newly reached cell is a neighbour of the popped cell, with it as predecessor and its cost plus one; without a meeting every free neighbour is reached; a meeting is `(popped cell, neighbour)` with the neighbour free and reached by the other direction; the open list keeps every old entry but `popped`, gains an entry with cost plus heuristic for each newly reached cell and nothing else, and its size changes by the newly reached cells minus one; the invariants hold |
| Pathfinder.VisitAll | PathFinder/Pathfinder.cs:197-218 | the neighbour loop for one popped cell: new cells are recorded from it, their entries are pushed onto the open list and nothing else is, every free neighbour is reached unless the loop stops at a meeting, and the invariants are kept |
| Pathfinder.VisitNeighbour | PathFinder/Pathfinder.cs:199-217 | one pass of that loop keeps the loop state (invariants, growing maps, new cells recorded from the popped cell with their entries pushed) and extends "every free neighbour so far is reached" by one neighbour |
| Pathfinder.VisitRecords | PathFinder/Pathfinder.cs:199-217 | the step lemma of that loop, derived from `VisitOutcome` |
| Pathfinder.PushedStep | PathFinder/Pathfinder.cs:199-217 | one neighbour visit keeps "the open list is the base plus exactly the new cells' entries" |
| Pathfinder.PushedRecord | PathFinder/Pathfinder.cs:210-217 | recording a new cell and pushing its entry keeps that relation |
| Pathfinder.PoppedLeast | PathFinder/Pathfinder.cs:195 | an entry no other compares above under `Compare` has the least priority |
| Pathfinder.ExpandBeside | PathFinder/Pathfinder.cs:195-241 | everything `Expand` states, the open-list contents included, while the other direction's open list keeps its contents and invariants |
| Pathfinder.GrowsTransitive | PathFinder/Pathfinder.cs:210-217 | the maps' growth relation is transitive |
| Pathfinder.UnsettledAccount | PathFinder/Pathfinder.cs:193-241 | an expansion lowers unreached cells plus open-list size by exactly one |
| Pathfinder.OutsideCount | PathFinder/Pathfinder.cs:193 | the unreached part of the bounding square has the square's size minus the reached count |
| Pathfinder.KeysInBox | PathFinder/Pathfinder.cs:193 | reached cells stay within the bounding square |
| Pathfinder.MeetingResult | PathFinder/Pathfinder.cs:206-233 | the list `PathOutPut` returns at a meeting satisfies the search's result property |
| Pathfinder.SearchRound | PathFinder/Pathfinder.cs:193-241 | one loop pass returns a non-empty path with the result property on a meeting; otherwise, for each direction in turn, the popped entry has the least priority in that open list, the new cells are its neighbours recorded from it, all its free neighbours are reached, and the open list is the old one minus the popped entry plus the new cells' entries; all invariants are kept and the termination measure drops by 2 |
| Pathfinder.Search | PathFinder/Pathfinder.cs:193-243 | the loop terminates; its path is empty or waypoints of a walk from start to destination whose inner cells are free, ending at the destination; an empty path comes back only once one of the open lists has run empty |
| Pathfinder.BidirectionAStar | PathFinder/Pathfinder.cs:180-244 | the returned list is empty, or ends at the destination and is an ordered subsequence of a 4-connected walk from start to destination whose inner cells are free, starting at the walk's second cell |
| Pathfinder.BothNegative | PathFinder/Pathfinder.cs:260-261 | the request's guard, both coordinates negative, only fires on cells the neighbour search's guard `OffBoard` also rejects, and never on an in-grid cell |
| Pathfinder.Target | PathFinder/Pathfinder.cs:264-272 | a free end cell is the target itself; a barrier end cell is replaced by the substitute, so the target is free whenever the substitute is |
| Pathfinder.Refused | PathFinder/Pathfinder.cs:260-273 | a start or end with both coordinates negative is refused; an accepted request never heads for a substitute `(0, 0)` |
| Pathfinder.PathFinding | PathFinder/Pathfinder.cs:260-285 | a start or end with both coordinates negative (a cell such as `(-1, 50)` proceeds), or a barrier target whose substitute is `(0, 0)`, give an empty list; a clear line of sight gives exactly `[target * 32]`; otherwise the search's waypoints times 32; any non-empty answer ends at the target's world position |
| Grid.CellOfScale | PathFinder/Pathfinder.cs:278-283 | dividing a waypoint's coordinates by the cell size 32 gives back the cell |
| Grid.ScaleInjective | PathFinder/Pathfinder.cs:278-283 | two cells have the same waypoint exactly when they are equal, so the waypoints identify the path |

## Left out

- Floats are exact reals, in `GetLineFunc`, the sweep and `GetNodesUnderPoint`'s `% 1` test. Results at rounding edge cases may differ from IEEE single precision.
- `LengthOfDistanceVector` (Pathfinder.cs:19-25) and `MathUi.Normalize` (MathUI.cs:174-177) are float square roots that the core does not use.
- The world-to-cell conversion at the start of `PathFinding` (Pathfinder.cs:253-259), with float division and banker's `Math.Round`, is not modelled. `PathFinding` takes the two converted cells.
- The `> 99` clauses of `PathFinding`'s guard (Pathfinder.cs:260-261) cannot fire after that conversion's capping, so the model keeps only the `< 0` clauses.
- The global `ScreenManager` barrier dictionaries become the parameter `m` (two membership predicates). `AbstractMap.FindSubstitutePosition` becomes the parameter `substitute`. Neither is part of this model.
- `Point` and `Vector2` become the datatypes `Cell` and `Vec`. `Tuple<Point, long>` becomes `Entry`.
- `int` and `long` are unbounded, so costs, priorities and coordinates do not overflow in the model. On the 100 by 100 grid they stay small.
- `BinaryHeap`'s fallback to `Comparer<T>.Default` for a null comparison is not modelled. The constructor instead requires a comparison that is a total preorder, as `Compare` is proved to be.
- The tail-recursive `HeapifyUp` and `HeapifyDown` are loops.
- The source's code is split into methods, re-joined by their contracts:
  - `PathOutPut`'s two loops are `CollectBegin` and `CollectEnd`;
  - `Floyd`'s three passes are `CollapseDiagonals`, `MergeStraightRuns` and `CutCorners`;
  - the `RemoveAt(k)` loop is `RemoveBetween`;
  - one direction's expansion is `Expand` (the pop), `VisitAll` (the neighbour loop), `Visit` and `Record`, written once and used for both directions;
  - the loop body is `SearchRound` and the loop itself is `Search`.
- The lists are sequence values that these methods reassign, because each list belongs to one call.
- The test at Pathfinder.cs:211 and 236 is not modelled. It rejects a new path to a known cell that is not cheaper than the recorded cost, but it is dead: the two maps always have the same keys, so any cell with a cost was already skipped as reached. The model asserts that instead.
- Pathfinder.BidirectionAStar: only soundness is proved, with termination on every input. A returned path is a subsequence of a real walk from the start to the destination whose inner cells are free; the two ends may be barrier cells. Completeness and optimality are not claimed. Completeness would mean that an empty answer implies no walk exists. Optimality would mean that no shorter walk exists. This meet-at-first-contact search with a clipped neighbourhood does not promise either.
- Pathfinder.Search: states soundness and that an empty path means an open list ran empty, but not completeness or optimality, for the reasons given for `BidirectionAStar`.
- The adjustment `i -= 0.5` at MathUI.cs:143 and 168 is kept as written. It can never fire, because the samples stay at most `loopEnd - 0.5` (`MathUi.SamplesInsideSpan`).
