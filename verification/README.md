# D* Lite on an 8-connected grid, in Dafny

This project models the core of a C++ D* Lite path finder (Koenig and
Likhachev's incremental shortest-path algorithm) and proves properties of
that model. The core has four parts:

- **Graph** (`graph.dfy`): the `Node` record. Its identity and hash are the
  (row, col) pair only, and `walkable` travels with each copy. Path costs
  are a finite real or an explicit `INF_COST`.
- **Keys** (`keys.dfy`): the two-part priority `Key`, ordered
  lexicographically, and the (node, key) record `HeapNode`.
- **Heaps** (`heap.dfy`): `MinHeapMap`, a class holding a binary min-heap of
  records in a sequence plus an index from position to slot. Its methods
  insert, pop, remove, rekey, reset and sift records in place. Its three
  failures (empty heap, duplicate node, node not found) are values of
  `HeapError`.
- **Grids** (`grid.dfy`): the `Grid` class. It is a rows x cols matrix of
  nodes with bounds-checked walkability, the eight-direction neighbour scan,
  the edge-cost rules and the Euclidean heuristic.
- **DStar** (`dstar.dfy`): the `DStarLite` engine class. It keeps the g and
  rhs tables, the key modifier km, start/goal/last and the open list. It
  models seeding (`findPath`), the open-list repair (`updateNode`), the main
  loop (`computeShortestPath`), rhs recomputation (`computeRhs`), greedy path
  extraction (`buildPath`) and replanning (`notifyEnvironmentChanges`).

The engine's object invariant (`Valid`) holds between operations: every
inconsistent node (g != rhs) is queued, and no node with g = rhs finite is
queued. Every method that changes state re-establishes it. `buildPath`'s
result is characterised by `GreedyWalk`, which fixes it uniquely.

Three behaviours of the code are modelled as written:

- `findPath` tests the arguments' own `walkable` flags.
- `this->last = last` leaves `last` unchanged.
- `fabs(a - b) < EPSILON` is false when either side is infinite (`NearlyEqual`).

Also as written: `buildPath` prices later candidates from the latest choice,
and `getEdgeCost` gives two open cells two apart in the same row or the
same column `STRAIGHT_COST`.

## Model

| member | source | states |
|---|---|---|
| Graph.MakeNode | include/IGraph.h:12-13 | the (r, c) constructor gives row r, col c and walkable true |
| Graph.SameIsPositional | include/IGraph.h:15-21 | two nodes are equal iff row and col match, the walkable flag never matters, and `!=` is the negation of `==` |
| Graph.DefaultNodes | include/IGraph.h:12-13 | the default node is (0, 0) and walkable; the (r, c) constructor defaults walkable to true |
| Graph.HashIgnoresWalkable | include/IGraph.h:31-34 | equal nodes hash equally, whatever their walkable flags |
| Graph.Add | include/IGraph.h:40 | a sum is finite iff both operands are, and then it is the real sum; infinity absorbs |
| Graph.Min | src/DStarLite.cpp:48 | `std::min` returns one of its operands and neither operand is below it |
| Graph.InfIsTop | include/IGraph.h:40 | INF_COST is strictly above every finite cost and below none |
| Graph.BelowIsStrictTotal | include/IGraph.h:40 | `<` on costs is irreflexive, transitive and total on distinct costs |
| Keys.GreaterIsFlippedLess | include/MinHeapMap.h:19-21 | `a > b` holds exactly when `b < a` |
| Keys.LessIsLexicographic | include/MinHeapMap.h:15-17 | k1 decides; on equal k1, k2 decides |
| Keys.LessIsStrictOrder | include/MinHeapMap.h:15-17 | `<` is irreflexive and transitive; of two different keys exactly one is below the other |
| Keys.EqualKeysUnordered | include/MinHeapMap.h:11-21 | keys with equal components are neither `<` nor `>` each other; the default key is (0, 0) |
| Keys.LessEqIsTotalOrder | include/MinHeapMap.h:15-17 | "not after" is a total order compatible with `<`, the order the heap keeps |
| Heaps.Entries | src/MinHeapMap.cpp:40-42 | the abstract contents have exactly the indexed positions, one record per slot, each under its own position |
| Heaps.IndexOkNoDuplicates | src/MinHeapMap.cpp:36-43 | under the slot/index bijection no position occupies two slots |
| Heaps.SwapKeepsIndex | src/MinHeapMap.cpp:121-125 | swapping two slots and re-pointing both index entries keeps the bijection and the contents |
| Heaps.DropLastKeepsIndex | src/MinHeapMap.cpp:59-61 | dropping the last slot and its index entry removes exactly that position from the contents |
| Heaps.AppendKeepsIndex | src/MinHeapMap.cpp:40-41 | appending a record at a fresh position adds exactly that position |
| Heaps.RekeyKeepsIndex | src/MinHeapMap.cpp:73-74 | rewriting one slot's key keeps the bijection and changes only that entry's key |
| Heaps.RootIsMinimal | src/MinHeapMap.cpp:18-23 | in a heap-ordered sequence slot 0 holds a key not after any other |
| Heaps.SiftUpStep | src/MinHeapMap.cpp:92-94 | swapping a slot with a larger parent moves the only order fault up to the parent |
| Heaps.SiftDownStep | src/MinHeapMap.cpp:107-114 | swapping a slot with its smallest, smaller child moves the only order fault down to that child |
| Heaps.SiftDownDone | src/MinHeapMap.cpp:115-117 | when no child is below the faulty slot the sequence is heap-ordered |
| Heaps.SmallestOfIsLeast | src/MinHeapMap.cpp:103-110 | the chosen slot is i itself or a child of i with a smaller key, and no child of i has a key below it |
| Heaps.MinHeapMap.constructor | src/MinHeapMap.cpp:3 | a new heap is valid and empty |
| Heaps.MinHeapMap.FromNodes | src/MinHeapMap.cpp:5-8 | the vector constructor succeeds iff the records have distinct positions and then holds what inserting them in order gives; otherwise DuplicateNode |
| Heaps.InsertedAllHoldsEach | src/MinHeapMap.cpp:5-8 | inserting records with distinct positions keeps every one of them, each with its own key |
| Heaps.MinHeapMap.Count | src/MinHeapMap.cpp:10-12 | the count is the number of queued positions |
| Heaps.MinHeapMap.IsEmpty | src/MinHeapMap.cpp:14-16 | the heap is empty iff nothing is queued |
| Heaps.MinHeapMap.Contains | src/MinHeapMap.cpp:32-34 | contains holds iff the node's position is queued |
| Heaps.MinHeapMap.Top | src/MinHeapMap.cpp:18-23 | EmptyHeap iff nothing is queued; otherwise a queued node whose key is not after any queued key |
| Heaps.MinHeapMap.TopKey | src/MinHeapMap.cpp:25-30 | EmptyHeap iff nothing is queued; otherwise the key stored with the top node |
| Heaps.MinHeapMap.Swap | src/MinHeapMap.cpp:121-125 | the two slots trade records, both index entries point at their new slots, and the contents are unchanged |
| Heaps.MinHeapMap.SiftUp | src/MinHeapMap.cpp:88-99 | from a single fault at slot i0 sift-up leaves order broken at most below i0 and the contents unchanged |
| Heaps.MinHeapMap.SiftDown | src/MinHeapMap.cpp:101-119 | from a fault only below slot i0 sift-down restores heap order with the contents unchanged |
| Heaps.MinHeapMap.Resift | src/MinHeapMap.cpp:64-65 | sift-up then sift-down around a changed slot restores the heap invariant with the contents unchanged |
| Heaps.MinHeapMap.Insert | src/MinHeapMap.cpp:36-43 | DuplicateNode (and no change) iff the position is queued; otherwise exactly that record is added |
| Heaps.MinHeapMap.DropSlot | src/MinHeapMap.cpp:58-61 | the slot's position leaves the contents and order can only be broken at that slot |
| Heaps.MinHeapMap.Remove | src/MinHeapMap.cpp:54-67 | NodeNotFound iff not queued; the position is gone, every other record stays, and the count drops by one on success |
| Heaps.MinHeapMap.Pop | src/MinHeapMap.cpp:45-52 | returns what `top` returned (EmptyHeap when empty) and removes exactly that node, count down by one |
| Heaps.MinHeapMap.Update | src/MinHeapMap.cpp:69-77 | NodeNotFound (no change) iff not queued; otherwise only that record's key changes and membership is kept |
| Heaps.MinHeapMap.Reset | src/MinHeapMap.cpp:79-82 | the heap is valid and empty |
| Heaps.DrainStep | src/MinHeapMap.cpp:45-52 | appending the least queued key to drained sorted keys keeps them sorted and not above what is left |
| Heaps.PopAllKeys | tests/test_MinHeapMap.cpp:204-242 | popping until empty leaves the heap empty and yields every queued position exactly once, each with its own key, the keys in non-decreasing order |
| Heaps.DrainedStep | src/MinHeapMap.cpp:45-52 | popping one more position extends the popped positions and keys by that position and its key, and removes it from what is left |
| Grids.DirectionsAreSteps | include/Grid.h:17-21 | the direction table lists exactly the eight king's moves, each once |
| Grids.DiagonalCostBounds | include/Grid.h:23-24 | STRAIGHT_COST < DIAGONAL_COST < 2 * STRAIGHT_COST and DIAGONAL_COST squared is 2 to within 1e-4 |
| Grids.Grid.constructor | src/Grid.cpp:4-10 | after construction every cell (r, c) holds node (r, c), walkable |
| Grids.Grid.SetWalkable | src/Grid.cpp:12-17 | outside the bounds nothing changes; inside, only that cell's flag becomes the given value |
| Grids.Grid.IsWalkable | src/Grid.cpp:19-22 | false out of bounds, otherwise the stored flag, never the argument's |
| Grids.Grid.NeighborsFromMembers | src/Grid.cpp:29-35 | the scan lists a node iff it is a stored open cell at one of the scanned offsets |
| Grids.Grid.NeighborsFromDistinct | src/Grid.cpp:29-35 | distinct offsets give distinct listed positions |
| Grids.Grid.NeighborsSpec | src/Grid.cpp:24-38 | `getNeighbors(n)` lists exactly the open cells one king's move away, as stored, each once, never n itself |
| Grids.Grid.InteriorHasEight | tests/test_Grid.cpp:12-34 | on an open grid an interior cell has 8 neighbours |
| Grids.Grid.TopEdgeHasFive | tests/test_Grid.cpp:12-34 | on an open grid a non-corner top-row cell has 5 neighbours |
| Grids.Grid.CornerHasThree | tests/test_Grid.cpp:12-34 | on an open grid the top-left corner has 3 neighbours |
| Grids.Grid.AllBlockedHasNone | src/Grid.cpp:33-34 | when every adjacent cell is blocked there are no neighbours |
| Grids.Grid.AdjacentIsSymmetric | src/Grid.cpp:29-35 | between open cells adjacency is mutual |
| Grids.Grid.EdgeCost | src/Grid.cpp:40-56 | 0 exactly on the same cell; a finite cost between distinct cells needs both open and |dr| + |dc| <= 2; between distinct open cells with |dr| + |dc| <= 2 it is DIAGONAL_COST when |dr| = |dc| = 1 and STRAIGHT_COST otherwise |
| Grids.Grid.EdgeCostIsSymmetric | src/Grid.cpp:40-56 | the edge cost does not depend on the order of its endpoints |
| Grids.Grid.EdgeCostBlocked | src/Grid.cpp:46-47 | a blocked endpoint makes a step infinite |
| Grids.Grid.EdgeCostOfNeighbor | src/Grid.cpp:49-55 | a step to a listed neighbour costs DIAGONAL_COST when both coordinates change, STRAIGHT_COST otherwise |
| Grids.Grid.EdgeCostTwoApart | src/Grid.cpp:52-55 | two open cells two apart in the same row or the same column are not neighbours yet cost STRAIGHT_COST |
| Grids.Grid.Distance | src/Grid.cpp:58-67 | the heuristic is non-negative and 0 on the same cell |
| Grids.Grid.DistanceIsSymmetric | src/Grid.cpp:58-67 | the heuristic is symmetric and ignores walkable flags |
| DStar.Lookup | src/DStarLite.cpp:46-47 | a missing table entry reads as INF_COST |
| DStar.KeyFor | src/DStarLite.cpp:45-50 | k2 = min(g, rhs); k1 = k2 + h + km, infinite exactly when k2 is |
| DStar.KeyForGrowsWithKm | src/DStarLite.cpp:49 | a larger km never gives a smaller key |
| DStar.KeyForOrdersByEstimate | src/DStarLite.cpp:45-50 | at the same h and km, a smaller min(g, rhs) gives a strictly smaller key |
| DStar.Reframe | src/DStarLite.cpp:52-63 | changing tables and open list at one position unsettles no other position |
| DStar.SeededIsSettled | src/DStarLite.cpp:23-25 | after seeding, the open-list invariant holds everywhere |
| DStar.RelaxStep | src/DStarLite.cpp:94-98 | one relaxation extends "each offered entry took the smaller of its rhs and the offer" by one entry |
| DStar.ReviseStep | src/DStarLite.cpp:110-113 | one recheck extends "each matching entry took its recomputed rhs" by one entry |
| DStar.RekeyKeepsSettled | src/DStarLite.cpp:56-57 | rekeying a queued node keeps every position on or off the open list |
| DStar.DStarLite.EmptyOpenListIsConsistent | src/DStarLite.cpp:68 | with an empty open list every node is consistent |
| DStar.DStarLite.constructor | src/DStarLite.cpp:6-8 | a new engine has an empty open list and tables, km = 0, default nodes, and no search seeded |
| DStar.DStarLite.BestViaIsLeast | src/DStarLite.cpp:129-136 | the min-fold is no greater than its start and than any offer of a walkable neighbour with finite g, and is one of them |
| DStar.DStarLite.ComputeRhs | src/DStarLite.cpp:123-124 | rhs of the goal is 0 |
| DStar.DStarLite.ComputeRhsIsLeast | src/DStarLite.cpp:123-139 | away from the goal rhs is the least g(m) + c(node, m) over neighbours with finite g, or INF_COST |
| DStar.DStarLite.ComputeRhsWithoutSupport | src/DStarLite.cpp:127-138 | with no neighbour of finite g, rhs is INF_COST away from the goal |
| DStar.DStarLite.Requeue | src/DStarLite.cpp:56-57 | only the queued node's key changes, the update succeeds, and an inconsistent node becomes settled |
| DStar.DStarLite.Enqueue | src/DStarLite.cpp:58-59 | exactly the node is added with its key, the insert succeeds, and the node becomes settled |
| DStar.DStarLite.Dequeue | src/DStarLite.cpp:60-61 | exactly the node is removed, the remove succeeds, and a consistent finite node becomes settled |
| DStar.DStarLite.UpdateNode | src/DStarLite.cpp:52-63 | g != rhs: queued with calculateKey(node); g = rhs finite: absent; g = rhs = INF_COST: open list unchanged; the node is settled afterwards |
| DStar.DStarLite.QueueInconsistent | src/DStarLite.cpp:56-59 | an inconsistent node is rekeyed when queued and inserted otherwise, with calculateKey(node) |
| DStar.DStarLite.DropConsistent | src/DStarLite.cpp:60-62 | a consistent finite node leaves the open list, an infinite one stays as it was |
| DStar.DStarLite.Seed | src/DStarLite.cpp:14-25 | the open list holds exactly the goal with key (h(start, goal), 0); g = {goal: INF_COST}, rhs = {goal: 0}; km = 0; last unchanged |
| DStar.DStarLite.ResetTables | src/DStarLite.cpp:15-24 | the tables hold only g(goal) = INF_COST and rhs(goal) = 0; start, goal set and km = 0 |
| DStar.DStarLite.SetRhs | src/DStarLite.cpp:98 | one rhs entry changes and only that position can become unsettled |
| DStar.DStarLite.SetG | src/DStarLite.cpp:86 | one g entry changes and only that position can become unsettled |
| DStar.DStarLite.PopTop | src/DStarLite.cpp:87 | exactly the top node leaves the open list and the pop succeeds |
| DStar.DStarLite.MarkChanged | src/DStarLite.cpp:37-38 | the reported cell's rhs becomes computeRhs when open, INF_COST when blocked or outside; the invariant is kept |
| DStar.DStarLite.MarkAt | src/DStarLite.cpp:36-39 | one pass of the report loop writes the i-th reported cell's value and keeps the invariant |
| DStar.DStarLite.MarkAllChanged | src/DStarLite.cpp:36-39 | the rhs table is the old one overwritten at each reported cell in order (a later report wins) with its recomputed value |
| DStar.DStarLite.RemarkedIsOverwritten | src/DStarLite.cpp:36-39 | visiting the reported cells one by one equals overwriting them with the values read off beforehand |
| DStar.DStarLite.Relax | src/DStarLite.cpp:94-100 | the neighbour's rhs becomes the offer exactly when the offer is below it, otherwise nothing changes |
| DStar.DStarLite.RelaxNeighbors | src/DStarLite.cpp:89-101 | every neighbour's rhs becomes min(rhs, g(node) + c(node, m)) |
| DStar.DStarLite.RelaxedThroughMeans | src/DStarLite.cpp:91-101 | after relaxing, no rhs went up, each neighbour holds min(old rhs, offer), and positions off the list are unchanged |
| DStar.DStarLite.SettleHead | src/DStarLite.cpp:86-87 | g(node) becomes rhs(node) and node leaves the open list |
| DStar.DStarLite.Settle | src/DStarLite.cpp:85-101 | the over-consistent branch: g(node) = old rhs(node), then every neighbour relaxed through node |
| DStar.DStarLite.RecomputedAt | src/DStarLite.cpp:113 | the recomputed list holds computeRhs of each listed node |
| DStar.DStarLite.RevisedMeans | src/DStarLite.cpp:109-116 | after the recheck, a neighbour whose rhs matched oldG + c holds its recomputed rhs, the others and every position off the list keep theirs |
| DStar.DStarLite.Recheck | src/DStarLite.cpp:110-115 | the neighbour's rhs is recomputed exactly when it nearly equals the offer through the raised node |
| DStar.DStarLite.ReviseAt | src/DStarLite.cpp:109-116 | one pass of the recheck loop extends the revised prefix by one neighbour |
| DStar.DStarLite.ReviseNeighbors | src/DStarLite.cpp:107-118 | every neighbour is rechecked against oldG + c, then node's own entry is repaired, restoring the invariant |
| DStar.DStarLite.RequeueRaised | src/DStarLite.cpp:118 | node's open-list entry is repaired and what computeRhs gives is unchanged |
| DStar.DStarLite.Raise | src/DStarLite.cpp:103-105 | g(node) becomes INF_COST and node leaves the open list |
| DStar.DStarLite.RaiseAndRevise | src/DStarLite.cpp:102-119 | the under-consistent branch: g(node) = INF_COST, neighbours rechecked against the old g, invariant restored |
| DStar.DStarLite.RequeueTop | src/DStarLite.cpp:83-84 | the top node gets the new key in place, the cost tables are untouched and the invariant holds |
| DStar.DStarLite.ExpandCurrent | src/DStarLite.cpp:85-119 | with a current key: g > rhs settles node and relaxes its neighbours, g < rhs raises node and rechecks its neighbours against the old g, g = rhs changes nothing; the invariant holds |
| DStar.DStarLite.Expand | src/DStarLite.cpp:76-119 | one pass of the main loop: a stale key (oldKey < calculateKey) is replaced in place with g and rhs untouched; otherwise g > rhs settles (g := old rhs, neighbours relaxed), g < rhs raises (g := INF_COST, neighbours rechecked against the old g), g = rhs changes no table and not the open list; the invariant holds after each |
| DStar.DStarLite.ComputeShortestPath | src/DStarLite.cpp:65-121 | a return below the fuel bound means start is consistent and no queued key is below start's entry key |
| DStar.DStarLite.TopKeyBoundsAll | src/DStarLite.cpp:73-74 | when the least queued key is not below k, no queued key is |
| DStar.DStarLite.Pick | src/DStarLite.cpp:165-178 | the scan ends on its starting node or on a listed walkable node with finite g |
| DStar.DStarLite.NextOfIsNeighbor | src/DStarLite.cpp:162-178 | a move stays put or lands on an adjacent open neighbour with finite g |
| DStar.DStarLite.PickFromBlockedStays | src/DStarLite.cpp:170-176 | from a blocked cell every candidate costs INF_COST and the scan never moves |
| DStar.DStarLite.PickFromOpenMoves | src/DStarLite.cpp:170-176 | from an open cell a walkable neighbour with finite g always moves the scan |
| DStar.DStarLite.NextOfMovesIffSupported | src/DStarLite.cpp:162-178 | a blocked cell has no next step; an open one with a finite-g neighbour always has one |
| DStar.DStarLite.Scan | src/DStarLite.cpp:162-178 | the scan loop, costing each candidate from the latest choice, ends on NextOf(from) |
| DStar.DStarLite.GreedyWalkSteps | src/DStarLite.cpp:162-178 | each later path element is a neighbour of, and adjacent to, its predecessor |
| DStar.DStarLite.GreedyWalkUnique | src/DStarLite.cpp:141-185 | the path is determined by the tables: two walks from the same state are equal |
| DStar.DStarLite.WalkNeverRevisits | src/DStarLite.cpp:151-153 | before the last node, each move lands on a position not yet on the path |
| DStar.DStarLite.WalkStep | src/DStarLite.cpp:155-156 | recording a new, non-goal position extends the walk so far |
| DStar.DStarLite.VisitShrinks | src/DStarLite.cpp:152-155 | recording a new position adds exactly it to the visited set and shrinks the unvisited part of the grid |
| DStar.DStarLite.WalkStops | src/DStarLite.cpp:152-153 | stopping at a repeated position leaves a complete walk |
| DStar.DStarLite.WalkArrives | src/DStarLite.cpp:181-182 | reaching the goal and appending it leaves a complete walk |
| DStar.DStarLite.BuildPath | src/DStarLite.cpp:141-185 | empty iff g(start) = INF_COST; otherwise it starts at start, follows NextOf, repeats no position, and ends at the goal or where the next move would revisit |
| DStar.DStarLite.FindPath | src/DStarLite.cpp:10-29 | a blocked start or goal argument gives an empty path and no change; otherwise the search is seeded, run, and the path is a greedy walk |
| DStar.DStarLite.MoveAgent | src/DStarLite.cpp:32-34 | km grows by h(last, agent) and start = last = agent |
| DStar.DStarLite.NotifyEnvironmentChanges | src/DStarLite.cpp:31-43 | km grows by h(last, agent), start = last = agent, goal is kept, and the replanned path is a greedy walk |

## Left out

- Floating point: costs are reals with an explicit infinity. Rounding is not modelled. Only the infinity and NaN-comparison effects of `fabs(a - b) < EPSILON` and `==` on infinities are.
- `std::sqrt`: the grid takes a non-negative `sqrt` function at construction. `DIAGONAL_COST` is the decimal of the double nearest to the square root of 2.
- `IGraph` as an abstract interface: the engine is written over the concrete `Grid` class, the only implementation in the repository.
- `include/pathfinding/IGraph.h`: a stale alternate interface that nothing includes. It is not part of this model.
- `operator<<` printing of nodes: output only.
- `std::unordered_map` and `std::unordered_set` internals: tables and the visited set are maps and sets keyed by (row, col). The hash formula is modelled (`Hash`); its quality and collisions are not.
- 32-bit `int` overflow in row and column arithmetic: integers are unbounded.
- Grids.Grid.constructor: negative `rows` or `cols` are excluded by its precondition. In the source they are converted to `size_t` by `grid.resize(rows, ...)` and `std::vector<Node>(cols)` (src/Grid.cpp:4-5), which then ask for an impossible size and throw (`std::length_error` or `std::bad_alloc`); that failure is not modelled.
- The heap's internal slot order beyond heap order: the contents are specified as a map from position to record.
- DStar.DStarLite.ComputeShortestPath: termination of the main loop is not proved. A `fuel` bound caps the number of passes, and FindPath and NotifyEnvironmentChanges pass it through. A run that uses all its fuel promises only the invariant.
- DStar.DStarLite.ComputeShortestPath: global optimality of g(start), and equivalence of a replan with a fresh search, are not stated.
- DStar.DStarLite.NotifyEnvironmentChanges: it requires a prior `findPath`, a ghost `ready` flag, as the class comment demands. It also requires `last` to be in bounds, because the source indexes the grid with it unchecked. `findPath` never sets `last`, so it is the default node (0, 0) until the first replan.
- DStar.DStarLite.FindPath: it requires in-bounds start and goal when both are walkable, because the source indexes the grid with them unchecked.
- The concrete 5x5 expected paths of the engine's tests: they depend on ties between rounded square-root costs.
