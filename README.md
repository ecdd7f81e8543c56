# dungen in Dafny

A model of the integer core of `dungen`, a 2D dungeon generator written in Rust, with its
properties proved. The pipeline is modelled stage by stage, with one module per source file:

- **room placement** (`Rooms`, room.rs): rejection sampling of padded, non-overlapping rooms
  and the random choice of their doorways;
- **triangulation** (`Triangulation`, triangulation.rs): the combinatorial part of
  Bowyer-Watson over the doorway points;
- **corridor selection** (`Mst`, mst.rs): a union-find with path compression and union by
  rank, Kruskal's minimum spanning tree over edges stably sorted by squared length, and the
  choice of corridors among the edges;
- **carving search** (`AStar`, a_star.rs): A* over a flat row-major tile grid, with a
  three-way cost model and the rules that shape corridors;
- **priority queue** (`BinaryHeap`, binary_heap.rs): the 1-based binary min-heap the search
  uses.

Smaller modules:

- `Config` holds the run configuration and its validity check (lib.rs).
- `Mock` holds the scripted random sources the source's tests use (mock.rs).
- `Rng` says how a stage sees a random source.
- `Geometry` holds raylib's `Vector2` and `Rectangle` over integers.
- `Collections` holds `Vec::swap_remove` and slice `swap` on sequences.

Form follows the source:

- State the source changes in place is a class with `modifies` clauses: `Heap`, `DisjointSet`
  and `MockRng`.
- The in-place sort of `minimum_spanning_tree` works on an `array`.
- Every loop of the source is a `while` or `for` loop with invariants.
- Each such method is proved against a specification function: `SortByKey`, `Kruskal`,
  `Complement`, `CrossRoom`, `Reintroduce` and `PickedCorridors`, `DoorwayPoints`, `EdgesOf`.
  Lemmas then prove the source's promises about those functions.
- A random source is a function from (call number, low, high) to the answer, and a stage
  threads the number of calls made so far. `HonoursRanges` says the answer lies in
  `low..=high`. `ScriptedSource` is what a fresh `MockRng` presents.

## Model

| member | source | states |
|---|---|---|
| Config.IsValid | src/lib.rs:47-60 | `is_valid`: the conjunction of the twelve bounds; `EveryBoundMatters` shows each one is checked, and `ValidDensityRange` and `ValidCostsArePositive` give what the stages rely on |
| Config.Default | src/lib.rs:63-87 | the default configuration is valid (the source's own test), with doorway offset 2, density (1, 2) and cheapest cost 1 |
| Config.EveryBoundMatters | src/lib.rs:47-60 | each of the twelve bounds of `is_valid` is really checked: breaking any one of them in the default record makes it invalid (minimum room side 4, maximum below minimum, padding 2, offset 0, density (3, 2) and (0, 0), each cost 0, maze side 4, maze chance -0.1 and 1.5) |
| Config.ValidDensityRange | src/lib.rs:52-53 | a valid configuration has denominator at least 1 and numerator at most the denominator, so the draw `1..=den` is never empty |
| Config.ValidCostsArePositive | src/lib.rs:54-56 | in a valid configuration even the cheapest A* cost is at least 1 |
| Config.MinCost | src/a_star.rs:41-44 | the heuristic's rate is one of the three costs and at most each of them |
| Mock.MockMaxRng.RandomRange | src/mock.rs:1-6 | answers the inclusive upper bound |
| Mock.MockMinRng.RandomRange | src/mock.rs:8-13 | answers the lower bound |
| Mock.MinMaxHonourRanges | src/mock.rs:1-13 | both stateless mocks, as sources, keep every answer in the requested range |
| Mock.MockRng.constructor | src/mock.rs:20-23 | keeps `numbers` unchanged and starts at index 0 |
| Mock.MockRng.RandomRange | src/mock.rs:25-31 | answers `numbers[index]` whatever range is asked; the index becomes `(index + 1) % len` and stays below `len` |
| Mock.Cursor | src/mock.rs:28-29 | the index of a fresh mock after any number of calls is below the list length |
| Mock.CursorFirstRound | src/mock.rs:28-29 | during the first pass over the list the index equals the number of calls made |
| Mock.CursorPeriodic | src/mock.rs:28-29 | after `len` more calls the index is where it was |
| Mock.ScriptRepeats | src/mock.rs:25-31 | the scripted source answers `numbers[call]` in the first round and repeats with period `len` |
| Mock.Replay | src/mock.rs:20-31 | `k` calls on a fresh mock, with any range, answer the first `k` answers of `ScriptedSource` and leave the index at `Cursor(len, k)` |
| Mock.ScriptedAnswers | src/mock.rs:20-31 | a mock over `[1, 2]` answers 1, 2, 1 to three calls with unrelated ranges |
| Collections.SwapRemove | src/triangulation.rs:106-108 | `Vec::swap_remove(i)`: one element shorter, loses exactly `s[i]` from the multiset, keeps the prefix, and puts the last element at `i` |
| Collections.Swap | src/binary_heap.rs:76-79 | slice `swap`: the two positions exchange values, all others keep theirs, the multiset is unchanged |
| BinaryHeap.Heap.WithCapacity | src/binary_heap.rs:15-23 | a valid, empty heap with only the dummy slot: `len == 0`, `keys == aux == [0]`, no stored pairs |
| BinaryHeap.Heap.Min | src/binary_heap.rs:26-32 | `None` exactly when `len == 0`; otherwise the pair at slot 1, which is stored and has a key no larger than any stored key; the heap is unchanged |
| BinaryHeap.Heap.MinimumOfContents | src/binary_heap.rs:26-32 | in a valid non-empty heap the root pair is stored and has the least key |
| BinaryHeap.RootIsMinimum | src/binary_heap.rs:35-74 | in a heap-ordered prefix the key at slot 1 is at most every key at slots `1..=len` |
| BinaryHeap.Heap.Swap | src/binary_heap.rs:76-79 | exchanges the keys and the payloads of the two slots together, so every key keeps its payload |
| BinaryHeap.SwapKeepsStored | src/binary_heap.rs:76-79 | swapping two slots leaves the multiset of stored pairs unchanged |
| BinaryHeap.Heap.Ascend | src/binary_heap.rs:35-47 | given order everywhere except above `index`, sifting up restores heap order and keeps the stored pairs and the dummy slot |
| BinaryHeap.SiftUpStep | src/binary_heap.rs:38-45 | one swap with a larger parent moves the one disorder up to the parent |
| BinaryHeap.Heap.Descend | src/binary_heap.rs:50-74 | given order everywhere except below `index`, sifting down restores heap order and keeps the stored pairs and the dummy slot |
| BinaryHeap.DescendStep | src/binary_heap.rs:56-72 | one swap with the smaller child moves the one disorder down to that child |
| BinaryHeap.SettledIsOrdered | src/binary_heap.rs:66-68 | when the key is at most its smaller child, the whole heap is ordered |
| BinaryHeap.LeafIsOrdered | src/binary_heap.rs:55 | a slot without children cannot be out of order, so the heap is ordered |
| BinaryHeap.Heap.Insert | src/binary_heap.rs:82-88 | keeps the heap valid, adds one to `len` and adds exactly the pair `(key, aux)` |
| BinaryHeap.PushAddsStored | src/binary_heap.rs:83-85 | pushing a key and a payload adds exactly that pair to the stored multiset |
| BinaryHeap.Heap.ExtractMin | src/binary_heap.rs:91-105 | on an empty heap `None` and nothing changes; otherwise a stored pair of least key, removed exactly once, with `len` one less; the heap stays valid |
| BinaryHeap.SwapRemoveRootStored | src/binary_heap.rs:96-99 | `swap_remove(1)` on both vectors removes exactly the root pair |
| BinaryHeap.ExtractKeepsOrderBelow | src/binary_heap.rs:98-100 | after `swap_remove(1)` the heap is ordered everywhere except below slot 1 |
| BinaryHeap.Heap.IsEmpty | src/binary_heap.rs:107-109 | true exactly when `len == 0`, and exactly when nothing is stored |
| BinaryHeap.Heap.Clear | src/binary_heap.rs:111-115 | leaves a valid empty heap holding only the dummy slot |
| BinaryHeap.InsertionAndMin | src/binary_heap.rs:122-145 | after inserting 2, 1, 0 the minimum is `(0, 0)` and `len` is 3; after `clear` the heap is empty, and after inserting 0, 1, 2 the minimum is `(0, 0)` again |
| BinaryHeap.InsertionAndExtractMin | src/binary_heap.rs:147-160 | after inserting 2, 0, 1 the first extraction gives `(0, 0)` and leaves `len` 2; two more extractions empty the heap |
| Mst.DisjointSet.constructor | src/mst.rs:14-19 | every entity is its own parent with rank 0, so each is its own root |
| Mst.Root | src/mst.rs:24-30 | the root an entity reaches is a root (`parent[r] == r`), and it is the entity itself or has a higher rank |
| Mst.DisjointSet.FindSet | src/mst.rs:24-30 | returns the root the entity reaches; afterwards `parent[entity]` is that root, and no entity's root has changed |
| Mst.CompressKeepsRoots | src/mst.rs:28 | pointing one entity straight at its root keeps the rank order and every entity's root |
| Mst.DisjointSet.UnionSets | src/mst.rs:33-46 | afterwards `a` and `b` have the same root, and every other root is unchanged unless its set was merged; already joined, the ranks are unchanged; otherwise the lower-rank root is attached under the other, and its rank rises only when the ranks were equal |
| Mst.LinkRoots | src/mst.rs:39-45 | attaching root `b` under root `a` keeps the rank order and moves exactly the entities of `b`'s set to root `a` |
| Mst.LinkMerged | src/mst.rs:33-46 | the winner and loser `union_sets` picks are the two distinct roots of `a` and `b`, and linking them merges exactly those two sets |
| Mst.UnionRelabels | src/mst.rs:33-46 | after a union the partition is the old one with `b`'s class relabelled to `a`'s |
| Mst.FindKeepsPartition | src/mst.rs:24-30 | path compression keeps the partition |
| Mst.UnionTracked | src/mst.rs:33-46 | a union, seen as classes: the ghost labelling is relabelled as two classes merging |
| Mst.TestSetsRoots | src/mst.rs:154-194 | in the set-unification fixture, 0, 1 and 2 share a root, 3 to 6 share a root, and the roots of the three sets differ |
| Mst.NewDisjointSet | src/mst.rs:139-152 | in a fresh set of five, each entity is its own root |
| Mst.SetUnification | src/mst.rs:154-194 | the unions of the fixture put the members of each set together and keep the three sets apart |
| Mst.SortEdges | src/mst.rs:54-56 | sorting the array in place leaves the values of `SortByKey` on the old contents |
| Mst.InsertLast | src/mst.rs:54-56 | one step of the in-place sort: the first `i + 1` slots become the stable insertion of slot `i` into the sorted prefix; later slots are untouched |
| Mst.SortIsPermutation | src/mst.rs:54-56 | the sort keeps the multiset of edges |
| Mst.SortIsSorted | src/mst.rs:54-56 | the sorted edges have non-decreasing squared doorway distance |
| Mst.SortIsStable | src/mst.rs:54-56 | for each key, the edges with that key keep their relative order, as `sort_by_key` promises |
| Mst.Kruskal | src/mst.rs:59-65 | the chosen edge indices lie among the edges and are strictly increasing |
| Mst.KruskalCount | src/mst.rs:59-65 | fewer edges are chosen than there are components at the start |
| Mst.TreeSize | src/mst.rs:51-68 | the tree over `n` doorways, starting from singletons, has at most `n - 1` edges (none when `n` is 0) |
| Mst.KruskalSpans | src/mst.rs:59-65 | after the loop both ends of every edge are in the same component |
| Mst.KruskalKeepsTogether | src/mst.rs:59-65 | entities joined before an edge is processed stay joined |
| Mst.KruskalStep | src/mst.rs:60-64 | an edge is chosen exactly when its ends were in different components, and choosing it merges them |
| Mst.JoinIfApart | src/mst.rs:60-64 | the two `find_set` calls and the `union_sets`: joins exactly when the ends were apart, and tracks the merge in the labelling |
| Mst.MinimumSpanningTree | src/mst.rs:51-68 | leaves `edges` sorted as `SortByKey` gives and returns exactly `Kruskal` over the sorted edges |
| Mst.KruskalLoop | src/mst.rs:58-67 | the loop over the sorted edges returns exactly `Kruskal` |
| Mst.CorrectMinimumSpanningTree | src/mst.rs:203-235 | for the right triangle, from either input order, the tree is `[0, 1]` and the sorted edges are `[(0, 2), (0, 1), (1, 2)]` |
| Mst.Complement | src/mst.rs:87-95 | the residual indices are exactly the indices below the edge count that are not in the tree, strictly increasing |
| Mst.ResidualEdges | src/mst.rs:87-95 | the cursor loop yields exactly `Complement`; with tree indices below the count, each index is in exactly one of the two lists |
| Mst.CrossRoom | src/mst.rs:102-107 | every kept tree edge is an edge joining doorways of different rooms |
| Mst.CrossRoomMembers | src/mst.rs:102-107 | an edge is kept exactly when some listed index names it and it joins different rooms |
| Mst.TreeCorridors | src/mst.rs:101-107 | the loop over the tree yields exactly `CrossRoom` |
| Mst.Reintroduce | src/mst.rs:115-124 | one draw per cross-room residual edge, none for the others; every reintroduced edge is a cross-room residual edge |
| Mst.ReintroduceNone | src/mst.rs:120-123 | when every draw exceeds the numerator, nothing is reintroduced |
| Mst.ReintroduceAll | src/mst.rs:120-123 | when every draw is at most the numerator, every cross-room residual edge is reintroduced |
| Mst.ReintroduceEdges | src/mst.rs:115-124 | the loop over the residual edges appends exactly `Reintroduce` and makes its number of draws; a density denominator of 0 is accepted only when no residual edge joins two rooms, because the draw from `1..=0` panics |
| Mst.PickedCorridors | src/mst.rs:72-131 | every picked corridor is an input edge joining doorways of different rooms |
| Mst.PickCorridors | src/mst.rs:72-131 | returns the rooms and doorways unchanged and exactly the corridors of `PickedCorridors`; a density denominator of 0 is accepted only when no draw is made, because the draw from `1..=0` panics |
| Mst.OneRoomNoCorridors | src/mst.rs:237-261 | when all doorways belong to one room, no corridor is picked |
| Mst.PickTreeOnly | src/mst.rs:115-124 | with density `(0, d)` and a source that keeps to its ranges, the corridors are exactly the cross-room tree edges |
| Mst.PickEverything | src/mst.rs:72-131 | with density `(d, d)`, the corridors are exactly the cross-room edges |
| Mst.CorridorsBelongToDifferentRooms | src/mst.rs:237-261 | the single-room square gives no corridors |
| Mst.OnlyMinimumSpanningTreeCorridors | src/mst.rs:263-293 | the four-room square with density (0, 1) gives exactly three corridors, among them (0, 2), (0, 1) and (1, 3) |
| Mst.AllValidCorridors | src/mst.rs:295-319 | the four-room square with density (1, 1) gives all five edges |
| AStar.Diff | src/a_star.rs:6-8 | the result is the distance between the two numbers: adding it to one gives the other |
| AStar.DiffSymmetric | src/a_star.rs:6-8 | `diff` is symmetric and zero exactly on equal arguments |
| AStar.UnsignedIntDifference | src/a_star.rs:127-131 | `diff(1, 2) == diff(2, 1) == 1` |
| AStar.Manhattan | src/a_star.rs:11-13 | `manhattan`: the grid distance between two cells; `ManhattanOfCoordinates` proves it is the row distance plus the column distance |
| AStar.ManhattanOfCoordinates | src/a_star.rs:11-13 | for cells given by row and column, `manhattan` is the row distance plus the column distance |
| AStar.ManhattanIsCorrect | src/a_star.rs:133-145 | the source's example: from row 3, column 4 to row 8, column 1 on a width of 10 is 8 - 3 + 4 - 1 |
| AStar.MakeSquare | src/a_star.rs:15-18 | `make_square`: the sorted cells are the corners of a 2x2 block; `MakeSquareIsBlock` proves it holds exactly when the four cells form one block |
| AStar.SortNodesSorts | src/a_star.rs:16 | the local sort of `make_square` keeps the four cells and puts them in ascending order |
| AStar.MakeSquareIsBlock | src/a_star.rs:15-18 | `make_square` holds exactly when the four cells are, in some order, the cells of one 2x2 block |
| AStar.CornersIsBlock | src/a_star.rs:17 | four ascending cells pass the corner test exactly when they make up a 2x2 block |
| AStar.MakeSquareNeedsFourCells | src/a_star.rs:15-18 | with rows of at least two cells, `make_square` is false whenever two of the cells coincide |
| AStar.StepCost | src/a_star.rs:102-108 | the step costs one of the three configured costs, never less than the heuristic's rate |
| AStar.FirstStepTurns | src/a_star.rs:104-107 | out of the start (its own parent), a step onto a non-corridor tile costs `standard_cost` |
| AStar.HeuristicConsistent | src/a_star.rs:24-26 | the scaled Manhattan estimate drops by at most the cost of any step, and is zero at `end` |
| AStar.Initialise | src/a_star.rs:47-58 | the heap holds only the start with its estimate; every score is "unreached" except 0 at the start; every cell is its own parent; the path is empty |
| AStar.InitialTree | src/a_star.rs:47-58 | the initial state is a search tree and its single heap entry is admissible |
| AStar.Relax | src/a_star.rs:82-116 | skips `Blocker` and `Room`, a `CorridorNeighbor` to `CorridorNeighbor` move and a move completing a 2x2 block; otherwise, when the score through `current` is lower, gives `neighbor` that score, the parent `current`, and one heap entry with its estimate; in every other case changes nothing. No score rises, and the search tree and the heap entries stay admissible |
| AStar.Improve | src/a_star.rs:110-116 | sets the score and parent of `neighbor` and pushes it with score plus estimate; the tree and entries stay admissible |
| AStar.ImproveKeepsTree | src/a_star.rs:110-113 | re-parenting a passable neighbour reached by an allowed move at a lower score keeps the search tree |
| AStar.Expand | src/a_star.rs:76-117 | relaxing the four neighbours keeps the search tree and the heap entries admissible; no score rises and `current` keeps its parent |
| AStar.Backtrack | src/a_star.rs:66-72 | the path starts at `end`, ends at the start, and each next cell is the parent of the previous one: next door, onto a passable tile by an allowed move, at a strictly lower score |
| AStar.AStar | src/a_star.rs:28-119 | afterwards the heap is valid and `parent` is a search tree rooted at the start; the path is empty or runs from `end` back to `start` along the parent links |
| AStar.NoPath | src/a_star.rs:179-207 | the disconnected fixture yields no path |
| AStar.NoPathChain | src/a_star.rs:179-207 | in that fixture no parent chain from the end reaches the start |
| AStar.GridEdgeShouldBeUnreachable | src/a_star.rs:151-177 | the fixture the source expects to panic lacks the `Blocker` border the search requires, so it is outside the model's precondition |
| Triangulation.MakeEdge | src/triangulation.rs:21-23 | the edge's ends are the two arguments, smaller first |
| Triangulation.MakeEdgeSymmetric | src/triangulation.rs:21-23 | `make_edge(a, b) == make_edge(b, a)` |
| Triangulation.CollectPoints | src/triangulation.rs:28-37 | the points are exactly `DoorwayPoints`: each room's used doorway slots in order, tagged with the room's index |
| Triangulation.DoorwayPointsAt | src/triangulation.rs:30-37 | the point for slot `i` of room `k` sits after all slots of the earlier rooms and is `(k, doorways[i])` |
| Triangulation.BadTriangles | src/triangulation.rs:67-80 | the bad indices are strictly increasing, in range, and are exactly the triangles whose circumcircle contains the point |
| Triangulation.Toggle | src/triangulation.rs:88-94 | the closure inserts the edge when absent and removes it when present, touching no other edge |
| Triangulation.Boundary | src/triangulation.rs:83-100 | the polygon holds exactly the edges that occur an odd number of times among the bad triangles' edges |
| Triangulation.RemoveBad | src/triangulation.rs:102-108 | reverse-order `swap_remove` removes exactly the bad triangles and keeps all the others |
| Triangulation.RemoveStep | src/triangulation.rs:106-108 | one `swap_remove` of a larger index leaves the lower indices, and the triangles at them, in place |
| Triangulation.Fan | src/triangulation.rs:110-113 | keeps the remaining triangles and adds one triangle `(e.0, e.1, point_index)` for every polygon edge |
| Triangulation.InsertPoint | src/triangulation.rs:67-113 | one insertion step: the bad triangles are exactly those whose circumcircle holds the point, the others are kept, and one new triangle joins the point to each edge that occurs an odd number of times among the bad triangles' edges, and there is exactly one such triangle per edge; every vertex stays a point index |
| Triangulation.RemoveSuper | src/triangulation.rs:116-129 | afterwards no triangle has a super point, and every triangle without one is kept as often as before |
| Triangulation.EdgeSet | src/triangulation.rs:138-143 | the set holds exactly the normalised edges of the final triangles |
| Triangulation.Enumerate | src/triangulation.rs:147 | draining the set lists its edges once each, in some order |
| Triangulation.Triangulate | src/triangulation.rs:27-149 | the points are the doorway points, the three super points popped; the edges are those of the final triangles, once each, smaller end first, both ends below `points.len()` |
| Rooms.Padded | src/room.rs:30-35 | padding grows width and height by `MIN_PADDING` and leaves the corner where it is |
| Rooms.OverlapWithPadding | src/room.rs:29-37 | `overlap_with_padding`: the padded rectangles collide; `OverlapMeansClose` proves this means closer than `MIN_PADDING` along both axes |
| Rooms.OverlapMeansClose | src/room.rs:29-37 | the padded test holds exactly when the rectangles are closer than `MIN_PADDING` (beyond touching) along both axes |
| Rooms.OverlapSymmetric | src/room.rs:29-37 | the test does not depend on which rectangle comes first |
| Rooms.CollisionImpliesOverlap | src/room.rs:29-37 | rectangles that collide unpadded also collide padded |
| Rooms.SidesAreSetBits | src/room.rs:47-74 | the sides that get doorways are exactly the set bits of the mask among E, N, W, S, in that order |
| Rooms.SidesOfMask | src/room.rs:43 | a mask in `1..=15` gives between one and four doorways |
| Rooms.GenerateDoorways | src/room.rs:40-77 | one mask draw, then one offset draw per set bit; `doorway_count` is the number of set bits; slots `0..count` hold the doorways of those sides in E, N, W, S order; the other slots stay zero |
| Rooms.DoorwayCount | src/room.rs:43 | with a source that keeps to its ranges, a room gets between one and four doorways |
| Rooms.DoorwayPlacement | src/room.rs:47-74 | east doorways have `x == rect.x + rect.width` and north doorways `y == rect.y`, at an offset in `DOORWAY_OFFSET..=side - DOORWAY_OFFSET` from the corner; west and south doorways get the same offsets from the grid origin |
| Rooms.WestAndSouthDoorwaysMissTheRoom | src/room.rs:61-74 | for the room at (10, 10) of size 5 by 5, the west and south doorways land at (0, 2) and (2, 5), off the room |
| Rooms.IntendedDoorwayOnOutline | src/room.rs:47-74 | placed relative to the corner, as the east and north branches do, a doorway drawn from its side's offset range lies on that side's edge between its corners |
| Rooms.Min | src/room.rs:112-114 | `usize::min`: at most both arguments and equal to one of them |
| Rooms.GenerateRooms | src/room.rs:80-136 | at most the target rooms, the target defaulting to `grid.x * grid.y`; every room has its corner in `0..=grid - 5 - 3` and its sides in `5..=min(grid - corner - 3, 50)`, with one to four doorways, and no two overlap once padded; the loop stops with the target met or after `MAX_FAIL_COUNT` failures in a row |

## Left out

- Rendering, the UI binaries, the worker thread, `maze.rs` and `grid.rs`'s `make_grid` stub are not part of this model; only the `Tile` enum of grid.rs is used.
- `point_in_circumcircle` is `f32` arithmetic from vec.rs and is not part of this model. It is the parameter `inCircle` of `Triangulate`.
- Positions are integers rather than `f32`. The MST key `length_sqr() as usize` is the exact `dx² + dy²` of integer cells.
- All integers are unbounded. `usize` overflow and the underflow of `usize` subtractions are not modelled; where the source would panic, a precondition or a source that keeps to its ranges excludes it. For `pick_corridors` that precondition is on `Mst.PickCorridors` and `Mst.ReintroduceEdges`: a density denominator of at least 1, or no draw at all.
- `maze_chance` is a `real`, not an `f32`.
- `std::ops::RangeInclusive` and `rand` are replaced by the `Source` function and a call counter, so the number of draws each stage makes is explicit.
- Iteration order of `HashSet` is left open: `Enumerate` may list the set in any order, and `Fan` pushes one triangle per polygon edge in that order.
- Triangulate: the ghost `triangles` its contract names is the final triangle list the body computes. The contract does not restate the insertion steps; `InsertPoint` carries those.
- Triangulate also omits the Delaunay property itself, which depends on the floating-point circumcircle test.
- AStar.AStar: the fixture path lengths 9, 13 and 13 (src/a_star.rs:209-302) are not proved. They depend on the search returning a cheapest path, and the contract states soundness of the path, not optimality.
- AStar.AStar: termination is proved by the sum of the scores and the heap size. That sum relies on every cost being at least 1, a precondition taken from `is_valid`.
- AStar.AStar: requires `Bordered` (a ring of `Blocker` tiles around the grid) and a start off that ring. The source has no bound checks. It reads the four neighbours `current ± 1` and `current ± width` of every cell it expands (src/a_star.rs:75-81). The requires is a sufficient condition, broader than where the source fails:
  - A start in column 0 or column `width - 1`, on any row but the top and bottom ones, has all four neighbours in range. The search then runs normally.
  - An outline of `Room` tiles is skipped like `Blocker` (src/a_star.rs:83), so the search never reads past the edge. Yet such a grid fails `Bordered`.
  - The source fails only in two cases. One is when it expands a passable outline cell, as in the `grid_edge` fixture. The other is a start on the top or bottom row, where `current - width` underflows or `current + width` is out of range.
- AStar.AStar: `usize::MAX / 2` is the constant `Unreached` (2^63 - 1, for 64-bit `usize`).
- The grids of the A* tests are built directly as tile sequences. `Grid::from` and `to_index` are not part of this model.
- AStar.Expand: the 2x2 rule (`make_square` over the two last parents) is checked when a step is relaxed. It is not carried as an invariant of the search tree, so `Backtrack`'s contract does not state that the path has no 2x2 block.
- Rooms.GenerateDoorways: requires both sides to be at least `2 * DOORWAY_OFFSET` (4). This is broader than where the source fails, in three ways.
  - For sides 2 and 3, `side - DOORWAY_OFFSET` gives the empty range `2..=0` or `2..=1`, and `random_range` panics on it.
  - For sides 0 and 1, the `usize` subtraction underflows. That panics only with overflow checks on; a release build wraps and draws from a huge range.
  - Either failure happens only when that side's mask bit is set. A short side whose bit is clear is never drawn against.
  Every call from `generate_rooms` meets the requires, because `Placed` gives both sides at least 5.
- Rooms.GenerateRooms: the grid must leave room for one minimal padded room, because the source's range `0..=grid - 5 - 3` underflows otherwise.
- Mock.MockRng.RandomRange: an empty `numbers` list makes the source panic on indexing. That case is a precondition.

## Findings

| source | as written | input that shows it | evidently intended | confidence | as-written member | corrected member |
|---|---|---|---|---|---|---|
| src/room.rs:61-74 | the west doorway is `vec2(0, offset)` and the south doorway `vec2(offset, height)`, without the room's corner; the east and north branches add `corner` | the room at (10, 10) of size 5 by 5 with offset 2: the west doorway is (0, 2) and the south doorway is (2, 5), neither on the room | `corner + vec2(0, offset)` and `corner + vec2(offset, height)`, so that every doorway lies on its room's edge | not executed | Rooms.WestAndSouthDoorwaysMissTheRoom | Rooms.IntendedDoorwayOnOutline |

`GenerateDoorways` reproduces the source's placement as written, so the later stages see the
doorways the program actually produces. `IntendedDoorwayAt` is the corrected placement, and
`IntendedDoorwayOnOutline` proves that its doorways lie on the room's outline.

Two details of the doorway code that the model keeps as written: each offset is drawn from
`DOORWAY_OFFSET..=side - DOORWAY_OFFSET`, upper bound included (src/room.rs:50), and the slots
are filled in the order east, north, west, south (src/room.rs:47-74).
