# A*/Theta* grid search engine in Dafny

This project models the grid-search core of the AStar-JPS-ThetaStar planner and proves properties of it:

- the immutable occupancy grid `pure_theta_star::GridMap` (map_types.h) and the legacy `Map` (src/map.cpp);
- the search engine `ISearch` (isearch.h, isearch.cpp):
  - a row-bucketed open list with its `openSize` counter;
  - a closed set keyed by cell;
  - `addOpen`, `findMin`, `findSuccessors` and the expansion loop of `startSearch`;
  - the two path-building stages `makePrimaryPath` (the parent chain) and `makeSecondaryPath` (Bresenham rasterisation of each waypoint leg);
- the any-angle extension `Theta` (theta.cpp): the Bresenham `lineOfSight` test and `resetParent`.

Files and modules:

- `wrappers.dfy` (`Wrappers`): `Option` and `Result`.
- `grid_map.dfy` (`GridMaps`): `GridMap` as a datatype. Its constructor is a function that returns the map or the exception it would throw.
- `legacy_map.dfy` (`LegacyMaps`): the legacy `Map` as a class over an `array2`.
- `bresenham.dfy` (`Bresenham`): the integer walk shared by `makeSecondaryPath` and `lineOfSight`, with the error term in closed form.
- `nodes.dfy` (`Nodes`): search nodes, and parent chains through the arena of closed nodes. Also the waypoint and cell paths that `makePrimaryPath` and `makeSecondaryPath` must produce.
- `open_list.dfy` (`OpenLists`): one bucket of the open list. Contents:
  - the bucket order;
  - `AddToRow`, the specification of `addOpen` on a bucket;
  - `BestIndex`, the specification of `findMin`;
  - the scans `addOpen` performs.
- `theta.dfy` (`Theta`):
  - `Visible`, the specification of `lineOfSight`;
  - the loop-based `LineOfSight` proved equal to it;
  - `ResetParent`.
- `isearch.dfy` (`ISearch`): the engine as class `Search`. Its fields `open`, `openSize`, `close`, `closed`, `hppath` and `lppath` are updated in place by its methods.

The `Node*` parent pointer into the closed `unordered_map` is modelled as an index into `closed`. `closed` is an arena holding the closed nodes in the order they were closed. `close` maps each closed cell to its index there.

The engine's invariant `Search.Valid` says:

- one bucket per grid row;
- each bucket is sorted under the tie-break policy and holds at most one node per cell;
- `openSize` is the number of open nodes;
- no open cell is closed;
- `close` indexes `closed`, which holds every cell at most once and on the grid;
- parents were closed before their children;
- only nodes on the start cell lack a parent.

Every method keeps this invariant. The expansion loop terminates because each pass closes a new cell of the finite grid.

The stale-entry fallback of `startSearch` (isearch.cpp:76-84) is never taken. `MoveToClosed` proves that the node `findMin` returns is always found in its bucket and is never already closed.

## Model

| member | source | states |
|---|---|---|
| GridMaps.NewGridMap | map_types.h:29-56 | On success the map holds the data and arguments unchanged, height = rows, width = row-0 length, and start and goal are on the grid and free. Failures are reported in the source's order: start off grid, goal off grid, start on an obstacle, goal on an obstacle. Each failure happens exactly under its condition. |
| GridMaps.GridMap.CellIsObstacle | map_types.h:76-81 | Fails (out_of_range) exactly off the grid; on the grid it is true exactly when the value is 100. |
| GridMaps.GridMap.CellOnGrid | map_types.h:64-66 | On a shaped map, a cell is on the grid exactly when the data can be indexed at it. |
| GridMaps.EmptyGridRejected | map_types.h:35-47 | Empty data gives a 0x0 grid, so construction fails with the start off the grid. |
| LegacyMaps.Map.constructor | src/map.cpp:3-13 | Height, width, start and goal are all -1, there is no grid, and the cell size is 1. |
| LegacyMaps.Map.CellOnGrid | src/map.cpp:34-37 | On a valid map, every cell on the grid indexes the stored array. |
| LegacyMaps.Map.CellIsObstacle | src/map.cpp:24-32 | Exactly the negation of `CellIsTraversable`: any value other than CN_GC_NOOBS (0) is an obstacle. |
| LegacyMaps.Map.CellIsTraversable | src/map.cpp:24-27 | On a valid map, a cell is traversable exactly when `getValue` returns CN_GC_NOOBS (0) for it. |
| LegacyMaps.Map.GetValue | src/map.cpp:78-87 | -1 for every cell off the grid, the stored value for every cell on it. |
| LegacyMaps.Map.GetMap | src/map.cpp:39-76 | Empty map or empty first row: false, nothing changes. Otherwise: height and width from the rows; every value copied verbatim, so `GetValue` returns rows[i][j] on the grid and -1 off it; start and goal stored with x/y swapped; cell size set. Result true exactly when both endpoint cells hold 0. |
| LegacyMaps.Map.CopyRows | src/map.cpp:49-55 | The nested copy loops produce a fresh height x width grid holding rows[i][j] at (i, j). |
| LegacyMaps.ValueMatchesQueries | src/map.cpp:24-32 | On the grid, the stored value is 0 exactly when the cell is traversable, and non-zero exactly when it is an obstacle. |
| Bresenham.WalkBounds | isearch.cpp:259-271 | The error term equals 2*dm*(k+1) - dM*(2*minor+1) and stays in [2dm-2dM, 2dm); the minor coordinate never passes the step count. |
| Bresenham.WalkEnd | isearch.cpp:259-271 | After dM major steps the minor coordinate has moved exactly dm. |
| Bresenham.CellAtStep | isearch.cpp:261-267 | One loop step: the major coordinate moves one unit toward the end, and the minor one moves too exactly when the error is non-negative. |
| Bresenham.CellAtInBox | theta.cpp:23-111 | Every cell of the walk lies in the bounding box of the two endpoints. |
| Bresenham.CellAtEnd | isearch.cpp:259-286 | The walk reaches the second endpoint after exactly max(\|di\|, \|dj\|) steps. |
| Bresenham.CellAtAdjacent | isearch.cpp:259-286 | Consecutive cells of the walk are distinct and 8-adjacent. |
| Bresenham.SegmentShape | isearch.cpp:246-286 | A non-degenerate segment has max(\|di\|, \|dj\|) cells, starts next to the first endpoint, ends on the second, and each cell is 8-adjacent to the one before it. |
| Nodes.ChainShape | isearch.cpp:211-220 | The waypoint path starts with a node without parent and ends with the given node. Every node is in the closed arena. Each node's parent is the node before it. |
| Nodes.ChainEndpoints | isearch.cpp:121-126 | The goal's waypoint path and its cell path both start on the start cell and end on the goal's cell, and the cell path is 8-connected. |
| Nodes.LegShape | isearch.cpp:240-286 | A repeated waypoint adds no cells. Otherwise a leg has max(\|di\|, \|dj\|) cells, starts next to the previous waypoint, ends on the next one, and is 8-connected. |
| Nodes.CellPathSnoc | isearch.cpp:232-289 | One more waypoint appends exactly its leg to the cell path. |
| Nodes.CellPathShape | isearch.cpp:222-290 | The cell path starts with the first waypoint, ends on the last waypoint's cell, has 1 + the sum of the leg lengths entries, and is 8-connected. |
| OpenLists.FindColumn | isearch.cpp:308-319 | The index of the first entry in the column, or the bucket length when there is none. |
| OpenLists.InsertPos | isearch.cpp:322-335 | The first index whose entry the new node goes before (smaller F; on equal F, g >= under GMAX or g < under GMIN), or the bucket length. |
| OpenLists.ColumnIndex | isearch.cpp:308-319 | The column scan of `addOpen` returns FindColumn. |
| OpenLists.InsertIndex | isearch.cpp:322-335 | The insertion scan of `addOpen`, with its three `break`s, returns InsertPos. |
| OpenLists.InsertAt | isearch.cpp:322-336 | `Insert` puts the node exactly at InsertPos between the unchanged prefix and suffix. |
| OpenLists.InsertEntries | isearch.cpp:336 | After insertion, entries before InsertPos are unchanged, the node sits at InsertPos, and later entries shift by one. |
| OpenLists.InsertMembers | isearch.cpp:336 | Insertion adds the node and keeps every other entry. |
| OpenLists.InsertSorted | isearch.cpp:321-336 | Inserting at InsertPos keeps a sorted bucket sorted, grows it by one, and adds exactly the node. |
| OpenLists.UniqueAfterInsert | isearch.cpp:305-336 | Inserting a node whose column is absent keeps one entry per column. |
| OpenLists.RemoveAtKeeps | isearch.cpp:314-316 | Erasing one entry keeps the bucket sorted with unique columns, removes that column, and keeps every other entry. |
| OpenLists.KeepsOldAt | isearch.cpp:308-312 | `addOpen` keeps the bucket exactly when the column scan finds an entry whose g is no larger than the new g. |
| OpenLists.WithoutAt | isearch.cpp:308-317 | The erase removes exactly the entry the column scan found, or nothing when there is none. |
| OpenLists.AddToRowAt | isearch.cpp:305-336 | `addOpen` on a bucket, by positions: keep it, or erase the found entry and insert at InsertPos. |
| OpenLists.AddToRowSpec | isearch.cpp:305-337 | If an entry for the cell has g <= new g, the bucket is unchanged. Otherwise the new node replaces that entry (size unchanged) or is added (size + 1), and every other entry stays. The bucket stays sorted with one entry per cell. |
| OpenLists.BestIndexMin | isearch.cpp:139-163 | The node `findMin` keeps has minimal F. Among equal F it has the largest g (GMAX, later one on equal g) or the smallest g (GMIN, earlier one on equal g). |
| OpenLists.BestIndexSnoc | isearch.cpp:147-156 | Each scanned node replaces the running minimum exactly when it goes before it. |
| OpenLists.FlattenUpdate | isearch.h:80-81 | Replacing one bucket changes the total open count by the difference in that bucket's size. |
| OpenLists.FlattenMembers | isearch.h:80-81 | A node is open exactly when it is in some bucket. |
| OpenLists.FlattenAllEmpty | isearch.cpp:43-44 | All-empty buckets hold no node. |
| Theta.LineOfSight | theta.cpp:10-113 | The result equals `Visible`. Both endpoints must be on the grid and free, and the bounds are tested before any obstacle query. Equal endpoints are visible. Every intermediate Bresenham cell must be free. Without corner cutting, no minor-axis step may pass between two obstacles. |
| Theta.StraightLineOfSight | theta.cpp:32-44 | Along a row or column, the walk over the cells strictly between the endpoints equals `Visible`. |
| Theta.CuttingLineOfSight | theta.cpp:46-69 | With corner cutting, the walk over the major-delta - 1 intermediate cells equals `Visible`. |
| Theta.CuttingRows | theta.cpp:47-57 | The same, when rows are the major axis. |
| Theta.CuttingColumns | theta.cpp:58-68 | The same, when columns are the major axis. |
| Theta.NonCuttingLineOfSight | theta.cpp:70-111 | Without corner cutting, the walk with its corner checks equals `Visible`. |
| Theta.NonCuttingRows | theta.cpp:76-93 | The same, when rows are the major axis. |
| Theta.NonCuttingColumns | theta.cpp:94-110 | The same, when columns are the major axis. |
| Theta.WalkOnGrid | theta.cpp:23-111 | Every cell the walk queries, including both corner cells beside a diagonal step, is on the grid, so no query throws. |
| Theta.SameCellVisible | theta.cpp:21 | A cell sees itself exactly when it is free. |
| Theta.StraightVisible | theta.cpp:32-44 | Along a row or column, visibility holds exactly when both ends and every cell strictly between are free. |
| Theta.NoCutImpliesCut | theta.cpp:70-111 | Visibility without corner cutting implies visibility with it. |
| Theta.ResetParent | theta.cpp:116-127 | Without a grandparent the node is unchanged. If the grandparent sees it, its parent becomes the grandparent and g = grandparent g + distance. Otherwise it is unchanged. Cell, H and F are never touched. |
| ISearch.ResetParentFor | isearch.h:48 | The A* baseline returns `current` unchanged. Either policy keeps cell, H and F. The result is `current` itself, or `current` with the grandparent as parent and g = grandparent g + distance. |
| ISearch.SuccessorAtSpec | isearch.cpp:170-205 | A neighbour admitted by the tests is 8-adjacent, on the grid, free, not closed and without parent. A diagonal needs `allowdiagonal` (and, without corner cutting, both corner cells free) and costs g + CN_SQRT_TWO; a straight move costs g + 1. |
| ISearch.OffsetIndex | isearch.cpp:168-169 | Position t of the two nested loops tries offset (t/3 - 1, t%3 - 1) and no other. |
| ISearch.SuccessorsStep | isearch.cpp:168-207 | Trying offset (di, dj) appends its successor exactly when the neighbour is admissible. |
| ISearch.SuccessorsUpToMembers | isearch.cpp:165-209 | After the first n offsets, the successors are exactly the admissible neighbours among them. |
| ISearch.SuccessorsExactly | isearch.cpp:165-209 | A node is a successor exactly when it is the successor at some admissible offset. |
| ISearch.SuccessorsSound | isearch.cpp:165-209 | Every successor is 8-adjacent, on the grid, free and not closed, reached diagonally only under the diagonal and corner policy, with g + CN_SQRT_TWO (diagonal) or g + 1 (straight). |
| ISearch.CloseMapKeys | isearch.h:76 | Every closed cell indexes a closed node on that cell. |
| ISearch.CloseMapCovers | isearch.cpp:86 | Every closed node's cell is a key of the closed map. |
| ISearch.CloseMapExact | isearch.h:67-76 | With no cell closed twice, each closed node's key indexes that node, and the closed map has exactly as many keys as closed nodes. |
| ISearch.EmptyListsOk | isearch.cpp:43-47 | One empty bucket per row, zero count and an empty closed set satisfy the engine invariant. |
| ISearch.SeededOpen | isearch.cpp:50-58 | Opening one node on empty buckets leaves exactly that node open, alone in its row's bucket. |
| ISearch.OpenClosedDisjoint | isearch.cpp:296-303 | No open node is on a closed cell, and every open node is on a grid row. |
| ISearch.AddOpenKeepsOpenOk | isearch.cpp:293-338 | Replacing the node's bucket by AddToRow, and adjusting the count by the size change, keeps the open-list invariant. |
| ISearch.CloseKeepsValid | isearch.cpp:66-86 | Erasing the chosen node and closing it under the next arena index keeps both invariants. The cell is on the grid and was not closed before. |
| ISearch.Prepared | isearch.cpp:96-108 | The node handed to `addOpen` for a successor keeps the successor's cell. Either its parent is the expanded node and its g is the successor's, or (Theta* only) its parent is the expanded node's parent and g is that node's g plus the distance. The A* baseline always takes the first case. H is the heuristic toward the current goal, and F is scored from g and H. |
| ISearch.PrepareAll | isearch.cpp:94-110 | The prepared successors, one per successor, in loop order. |
| ISearch.AddOneSpec | isearch.cpp:293-338 | One `addOpen` keeps every bucket sorted with one entry per cell. A node on a cell that is not closed leaves an entry on that cell with g no larger than its own. Entries on other cells stay, a cell that had an entry with g at most some bound still has one, and the only new entry is the node. |
| ISearch.AddAllOrdered | isearch.cpp:94-111 | A run of `addOpen` calls keeps every bucket sorted with one entry per cell. |
| ISearch.AddAllCovers | isearch.cpp:94-111 | After a run of `addOpen` calls, each added node whose cell is not closed has an entry on its cell with g no larger than its own. This holds even when a later node on the same cell came after it. |
| ISearch.AddAllOnlyNew | isearch.cpp:94-111 | After a run of `addOpen` calls, every entry was open before or is one of the added nodes. |
| ISearch.AddAllKeeps | isearch.cpp:94-111 | A run of `addOpen` calls keeps every entry on a cell that none of the added nodes is on. |
| ISearch.ExpansionCovers | isearch.cpp:94-111 | After the successor loop, each successor on a cell that is not closed has an open entry on its cell with g no larger than the g `resetParent` gave it. The buckets stay ordered. |
| ISearch.ExpansionKeeps | isearch.cpp:94-111 | The successor loop keeps every open entry on a cell no successor is on. It adds no entry except a prepared successor. |
| ISearch.SuccessorsOnGrid | isearch.cpp:165-209 | Every successor, by position, lies on the grid. |
| ISearch.FirstClosedAtStart | isearch.cpp:50-90 | Under the closed-set invariant, the first node closed has no parent and lies on the start cell, and the start cell is closed. |
| ISearch.Search.constructor | isearch.cpp:12-21 | hweight = 1, GMAX tie-break, empty open list (size 0), goal and map size -1. |
| ISearch.Search.StopCriterion | isearch.cpp:25-31 | With a correct counter, the search stops exactly when no node is open. |
| ISearch.Search.AddOpen | isearch.cpp:293-338 | A closed cell changes nothing. Otherwise the node's bucket becomes AddToRow of the old one, the count changes by that bucket's size change, and the invariant is kept. |
| ISearch.Search.UpdatedBucket | isearch.cpp:305-337 | The column scan, the conditional erase and the insertion scan yield AddToRow, with the count change -1/+1 netted. |
| ISearch.Search.FindMin | isearch.cpp:139-163 | The row-by-row, front-to-back scan returns the BestIndex node of the open list. |
| ISearch.Search.ScanBucket | isearch.cpp:147-157 | One bucket's scan extends the running minimum from the nodes scanned so far to those plus the bucket. |
| ISearch.Search.EntryIndex | isearch.cpp:68-75 | The erase scan finds the first entry with the same cell, F and g, or none. |
| ISearch.Search.StartSearch | isearch.cpp:33-137 | The invariant holds at the end. At least one node is expanded; the first node closed has no parent and lies on the start cell, so the start cell always ends closed, and start == goal always finds a path. A path is found exactly when the goal is closed; otherwise the open list is empty, the length is 0 and both paths are empty. steps = closed count and created = closed + open. When found, the length is the closed goal's g, hppath is its parent chain, and lppath is that chain's cell path. |
| ISearch.Score | isearch.cpp:55 | F = g + H under weight 1 and F = g under weight 0. |
| ISearch.Search.Initialise | isearch.cpp:38-58 | Records the map size and goal, empties both paths and the closed set, and opens exactly one node: the start node. That node has g = 0, no parent, H from the heuristic toward the goal, and F = H under weight 1. It sits alone in its row's bucket, every other bucket is empty, the count is 1, and the invariant holds. |
| ISearch.Search.OpenStart | isearch.cpp:58 | `addOpen` of the start node on empty buckets, with nothing closed, leaves it the only open node, alone in its row's bucket, with count 1. The invariant is kept. |
| ISearch.Search.ResetState | isearch.cpp:38-47 | Map size and goal recorded, one empty bucket per row, count 0, nothing closed, both paths empty, and the invariant established. |
| ISearch.Search.SearchLoop | isearch.cpp:63-113 | Started on a non-empty open list with nothing closed, the loop expands at least one node, keeps the invariant and terminates. It reports a path exactly when the goal is closed, and otherwise ends with an empty open list. |
| ISearch.Search.ReportResult | isearch.cpp:117-129 | The counters, and for a found path its length (the closed goal's g) and both paths; length 0 and no paths otherwise. |
| ISearch.Search.ExpandMin | isearch.cpp:64-111 | The chosen node's cell was open and on the grid and is now closed under the next arena index. The result says whether it is the goal. For the goal, the open list is the old one with exactly that entry erased. Otherwise it is that list after `addOpen` of each successor of the node, in `findSuccessors` order, each prepared with the node's arena index as parent. The invariant is kept. |
| ISearch.Search.ExpandSuccessors | isearch.cpp:93-111 | Given the arena index of the just-closed node, returns its `Successors`. The new open list is the old one after `addOpen` of each of them, prepared with that index as parent. The invariant is kept. |
| ISearch.Search.MoveToClosed | isearch.cpp:66-86 | The chosen node is always found in its bucket. The new open list is the old one with exactly that entry erased, every other entry kept, and the count one lower. The node is closed under the next arena index, and the invariant is kept. |
| ISearch.Search.AddSuccessors | isearch.cpp:94-111 | The new open list is the old one after `addOpen` of each successor in order, each prepared (parent set to the expanded node, `resetParent`, H and F). The invariant is kept. |
| ISearch.Search.AddSuccessor | isearch.cpp:96-110 | One pass of the loop: the open list becomes one `addOpen` of the prepared successor on the old one. As a run, the first t + 1 prepared successors have now been added. The invariant is kept. |
| ISearch.Search.FindSuccessors | isearch.cpp:165-209 | The nested offset loops return `Successors`: the admissible neighbours in loop order. |
| ISearch.Search.TryNeighbour | isearch.cpp:170-205 | The inner-loop body yields a node exactly when the neighbour is admissible, and that node is the successor at the offset. |
| ISearch.Search.MakePaths | isearch.cpp:121-126 | hppath is the goal's parent chain and lppath its cell path. |
| ISearch.Search.MakePrimaryPath | isearch.cpp:211-220 | `push_front` along the parent links yields the parent chain, root first and the given node last. |
| ISearch.Search.MakeSecondaryPath | isearch.cpp:222-290 | The cell path of the waypoints: empty for none, otherwise the first waypoint followed by each leg's cells. |
| ISearch.Search.AppendLeg | isearch.cpp:246-286 | Appends exactly the leg's cells to the cell path. |
| ISearch.Search.WalkLeg | isearch.cpp:246-286 | The walk toward a distinct waypoint collects exactly `Leg`. |
| ISearch.Search.WalkRows | isearch.cpp:259-271 | The row-major walk collects the first \|di\| cells of the Bresenham walk. |
| ISearch.Search.WalkColumns | isearch.cpp:272-286 | The column-major walk collects the first \|dj\| cells of the Bresenham walk. |

## Left out

- ISearch.Score: states F only for weights 1 and 0. For any other weight F = g + hweight * H is computed but not stated, which keeps a real product out of the proofs.
- ISearch.Search.FindMin: requires a non-empty open list. On an empty list the source returns a default node with F = infinity, but `startSearch` only calls it when `openSize != 0`.
- LegacyMaps.Map.GetMap: requires in-bounds start and goal and rows at least as long as row 0 for a non-empty map. The source indexes those without checks, so other inputs are undefined behaviour. The console messages and the leak of a previous grid are not modelled.
- GridMaps.NewGridMap: requires rectangular data. On ragged rows the source's obstacle query can index past a short row. The requirement also excludes ragged data that is safe in the source: rows all at least as long as row 0, such as [[0], [0, 0]], since `cellIsObstacle` checks the column against the width first. The rest of the model relies on a rectangular grid.
- The heuristic `computeHFromCellToCell` lives in the Astar class, which is not part of this model. It is a function-valued field of `Search`.
- The heuristic's dependence on the options passed to `startSearch` (the metric) is folded into that field. `Options` has no metric field, so the field stands for the heuristic under one fixed set of options.
- `Theta::distance` (`sqrt`/`pow`) is a function-valued field, and CN_SQRT_TWO a real field with no fixed value. Floating-point rounding is not modelled; costs are `real`.
- Optimality of the returned path is not stated. It depends on the heuristic and on those numerics.
- The setting of `hweight` and `breakingties` by the Astar/Theta constructors (astar.h is not part of this model) is left out. They are fields of `Search` with the `ISearch()` defaults.
- `breakingties` is a `TieBreak` value (GMax or GMin) instead of a bool compared with CN_SP_BT_GMAX. gl_const.h is not part of this model; CN_GC_NOOBS is taken as 0.
- Integer width: coordinates and counters are unbounded `int`, so 32-bit overflow is not modelled. This covers `delta << 1` (written as `2 * delta`) and `close.size() + openSize`.
- Timing through `std::chrono` (isearch.cpp:35-36, 131-132) and the `ILogger` callbacks (isearch.cpp:112, 115) are I/O and are left out. `SearchResult` has no `time` field.
- The unused counter `expanded_nodes` is left out.
- The returned `hppath`/`lppath` pointers are path values in `SearchResult`.
- Raw `Node*` parents are arena indices. Pointer stability of `unordered_map` entries is not modelled.
- `std::list` and `std::vector` are `seq`. A bucket update builds the new bucket and assigns it, instead of erasing and inserting in place.
- node.h, environmentoptions.h, searchresult.h and ilogger.h are not part of this model. `Node`, `Options` and `SearchResult` carry only the fields the engine reads or writes.
- Theta's copies of `makePrimaryPath` and `makeSecondaryPath` (theta.cpp:134-216) have the same bodies as the ISearch ones, so they are modelled once, by `ISearch.Search.MakePrimaryPath` and `ISearch.Search.MakeSecondaryPath`.
- Destructors (isearch.cpp:23, theta.cpp:5-7, src/map.cpp:15-22) only free memory.
- src/config.cpp, src/mission.cpp, asearch.cpp, example.py and example2.py are the XML configuration, the driver, test mains and Python scripts, outside the search core.
