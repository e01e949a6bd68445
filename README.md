# maze_generator in Dafny

A verified model of the maze generator in `src/main.rs`. The generator keeps a
grid of cell states (`PASSAGE`, `BLOCKED`, `LIGHT`, `ENTRY`, `EXIT`) keyed by
position over `[0,width) x [0,height)`. It works in four steps:

1. It clears the grid to `BLOCKED`.
2. It carves a maze by randomized frontier growth over the "room" cells, the
   cells whose two coordinates are both odd.
3. It stamps an entry at `(1,0)` and an exit at `(width-2,height-1)`.
4. It places lights by a depth-first walk from `(1,1)`.

A cell becomes a light only after four visits since the last light, and only
when the cells it would illuminate (its *footprint*) avoid every cell already
illuminated.

Modules, one per concern:

- `Cells` (`cells.dfy`): cell states and positions, and the `-` operator on
  positions. That operator is not a subtraction: it is the midpoint, rounded
  toward the left operand by truncating division.
- `Vectors` (`vectors.dfy`): the vector operations the generator uses:
  `swap_remove`, a filtered `extend`, and counting.
- `Grids` (`grids.dfy`): the grid as `map<CellPos, CellState>`, clearing, the
  orthogonal and diagonal neighbour queries, and one carving step.
- `Lighting` (`lighting.dfy`): the footprint of a light, the index-removal
  filter that builds part of it, and the record of placed lights.
- `Carving` (`carving.dfy`): the invariant of the carving loop, its step
  lemmas, and the shape of the finished maze.
- `Mazes` (`maze.dfy`): the class `Maze` with `new`, `clear_grid`,
  `get_adjcells`, `get_diagonal_cells`, `generate` and `generate_light`, and
  the walk's bookkeeping lemmas.

Random choices are nondeterministic choices (`:|`) within the bounds passed to
`gen_range`. So every property proved about `Generate` holds for every outcome
of the random generator.

Two details of the code that the model keeps as written:

- The code stamps the entry and the exit on the border cells `(1,0)` and
  `(width-2,height-1)` and does not check that they are passages.
- The diagonal part of a footprint takes only cells exactly in state
  `PASSAGE`; lights are not taken.

## Model

| member | source | states |
|---|---|---|
| Cells.TruncDiv2 | src/main.rs:23-24 | `n/2` truncates toward zero: twice the quotient lies between 0 and `n` and is at most 1 away from `n`, for either sign |
| Cells.Midpoint | src/main.rs:20-27 | `a - b` on positions: half the difference on each axis, truncated toward zero, added to `a`; its meaning is stated by `MidpointBounds` |
| Cells.MidpointBounds | src/main.rs:20-27 | `a - b` lies between `a` and `b` on each axis, is at most half a cell from the exact midpoint, and is no farther from `a` than from `b` |
| Cells.MidpointOfStep2 | src/main.rs:20-27 | for a cell two steps away along an axis, `a - b` is the cell one step from `a` in that direction, and one more step reaches `b` |
| Cells.Step2KeepsParity | src/main.rs:59 | a step of two along an axis keeps a cell a room (both odd) or a wall post (both even) exactly when it was one |
| Cells.DiagonalProbeAt | src/main.rs:190-192 | the probe taken at offsets `(nx, ny)` of the two nested loops over `[-1, 1]` is the diagonal probe at index `2i+j`, so the loops visit the diagonals in the order (-1,-1), (-1,1), (1,-1), (1,1) |
| Cells.MidpointOfRoomsIsCorridor | src/main.rs:71-75 | the cell carved between two rooms is neither a wall post nor a room |
| Vectors.SwapRemove | src/main.rs:61-62 | `swap_remove` shortens the vector by one and removes exactly one occurrence of the chosen element |
| Vectors.SwapRemoveDistinct | src/main.rs:61-62 | on a vector without duplicates, the result has no duplicates and holds exactly the other elements |
| Vectors.Without | src/main.rs:81-84 | the filter `!frontiers.contains(v)` keeps exactly the elements outside the other vector, is no longer than its input, and keeps it duplicate-free |
| Vectors.CountInAppend | src/main.rs:149 | the count of stack entries already visited adds up over an `extend` |
| Grids.Rect | src/main.rs:101-102 | the domain of the two clearing loops is exactly the positions with `0<=x<width` and `0<=y<height` |
| Grids.Cleared | src/main.rs:100-107 | the grid `clear_grid` leaves: every domain position inserted as `BLOCKED`; characterised by `ClearedBlocksDomain` |
| Grids.ClearedBlocksDomain | src/main.rs:100-107 | after clearing, every domain position is present and `BLOCKED`, the keys are the old keys plus the domain, and other positions keep their state |
| Grids.ClearedIdempotent | src/main.rs:100-107 | clearing twice gives the same grid as clearing once |
| Grids.KeepIn | src/main.rs:116-128 | the probe filter keeps exactly the probes present in the grid whose state is accepted, is no longer than the probes, and keeps distinct probes distinct |
| Grids.KeepInAppend | src/main.rs:116-128 | the filter works probe by probe, in probe order: filtering a concatenation concatenates the filtered parts |
| Grids.KeepInSnoc | src/main.rs:116-128 | one more iteration of the probing loop appends the probe exactly when it is present and its state answers the query |
| Grids.KeepInSingle | src/main.rs:117-127 | one probe is kept exactly when it is present and its state answers the query |
| Grids.AdjCells | src/main.rs:109-131 | the reference definition of `get_adjcells`: the four probes at distance `dist` in the order -x, +x, -y, +y, filtered by presence and state; characterised by `AdjCellsSpec` |
| Grids.AdjCellsSpec | src/main.rs:109-131 | `get_adjcells` returns at most 4 cells; for a `BLOCKED` query exactly the present blocked probes, otherwise exactly the present `PASSAGE`/`LIGHT` probes (never an entry or exit); no duplicates at a non-zero distance |
| Grids.DiagonalPassages | src/main.rs:189-200 | the reference definition of the cells `get_diagonal_cells` appends: the four diagonal probes in source order, kept when present and exactly `PASSAGE`; characterised by `DiagonalPassagesSpec` |
| Grids.DiagonalPassagesSpec | src/main.rs:189-200 | at most four distinct diagonal cells, exactly the present ones in state `PASSAGE`, so lights are excluded |
| Grids.RelabelKeepsQueries | src/main.rs:120-124 | turning carved cells into lights does not change the answer of any neighbour query for carved cells |
| Grids.Carve | src/main.rs:69-79 | a carving step sets the popped cell and the cell between to `PASSAGE`, changes no other cell and no key, and shrinks the set of blocked cells when the popped cell was blocked |
| Lighting.KeepSeen | src/main.rs:156-168 | the reference definition of the index-removal filter: the step-2 cells, in order, whose midpoint with the centre is a neighbour; never longer than its input |
| Lighting.KeepSeenMembers | src/main.rs:156-168 | the filtered step-2 cells are exactly those whose midpoint with the centre is among the neighbours |
| Lighting.KeepSeenAppend | src/main.rs:156-168 | the filter keeps the original order: it distributes over concatenation |
| Lighting.KeepSeenAllSeen | src/main.rs:158-163 | a vector whose entries are all seen passes the filter unchanged |
| Lighting.KeepSeenSkip | src/main.rs:158-163 | a step-2 cell whose midpoint with the centre is not a neighbour is dropped by the filter |
| Lighting.KeepSeenSeenPrefix | src/main.rs:156-168 | a prefix of seen cells passes the filter unchanged, ahead of the filtered rest |
| Lighting.GapNotRemoved | src/main.rs:158-168 | the recorded indices increase, so no index strictly between two consecutive recorded ones (or before the first) was recorded for removal |
| Lighting.RemoveUnseen | src/main.rs:165-168 | removing one recorded index, taken in descending order, extends the filtered suffix by one position |
| Lighting.RetainSeen | src/main.rs:156-168 | recording the unseen indices and removing them from the back leaves exactly the seen step-2 cells, in their original order |
| Lighting.FootprintOf | src/main.rs:152-170 | the reference definition of a light's footprint: orthogonal carved neighbours, then diagonal passages, then the filtered step-2 cells; characterised by `FootprintMembers` |
| Lighting.FootprintMembers | src/main.rs:151-170 | a cell is in the footprint exactly when it is a present orthogonal carved neighbour, a diagonal `PASSAGE` cell, or a carved cell two steps away with a carved cell between |
| Lighting.FootprintExcludesCentre | src/main.rs:151-170 | the cell a light would go on is never part of its own footprint |
| Lighting.LitGrid | src/main.rs:177-180 | the grid after each lit cell in turn was set to `LIGHT`; characterised by `LitGridChanges` |
| Lighting.LitGridChanges | src/main.rs:177-180 | lighting cells keeps the keys, sets each lit cell to `LIGHT` and leaves every other cell alone |
| Lighting.CellsOf | src/main.rs:177-182 | the lit cells are the placements' cells, in placement order |
| Lighting.Illuminated | src/main.rs:181-182 | the illuminated cells after some placements: a cell is illuminated exactly when it is some placement's cell or lies in some placement's footprint |
| Lighting.IlluminatedSnoc | src/main.rs:181-182 | placing one more light appends its footprint and then its cell to the illuminated cells |
| Lighting.PlaceApart | src/main.rs:171-183 | a light whose cell and footprint avoid the illuminated cells stays apart from every earlier light (distinct cells, neither in the other's footprint, disjoint footprints) |
| Lighting.PlaceAsPlaced | src/main.rs:152-170 | recording the footprint computed in the current grid keeps every footprint equal to the one computed when it was placed |
| Lighting.PlaceLights | src/main.rs:177-180 | placing one more light sets its cell to `LIGHT` in the lit grid |
| Lighting.LitGridRelabels | src/main.rs:145-149 | lighting carved cells only relabels carved cells, and the walk's neighbour query answers as in the unlit grid |
| Carving.ProbeBack | src/main.rs:111-114 | two steps in a direction and two steps in the opposite direction return to the start cell |
| Carving.RoomInterior | src/main.rs:204 | with odd dimensions, every room of the domain is off the border ring |
| Carving.StartGrowing | src/main.rs:45-59 | clearing a grid that lies inside the domain, carving the start room and taking its blocked room neighbours as the frontier establishes the carving invariant |
| Carving.NoPassageNeighbour | src/main.rs:63-67 | a frontier cell with no carved room neighbour is no carved room's neighbour |
| Carving.SkipStep | src/main.rs:60-67 | dropping such a frontier cell keeps the carving invariant |
| Carving.CarveStep | src/main.rs:60-86 | a carving iteration keeps the invariant: the cell between is present, the frontier stays duplicate-free and holds only blocked rooms, passages stay off wall posts and, for odd dimensions, off the border, and every room next to a carved room is carved or in the frontier |
| Carving.CarveShaped | src/main.rs:69-79 | carving a frontier room through the cell between it and a passage room keeps passages off wall posts and, for odd dimensions, off the border |
| Carving.CarveClosed | src/main.rs:69-86 | after carving and appending the new blocked room neighbours not yet in the frontier, every room next to a carved room is carved or in the frontier |
| Carving.CarveFrontier | src/main.rs:61-86 | after carving and appending, the frontier stays duplicate-free and holds only blocked rooms of the grid |
| Carving.CarveKeepsCarvedFrom | src/main.rs:69-79 | a carving step on a grid of passages and blocked cells turns only blocked cells into passages, so the whole loop changes cells only from `BLOCKED` to `PASSAGE` |
| Carving.RoomReached | src/main.rs:60-86 | once the frontier is empty, every room of the domain has been carved |
| Carving.StampedFinished | src/main.rs:88-95 | stamping the entry and the exit then gives a finished maze: both stamps in place and nowhere else, wall posts blocked, every room carved, the border blocked for odd dimensions, and `(1,1)` a passage |
| Carving.LightingKeepsFinished | src/main.rs:97 | turning carved cells into lights keeps a maze finished |
| Mazes.DepthFirst | src/main.rs:141-149 | the reference definition of the walk: pop the last stack entry, record it as visited, push its passage and light neighbours not yet visited in probe order, until the stack is empty; the result extends the visits made so far |
| Mazes.WalkFromStart | src/main.rs:134-149 | the walk from a stack holding only `(1,1)` visits `(1,1)` first |
| Mazes.Unexplored | src/main.rs:145-148 | the cells pushed after a visit are exactly the passage and light neighbours of the visited cell that are not yet visited |
| Mazes.PopStaysInGrid | src/main.rs:141-149 | a visit keeps every stack entry a position of the grid (or the start cell) and pushes only cells not yet visited, which the reference walk's termination rests on |
| Mazes.PopDecreases | src/main.rs:141-149 | each visit lowers the pair (unvisited cells, stack entries already visited), so the walk terminates |
| Mazes.PopKeepsClosed | src/main.rs:141-149 | after each visit, every passage neighbour of a visited cell is visited or on the stack |
| Mazes.VisitPlanned | src/main.rs:143-150 | counting one more visit keeps the light planner's bookkeeping |
| Mazes.VisitWalking | src/main.rs:141-150 | a visit keeps the walk's state, pushes only unvisited cells, and a cell visited with the counter at 4 or more is a carved cell |
| Mazes.VisitPushed | src/main.rs:141-149 | after a visit, every stack entry was pushed as the passage neighbour of some visited cell |
| Mazes.VisitLinked | src/main.rs:141-149 | after a visit, every visit after the first is a passage neighbour of an earlier visit |
| Mazes.VisitDepthFirst | src/main.rs:141-149 | one visit of the loop, whose neighbour query asks the partly lit grid, is one step of the reference walk over the unlit grid: the reference walk from the new stack and visits ends where it did from the old ones |
| Mazes.VisitStep | src/main.rs:141-150 | one visit before the light rule: the counter counts it, the walk's state and its agreement with the reference walk carry over to the new stack, and the pair (unvisited cells, stack entries already visited) goes down |
| Mazes.WalkDone | src/main.rs:141 | when the stack is empty, the lit grid has the unlit grid's keys and changes carved cells only to `LIGHT`, every light is on a carved cell, and the visits are exactly the reference walk from `(1,1)`, connected and closed under passage neighbours |
| Mazes.PlaceAtVisit | src/main.rs:177-184 | each light is recorded at the visit that placed it |
| Mazes.PlaceSpaced | src/main.rs:150-151 | lights are at least four visits apart, the first after at least four visits |
| Mazes.PlaceCarved | src/main.rs:177-180 | every lit cell was a carved cell |
| Mazes.PlaceStep | src/main.rs:151-184 | placing a light when the counter is at least 4 and neither the cell nor its footprint is illuminated keeps all the bookkeeping, with the counter back at 0 |
| Mazes.SkipGreedy | src/main.rs:150-151 | a visit that places no light keeps every due visit accounted for, provided the rule turned the cell down when the counter had reached 4 |
| Mazes.PlaceGreedy | src/main.rs:177-184 | a visit that places a light keeps every earlier due visit accounted for; the new light's own visit is not due afterwards |
| Mazes.Unclaimed | src/main.rs:171-175 | the footprint scan answers whether no footprint cell is illuminated |
| Mazes.Maze.constructor | src/main.rs:36-42 | `Maze::new` keeps the dimensions and starts from an empty grid |
| Mazes.Maze.ClearGrid | src/main.rs:100-107 | the column-by-column loops produce the cleared grid; from a grid inside the domain, the keys become exactly the domain |
| Mazes.Maze.GetAdjCells | src/main.rs:109-131 | the probing loop returns exactly the filtered probes in probe order |
| Mazes.Maze.GetDiagonalCells | src/main.rs:189-200 | the vector passed in is kept as a prefix and the diagonal `PASSAGE` cells are appended in the order (-1,-1), (-1,1), (1,-1), (1,1) |
| Mazes.Maze.Grow | src/main.rs:60-86 | the carving loop keeps the carving invariant and ends with an empty frontier, so, by `RoomReached`, with every room of the domain carved; the positions are unchanged and every cell that changed went from `BLOCKED` to `PASSAGE` |
| Mazes.Maze.LightFootprint | src/main.rs:152-170 | the footprint is computed as defined: orthogonal neighbours, diagonal passages, then the filtered step-2 cells |
| Mazes.Maze.PlaceLight | src/main.rs:151-185 | the light rule in both directions: when the counter is at least 4 and neither the cell nor any cell of its footprint (computed in the current grid) is illuminated, the cell is lit with that footprint and the counter restarts; otherwise nothing changes. The planner's bookkeeping and its greediness are kept |
| Mazes.Maze.GenerateLight | src/main.rs:133-187 | the walk terminates, changes no key, writes only `LIGHT` and only on carved cells, and starts at `(1,1)`. Each light was placed at least four visits after the previous one. Each footprint is the one computed in the grid of its time. Distinct lights are apart (no light in another's footprint, disjoint footprints). Conversely, every visit that found the counter at 4 or more and placed no light was turned down: its cell, or a cell of its footprint in the grid of that time, was already illuminated. The visits are exactly the depth-first walk `WalkFromStart` from `(1,1)` over the unlit grid, in its order. Each visit after the first is a passage neighbour of an earlier visit, and every passage neighbour of a visit is visited |
| Mazes.Maze.Generate | src/main.rs:44-98 | on dimensions of at least 3 the carving terminates. The start is a room, interior for odd dimensions. The key set stays the domain. The maze is finished both before and after lighting: entry and exit in place and unique, wall posts blocked, every room carved, and the border blocked except the entry and the exit for odd dimensions. The lighting facts of `GenerateLight`, both the safety of every light and the greedy placement rule, hold over the unlit maze, and the visits are the depth-first walk from `(1,1)` over it |

## Left out

- `main` (src/main.rs:203-222) is not part of this model: it prints glyphs to standard output.
- The random generator is not modelled. Each `gen_range(lo, hi)` is a nondeterministic choice in `[lo, hi)`. `Generate` therefore requires a width and a height of at least 3, below which `gen_range(1, dim-1)` panics.
- Coordinates are unbounded integers, not `i32`. The generator only builds positions within two cells of the domain, so overflow needs dimensions near the `i32` limit, which the model does not cover.
- The cost of `HashMap` and `Vec::contains` is not modelled. The grid is a `map` and the vectors are sequences.
- Mazes.Maze.Generate: does not prove that the passages form a spanning tree (connected, without cycles), only that every room is carved, every passage lies off the wall posts, and the frontier is handled as described.
- Mazes.Maze.Grow: does not prove that the passages form a spanning tree (connected, without cycles). It proves that every room ends carved, that passages stay off the wall posts, and that cells only go from blocked to passage.
- Mazes.Maze.Generate: does not prove the `continue` at src/main.rs:65 unreachable. The branch is modelled and shown to keep the invariant.
- Mazes.Maze.Generate: with an even dimension the start room can land on the last column or row, which is part of the border ring. The source's note at src/main.rs:204 asks for odd sizes, so the border property is stated for odd dimensions only.
- The carving loop of `generate` (src/main.rs:60-86) is the method `Grow`, which `Generate` calls at the same point. The statements inside the loop are unchanged.
- The footprint computation (src/main.rs:152-170) is a method of its own, `LightFootprint`, which uses `RetainSeen` for the index removal. The light rule (src/main.rs:151-185) is the method `PlaceLight`, called once per visit. The footprint scan (src/main.rs:171-175) is the method `Unclaimed`. So the labelled `continue 'outter` becomes an early `return` from `PlaceLight`, with the same control flow.
- `remove_v.reverse()` followed by a forward walk is modelled as walking `remove_v` from the back.
- The start cell, the grid before lighting, the light placements and the visit sequence are ghost results that exist for the contracts. The source returns nothing.
