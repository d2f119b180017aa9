# Duckietown map generator, modelled in Dafny

This project models the core of `map_gen.py`, the random map generator of the
gym-duckietown simulator. A map is a width-by-height grid of road tiles with a
closed track on it, plus a few duckie objects placed on the track tiles.

The model covers these parts:

- **Grid** (`grid.dfy`): cells, the N/E/S/W connectivity record, the four-neighbourhood
  `neighs` (order east, west, south, north), and the bounds-checked lookup `is_set`.
  It also holds the counting and parity facts the other modules share.
- **Connectivity** (`connectivity.dfy`): the all-false grid `empty`, the fully connected
  grid `full`, and `edge_path_to_grid`. The last one writes, for each cell of a cyclic
  path, the record pointing at its cyclic predecessor and successor.
- **Tiles** (`tiles.dfy`): the two classifiers.
  - `graph_transform` goes from connectivity records to tile names.
  - `map_transform` goes from a boolean map, through the neighbour test `check`, to tile names.
  - For each classifier the model proves which records give straights and curves,
    which give 3-way junctions, which give the background tile and which give the unknown name `""`.
  - It also proves that the older classifier gives a set cell the newer one's tile for its
    neighbour occupancy, with two exceptions: a set cell with no set neighbour gets `""` where
    the all-false record gets `"grass"`, and an unset cell gets `"grass"` whatever its neighbours.
- **CycleGen** (`cycle.dfy`): the random-walk generator `gen_cycle`, as a walk phase and a
  pruning phase.
  - The walk is proved self-avoiding.
  - The kept part of a closed walk is proved to be a closed track of at least four cells
    with no chords.
  - The final map is proved to mark exactly that loop.
  - On a grid one cell wide or one cell high the walk is proved never to close.
- **Track** (`track.dfy`): the pieces composed.
  - The tile layer `graph_transform(edge_path_to_grid(edges))` that the map generator
    builds has no unknown tile on a closed track, and `"grass"` exactly off the track.
  - On a map that `gen_cycle` returns, `map_transform` agrees with `graph_transform`.
- **Placement** (`placement.dfy`): `object_placement`, the bounded rejection sampler that
  puts the duckies on track tiles.
  - Its result is determined by a recursive specification `Place`.
  - An object is dropped exactly when all fifty of its attempts are rejected.
  - With the call `gen_map` makes (five objects, at least ten units apart), a grid of at
    most 12 by 12 tiles gets exactly one duckie, because no two tile points are ten units apart.

The program's random source is replaced by explicit inputs:

- for `gen_cycle`, a start cell and a sequence of choices, where choice `k` selects
  `neighs(...)[k % 4]`;
- for `object_placement`, a stream of draws, two offsets in [0, 1) and a tile index per attempt.

Command-line arguments (`args.width`, `args.height`) become parameters. Python tuples become
the datatypes `Cell` and `Flags`, and lists of lists become `seq<seq<_>>`, indexed `g[y][x]`
as in the source. Every loop of the source is a `while` loop in a method. Its postcondition
ties the result to a specification function (`Walk`, `PruneStart`, `CellFlags`, `GraphTile`,
`MapTile`, `Attempt`, `Place`), or for the grid builders states every cell outright.

Two behaviours of the code are kept as written:

- `full` builds rows of `[first] + [middle] * (width - 2) + [last]`. For width below 2 that
  gives two cells per row, and `Connectivity.Full` says so.
- Both classifiers test the `(T, T, F, T)` pattern twice. The second test, labelled
  `"4way/E"`, can never fire, and the all-true record is classified as unknown.
  `Tiles.FourWayUnreachable` states this for `graph_transform`, and `Tiles.MapTileNotFourWay`
  for `map_transform`.

## Model

Some helper functions model source expressions directly and are covered by the rows of the
members that use them: `Grid.VisitedNeighbours` (the visited-neighbour count in the guard on
map_gen.py:65), `Grid.BoolToNat` (a bool counted as 0 or 1, as in that sum and in `check`),
`Connectivity.Pred`, `Connectivity.Succ` and `Connectivity.PathFlags` (the record written on
map_gen.py:122-124), `CycleGen.Prunes` and `CycleGen.LastTwo` (the test on map_gen.py:75), and
`Placement.FarFromAll` and `Placement.DistSq` (the acceptance test on map_gen.py:221).

| member | source | states |
|---|---|---|
| Grid.Neighs | map_gen.py:46-47 | four cells, pairwise distinct, exactly the cells 4-adjacent to (x, y) |
| Grid.Fill | map_gen.py:56-58 | a height-by-width grid holding the given value in every cell |
| Grid.IsSet | map_gen.py:49-53 | a set cell lies in the grid, and in the grid the lookup reads the map's own value |
| Grid.IsSetIsMembership | map_gen.py:49-53 | on a map that marks exactly a set of in-grid cells, the bounds-checked lookup is membership in that set for every integer pair, so off-grid reads are unset |
| Grid.VisitedNeighboursTwo | map_gen.py:65 | the loop guard's count of visited neighbours reaches two exactly when the current cell touches a visited cell other than a given visited neighbour |
| Grid.FlagsTowardTwo | map_gen.py:124 | a record pointing at two distinct neighbours has exactly two set flags, and they point at those two cells |
| Connectivity.Empty | map_gen.py:111-116 | a height-by-width grid of all-false records |
| Connectivity.Full | map_gen.py:105-109 | each row is first, width - 2 middle and last records; for width >= 2 every cell is joined to exactly its in-grid neighbours; narrower grids still get rows of two cells |
| Connectivity.LastIndex | map_gen.py:121-124 | the position of the last occurrence of a cell, or -1 exactly when it does not occur (later writes of the loop win) |
| Connectivity.EdgePathToGrid | map_gen.py:118-125 | each cell holds the record of the last path position at that cell, pointing at that position's cyclic predecessor (index i - 1 wrapping to the end) and successor ((i + 1) mod length); cells off the path stay all false |
| Connectivity.CellFlagsOnPath | map_gen.py:121-124 | on a path of distinct cells each path cell keeps its own record |
| Connectivity.PredAdjacent | map_gen.py:122 | on a cyclically adjacent path the predecessor is adjacent as well as the successor |
| Connectivity.CycleCellFlags | map_gen.py:118-125 | on a closed track of distinct cells every path cell gets exactly two set flags, pointing exactly at its predecessor and successor |
| Tiles.GraphTile | map_gen.py:183-209 | every record gets a straight, a curve, a 3-way junction, "grass" or the unknown name "" |
| Tiles.GraphTileGrass | map_gen.py:183-184 | the background tile is given to the all-false record and to no other |
| Tiles.GraphTileTwoEdges | map_gen.py:185-196 | a record gets a straight or a curve exactly when it has two set flags |
| Tiles.GraphTileThreeEdges | map_gen.py:197-204 | a record gets a 3-way junction exactly when it has three set flags |
| Tiles.GraphTileUnknown | map_gen.py:207-209 | the unknown name comes exactly from records with one set flag or with all four |
| Tiles.FourWayUnreachable | map_gen.py:203-206 | no record is classified "4way/E"; (T, T, F, T) is "3way_left/E" and the all-true record is unknown |
| Tiles.GraphTileInjective | map_gen.py:183-206 | two records with the same known tile name are equal |
| Tiles.GraphTransformRow | map_gen.py:182-209 | one pass of the inner loop classifies every cell of row y and leaves the other rows unchanged |
| Tiles.GraphTransform | map_gen.py:176-210 | a height-by-width grid whose every cell is the classification of its record |
| Tiles.Check | map_gen.py:134-139 | a neighbour reads 0 or 1, so the test can hold only when each expected value is 0 or 1 |
| Tiles.CheckIsOccupancy | map_gen.py:134-139 | for 0/1 expectations the neighbour test holds exactly when the in-grid occupancy of the N/E/S/W neighbours is the expected record |
| Tiles.MapTile | map_gen.py:148-173 | a cell gets the background tile exactly when it is unset |
| Tiles.MapTileIsGraphTile | map_gen.py:141-174 | an unset cell is background; a set cell with no set neighbour is unknown; any other set cell gets the record classification of its neighbour occupancy |
| Tiles.MapTileNotFourWay | map_gen.py:167-170 | the older classifier never gives "4way/E": its test repeats the "3way_left/E" test before it |
| Tiles.MapTransform | map_gen.py:141-174 | a height-by-width grid in which every cell gets the tile of the neighbour-pattern chain, and unset cells stay background |
| CycleGen.Walk | map_gen.py:65-72 | the track grows by at most one cell per choice |
| CycleGen.WalkStops | map_gen.py:65 | once the current cell has two visited neighbours, or the choices are used up, the walk returns the track unchanged and reports whether it closed |
| CycleGen.StepKeepsWalk | map_gen.py:65-72 | a step taken while the current cell has one visited neighbour keeps the track in-grid, self-avoiding, adjacent and chord-free, and keeps the visited set equal to the track's cells |
| CycleGen.LoneCell | map_gen.py:62-65 | the start cell alone has no visited neighbour, so the loop body runs at least once |
| CycleGen.CountClosed | map_gen.py:65 | when the loop guard fails, the current cell touches a track cell other than its predecessor |
| CycleGen.WalkProps | map_gen.py:65-72 | the walk extends the starting track, stays a self-avoiding chord-free walk, and has closed when it reports so |
| CycleGen.NarrowGridNeverCloses | map_gen.py:59-72 | on a grid one cell wide or one cell high the walk never closes, whatever the choices |
| CycleGen.LineOffset | map_gen.py:65-72 | on such a grid the i-th cell of a walk lies i cells from the start, all steps going the same way |
| CycleGen.LineWalkOpen | map_gen.py:65-72 | on such a grid no walk closes: no earlier cell but the predecessor touches the current cell |
| CycleGen.IndexOf | map_gen.py:76 | the position of the first occurrence of a cell in the track |
| CycleGen.PruneStart | map_gen.py:74-77 | the kept track starts at a position inside the track |
| CycleGen.PruneStartIsMax | map_gen.py:74-77 | after the pruning pass the kept track starts at the largest position of a pruning neighbour, or at 0 when none prunes |
| CycleGen.PrunesAt | map_gen.py:74-75 | a track cell adjacent to the current cell and at least two positions before it is among the pruning neighbours |
| CycleGen.PruneStartAtLeast | map_gen.py:74-77 | the kept track starts no earlier than any track cell that touches the current cell and is not one of the last two |
| CycleGen.PruneStartPicks | map_gen.py:74-77 | a nonzero start of the kept track is the position of a pruning neighbour, adjacent to the current cell and at least two positions before it |
| CycleGen.IndexBeforeLastTwo | map_gen.py:75-76 | a track cell that is not one of the last two is first found at least three positions before the end |
| CycleGen.PruneStartCloses | map_gen.py:74-77 | on a closed walk, the kept track starts at least two positions before the end, its first cell touches the last, and no cell between them and the last two touches the last |
| CycleGen.LoopFromLength | map_gen.py:74-77 | a kept loop has at least four cells: adjacent cells have opposite parity of x + y, so three cells cannot close |
| CycleGen.LoopFromAdjacent | map_gen.py:74-77 | the kept loop is cyclically adjacent |
| CycleGen.LoopFromChordless | map_gen.py:65-77 | the kept loop has no chords: only cells next to each other on it touch |
| CycleGen.LoopFromIsCycle | map_gen.py:74-77 | the kept loop is a closed track of distinct in-grid cells |
| CycleGen.KeptLoopIsCycle | map_gen.py:55-79 | the kept part of a closed walk is a closed chordless track of at least four distinct in-grid cells |
| CycleGen.ElemsDrop | map_gen.py:76-77 | clearing one more cell of a self-avoiding track removes exactly that cell from the marked set |
| CycleGen.StepState | map_gen.py:69-71 | appending an accepted neighbour keeps the track a walk from the start, the visited set its cells, and the map marking exactly them |
| CycleGen.Move | map_gen.py:66-72 | one iteration of the walk loop keeps that state and consumes one choice of the walk function |
| CycleGen.RandomWalk | map_gen.py:56-72 | the walk phase equals the walk function; the track is a self-avoiding chord-free walk from the start cell; the visited set is the track's cells; the map marks exactly them; the walk closed exactly when the current cell has two visited neighbours |
| CycleGen.PruneTail | map_gen.py:74-77 | a map that marks the whole track marks exactly the kept loop after the pruning pass |
| CycleGen.ClearBefore | map_gen.py:76-77 | clearing the track cells before a position leaves marked exactly the track from the larger of that position and the old start |
| CycleGen.GenCycle | map_gen.py:55-79 | once the walk closes, the returned map marks exactly a closed chordless track of at least four cells that is the tail of the walk; otherwise it marks the walk |
| Track.TrackTiles | map_gen.py:231 | on a closed track of at least four cells the tile layer has no unknown tile, "grass" exactly off the track, and a straight or a curve on every track cell |
| Track.TwoCellLoopUnknownTiles | map_gen.py:122-124 | a loop of two adjacent cells gives each cell one set flag, so both tiles are unknown |
| Track.ChordlessNeighbour | map_gen.py:74-77 | on a chordless loop, a loop cell adjacent to a loop cell is its cyclic predecessor or successor |
| Track.ChordlessNeighbourSet | map_gen.py:49-53 | on a map marking a chordless loop, a neighbour of a loop cell is set exactly when it is that cell's predecessor or successor |
| Track.ChordlessOccupancy | map_gen.py:134-139 | on a map marking a chordless loop, each loop cell's neighbour occupancy is the record that edge_path_to_grid gives it |
| Track.ChordlessCycleMapTiles | map_gen.py:141-174 | on the map gen_cycle returns, map_transform gives each cell the graph_transform tile of the loop's record: a straight or a curve on the loop and "grass" elsewhere |
| Placement.Candidate | map_gen.py:217-220 | the candidate of an attempt lies in the square of the chosen tile |
| Placement.Attempt | map_gen.py:216-223 | the attempts for one object use draws only from their window (fifty draws for each object) and accept at most one candidate |
| Placement.AttemptDrops | map_gen.py:216-223 | an object is dropped exactly when every candidate of its window is too close to an earlier object, and then the whole window is used |
| Placement.AttemptAccepts | map_gen.py:216-223 | an accepted object is the candidate of the last draw used, far enough from every earlier object, and every earlier candidate of its attempts was too close |
| Placement.AppendKeeps | map_gen.py:221-222 | appending a candidate far enough from all earlier objects keeps the objects on tiles, drawn and pairwise separated |
| Placement.AttemptKeeps | map_gen.py:216-223 | the attempts for one object keep the objects on tiles, drawn and pairwise separated |
| Placement.PlaceFromProps | map_gen.py:215-223 | placing further objects keeps every object on a tile, drawn and separated from every earlier one |
| Placement.PlaceFirst | map_gen.py:215-222 | with n > 0 the first object is placed, from the first draw: no earlier object can reject it |
| Placement.PlaceProps | map_gen.py:212-224 | the sampler returns at most n objects, each the candidate of a draw and on a tile, each farther than min_dist from every earlier one, the first one placed from the first draw |
| Placement.CoordClose | map_gen.py:217-220 | two coordinates on a grid of at most twelve tiles differ by less than 7.02 |
| Placement.PointsClose | map_gen.py:217-221 | two points on the tiles of a grid of at most 12 by 12 tiles are less than ten units apart |
| Placement.DefaultCallPlacesOne | map_gen.py:240 | gen_map's call, five objects at least ten units apart on the tiles of a grid of at most 12 by 12, places exactly one object |
| Placement.PlaceFromStep | map_gen.py:215-223 | one object's attempts lead from the sampler for m objects to the sampler for m - 1 |
| Placement.PlaceOne | map_gen.py:216-223 | the inner loop appends the first of up to fifty candidates that is far enough from every object placed so far; its result is the attempts function |
| Placement.ObjectPlacement | map_gen.py:212-224 | the result is the sampler function Place; at most n objects; each is the candidate of a draw and lies on a tile; each is farther than min_dist from every earlier one; with n > 0 the first attempt always succeeds |

## Left out

- `save_map` (YAML output), the argument parser, and `logging` are left out. An unknown tile
  is modelled only as its `""` result.
- `all_loops` is left out because it calls into networkx (`grid_2d_graph`, `simple_cycles`),
  which is not part of this model. The loop it yields is a parameter of `Track.TrackTiles`.
- `gen_map` is modelled only through the composition on its line 231 (`Track.TrackTiles`) and
  its call `object_placement(5, 10, edges)` on line 240 (`Placement.DefaultCallPlacesOne`).
  The random choice of a loop, the rotation drawn for each object and the wrapping of positions
  into object records are left out, because they are random draws and data formatting.
- `gen_cycle2` is left out: its behaviour depends on the iteration order of `set.pop()`, which
  Python does not specify, and nothing in the generator calls it.
- The program's global random generator is left out. Its draws are inputs: a start cell and a
  choice sequence for `gen_cycle`, and a draw stream for `object_placement`.
- CycleGen.GenCycle: the walk stops, unclosed, when the choice sequence runs out. The source
  loops until the walk closes, so the draw sequences on which it never stops are not modelled.
  On a grid one cell wide or one cell high the walk never closes, so the source never
  terminates there (`CycleGen.NarrowGridNeverCloses`).
- CycleGen.GenCycle requires a start cell inside the grid, so a grid of width or height 0 is
  not modelled: there `rand.randrange(0)` raises `ValueError` (map_gen.py:59-60).
- CycleGen.RandomWalk requires a start cell inside the grid for the same reason: a width or
  height of 0 makes `rand.randrange` raise `ValueError` (map_gen.py:59-60).
- Placement.ObjectPlacement requires 50 draws per object and offsets in [0, 1), which is what
  `random()` provides. Reals stand in for floats, so float rounding is not modelled. A negative
  object count is not modelled: `range(n)` then runs no iteration, and the count is a `nat`.
  An empty tile list with n > 0 is not modelled either: `rand.choice([])` raises `IndexError`
  (map_gen.py:219), and the model requires at least one tile when n > 0.
- Connectivity.EdgePathToGrid requires every path cell to lie in the grid. Python's negative
  indexing of an out-of-grid cell is not modelled.

## Findings

| source | as written | input that shows it | evidently intended | confidence | as-written member | corrected member |
|---|---|---|---|---|---|---|
| map_gen.py:127-132, 230-231 | `all_loops` builds a directed grid graph, which has both directions of every edge, so `simple_cycles` also yields two-cell cycles `[a, b]`; `gen_map` may pick one, and `edge_path_to_grid` then gives each of the two cells a single set flag, so `graph_transform` marks both tiles unknown (`""`) | any two adjacent cells, e.g. `[(0, 0), (1, 0)]` | only cycles of at least four cells are chosen as tracks, so that every track tile is a straight or a curve | medium (depends on networkx's `simple_cycles` listing two-cycles of a directed graph; not executed) | Track.TwoCellLoopUnknownTiles | Track.TrackTiles |
