# Tank maze: a verified Dafny model

This project models the core of a two-player tank maze game and proves
properties of that model. In the game, tanks drive through a tile maze.
Bullets damage breakable walls, and explosive walls clear their neighbours.
Enemy tanks follow A* paths and shoot when they have a line of sight. A small
relay server pairs the two players of a room with a four-digit room code.

The model follows the program's structure, one module per part of it:

- `Geometry` (geometry.dfy): the grid and world coordinates of the maze. Tiles
  are 50 units wide. `static_cast<int>` is truncation toward zero.
- `Cells` (cells.dfy): the wall kinds and attributes, and the map symbol of
  each tile.
- `MazeWorld` (maze.dfy): class `Maze` with its tile grid as an `array2`. It
  covers loading a map from text, rounded corners, circle collision, bullet
  hits with and without a result, explosions and the explosion area.
- `LineOfSight` (sight.dfy): the Bresenham walk of `checkLineOfSight` and
  `getFirstBlockedPosition`, as loops over the grid.
- `Pathfinding` (astar.dfy): `Maze::findPath`, an A* search over walkable
  tiles. The model proves that the route it returns is a shortest one.
- `MazeGeneration` (generator.dfy): the recursive-backtracker carving of
  `MazeGenerator::carvePassage` and the shuffles and sorts it uses.
- `MazePlacement` (placement.dfy): the later generation phases. These pick
  the start and exit, repair the path between them by BFS plus a corridor,
  and place enemies and destructible walls.
- `Generator` (mazegen.dfy): class `MazeGenerator`, its settings and
  `generate`, composed from the phases above.
- `Wire` (wire.dfy): the length-prefixed frame format shared by client and
  server, and little-endian `u16`.
- `NetClient` (netclient.dfy): class `NetworkManager`. It covers the client's
  connect, disconnect, room and maze packets, sending a position and a game
  result, the receive buffer and the decoding of server messages.
- `RoomServer` (server.dfy): the relay server as a pure state machine over
  rooms and sockets, with invariants about the seats of each room.
- `Relay` (relay.dfy): class `Server`, the same relay server as an object
  whose methods update the room table in place. It is proved against
  `RoomServer`.
- `EnemyAI` (enemy.dfy): class `Enemy`. It covers activation, damage, target
  selection, the path refresh and waypoint following of `update`, and the
  shooting decision.
- `Collisions` (collision.dfy): the `CollisionSystem` passes that resolve bullets
  against walls, tanks and enemies, in single-player and multiplayer games.
- `Wrappers` (wrappers.dfy): `Option`.

Randomness (`std::mt19937`, `Math.random`) is a parameter: a stream of
naturals and a position in it. Clocks are parameters too. Floats are `real`.

## Model

| member | source | states |
|---|---|---|
| Geometry.Trunc | src/Maze.cpp:460-463 | the integer cast truncates toward zero: below v for v ≥ 0, above v for v < 0, and 0 exactly on the open interval (-1, 1) |
| Geometry.TruncOfHalf | src/Maze.cpp:460-468 | a coordinate n + 0.5 truncates to n when n ≥ 0, but to n + 1 when n < 0 |
| Geometry.WorldToGrid | src/Maze.cpp:460-463 | a point of non-negative coordinates lands in the tile containing it; a negative coordinate lands one tile closer to zero than the tile containing it; column (row) 0 is exactly the open band less than one tile either side of the origin |
| Geometry.GridToWorld | src/Maze.cpp:465-468 | the point lies strictly inside tile g and halfway between its two edges in each direction |
| Geometry.GridRoundTrip | src/Maze.cpp:460-468 | worldToGrid(gridToWorld(g)) == g for every tile with non-negative coordinates; a negative coordinate comes back one step closer to zero |
| Geometry.Manhattan | src/Maze.cpp:482-485 | the A* heuristic is a natural number and is 0 exactly when the two tiles are the same |
| Geometry.DistSq | src/CollisionSystem.cpp:44-58 | the squared distance used in place of hypot and sqrt is never negative |
| Cells.CellOfKinds | src/Maze.cpp:45-122 | the map symbols, kind by kind in both directions: '#' is the only solid; '*', 'G', 'H' and 'B' are exactly the destructible ones, at full wall health; 'E' is the only exit; every other symbol is empty; G, H and B give gold, heal and explosive, every other symbol plain; no corner is rounded |
| MazeWorld.WidthUpTo | src/Maze.cpp:18-23 | the column count is at least every row's length and equals some row's length (0 for no rows) |
| MazeWorld.GridWidth | src/Maze.cpp:18-23 | the loop computes the length of the longest row |
| MazeWorld.ParseTiles | src/Maze.cpp:25-125 | a fresh rows × cols grid with every tile as its symbol says (default past a short row); spawn points from the 'X' tiles in row-major order; start, exit and the two player spawns from the last 'S', 'E', '1' and '2' tile, keeping the old start and exit and using the origin for the spawns when the symbol is absent |
| MazeWorld.ScanMarkersExact | src/Maze.cpp:105-108 | a point is a spawn point exactly when it is the centre of an 'X' tile scanned so far |
| MazeWorld.CentreNotOrigin | src/Maze.cpp:465-468 | no tile centre is the world origin, so the origin default never collides with a marker |
| MazeWorld.CornerRule | src/Maze.cpp:664-707 | a corner is rounded exactly when neither orthogonal neighbour that shares it is a wall |
| MazeWorld.LoadedBeforeRounding | src/Maze.cpp:10-129 | the tile loadFromString ends with is the parsed tile with its corner flags from calculateRoundedCorners (for solid, destructible and exit tiles) |
| MazeWorld.CornerIndex | src/Maze.cpp:257-265 | the corner zone is -1 (none) or one of the four corner numbers 0 to 3 |
| MazeWorld.Maze.constructor | src/Maze.cpp:6-8 | a new maze is empty: no rows, no columns, no map text, no spawn points, every marker at the origin |
| MazeWorld.Maze.IsWalkable | src/Maze.cpp:452-458 | false off the grid; on the grid, walkable exactly where isWall reports no wall |
| MazeWorld.Maze.IsWall | src/Maze.cpp:655-662 | true off the grid; on the grid, true on every tile but the empty and the exit ones |
| MazeWorld.Maze.Kinds | src/Maze.cpp:579 | a rows × cols snapshot of the tile kinds that agrees with the grid everywhere |
| MazeWorld.Maze.RowKinds | src/Maze.cpp:579 | row r of the kinds snapshot agrees with row r of the grid |
| MazeWorld.Maze.LoadFromString | src/Maze.cpp:10-129 | an empty map changes nothing. Otherwise the grid is rebuilt: as many rows as lines, as many columns as the longest line, each tile as its symbol says with its corners rounded, the spawn points from the 'X' tiles, start and exit from the last 'S' and 'E' (else kept), and the player spawns from '1' and '2' (else the origin) |
| MazeWorld.Maze.Rebuild | src/Maze.cpp:16-128 | the same rebuilt state as LoadFromString, for a map of at least one line |
| MazeWorld.Maze.CalculateRoundedCorners | src/Maze.cpp:664-707 | every solid, destructible or exit tile gets its corner flags from its four orthogonal neighbours in the grid before the call; no kind and no other tile changes |
| MazeWorld.Maze.CheckCollision | src/Maze.cpp:221-301 | true exactly when some solid or destructible tile in the circle's clamped bounding window touches the circle: by a rounded corner's circle in a rounded corner zone, and by the rectangle inset by 1 unit elsewhere |
| MazeWorld.Maze.BulletHit | src/Maze.cpp:303-336 | true exactly when the bullet's tile is on the grid and solid or destructible; the grid's snapshot becomes AfterHit of the snapshot before, whose rules HitRules states |
| MazeWorld.Maze.Hit | src/Maze.cpp:303-336 | the body of bulletHit leaves every tile as CellAfterHit says, read on the grid before |
| MazeWorld.Maze.BulletHitWithResult | src/Maze.cpp:338-398 | the same grid change as BulletHit, and the result HitRules describes |
| MazeWorld.Maze.HitWithResult | src/Maze.cpp:338-398 | the body of bulletHitWithResult leaves every tile as CellAfterHit says and reports HitResult, both read on the grid before |
| MazeWorld.Maze.Cells | src/Maze.cpp:303-336 | a rows × cols value snapshot of the grid that agrees with it tile by tile |
| MazeWorld.Maze.RowCells | src/Maze.cpp:303-336 | row r of the snapshot agrees with row r of the grid |
| MazeWorld.Maze.CellsAre | src/Maze.cpp:303-336 | a board of the grid's shape that agrees with it tile by tile is its snapshot |
| MazeWorld.AfterHit | src/Maze.cpp:303-336 | the grid after a hit has the grid's shape, every tile as CellAfterHit says |
| MazeWorld.Unhit | src/Maze.cpp:310-324 | a hit on a tile off the grid or not destructible leaves every tile as it was |
| MazeWorld.HitRules | src/Maze.cpp:303-398 | these are the bullet-hit rules: a miss (off the grid, empty or exit) changes nothing and reports the default result; a hit on a solid tile reports the tile centre and changes nothing; a destructible tile loses the damage, keeps its attribute and becomes empty exactly when its health drops to 0 or below; destroyed is reported exactly on that hit, with the tile's attribute (plain otherwise); the only other tiles that change are the destructible 8-neighbours of a destroyed explosive tile, which become empty |
| MazeWorld.Maze.HandleExplosion | src/Maze.cpp:400-423 | every in-bounds destructible 8-neighbour becomes empty with its health untouched; nothing else changes |
| MazeWorld.Maze.GetExplosionArea | src/Maze.cpp:425-442 | at most 8 points, and a point is in the area exactly when it is the centre of an in-bounds 8-neighbour; listed column offset first, then row offset |
| MazeWorld.Maze.AreaMembers | src/Maze.cpp:425-442 | after the first k offsets, the area holds exactly the centres of the in-bounds neighbours whose offset number is below k |
| MazeWorld.Maze.AreaLength | src/Maze.cpp:425-442 | each offset adds at most one point, and the centre offset adds none |
| MazeWorld.Maze.ExplosionColumn | src/Maze.cpp:430-439 | the inner loop adds the in-bounds neighbours of one column offset, in row order |
| MazeWorld.Maze.ExplosionCell | src/Maze.cpp:432-438 | one turn adds the neighbour's centre exactly when it is not the centre tile and is in bounds |
| LineOfSight.WalkStep | src/Maze.cpp:590-603 | each step away from the end moves at least one axis and moves neither past the end |
| LineOfSight.NoXPastEnd | src/Maze.cpp:593-598 | when the x steps are used up, the error term blocks any further x step |
| LineOfSight.NoYPastEnd | src/Maze.cpp:599-603 | when the y steps are used up, the error term blocks any further y step |
| LineOfSight.Trace | src/Maze.cpp:574-604 | the visited cells start with the cursor's cell |
| LineOfSight.TowardBetween | src/Maze.cpp:566-569 | u signed steps from v0 toward v1 stay between the two, and they reach v1 exactly after the full distance |
| LineOfSight.StartOnWalk | src/Maze.cpp:563-570 | the initial cursor is on the walk, with no step taken |
| LineOfSight.AdvanceOnWalk | src/Maze.cpp:590-603 | the walk stops exactly when both step counts are used up; otherwise one turn keeps it on the walk, one king step away, with more steps taken |
| LineOfSight.EndOnWalk | src/Maze.cpp:590-591 | the loop exit test holds exactly when both step counts are used up |
| LineOfSight.TraceEnds | src/Maze.cpp:574-604 | the walk ends at the end cell after at most the remaining steps |
| LineOfSight.TraceSteps | src/Maze.cpp:593-603 | consecutive cells of the walk touch by an edge or a corner |
| LineOfSight.TraceBox | src/Maze.cpp:574-604 | every visited cell lies in the bounding box of the two end cells |
| LineOfSight.LineShape | src/Maze.cpp:560-604 | the walk between two cells starts at the first and ends at the second. It has at most abs(dx) + abs(dy) + 1 cells, moves one king step at a time and stays in their bounding box |
| LineOfSight.BlockLevel | src/Maze.cpp:577-588 | a cell blocks sight at level 0, 1 or 2 |
| LineOfSight.Sight | src/Maze.cpp:572-606 | the line's blocking is 0, 1 or 2 |
| LineOfSight.SightMeaning | src/Maze.cpp:572-606 | checkLineOfSight is 2 exactly when an in-bounds solid tile is on the walk, and at least 1 exactly when some in-bounds wall tile is on it |
| LineOfSight.FirstBlockedAgreesWithSight | src/Maze.cpp:609-653 | with a clear line the first blocked position is `end`; otherwise it is the centre of a wall tile on the walk with no wall tile before it |
| LineOfSight.SightCons | src/Maze.cpp:577-588 | the walk's level is the larger of the current cell's level and the rest's |
| LineOfSight.FirstBlockedCons | src/Maze.cpp:627-634 | a wall at the current cell is the answer; otherwise the rest decides |
| LineOfSight.Cursors | src/Maze.cpp:574-604 | the loop states start at the initial one |
| LineOfSight.CursorsChain | src/Maze.cpp:590-603 | each loop state but the last is away from the end and is followed by its update; the visited cells are their cells |
| LineOfSight.LineCursorsEnds | src/Maze.cpp:574-604 | one loop state per visited cell, the first the initial one, the last at the end |
| LineOfSight.LineCursorAt | src/Maze.cpp:574-604 | loop state n is on visited cell n and, unless it is the last, is followed by its update |
| LineOfSight.SightSnoc | src/Maze.cpp:577-588 | extending the walk by one cell takes the larger of the two levels |
| LineOfSight.SightPrefix | src/Maze.cpp:577-588 | the level of n + 1 visited cells is that of n cells, raised by cell n |
| LineOfSight.FirstBlockedAfterClear | src/Maze.cpp:624-650 | after a clear prefix, the first blocked position is decided by the rest of the walk |
| LineOfSight.CheckLineOfSight | src/Maze.cpp:555-607 | the result is the strongest blocking on the walk between the two tiles |
| LineOfSight.SightWalk | src/Maze.cpp:563-606 | the loop returns the strongest blocking on the walk; it returns 2 early only when a solid tile is on it |
| LineOfSight.GetFirstBlockedPosition | src/Maze.cpp:609-653 | the result is the centre of the first wall tile on the walk, or `end` when there is none |
| LineOfSight.FirstBlockedWalk | src/Maze.cpp:615-652 | the loop returns the first blocked position of the walk |
| Pathfinding.WalkableInMaze | src/Maze.cpp:452-458 | isWalkable on the maze agrees with walkability on the snapshot of its tile kinds |
| Pathfinding.InWalkSet | src/Maze.cpp:452-458 | the finite set of walkable tiles holds exactly the walkable tiles |
| Pathfinding.Neighbour | src/Maze.cpp:504-505 | each of the four direction offsets gives a tile that shares an edge with the current one |
| Pathfinding.DirectionTo | src/Maze.cpp:532-534 | every edge-neighbour of a tile is reached by one of the four directions, so the neighbour loop misses none |
| Pathfinding.CellsOf | src/Maze.cpp:519 | the tiles of the path's points, one per point |
| Pathfinding.RouteReaches | src/Maze.cpp:515-523 | a route is a walk of walkable tiles from the start to the target |
| Pathfinding.Heuristic | src/Maze.cpp:482-485 | the heuristic is 0 exactly at the target |
| Pathfinding.ManhattanTriangle | src/Maze.cpp:482-485 | the heuristic obeys the triangle inequality |
| Pathfinding.WalkManhattan | src/Maze.cpp:482-485 | the heuristic never overestimates: from tile j of a walk, the walk's last tile is at most the steps left away |
| Pathfinding.DistinctFits | src/Maze.cpp:541-547 | a walk without repeated tiles is no longer than the set of tiles it uses; this bounds the improvements the search can make |
| Pathfinding.AvailShrinks | src/Maze.cpp:541-544 | lowering a recorded cost shrinks the total slack of all costs, which is the loop's termination measure |
| Pathfinding.BooksUpdate | src/Maze.cpp:541-546 | recording gc + 1 for a walkable neighbour keeps the predecessor records and cost histories consistent; the neighbour is never the start |
| Pathfinding.PopKeeps | src/Maze.cpp:509-510 | popping an entry keeps every other recorded tile accounted for by an open entry or as settled, and keeps the target's entry if it is not the one popped |
| Pathfinding.PickMin | src/Maze.cpp:496-509 | the popped entry has the least f-cost in the open set (any least entry, since ties are unordered) |
| Pathfinding.RecordKeeps | src/Maze.cpp:541-547 | one improvement keeps every search invariant and shrinks the termination measure |
| Pathfinding.TrackedUpdate | src/Maze.cpp:543-546 | lowering a cost and pushing its entry leaves every other tile accounted for |
| Pathfinding.SettleTile | src/Maze.cpp:532-548 | a tile with all four directions settled needs no open entry |
| Pathfinding.Relax | src/Maze.cpp:534-547 | one direction: a walkable neighbour that is unrecorded or recorded above gc + 1 gets cost gc + 1, the current tile as predecessor and an open entry; the search invariants hold and the measure does not grow |
| Pathfinding.Expand | src/Maze.cpp:532-548 | the whole neighbour loop settles all four directions of the expanded tile and keeps the search invariants |
| Pathfinding.Reconstruct | src/Maze.cpp:514-523 | following the predecessors from the target gives a route from the start (start excluded, target included), no longer than the target's recorded cost; it is empty when start and target coincide |
| Pathfinding.RoutePrepend | src/Maze.cpp:517-522 | putting the current tile in front of a route from it gives a route from its predecessor |
| Pathfinding.Frontier | src/Maze.cpp:507-549 | along any walk from the start, some tile is either open at a cost no above its place in the walk or settled within it |
| Pathfinding.MinBound | src/Maze.cpp:507-512 | the least f-cost in the open set is no more than the length of any walk from the start to the target |
| Pathfinding.SearchStep | src/Maze.cpp:507-548 | one turn of the loop either returns a shortest route (empty at the start tile) or keeps the search invariants and shrinks the measure |
| Pathfinding.Search | src/Maze.cpp:496-552 | from a walkable start to a walkable target: a shortest route when the target is reached, and empty only when no walk joins them |
| Pathfinding.Initially | src/Maze.cpp:500-501 | the state after pushing the start at cost 0 satisfies the search invariants |
| Pathfinding.Exhausted | src/Maze.cpp:507-552 | once the open set is empty the target is unreachable |
| Pathfinding.FindPath | src/Maze.cpp:470-553 | empty when either end is not walkable or both are the same tile. A non-empty result is the tile centres of a walk from the start tile (excluded) to the target tile that is at least as short as every other walk. Empty for two distinct walkable tiles means that no walk joins them |
| Pathfinding.PathOnTiles | src/Maze.cpp:470-553 | the same contract as FindPath, on a snapshot of the tile kinds |
| Pathfinding.NoneShorter | src/Maze.cpp:478-552 | the empty answer is never longer than a walk |
| MazeGeneration.SetAt | src/MazeGenerator.cpp:65-78 | writing one grid cell changes that cell and no other, and keeps the grid's shape |
| MazeGeneration.Swap | src/MazeGenerator.cpp:63 | one swap of std::shuffle is a permutation that exchanges the two positions |
| MazeGeneration.FisherYates | src/MazeGenerator.cpp:63 | the shuffle passes over a prefix give a permutation of the sequence, and keep distinct elements distinct |
| MazeGeneration.Shuffle | src/MazeGenerator.cpp:62-63 | std::shuffle gives a permutation of its input whatever the engine draws, and keeps distinct elements distinct |
| MazeGeneration.InsertDesc | src/MazeGenerator.cpp:131-133 | inserting into a list sorted farthest first keeps it sorted and adds exactly the new element |
| MazeGeneration.SortDesc | src/MazeGenerator.cpp:131-133 | std::sort by descending distance gives a permutation of its input, sorted farthest first |
| MazeGeneration.Paint | src/MazeGenerator.cpp:145-146 | exactly the listed cells are rewritten to the symbol, and the grid keeps its shape |
| MazeGeneration.WalkSurvives | src/MazeGenerator.cpp:33-42 | a walk stays a walk when every cell on it keeps a symbol from a wider allowed set |
| MazeGeneration.Gap | src/MazeGenerator.cpp:78 | the cell knocked through lies between the room and the room two steps away, next to each |
| MazeGeneration.JumpFacts | src/MazeGenerator.cpp:58-79 | a two-step jump from a room lands on a room, the gap between them is no room and the way back crosses the same gap, and an interior jump has an interior gap |
| MazeGeneration.UncarvedShrinks | src/MazeGenerator.cpp:75-79 | carving an uncarved interior room lowers the count of uncarved rooms, so the recursion ends |
| MazeGeneration.ShuffledDirections | src/MazeGenerator.cpp:62-63 | a shuffle of the four directions holds each direction exactly once |
| MazeGeneration.CarveKeeps | src/MazeGenerator.cpp:75-79 | knocking through the gap, carving the new room and pushing its call keep every carve invariant |
| MazeGeneration.ShapeKeeps | src/MazeGenerator.cpp:75-79 | a jump keeps the grid shape, the border, the stack frames and the spanning tree of carved rooms |
| MazeGeneration.TreeKeeps | src/MazeGenerator.cpp:78-79 | the new room joins the tree of carved rooms one level below the room it was reached from, with a carved gap to its parent |
| MazeGeneration.CarveJump | src/MazeGenerator.cpp:78-79 | carving the gap and the room changes exactly those two cells and lowers the uncarved count |
| MazeGeneration.BorderKeeps | src/MazeGenerator.cpp:73-79 | carving never touches the outer ring and writes only '.' |
| MazeGeneration.OwedKeeps | src/MazeGenerator.cpp:67-82 | every (room, direction) pair still owed a check is still pending on the recursion stack |
| MazeGeneration.Top | src/MazeGenerator.cpp:67-83 | the innermost call's frame is well formed, and its return once all four directions are tried keeps the invariants |
| MazeGeneration.Skip | src/MazeGenerator.cpp:73-76 | a direction that leads off the interior or to a carved room leaves nothing owed |
| MazeGeneration.Advance | src/MazeGenerator.cpp:67 | taking the next direction leaves less work and removes only that pair from the pending ones |
| MazeGeneration.CarveStep | src/MazeGenerator.cpp:55-83 | one turn of the recursion keeps the carve invariants and reduces either the uncarved rooms or the work left |
| MazeGeneration.Knock | src/MazeGenerator.cpp:75-79 | the recursive call: gap and room carved, a fresh shuffle and frame for the new room, invariants kept and one room fewer uncarved |
| MazeGeneration.Filled | src/MazeGenerator.cpp:25-26 | h rows of w copies of one symbol |
| MazeGeneration.CarveStart | src/MazeGenerator.cpp:26-65 | the first call at (1, 1) on a grid of walls meets the carve invariants |
| MazeGeneration.Carve | src/MazeGenerator.cpp:22-83 | after carvePassage(1, 1): the grid keeps its size and its untouched outer ring of walls, holds only '#' and '.', every interior room (odd x and y) is carved, and every carved cell is joined to (1, 1) through carved cells |
| MazeGeneration.AllRoomsCarved | src/MazeGenerator.cpp:67-82 | when no direction is owed anywhere, every interior room is carved |
| MazeGeneration.RoomCarved | src/MazeGenerator.cpp:67-82 | a room is carved when nothing is owed: by induction through the room to its left or above |
| MazeGeneration.RoomWalk | src/MazeGenerator.cpp:78-79 | following parent links from a carved room gives a walk back to the first room through carved cells |
| MazeGeneration.WalkExtend | src/MazeGenerator.cpp:78 | a walk extended by an allowed edge-neighbour of its end is still a walk from the same start |
| MazeGeneration.JoinedToRoot | src/MazeGenerator.cpp:55-83 | every carved cell is joined to the first room: rooms by their parent links, gaps through the room beside them |
| MazeGeneration.CellWalk | src/MazeGenerator.cpp:55-83 | a walk through carved cells from the first room to any carved cell |
| MazeGeneration.PassageRoom | src/MazeGenerator.cpp:78 | a carved cell that is not a room has a carved room next to it |
| MazePlacement.RowScanMembers | src/MazeGenerator.cpp:90-96 | the scan of one row keeps exactly the interior cells to the left of x that the filter accepts, each once |
| MazePlacement.ScanMembers | src/MazeGenerator.cpp:88-97 | the row-major scan keeps exactly the interior cells of the rows above y that the filter accepts, each once |
| MazePlacement.Collect | src/MazeGenerator.cpp:85-99 | the scan loops return the row-major list of accepted interior cells |
| MazePlacement.CollectRow | src/MazeGenerator.cpp:90-96 | the inner loop appends the accepted cells of row y in column order |
| MazePlacement.EmptySpaces | src/MazeGenerator.cpp:85-99 | getEmptySpaces lists each interior '.' cell exactly once, and no other cell |
| MazePlacement.Count | src/MazeGenerator.cpp:131-138 | a count of matching entries is at most the length |
| MazePlacement.CountPerm | src/MazeGenerator.cpp:116-133 | shuffling or sorting does not change how many entries match |
| MazePlacement.Ranks | src/MazeGenerator.cpp:122-128 | one (distance, cell) pair per cell after the start, with the Manhattan distance from the start |
| MazePlacement.RanksCount | src/MazeGenerator.cpp:122-128 | counting pairs beyond a distance counts the cells beyond it |
| MazePlacement.SortedCount | src/MazeGenerator.cpp:131-133 | in the list sorted farthest first, fewer entries than i's index are strictly farther than entry i |
| MazePlacement.TopCount | src/MazeGenerator.cpp:137 | topCount (30% of the candidates, truncated) is at least 1 and at most the number of candidates |
| MazePlacement.RankOthers | src/MazeGenerator.cpp:122-128 | the loop builds the pair for every empty cell after the first, in order |
| MazePlacement.StartAndEnd | src/MazeGenerator.cpp:101-147 | with fewer than two empty cells, the start is (1, 1) and the exit is (w - 2, h - 2). Otherwise both are distinct empty cells, and fewer than topCount empty cells lie strictly farther from the start than the exit. Only the start and exit cells change, and 'E' is written last |
| MazePlacement.PickStartAndEnd | src/MazeGenerator.cpp:116-143 | start and exit are two different empty cells, and the exit is among the topCount farthest from the start |
| MazePlacement.ExitFacts | src/MazeGenerator.cpp:119-143 | the chosen sorted entry is an empty cell other than the start, with at most its index of empty cells strictly farther away |
| MazePlacement.ExitMember | src/MazeGenerator.cpp:119-128 | every ranked entry is an empty cell other than the start, at its true distance |
| MazePlacement.ExitCount | src/MazeGenerator.cpp:131-138 | at most i empty cells lie strictly farther from the start than sorted entry i |
| MazePlacement.Visit | src/MazeGenerator.cpp:172-185 | one BFS turn queues the unvisited interior non-wall 4-neighbours, each with a recorded interior route from the start; afterwards every open 4-neighbour of the cell is visited; the visited set only grows, the old queue stays a prefix, and every newly visited cell is queued |
| MazePlacement.NeighbourCases | src/MazeGenerator.cpp:159-160 | the four offsets up, right, down, left are exactly the 4-neighbours |
| MazePlacement.ClosedAfterTurn | src/MazeGenerator.cpp:162-185 | taking a cell off the queue and giving it its turn keeps the BFS invariant that every visited cell no longer queued has all its open neighbours visited |
| MazePlacement.WalkStaysVisited | src/MazeGenerator.cpp:162-185 | with the queue empty, an interior passable walk that starts in the visited set never leaves it |
| MazePlacement.Unreachable | src/MazeGenerator.cpp:162-186 | when the queue runs dry with the exit unvisited, no interior passable walk joins the start to the exit |
| MazePlacement.Search | src/MazeGenerator.cpp:154-186 | the BFS reports the exit found exactly when some passable walk through interior cells joins the start to it (complete and sound), and then such a walk exists |
| MazePlacement.EnsurePath | src/MazeGenerator.cpp:149-211 | afterwards a walk through non-wall cells joins the start to the exit, and the only change is some walls inside their bounding box becoming '.'; when an interior passable walk already joined them, the grid and the random stream position are unchanged |
| MazePlacement.Corridor | src/MazeGenerator.cpp:189-210 | the fallback walk opens walls only inside the bounding box and leaves a passable walk from the start to the exit |
| MazePlacement.Dig | src/MazeGenerator.cpp:190-209 | one step opens the wall on the next cell, if any, and extends the passable walk onto it |
| MazePlacement.Placed | src/MazeGenerator.cpp:240-247 | the number of markers written: none for a count of 0 or below, otherwise the count capped at the number of candidates |
| MazePlacement.EnemyCells | src/MazeGenerator.cpp:213-248 | the enemy cells are distinct empty interior cells more than 5 steps from the start and more than 3 from the exit, as many as Placed says |
| MazePlacement.PlaceEnemies | src/MazeGenerator.cpp:213-248 | exactly the chosen candidates become 'X'; every other cell is unchanged |
| MazePlacement.MarkFirst | src/MazeGenerator.cpp:240-247 | the marking loop writes 'X' on the first Placed(count, n) cells in order and nothing else |
| MazePlacement.Roll | src/MazeGenerator.cpp:281 | a roll is a fraction in [0, 1) |
| MazePlacement.HasAdjacentPath | src/MazeGenerator.cpp:260-276 | true exactly when an on-grid 4-neighbour is '.', 'S' or 'E' |
| MazePlacement.NearPathKept | src/MazeGenerator.cpp:253-289 | the walls already turned into '*' do not change which walls lie beside a path, so reading the grid in place is the same as reading it on entry |
| MazePlacement.WallCell | src/MazeGenerator.cpp:257-286 | one eligible cell takes the next draw and becomes '*' when its roll is below the ratio; other cells take no draw |
| MazePlacement.WallStep | src/MazeGenerator.cpp:255-288 | one more cell of the row-major wall scan keeps the scan's account of writes and draws |
| MazePlacement.WallRow | src/MazeGenerator.cpp:253-289 | one more row of the wall scan keeps the account |
| MazePlacement.PlaceDestructibleWalls | src/MazeGenerator.cpp:250-290 | the eligible cells are the interior walls with a '.', 'S' or 'E' beside them on entry, in row-major order; the k-th draws once and turns into '*' when its roll is below the ratio; nothing else changes and one draw is used per eligible cell |
| MazePlacement.WallsOnlyNearPath | src/MazeGenerator.cpp:250-290 | only interior walls beside a path can become '*', and a ratio of 0 or less changes nothing |
| Generator.RewriteKeeps | src/MazeGenerator.cpp:39-42 | the enemy and wall phases keep the outer ring, the start and exit marks, and add only '.', 'X' and '*' |
| Generator.JoinedKept | src/MazeGenerator.cpp:39-42 | a walk joining two cells survives a rewrite that keeps each of its cells within the wider allowed set |
| Generator.BoxInterior | src/MazeGenerator.cpp:189-210 | the bounding box of two interior cells is interior, so the corridor never touches the outer ring |
| Generator.Build | src/MazeGenerator.cpp:25-42 | the five phases in order give a grid of the right size with walls all round, the marks in place, and a walk from the start to the exit through passages, enemies and the marks |
| Generator.AfterPath | src/MazeGenerator.cpp:36 | ensurePath keeps the grid's layout, since it opens walls only inside the interior box |
| Generator.AfterEnemies | src/MazeGenerator.cpp:39 | placing enemies keeps the layout and keeps the start joined to the exit, with 'X' now walkable |
| Generator.AfterWalls | src/MazeGenerator.cpp:42 | placing destructible walls keeps the layout and the walk, since it only rewrites walls |
| Generator.Marks | src/MazeGenerator.cpp:33-146 | after placeStartAndEnd the marks are in and every other cell is as carved |
| Generator.MazeGenerator.constructor | src/MazeGenerator.cpp:5-15 | an even width or height grows by one, so both are odd; the engine starts on the clock's stream; 5 enemies and a destructible ratio of 0.15 by default; start and exit at (1, 1) |
| Generator.MazeGenerator.SetSeed | src/MazeGenerator.cpp:17-20 | the engine restarts on the stream of the new seed; no other setting changes |
| Generator.MazeGenerator.SetEnemyCount | src/include/MazeGenerator.hpp:19 | sets the enemy count; no other setting changes |
| Generator.MazeGenerator.SetDestructibleRatio | src/include/MazeGenerator.hpp:22 | sets the destructible-wall ratio; no other setting changes |
| Generator.MazeGenerator.Generate | src/MazeGenerator.cpp:22-53 | height rows of width symbols. Walls run all round the edge. The exit is marked once, and the start once unless the exit overwrote it. A walk through passages, enemies and the two marks joins the start to the exit. The sizes and settings are unchanged |
| Wire.Bytes | src/NetworkManager.cpp:94-97 | one byte per character of a text |
| Wire.Text | src/NetworkManager.cpp:362 | one character per byte |
| Wire.TextRoundTrip | src/NetworkManager.cpp:94-97 | bytes turned into text turn back into the same bytes, and a text of one-byte characters survives the other way |
| Wire.U16 | src/NetworkManager.cpp:291-293 | a 16-bit field is two bytes |
| Wire.ReadU16 | src/NetworkManager.cpp:316 | a little-endian field reads as a number in [0, 65536) |
| Wire.U16RoundTrip | src/NetworkManager.cpp:291-316 | writing a number and reading it back gives its low 16 bits, so the number itself when it fits |
| Wire.U16OfRead | server/server.js:44 | two bytes are the encoding of the field they hold |
| Wire.TakeFrame | src/NetworkManager.cpp:314-330 | with a complete frame at the front, the frames of the buffer are that payload followed by the frames of the rest |
| Wire.RemainderIncomplete | src/NetworkManager.cpp:314-330 | what the loop leaves in the buffer never holds a complete frame |
| Wire.FrontFrame | server/server.js:41-47 | a frame written at the front of a buffer reads back with its length and payload, followed by the rest |
| Wire.FrameOfFront | server/server.js:328-333 | a buffer with a complete frame at its front is that frame followed by the rest |
| Wire.Reassembly | server/server.js:324-341 | the buffer is exactly its complete frames written back to back, followed by what is left |
| Wire.JoinFront | server/server.js:328-333 | one frame in front of a reassembled rest reassembles the whole buffer |
| Wire.SplitFramed | server/server.js:324-341 | frames written back to back, followed by an incomplete tail, come apart into the same payloads and the same tail |
| Wire.TwoFrames | server/server.js:328-340 | two frames in one read deliver the first payload, then the second, and leave nothing |
| Wire.SplitAppend | server/server.js:324-341 | how the bytes are cut into socket reads does not matter: the frames of a buffer plus a read are the frames already taken, then the frames of the old remainder plus the read |
| NetClient.NetworkManager.constructor | src/include/NetworkManager.hpp:147-159 | a new client is disconnected, with no room code, an empty buffer, nothing sent and no callbacks |
| NetClient.NetworkManager.SendPacket | src/NetworkManager.cpp:285-300 | when connected, exactly one frame of the payload is written; otherwise nothing; no other state changes |
| NetClient.NetworkManager.Connect | src/NetworkManager.cpp:11-49 | true exactly when the connection is established; a bad address or a refused connection reports its error and sends nothing; success sends a Connect packet and calls the connected callback |
| NetClient.NetworkManager.Disconnect | src/NetworkManager.cpp:51-69 | a Disconnect packet only when connected, then disconnected with the room code and buffer cleared, and the disconnected callback |
| NetClient.NetworkManager.CreateRoom | src/NetworkManager.cpp:71-85 | when connected, one CreateRoom frame with the maze width and height as 16-bit little-endian fields; otherwise nothing |
| NetClient.NetworkManager.JoinRoom | src/NetworkManager.cpp:87-100 | when connected, one JoinRoom frame with the code's length byte and its characters; otherwise nothing |
| NetClient.NetworkManager.SendPosition | src/NetworkManager.cpp:102-124 | when connected, one PlayerUpdate frame with the five floats and the reached-exit flag; otherwise nothing |
| NetClient.NetworkManager.SendGameResult | src/NetworkManager.cpp:155-163 | when connected, one GameResult frame with the local-win flag; otherwise nothing |
| NetClient.NetworkManager.SendMazeData | src/NetworkManager.cpp:253-276 | when connected, one MazeData frame: the row count, then each row's 16-bit length and its characters; otherwise nothing |
| NetClient.NetworkManager.ReceiveData | src/NetworkManager.cpp:302-340 | a non-empty read is appended and every complete frame of the buffer is processed in order; what is left is the incomplete remainder; a closed peer disconnects with the callback; an empty read changes nothing |
| NetClient.NetworkManager.DrainFrames | src/NetworkManager.cpp:314-330 | the loop processes exactly the complete frames of the buffer, in order, and leaves the remainder |
| NetClient.NetworkManager.NextFrame | src/NetworkManager.cpp:316-325 | one pass takes the first frame off and processes it, keeping the loop's account and shrinking the buffer |
| NetClient.NetworkManager.ProcessMessage | src/NetworkManager.cpp:342-569 | the callbacks the message calls and the room code it sets, as the message-type table says |
| NetClient.AppendText | src/NetworkManager.cpp:270-272 | the push_back loop appends the text's bytes in order |
| NetClient.DecodeMaze | src/NetworkManager.cpp:405-433 | the MazeData decoder returns the rows of the message |
| NetClient.DecodeRow | src/NetworkManager.cpp:415-425 | one turn reads a length and the row when it is all there, and moves forward by at least the length field |
| NetClient.RowsFromStep | src/NetworkManager.cpp:415-425 | a row that fits is taken and the offset moves past it; one that does not fit is skipped, and only its length field is consumed |
| NetClient.ReactionsSnoc | src/NetworkManager.cpp:314-330 | processing one more message appends its callbacks |
| NetClient.DrainStep | src/NetworkManager.cpp:316-325 | taking the first frame off and processing it keeps the loop invariant |
| NetClient.DecodeEncoded | src/NetworkManager.cpp:415-425 | encoded rows, whatever follows them, decode back to themselves |
| NetClient.FirstRow | src/NetworkManager.cpp:417-423 | an encoded row reads back with its length and its characters, followed by the rest |
| NetClient.MazeRoundTrip | src/NetworkManager.cpp:253-433 | sendMazeData followed by the MazeData decoder gives back the maze, delivered to the maze callback |
| NetClient.DecoderInBounds | src/NetworkManager.cpp:415-425 | the decoder takes no more rows than announced and reads nothing past the end of the message |
| NetClient.SizeGuards | src/NetworkManager.cpp:443-556 | a PlayerUpdate (22 bytes), PlayerShoot (13), GameResult (2), NpcActivate (3), NpcUpdate (24), NpcShoot (14) or NpcDamage (6) message is ignored exactly when it is shorter than its minimum size, and otherwise calls exactly one callback |
| NetClient.GuardedFloats | src/NetworkManager.cpp:443-556 | past each size guard every float is read whole from its offsets; readFloat's 0.0 fallback is never taken |
| NetClient.PositionRoundTrip | src/NetworkManager.cpp:443-460 | the state sendPosition sends is the state the peer's callback receives |
| NetClient.GameResultNegated | src/NetworkManager.cpp:481-493 | the peer receives the negated flag: the sender's win is the receiver's loss |
| NetClient.RoomReplyDecoded | src/NetworkManager.cpp:357-395 | a room reply with a code of 1 to 255 bytes calls back with that code; RoomCreated and RoomJoined set the room code to it, RoomError keeps it |
| NetClient.TextOverrunAsWritten | src/NetworkManager.cpp:359-362 | the three-byte RoomCreated message [RoomCreated, 4, '1'] passes the size check as written, yet the four-byte code it copies ends past the message |
| NetClient.ShortReplyIgnored | src/NetworkManager.cpp:357-395 | with the length checked too, a room reply cut short is ignored and the room code is kept |
| NetClient.ReactionsAppend | src/NetworkManager.cpp:314-330 | processing two batches of messages gives the callbacks of the first, then of the second |
| NetClient.TwoReadsAsOne | src/NetworkManager.cpp:302-331 | two reads processed one after the other call the same callbacks, in the same order, and leave the same buffer as one read of both |
| RoomServer.Digits | server/server.js:35-38 | a room code is the draw written as four decimal digits |
| RoomServer.DigitsRoundTrip | server/server.js:35-38 | every code is four decimal digits, the first not zero, and spells the draw it came from, so distinct draws give distinct codes |
| RoomServer.FreshCode | server/server.js:80-83 | the do/while loop yields the first drawn code that is not a room yet, with the draws after it; every earlier draw named a room; None only when every draw names a room |
| RoomServer.JoinCode | server/server.js:147-148 | data.slice(2, 2 + data[1]) is the announced number of bytes after the length byte, cut at the end of the message, and empty when the length byte is missing |
| RoomServer.FindRole | server/server.js:129 | find returns the first entry with the role asked for, or nothing when no entry has it |
| RoomServer.FindId | server/server.js:245 | find returns the first entry of the socket, or nothing when it has none |
| RoomServer.Without | server/server.js:351 | filter keeps exactly the entries of the other sockets |
| RoomServer.Deliveries | server/server.js:50-56 | every packet carries the data unchanged and none goes to the skipped socket |
| RoomServer.RoomOf | server/server.js:111-115 | the socket's room is its roomCode when that is set and still names a room |
| RoomServer.Handle | server/server.js:59-316 | one message from one socket dispatched on its type; no socket is added or removed |
| RoomServer.CreateRoomStep | server/server.js:74-107 | CreateRoom keeps every stored maze and every socket; fewer than five bytes make readUInt16LE throw and the message is dropped |
| RoomServer.MazeDataStep | server/server.js:109-144 | MazeData changes at most the sender's room, and only when the sender is marked host |
| RoomServer.JoinRoomStep | server/server.js:146-211 | JoinRoom keeps every stored maze, every socket and the draws |
| RoomServer.Admit | server/server.js:172-209 | the success path of JoinRoom keeps every stored maze |
| RoomServer.RelayStep | server/server.js:213-314 | relayed messages change no state |
| RoomServer.ReachExitStep | server/server.js:237-266 | ReachExit changes only flags and keeps every socket and stored maze |
| RoomServer.RestartStep | server/server.js:281-298 | RestartRequest changes only flags and keeps every socket and stored maze |
| RoomServer.HandleAll | server/server.js:328-340 | the messages of one socket, one after the other, keep the set of sockets |
| RoomServer.CloseStep | server/server.js:343-380 | closing removes exactly the closing socket and takes no draw |
| RoomServer.SeatsAgree | server/server.js:351-361 | two entry lists with the same seats agree on who holds an entry, in which role, and on there being one host |
| RoomServer.MarkKeepsSeats | server/server.js:247 | marking an entry as at the exit keeps the seats |
| RoomServer.ReseatKeeps | server/server.js:121-292 | replacing a room by one with the same seats and a maze that fits a frame keeps the server invariant |
| RoomServer.LeaveSeats | server/server.js:351 | taking a socket's entries out keeps every other socket's entries, and shrinks the list when the socket had one |
| RoomServer.CreateKeeps | server/server.js:74-107 | a new room under an unused code, holding its creator as host, keeps the invariant |
| RoomServer.AppendSeats | server/server.js:172 | appending an entry keeps every entry already there |
| RoomServer.JoinKeeps | server/server.js:146-211 | JoinRoom keeps the invariant |
| RoomServer.JoinedRoom | server/server.js:172-174 | seating the joiner as guest of a one-player room keeps the invariant |
| RoomServer.HandleKeeps | server/server.js:59-316 | handling any message keeps the invariant: every room has at most two entries and one host, every socket in a room holds an entry there, and a started room has a maze |
| RoomServer.HandleSendable | server/server.js:59-316 | everything a message makes the server send fits the 16-bit length of a frame |
| RoomServer.JoinSendable | server/server.js:146-211 | all JoinRoom replies fit a frame |
| RoomServer.AdmitSendable | server/server.js:179-209 | the join reply, the stored maze and the signals fit a frame |
| RoomServer.MazeSendable | server/server.js:109-144 | the maze and GameStart fit a frame |
| RoomServer.CloseSendable | server/server.js:371-375 | PlayerLeft fits a frame |
| RoomServer.Remaining | server/server.js:351-368 | what a leaver leaves in a room: at most one entry, someone else's, in its role; the host's entry when the leaver was the guest; nothing when the leaver held both |
| RoomServer.ClearKeepsSeats | server/server.js:358-361 | clearing the flags keeps the seats |
| RoomServer.DeletedRoom | server/server.js:353-355 | the last socket of a room leaves: the room goes and the invariant holds |
| RoomServer.GuestLeft | server/server.js:351-375 | a guest leaving a room that keeps an entry keeps the invariant |
| RoomServer.HostLeft | server/server.js:363-368 | the host leaving a room that keeps one entry makes that entry host; marking its socket host keeps the invariant, and keeps hosts seated only when the socket's room is this one |
| RoomServer.CloseKeeps | server/server.js:343-380 | closing keeps the invariant under either promotion rule, and with the corrected rule a socket marked host still holds its room's host entry |
| RoomServer.DeliveriesReach | server/server.js:50-56 | a broadcast reaches exactly the room's sockets other than the one skipped |
| RoomServer.WrittenFramed | server/server.js:41-47 | what the server writes to a socket is the frames of its payloads back to back |
| RoomServer.ClientReceives | server/server.js:41-47 | what the server writes to a socket reaches the client's receive loop as the same payloads in the same order, with nothing left over |
| RoomServer.JoinRefused | server/server.js:150-170 | JoinRoom to an unknown code or a full room changes nothing, sends one reply to the sender only, and the client reads it as "Room not found" or "Room is full" |
| RoomServer.NotFoundDecoded | server/server.js:153-158 | the client reads the unknown-code refusal as its text |
| RoomServer.FullDecoded | server/server.js:163-168 | the client reads the full-room refusal as its text |
| RoomServer.RefusalDecoded | server/server.js:154-157 | a RoomError carrying a one-byte-per-character text is read back as that text |
| RoomServer.JoinAdmitted | server/server.js:172-209 | joining a one-player room seats the sender as its guest, so the room holds two, and replies RoomJoined with the code. With a stored maze the game starts: the joiner gets the maze and everyone gets GameStart. Otherwise only the host is asked for the maze |
| RoomServer.MazeStored | server/server.js:109-144 | MazeData is ignored unless the sender is marked host and has a room. Then it is stored, and when a second player is waiting the game starts: the guest gets the maze and everyone gets GameStart. Nothing is sent otherwise |
| RoomServer.MazeOnlyFromHost | server/server.js:117-121 | with the corrected close handler, a room's stored maze changes only on a MazeData from the socket that holds that room's host entry |
| RoomServer.RelayRules | server/server.js:213-314 | relayed messages change nothing and go unchanged only to the others, only in a started room, and to all of them there |
| RoomServer.MarkedSends | server/server.js:245-264 | marking the sender keeps the seats; GameWin goes to everyone exactly when all have reached the exit; the message goes to the others |
| RoomServer.ReachExitRules | server/server.js:237-266 | ReachExit in a started room marks the sender and sends GameWin to everyone exactly when every player has now reached the exit; the message goes to the others either way |
| RoomServer.RestartRules | server/server.js:281-298 | RestartRequest puts the room back to waiting with every flag cleared and the seats kept, and tells the others |
| RoomServer.Survivor | server/server.js:358-375 | the one entry left is not the leaver's, is the one host, has its flag cleared and is told PlayerLeft |
| RoomServer.CloseRules | server/server.js:343-380 | closing removes the socket's entries. The room is deleted exactly when no one else was in it. Otherwise it is waiting again, with one host and every flag clear, and everyone left in it gets PlayerLeft |
| RoomServer.CodeRoundTrip | server/server.js:101-148 | a code the server sends back is the code the client keeps, and that code sent in JoinRoom names the same room again |
| RoomServer.CreatedCodeReachesClient | server/server.js:74-107 | CreateRoom makes a room under a fresh code with the sender as host and the maze size read from the message, and the client keeps the code it is sent |
| RoomServer.DrawnCodes | server/server.js:36 | the draws 1001 and 1003 give the codes "1001" and "1003" |
| RoomServer.PreludeReached | server/server.js:74-211 | the four messages of the run (A creates 1001, B joins, C creates 1003, B joins 1003) reach the state before A's close, which keeps the invariant |
| RoomServer.HostMarkedAsWritten | server/server.js:364-368 | as written, B ends marked host while holding only the guest entry of its room 1003 |
| RoomServer.MazeFromGuest | server/server.js:109-121 | as written, B's MazeData is stored in room 1003; corrected, it changes nothing |
| RoomServer.HijackAsWritten | server/server.js:364-368 | as written, A's close marks B host although B is the guest of room 1003, breaking the invariant that a socket marked host holds its room's host entry; corrected, B's MazeData changes nothing |
| Relay.Server.constructor | server/server.js:31-32 | a server with no room and no socket, holding the draws it will be given |
| Relay.Server.Open | server/server.js:319-322 | a new socket gets no room, is not host, has an empty buffer, and the invariant holds |
| Relay.Server.SendMessage | server/server.js:41-47 | one frame for the socket is appended to what has been written, and nothing else changes |
| Relay.Server.Deliver | server/server.js:50-56 | the loop over the players writes exactly Deliveries: the data to each player except the one skipped, in order |
| Relay.Server.ClearExits | server/server.js:289-291 | the loop leaves every entry with its flag cleared |
| Relay.Server.GenerateCode | server/server.js:80-83 | the do/while loop returns FreshCode's code and consumes exactly its draws |
| Relay.Server.CreateRoom | server/server.js:74-107 | performs CreateRoomStep on the fields and writes what it sends |
| Relay.Server.MazeData | server/server.js:109-144 | performs MazeDataStep on the fields and writes what it sends |
| Relay.Server.BeginGame | server/server.js:129-140 | writes the maze to the guest when there is one, then GameStart to every player |
| Relay.Server.SendToGuest | server/server.js:129-132 | writes the maze to the first guest entry, or nothing when there is none |
| Relay.Server.JoinRoom | server/server.js:146-211 | performs JoinRoomStep on the fields and writes what it sends |
| Relay.Server.Admit | server/server.js:172-209 | performs the success path of JoinRoom on the fields |
| Relay.Server.StartGame | server/server.js:179-199 | writes RoomJoined and the maze to the joiner, then GameStart to every player |
| Relay.Server.RequestMaze | server/server.js:200-209 | writes RequestMaze to the first host entry, or nothing when there is none |
| Relay.Server.Relay | server/server.js:213-314 | performs RelayStep: the message to the others once started, and no state change |
| Relay.Server.ReachExit | server/server.js:237-266 | performs ReachExitStep on the fields and writes what it sends |
| Relay.Server.Reached | server/server.js:251-264 | writes GameWin to everyone exactly when every flag is set, then the message to the others |
| Relay.Server.Restart | server/server.js:281-298 | performs RestartStep on the fields and writes what it sends |
| Relay.Server.HandleMessage | server/server.js:59-316 | performs Handle on the fields and keeps the invariant, including that every write fits a frame |
| Relay.Server.OnData | server/server.js:324-341 | handles every complete frame of buffer plus read, in order, exactly as HandleAll does; the incomplete tail stays as the buffer, and the invariant holds |
| Relay.Server.Close | server/server.js:343-380 | performs the corrected CloseStep, drops the socket's buffer and keeps the invariant |
| Relay.Opened | server/server.js:319-322 | a socket with neither property set keeps the invariant |
| Relay.DeliveriesStep | server/server.js:52-55 | one step of the players loop: what the current player is sent, then the rest |
| Relay.DrainStart | server/server.js:325-328 | before any frame is taken off, the drain loop's invariant holds |
| Relay.DrainStep | server/server.js:328-340 | taking the front frame off and handling it keeps the drain loop's invariant |
| Relay.DrainEnd | server/server.js:328-340 | once no complete frame is left, every message is handled and the tail is the remainder |
| Relay.HandleStep | server/server.js:328-340 | handling a message followed by the rest equals handling it, then the rest |
| EnemyAI.ChooseRoute | src/Enemy.cpp:133-174 | the smart route is kept exactly when it is non-empty and there is no normal route, or it crosses a wall and is less than half as long; otherwise the normal route, with no wall. No route only when neither search found one, and a route with a wall is the smart one and shorter than half the normal one |
| EnemyAI.Los | src/Maze.cpp:555-621 | the line-of-sight code is 0, 1 or 2 |
| EnemyAI.RankMinimal | src/Enemy.cpp:286-313 | no candidate and not the loop's starting point beats the target the loop picks |
| EnemyAI.RankFirst | src/Enemy.cpp:298-312 | the pick is the starting point, or a candidate that beats it and strictly beats every candidate before it, so among equals the earliest wins |
| EnemyAI.RankSighted | src/Enemy.cpp:302-313 | the pick's code is 0, 1 or 2, and below 2 it is the line-of-sight code to the picked target |
| EnemyAI.Candidates | src/Enemy.cpp:292-296 | the loop runs over m_targets, or over m_targetPos alone when the list is empty, never over nothing |
| EnemyAI.AimMeaning | src/Enemy.cpp:316-355 | there is a shot exactly when the target or the route's wall is not behind a solid wall. A clear target or clear wall is aimed at directly; otherwise the shot goes to the first destructible wall on the line |
| EnemyAI.Nearest | src/Enemy.cpp:474-484 | the index picked lies within the list |
| EnemyAI.NearestMeaning | src/Enemy.cpp:474-484 | nothing is nearer than the pick and everything before it is strictly farther |
| EnemyAI.Enemy.constructor | src/Enemy.cpp:7-16 | full health (100), not activated, no sprites, team 0, no path and no target |
| EnemyAI.Enemy.Activate | src/Enemy.cpp:65-74 | the first call activates and sets the team; later calls change nothing |
| EnemyAI.Enemy.CheckAutoActivation | src/Enemy.cpp:444-465 | an inactive enemy wakes up in team 0 exactly when the player is nearer than 450; an active one is left alone |
| EnemyAI.Enemy.SetTarget | src/Enemy.cpp:94-97 | the target becomes the point given |
| EnemyAI.Enemy.SetTargets | src/Enemy.cpp:467-486 | the list is kept and, when non-empty, its nearest point, the first on ties, becomes the target; an empty list keeps the old target |
| EnemyAI.Enemy.TakeDamage | src/Enemy.cpp:439-442 | health drops by the damage, and the enemy is dead afterwards exactly when the damage is at least the health it had |
| EnemyAI.Enemy.Position | src/Enemy.cpp:387-390 | the hull's position once the sprites exist, the origin before |
| EnemyAI.Enemy.IsDead | src/include/Enemy.hpp:32 | dead exactly when health is not above zero |
| EnemyAI.Enemy.ShouldShoot | src/Enemy.cpp:421-437 | fires exactly when activated, with a valid target and the cooldown run out, and then restarts the cooldown |
| EnemyAI.Enemy.RefreshPath | src/Enemy.cpp:121-175 | the normal route is a findPath answer (PathAnswer) from the enemy's tile to its target's, the route kept is ChooseRoute of it and the smart route, the waypoint index is 0 and the path clock is now |
| EnemyAI.Enemy.NormalPath | src/Enemy.cpp:123-124 | everything findPath promises between the two tiles (PathAnswer): empty when an end is not walkable or they coincide, otherwise a shortest route, and empty otherwise only when the target cannot be reached |
| EnemyAI.Enemy.Follow | src/Enemy.cpp:133-174 | the branches on the two routes compute ChooseRoute |
| EnemyAI.Enemy.PassWaypoint | src/Enemy.cpp:180-197 | the waypoint index moves on by one exactly when the current waypoint is nearer than 20 |
| EnemyAI.Enemy.SelectTarget | src/Enemy.cpp:286-313 | the target loop over the candidates from the hull picks what Rank picks |
| EnemyAI.Enemy.RankTargets | src/Enemy.cpp:298-312 | the loop with its strict comparison picks what Rank picks |
| EnemyAI.Enemy.ShotFor | src/Enemy.cpp:316-355 | the branches on bestLOS give exactly the aim Aim defines |
| EnemyAI.Enemy.Decide | src/Enemy.cpp:286-355 | the kept code is the pick's, there is a valid target exactly when there is a shot, and the shoot target is the shot or stays |
| EnemyAI.Enemy.Advance | src/Enemy.cpp:117-284 | RouteRule: when the path clock has run out or the path is empty (Stale) the route becomes ChooseRoute of the smart route and a findPath answer from the enemy's tile to its target's, and the clock restarts; otherwise route and clock stay. WaypointRule: the waypoint index starts from 0 after a refresh and from its old value otherwise, and moves on by one when that waypoint is nearer than 20 to the old hull position. The hull ends where the movement code took it |
| EnemyAI.Enemy.Step | src/Enemy.cpp:117-355 | an update of an active enemy: the route and waypoint rules of Advance (RouteRule, WaypointRule), then the pick and the shot from the new position (Aimed) |
| EnemyAI.Enemy.Update | src/Enemy.cpp:99-375 | without sprites or before activation nothing changes; otherwise only the route, path clock, hull and aim fields may change (targets, health and team stay), the hull is where the movement code put it, the route follows RouteRule, the waypoint index follows WaypointRule, and the pick and shot are those from that position (Aimed) |
| Collisions.FirstNpc | src/CollisionSystem.cpp:187-231 | the NPC found lies at or after the index the loop starts from |
| Collisions.FirstNpcMeaning | src/CollisionSystem.cpp:187-231 | the NPC found is struck and none before it is; when none is found, none is struck |
| Collisions.SingleRules | src/CollisionSystem.cpp:60-106 | spent bullets are skipped; a wall stops a live bullet first; only enemy bullets hit the player; only player bullets hit enemies, the first one they are inside of, and such a bullet inside any enemy always hits one |
| Collisions.MultiRules | src/CollisionSystem.cpp:115-231 | spent bullets are skipped and a wall stops a live one first. The local player is hit exactly by team-0 or other-team enemy bullets that touch it, never by its own. The other player is hit only by local bullets or the local team's. An NPC is hit only when activated, alive, not team 0 and of a team the bullet may hit (never the local team for local bullets), and only the first such. The hit takes health exactly for local bullets, or for NPC bullets on the host |
| Collisions.Mark | src/CollisionSystem.cpp:78-227 | only the alive flag of a bullet changes, and a bullet that hit something is spent |
| Collisions.Marked | src/CollisionSystem.cpp:70-106 | marking the bullets keeps their number |
| Collisions.Reward | src/CollisionSystem.cpp:15-42 | an effect exactly when a gold or heal wall was destroyed: 2 coins for gold, a quarter heal for heal |
| Collisions.SinglePass | src/CollisionSystem.cpp:70-106 | one fate per bullet, and the NPC list keeps its length |
| Collisions.MultiPass | src/CollisionSystem.cpp:128-232 | one fate per bullet, the NPC list keeps its length, and each bullet sends at most one damage message and earns at most one reward |
| Collisions.MultiPassHealthOnly | src/CollisionSystem.cpp:187-231 | a pass changes only the health of NPCs |
| Collisions.MultiPassSpares | src/CollisionSystem.cpp:189-208 | an NPC of team 0, not activated or already dead leaves the pass as it came |
| Collisions.GuestLeavesNpcBullets | src/CollisionSystem.cpp:214-225 | on a client that is not the host, NPC bullets never take an NPC's health and never send damage |
| Collisions.OwnBulletsSparePlayer | src/CollisionSystem.cpp:137-173 | the local player's own bullets never take its health, and enemy bullets never earn wall rewards |
| Collisions.SingleSidesApart | src/CollisionSystem.cpp:82-105 | in single player the player's bullets never take the player's health and the enemies' bullets never take an enemy's |
| Collisions.SinglePassSideStep | src/CollisionSystem.cpp:82-105 | the same for one bullet |
| Collisions.MultiPassAccounts | src/CollisionSystem.cpp:128-232 | each NPC ends with its health minus the damage of the bullets whose damaging hit was on it, and the player with its health minus the damage of the bullets that hit it |
| Collisions.SinglePassAccounts | src/CollisionSystem.cpp:70-106 | the same accounting for a single-player pass |
| Collisions.LiveMeaning | src/CollisionSystem.cpp:108-112 | the erase keeps exactly the live bullets and never adds one |
| Collisions.LiveAppend | src/CollisionSystem.cpp:108-112 | the erase keeps the order: the survivors of two runs are the survivors of each, one after the other |
| Collisions.Tank.TakeDamage | src/Tank.cpp:134-137 | health drops by the damage |
| Collisions.Tank.AddCoins | src/CollisionSystem.cpp:22-25 | a coin reward is recorded |
| Collisions.Tank.Heal | src/CollisionSystem.cpp:27-30 | a heal is recorded |
| Collisions.HandleWallDestroyEffect | src/CollisionSystem.cpp:15-42 | the shooter, when there is one, receives exactly the reward of the result |
| Collisions.Snapshot | src/CollisionSystem.cpp:52-58 | one NPC view per enemy, in list order |
| Collisions.Damage | src/CollisionSystem.cpp:217-224 | takeDamage on one enemy of a list changes only that enemy's health in the view |
| Collisions.FirstStruck | src/CollisionSystem.cpp:187-231 | the NPC loop with its break finds what FirstNpc finds |
| Collisions.SingleBullet | src/CollisionSystem.cpp:72-105 | one bullet: the wall answer is false for a spent bullet and bulletHit's answer for its tile otherwise, the grid becomes AfterBullet of the grid before, and the bullet, player and enemies end as the single-player step says |
| Collisions.EraseInactive | src/CollisionSystem.cpp:108-112 | the erase over remove_if keeps the live bullets in order |
| Collisions.MultiBullet | src/CollisionSystem.cpp:130-231 | one bullet: the wall result is the default for a spent bullet and bulletHitWithResult's otherwise, the grid becomes AfterBullet of the grid before, and the bullet, player, NPCs and damage messages end as the two-player step says, with the reward for a local bullet stopped by a wall |
| Collisions.MultiTanks | src/CollisionSystem.cpp:158-231 | the rest of a bullet's turn once no wall stopped it, as the two-player step says |
| Collisions.CheckSinglePlayerCollisions | src/CollisionSystem.cpp:60-113 | without a player nothing changes; otherwise the wall answers are WallAnswers (bullet i's read on the grid the bullets before it left), the grid ends as AfterBullets, the bullets meet the fates SinglePass gives, the player and enemies keep the health it leaves, and the list keeps its live bullets in order |
| Collisions.SinglePlayerPass | src/CollisionSystem.cpp:70-112 | the loop and the erase do exactly what SinglePass says, with the wall answers WallAnswers and the final grid AfterBullets |
| Collisions.SingleTurn | src/CollisionSystem.cpp:70-106 | one turn of the loop keeps the loop invariant, appends the bullet's wall answer on the grid it found, and leaves the grid as that bullet's hit makes it (AfterBullet) |
| Collisions.CheckMultiplayerCollisions | src/CollisionSystem.cpp:115-239 | without both players nothing changes. Otherwise the wall results are WallResults (bullet i's read on the grid the bullets before it left) and the grid ends as AfterBullets. The bullets meet the fates MultiPass gives, with the local team read at the start. The player and NPCs keep the health it leaves, the player receives its rewards, the damage messages are sent in order, and the list keeps its live bullets in order |
| Collisions.MultiplayerPass | src/CollisionSystem.cpp:126-238 | the loop and the erase do exactly what MultiPass says, with the wall results WallResults and the final grid AfterBullets |
| Collisions.MultiTurn | src/CollisionSystem.cpp:128-232 | one turn of the loop keeps the loop invariant, appends the bullet's destroy result on the grid it found, and leaves the grid as that bullet's hit makes it (AfterBullet) |
| Collisions.WallAnswers | src/CollisionSystem.cpp:70-83 | one answer per bullet |
| Collisions.WallResults | src/CollisionSystem.cpp:126-140 | one result per bullet |
| Collisions.WallAnswersMeaning | src/CollisionSystem.cpp:70-83 | bullet i's answer is false when it is spent and otherwise bulletHit's answer on the grid that the bullets before it left |
| Collisions.WallResultsMeaning | src/CollisionSystem.cpp:126-140 | bullet i's result is the default when it is spent and otherwise bulletHitWithResult's on the grid that the bullets before it left |
| Collisions.AnswersAgree | src/CollisionSystem.cpp:70-140 | the two passes see the same walls: a bullet's answer is true exactly when its result is not the default one |
| Collisions.SpentLeaveGrid | src/CollisionSystem.cpp:72-76 | spent bullets leave the grid alone: the grid after the list is the grid after its live bullets |
| Collisions.AfterPrefix | src/CollisionSystem.cpp:70-140 | one more bullet extends the grid, the answers and the results by that bullet's turn |

## Left out

- Rendering, textures, sound, input and logging have no rules to state. Sprite loading is the `loaded` flag of `EnemyAI.Enemy`.
- Sockets are event lists. `NetClient.NetworkManager` records what it writes and the callbacks it would call; `Relay.Server` logs every `socket.write` in `outbox`. Connection errors, partial writes and concurrency between the two sides are not modelled.
- Floats are `real`, so rounding is not modelled. In a packet a float is kept as its four raw bytes: `NetClient.ReadFloat` gives those bytes, or zero past the end of the message. It does not interpret them as an IEEE 754 value.
- `std::hypot` and `std::sqrt` distance tests are modelled as squared distances against squared radii. These are equal for non-negative reals.
- Randomness is a stream (`nat -> nat`) plus a position in it. `std::shuffle` is Fisher-Yates, drawing `draw % (i + 1)`. The engine's tempering (`std::mt19937`) is not modelled, nor is `std::uniform_real_distribution`'s exact arithmetic: a roll is any fraction in [0, 1).
- `std::sort` is an insertion sort by descending distance; the order among equal distances is left open, as it is in the C++ library.
- The `std::priority_queue` of `findPath` may pop any entry with the least f-score. The heap's tie order is not modelled, so the route proved shortest is one of the shortest ones.
- Clocks (`sf::Clock`, `time(nullptr)`) are parameters: the time `now` and the clock readings stored in the objects.
- `EnemyAI.Enemy.Update`, `EnemyAI.Enemy.Step` and `EnemyAI.Enemy.Advance` do not name the normal route the refresh used, only that it is one of the answers findPath may give (`PathAnswer`: shortest, and empty only when unreachable), since several shortest routes may exist. The movement code's position is a parameter (`moved`), and `findPathThroughDestructible` is the `smart` parameter. `Maze::findPathThroughDestructible` is not part of this model.
- `Collisions.CheckSinglePlayerCollisions` and `Collisions.CheckMultiplayerCollisions` return what the wall test answered for each bullet as ghost outputs. Their contracts fix those outputs (`WallAnswers`, `WallResults`) and the final grid (`AfterBullets`) as folds over the bullets.
- `Collisions.HandleWallDestroyEffect` records `addCoins` and `heal` as effects on the shooter. What `Tank::addCoins` and `Tank::heal` do with them is not part of this model. Its unused `maze` parameter is dropped.
- `Generator.MazeGenerator.Generate` requires a width and height of at least 3. This is not a restriction the program states: after the odd-size adjustment a size of 1 or less makes `carvePassage(1, 1)` index outside `m_grid`, which is undefined behaviour, so there is nothing to model there.
- `Generator.MazeGenerator.Generate` states the shape, marks and connectivity of its output. It does not state that equal streams give equal grids; the model is deterministic by construction, since every draw comes from the stream.
- `MazeGeneration.AllRoomsCarved` and `MazeGeneration.RoomCarved` need the grid to hold only '#' and '.', which holds during carving.
- `MazeGenerator::getSpawn1`, `getSpawn2` and `placeMultiplayerSpawns` are declared in src/include/MazeGenerator.hpp but not defined in src/MazeGenerator.cpp, so there is nothing to model.
- Text is one byte per character (`Narrow`): `std::string` built from bytes, and the server's `toString()` on ASCII room codes. UTF-8 decoding of other bytes is not modelled.
- `RoomServer.FreshCode` returns None when the finite stream of draws names only existing rooms. `Math.random` would go on drawing; the model then makes no room.
- `Wire.Frame` and `NetClient.NetworkManager.SendPacket`: the length prefix wraps modulo 65536 as in `sendPacket`. Frames are only proved to round-trip for payloads shorter than that.
- The server's `writeUInt16LE` throws for payloads of 65536 bytes or more. `Relay.Server.SendMessage` requires the payload to be shorter, and the invariant `Sendable` shows that every payload the server builds is.
- The client's other senders (`sendShoot`, `sendReachExit`, `sendRestartRequest`, `sendNpcActivate`, `sendNpcUpdate`, `sendNpcShoot`, `sendNpcDamage`) and its `update` polling are outside the modelled part of src/NetworkManager.cpp.
- `NetClient.NetworkManager.ProcessMessage` uses the corrected length check for RoomCreated, RoomJoined and RoomError (`TextFits`, see Findings): a message whose announced text runs past its end is ignored. `NetClient.TextOverrunAsWritten` shows what the check as written lets through.
- `Collisions.Tank.TakeDamage`, `EnemyAI.Enemy.TakeDamage` and `EnemyAI.Enemy.IsDead` go through `HealthBar` (`m_healthBar.setHealth(getHealth() - damage)`, `m_healthBar.isDead()`), whose source is not part of this model. The model assumes that `setHealth` stores the value without clamping and that `isDead` means the health is at most 0.
- `Relay.Server.Close` uses the corrected promotion rule of the close handler (see Findings). `RoomServer.CloseStep` models both rules, and `RoomServer.HijackAsWritten` shows what the rule as written does.
- Players, enemies and bullets of a pass are visited in list order. Bullets are values with an `alive` flag and enemies are objects, so the model covers the health updates in place, but not aliasing between bullets.

## Findings

| source | as written | input that shows it | evidently intended | confidence | as-written member | corrected member |
|---|---|---|---|---|---|---|
| src/NetworkManager.cpp:357-395 | RoomCreated, RoomJoined and RoomError check only that the message is longer than two bytes, then copy `data[1]` bytes from offset 2 | the message [RoomCreated, 4, '1']: three bytes, announcing a four-byte code | copy the text only when `2 + data[1] <= data.size()`; otherwise ignore the message | not executed | NetClient.TextOverrunAsWritten | NetClient.ShortReplyIgnored |
| server/server.js:364-368 | when the host leaves, `players[0].socket.isHost` is set to true whatever room that socket is in now | A creates 1001, B joins 1001, C creates 1003, B joins 1003, A closes: B is marked host while it is the guest of 1003, and its MazeData is then stored in 1003 | set the flag only when `players[0].socket.roomCode` is this room | not executed | RoomServer.HijackAsWritten | RoomServer.CloseKeeps |
