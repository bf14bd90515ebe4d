# Labyrinth, modelled in Dafny

The Labyrinth repository has crawlers that explore a grid maze and try to
find its exit. This project models four parts of it and proves what each one
promises.

- **Grid search** (`geometry.dfy`, `pathresult.dfy`, `walks.dfy`,
  `pathfinder.dfy`). Directions and positions, the searches' result record,
  and the two breadth-first searches of the pathfinder:
  - `FindPath` finds the shortest path to a goal through rooms and open doors;
  - `FindNearestUnknown` finds the shortest path to a cell beside the nearest
    unexplored cell.

  Both are methods with the source's queue, visited set and predecessor map.
  They are proved against a specification of walks on the grid (`Walks`):
  - a Found path is a shortest walk to the goal;
  - NotFound means the goal is unreachable;
  - an UnknownReached result is a nearest frontier;
  - NotFound from the frontier search means there is no frontier at all.
- **Frontier explorer** (`explorer.dfy`). `BfsExplorer` is a class.
  - Its state is its local map (an `array2`), position, direction and the
    notifications it has raised.
  - It drives a crawler. The crawler is external code; here it is a class
    whose observations come from a given function of the world, and each of
    its actions takes one unit of time.
  - Cancellation is a request that arrives after a given number of crawler
    actions.
- **Orchestrator** (`orchestrator.dfy`).
  - Argument validation.
  - The result each participant reports.
  - The fold that takes results in completion order, logs every finish and
    keeps the first that found the exit, asking the others to stop.
- **Training server** (`tiles.dfy`, `crawlerstate.dfy`, `labmap.dfy`,
  `service.dfy`).
  - `LabyrinthMap` holds a tile grid, item lists and door states in arrays.
    The default 21 by 19 maze is built by the source's fill loops.
  - `CrawlerState` records a crawler and converts it to its snapshot
    (`ToDto`).
  - `LabyrinthService` is a class over the optional map and a registry of
    crawlers keyed by id:
    - creation with a cap of three crawlers per application key;
    - turning and walking, where a key opens a closed door;
    - item transfers between the bag and the ground;
    - deletion, reset, and the queries.

Where the pathfinder's interface comment and its implementation disagree,
the model follows the implementation:
- the comment at `Labyrinth/Pathfinding/IPathfinder.cs:19` says `FindPath`
  treats an unknown cell as a frontier;
- the code at `Labyrinth/Pathfinding/BfsPathfinder.cs:49-53` treats it as a
  barrier.

Details of the modelling choices:
- Door openness is a field of the client tile.
- A door the explorer observes is recorded closed, following the comment at
  `Labyrinth/Exploration/BfsExplorer.cs:241`.
- The server's facing-tile report off the grid differs between two paths,
  and each is modelled as written:
  - `UpdateCrawler` reports Outside for a crawler off the grid;
  - `GetCrawler` and `GetAllCrawlers` ask the map about the neighbouring
    cell.
- The service's `Valid` invariant says three things:
  - there are no crawlers before the map exists;
  - every crawler is filed under its own id;
  - no key owns more than three crawlers.

  Every operation preserves it.

## Model

| member | source | states |
|---|---|---|
| Geometry.Move | Labyrinth/Pathfinding/Position.cs:15-16 | a step always lands on a different cell |
| Geometry.MoveDeltas | Labyrinth/Pathfinding/Position.cs:15-16 | North lowers y by one, East raises x by one, South raises y, West lowers x |
| Geometry.MoveInjective | Labyrinth/Pathfinding/Position.cs:15-16 | two different directions lead to two different cells |
| Geometry.MoveOpposite | Labyrinth/Pathfinding/Position.cs:15-16 | a step followed by a step the opposite way returns to the start |
| Geometry.ManhattanDistance | Labyrinth/Pathfinding/Position.cs:23-24 | the distance is non-negative and zero exactly for equal positions |
| Geometry.ManhattanSymmetric | Labyrinth/Pathfinding/Position.cs:23-24 | the distance from a to b equals the distance from b to a |
| Geometry.ManhattanTriangle | Labyrinth/Pathfinding/Position.cs:23-24 | the distance obeys the triangle inequality |
| Geometry.MoveUnitStep | Labyrinth/Pathfinding/Position.cs:15-24 | one step covers a Manhattan distance of exactly one |
| Geometry.AllDirections | Labyrinth/Pathfinding/Position.cs:29-30 | four pairwise distinct directions |
| Geometry.AllDirectionsComplete | Labyrinth/Pathfinding/Position.cs:29-30 | every direction is enumerated |
| Geometry.Neighbors | Labyrinth/Pathfinding/Position.cs:35-36 | exactly four neighbours, the i-th a step in the i-th direction of North, East, South, West |
| Geometry.NeighborsAtDistanceOne | Labyrinth/Pathfinding/Position.cs:23-36 | q is a neighbour of p if and only if it is at Manhattan distance one |
| Geometry.NeighborsSymmetric | Labyrinth/Pathfinding/Position.cs:35-36 | q is a neighbour of p if and only if p is a neighbour of q |
| Geometry.NeighborsDistinct | Labyrinth/Pathfinding/Position.cs:35-36 | the four neighbours are pairwise distinct |
| Geometry.TurnLeft | Labyrinth/Exploration/BfsExplorer.cs:152-163 | a left turn is undone by a right turn |
| PathResults.PathResult.IsSuccess | Labyrinth/Pathfinding/PathResult.cs:49 | true if and only if the status is Found |
| PathResults.PathResult.Length | Labyrinth/Pathfinding/PathResult.cs:54 | the number of positions of the path |
| PathResults.PathResult.Success | Labyrinth/Pathfinding/PathResult.cs:59-60 | status Found, the given path, no unknown cell |
| PathResults.PathResult.NotFound | Labyrinth/Pathfinding/PathResult.cs:65-66 | status NotFound, an empty path, no unknown cell |
| PathResults.PathResult.UnknownFound | Labyrinth/Pathfinding/PathResult.cs:71-77 | status UnknownReached, not a success, the given path and unknown cell |
| Walks.TraversableTiles | Labyrinth/Pathfinding/BfsPathfinder.cs:138-145 | exactly rooms and opened doors can be entered |
| Walks.WalkCellsPassable | Labyrinth/Pathfinding/BfsPathfinder.cs:39-57 | every cell of a walk is on the grid and is a room or an opened door, never a wall, outside, unknown or closed door |
| Walks.FrontierFacts | Labyrinth/Pathfinding/BfsPathfinder.cs:101-112 | a frontier's unknown cell is on the grid and not on the path; it is beside the path's last cell, or beside the start when the path is empty |
| Walks.WalkReverse | Labyrinth/Pathfinding/BfsPathfinder.cs:35-70 | a walk between open cells can be walked backwards with the same length |
| Walks.ShortestSymmetric | Labyrinth/Pathfinding/BfsPathfinder.cs:35-70 | between two open cells, the shortest walks each way have equal length |
| Walks.ShortestAvoidsStart | Labyrinth/Pathfinding/BfsPathfinder.cs:29-66 | a shortest walk never revisits its start |
| Pathfinding.Reversed | Labyrinth/Pathfinding/BfsPathfinder.cs:164 | the sequence in reverse order, element by element |
| Pathfinding.ReconstructPath | Labyrinth/Pathfinding/BfsPathfinder.cs:150-166 | following the predecessors back from the goal and reversing yields the chain from the start (excluded) to the goal, of the goal's search depth |
| Pathfinding.ChainIsWalk | Labyrinth/Pathfinding/BfsPathfinder.cs:59-60 | a predecessor chain through entered cells is a walk to its goal |
| Pathfinding.FindPath | Labyrinth/Pathfinding/BfsPathfinder.cs:12-73 | start equal to goal gives Found with an empty path; a goal off the grid gives NotFound; Found paths are shortest walks to the goal; NotFound means no walk reaches the goal; never an unknown cell |
| Pathfinding.ScanForGoal | Labyrinth/Pathfinding/BfsPathfinder.cs:39-69 | scanning the neighbours of the dequeued cell either finds a shortest walk to the goal or keeps the search invariant with that cell expanded |
| Pathfinding.NoShorterWalk | Labyrinth/Pathfinding/BfsPathfinder.cs:35-70 | while scanning a cell at depth d, no unvisited cell is within d steps of the start |
| Pathfinding.FindNearestUnknown | Labyrinth/Pathfinding/BfsPathfinder.cs:76-127 | UnknownReached comes with an unknown cell beside the path's end and no frontier closer than the path; NotFound has an empty path and means no frontier exists |
| Pathfinding.ScanForUnknown | Labyrinth/Pathfinding/BfsPathfinder.cs:91-122 | scanning the neighbours of the dequeued cell either finds a nearest frontier or keeps the search invariant with no unknown cell seen |
| Pathfinding.NoNearerFrontier | Labyrinth/Pathfinding/BfsPathfinder.cs:87-122 | while scanning a cell at depth d, every frontier path has at least d cells |
| Pathfinding.NoFrontierLeft | Labyrinth/Pathfinding/BfsPathfinder.cs:125-126 | an exhausted queue with no unknown cell seen means no frontier exists |
| Pathfinding.FrontierFromChain | Labyrinth/Pathfinding/BfsPathfinder.cs:101-112 | dropping the unknown cell from its predecessor chain leaves a frontier path |
| Exploration.Inventory.MoveAllFrom | Labyrinth/Exploration/BfsExplorer.cs:202-205 | the items of the other inventory join this one, in order, and the other is emptied |
| Exploration.RequestedStays | Labyrinth/Exploration/BfsExplorer.cs:68 | a cancellation, once requested, stays requested |
| Exploration.ObservedTile | Labyrinth/Exploration/BfsExplorer.cs:231-247 | a recognised tile type is recorded as a known tile; only Room, Wall, a closed Door, Outside or Unknown are ever written |
| Exploration.AfterObservation | Labyrinth/Exploration/BfsExplorer.cs:224-248 | a known cell keeps its tile; an unknown cell takes the observed tile |
| Exploration.AfterFailedWalk | Labyrinth/Exploration/BfsExplorer.cs:211-215 | a known cell keeps its tile; an unknown cell becomes a wall |
| Exploration.TurnStep | Labyrinth/Exploration/BfsExplorer.cs:152-164 | each turn is one quarter turn, right or left |
| Exploration.TurnsNeeded | Labyrinth/Exploration/BfsExplorer.cs:149-164 | at most two turns are needed |
| Exploration.TurnPlanArrives | Labyrinth/Exploration/BfsExplorer.cs:149-164 | after the needed number of turns the crawler faces the target, and not before |
| Exploration.TurnEvents | Labyrinth/Exploration/BfsExplorer.cs:170 | one DirectionChanged per turn |
| Exploration.GetDirectionTo | Labyrinth/Exploration/BfsExplorer.cs:253-266 | a direction exactly for 4-neighbours, and it leads from `from` to `to`; otherwise none |
| Exploration.FrontierStepAdjacent | Labyrinth/Exploration/BfsExplorer.cs:92-113 | the step target (the first path cell, or the adjacent unknown cell when the path is empty) is a 4-neighbour of the current cell, so the direction to it always exists |
| Exploration.BfsExplorer.constructor | Labyrinth/Exploration/BfsExplorer.cs:38-61 | every local cell is unknown except the centre, a room; the position is the centre and the direction is the crawler's |
| Exploration.BfsExplorer.IsInBounds | Labyrinth/Exploration/BfsExplorer.cs:271-272 | on the local map exactly when both coordinates are in range |
| Exploration.BfsExplorer.UpdateMapWithTileType | Labyrinth/Exploration/BfsExplorer.cs:224-248 | only the targeted cell may change, only if on the map and unknown, and only to the observed tile |
| Exploration.BfsExplorer.TurnToFace | Labyrinth/Exploration/BfsExplorer.cs:147-177 | right when one right turn reaches the target, else left; one step of budget, one action and one DirectionChanged per turn; faces the target unless the budget or cancellation stopped it |
| Exploration.BfsExplorer.TryWalkForward | Labyrinth/Exploration/BfsExplorer.cs:182-219 | nothing when cancelled or out of budget; otherwise exactly one step of budget; success moves to the faced cell with one PositionChanged; failure keeps the position and turns an unknown faced cell into a wall; known cells are never overwritten |
| Exploration.BfsExplorer.StepTowardsFrontier | Labyrinth/Exploration/BfsExplorer.cs:92-113 | one turn-and-walk step costs at least one step of budget unless the loop stops; the crawler ends turned towards the target (the first path cell, or the adjacent unknown cell) unless stopped by cancellation or an exhausted budget; it either stays put or lands on that target |
| Exploration.BfsExplorer.GetOut | Labyrinth/Exploration/BfsExplorer.cs:64-117 | cancelled or no budget: returns the budget and changes nothing, not even the action count or the direction; facing the outside at the start: returns the whole budget without moving or turning; the result lies between 0 and the budget; known cells are never overwritten; on finishing with budget left and no cancellation, the crawler faces the outside or no frontier remains |
| Orchestration.NewOrchestrator | Labyrinth/Orchestration/CrawlerOrchestrator.cs:62-67 | accepted exactly for 1 to 3 crawlers |
| Orchestration.ValidateRun | Labyrinth/Orchestration/CrawlerOrchestrator.cs:85-87 | a crawler count outside 1..maxCrawlers is rejected first, then a budget of 0 or less; accepted otherwise |
| Orchestration.RunSingleCrawler | Labyrinth/Orchestration/CrawlerOrchestrator.cs:140-163 | a cancelled participant never found the exit and keeps the budget it held; otherwise it found the exit exactly when it faces the outside, and reports the budget the explorer returned |
| Orchestration.Ids | Labyrinth/Orchestration/CrawlerOrchestrator.cs:93-95 | the ids 1..n in creation order |
| Orchestration.StartLog | Labyrinth/Orchestration/CrawlerOrchestrator.cs:93-99 | one CrawlerStarted per participant, in id order |
| Orchestration.StartCrawlers | Labyrinth/Orchestration/CrawlerOrchestrator.cs:90-109 | the participants 1..n are started, each announced once |
| Orchestration.Results | Labyrinth/Orchestration/CrawlerOrchestrator.cs:116-121 | one result per completion, in completion order |
| Orchestration.FirstExitIsEarliest | Labyrinth/Orchestration/CrawlerOrchestrator.cs:111-137 | there is no winner if and only if no result found the exit; otherwise the winner is the earliest result that did |
| Orchestration.FirstExitStable | Labyrinth/Orchestration/CrawlerOrchestrator.cs:124-129 | later results never replace a winner |
| Orchestration.FinishLogCounts | Labyrinth/Orchestration/CrawlerOrchestrator.cs:122-129 | exactly one CrawlerFinished per result; cancellation requested once if some result found the exit, never otherwise |
| Orchestration.FinishLogNoCancel | Labyrinth/Orchestration/CrawlerOrchestrator.cs:124 | once a winner is chosen no further cancellation is requested |
| Orchestration.CollectResults | Labyrinth/Orchestration/CrawlerOrchestrator.cs:111-137 | awaiting every participant yields the first result that found the exit and the finish log of all results |
| Orchestration.RunAsync | Labyrinth/Orchestration/CrawlerOrchestrator.cs:78-138 | invalid arguments are rejected before anything starts; otherwise the winner is the first exit among the results in completion order, after the start log and the finish log |
| CrawlerStates.CrawlerState.ToDto | Labyrinth.TrainingServer/Models/CrawlerState.cs:21-34 | id, position and direction copied, never walking, the given facing tile, the bag and tile items with the same elements in the same order |
| CrawlerStates.ToDtoIgnoresWalking | Labyrinth.TrainingServer/Models/CrawlerState.cs:29 | the snapshot does not depend on the state's walking flag |
| CrawlerStates.FindKind | Labyrinth.TrainingServer/Services/LabyrinthService.cs:232 | the index of the first item of a kind, or none exactly when there is no such item |
| CrawlerStates.RemoveAt | Labyrinth.TrainingServer/Services/LabyrinthService.cs:235 | one item fewer, and the kinds lose exactly that item's kind |
| TrainingMap.GetDirectionDelta | Labyrinth.TrainingServer/Models/LabyrinthMap.cs:125-135 | North, East, South, West map to (0,-1), (1,0), (0,1), (-1,0), each a unit step |
| TrainingMap.LabyrinthMap.constructor | Labyrinth.TrainingServer/Models/LabyrinthMap.cs:18-35 | arrays of the given size; every item list empty and every door closed |
| TrainingMap.LabyrinthMap.FillRooms | Labyrinth.TrainingServer/Models/LabyrinthMap.cs:51-57 | every tile becomes a room |
| TrainingMap.LabyrinthMap.AddPillars | Labyrinth.TrainingServer/Models/LabyrinthMap.cs:72-78 | walls are raised exactly on the even-even cells two or more cells inside the edge |
| TrainingMap.LabyrinthMap.CreateDefault | Labyrinth.TrainingServer/Models/LabyrinthMap.cs:40-87 | 21 by 19 with start (10, 9); walls on the border and pillars; the door at (0, 9); one key at (9, 9) and no other item; doors closed |
| TrainingMap.DefaultBorder | Labyrinth.TrainingServer/Models/LabyrinthMap.cs:60-69 | every border cell of the default maze is a wall except (0, 9), a door |
| TrainingMap.DefaultInterior | Labyrinth.TrainingServer/Models/LabyrinthMap.cs:51-78 | an interior cell is a wall exactly when both coordinates are even and between 2 and w-3, h-3; otherwise a room |
| TrainingMap.DefaultStartCells | Labyrinth.TrainingServer/Models/LabyrinthMap.cs:43-84 | the start, the key's cell and the cell inside the door are rooms |
| TrainingMap.LabyrinthMap.GetFacingTile | Labyrinth.TrainingServer/Models/LabyrinthMap.cs:89-101 | Outside when the neighbour is off the grid, its tile otherwise |
| TrainingMap.CanMoveToCases | Labyrinth.TrainingServer/Models/LabyrinthMap.cs:103-123 | true off the grid, for rooms and for outside tiles; for a door, true exactly with a key or when open; false otherwise |
| TrainingMap.CanMoveToKeyMonotone | Labyrinth.TrainingServer/Models/LabyrinthMap.cs:103-123 | a key never forbids a move, and a wall is never passed |
| TrainingService.MoveRequestedItems | Labyrinth.TrainingServer/Services/LabyrinthService.cs:307-318 | the transfer loop computes MoveItems of its inputs |
| TrainingService.MoveItemsPreservesKinds | Labyrinth.TrainingServer/Services/LabyrinthService.cs:307-318 | the multiset of item kinds across source and destination is preserved |
| TrainingService.MoveItemsBound | Labyrinth.TrainingServer/Services/LabyrinthService.cs:349-360 | the total count is preserved, each request moves at most one item, and no requested move means no change |
| TrainingService.UpdatedMoves | Labyrinth.TrainingServer/Services/LabyrinthService.cs:213-257 | an update keeps id and owner, sets the direction, clears walking, and moves by exactly the direction's delta or not at all |
| TrainingService.UpdatedKeys | Labyrinth.TrainingServer/Services/LabyrinthService.cs:229-238 | opening a door removes exactly one key from the bag; any other update leaves the bag alone |
| TrainingService.UnlocksNeedsKey | Labyrinth.TrainingServer/Services/LabyrinthService.cs:218-238 | a closed door is only unlocked with a key in the bag; walls are never passed; open doors need no key |
| TrainingService.OwnedInsert | Labyrinth.TrainingServer/Services/LabyrinthService.cs:166-184 | filing a new crawler raises its owner's count by one and keeps every key within the cap |
| TrainingService.OwnedRemove | Labyrinth.TrainingServer/Services/LabyrinthService.cs:383 | removing a crawler keeps every key within the cap |
| TrainingService.LabyrinthService.constructor | Labyrinth.TrainingServer/Services/LabyrinthService.cs:53-54 | no map and no crawlers |
| TrainingService.LabyrinthService.GetTileItemsSafe | Labyrinth.TrainingServer/Services/LabyrinthService.cs:144-151 | the cell's items on the grid; nothing off the grid or without a map |
| TrainingService.LabyrinthService.GetAllCrawlers | Labyrinth.TrainingServer/Services/LabyrinthService.cs:60-76 | nothing without a map; otherwise the snapshots of exactly the key's crawlers, each once |
| TrainingService.LabyrinthService.GetCrawler | Labyrinth.TrainingServer/Services/LabyrinthService.cs:81-99 | the snapshot exactly for the owner; forbidden exactly for another key's crawler; nothing for an unknown id or without a map |
| TrainingService.LabyrinthService.GetCrawlerBag | Labyrinth.TrainingServer/Services/LabyrinthService.cs:104-120 | the bag exactly for the owner, forbidden for another key, nothing for an unknown id |
| TrainingService.LabyrinthService.GetCrawlerItems | Labyrinth.TrainingServer/Services/LabyrinthService.cs:125-142 | the items of the crawler's cell (none off the grid) exactly for the owner; forbidden for another key |
| TrainingService.LabyrinthService.CreateCrawler | Labyrinth.TrainingServer/Services/LabyrinthService.cs:156-191 | builds the default maze on first use (21 by 19, start at (10, 9), the tiles of `CreateDefault`, the key at (9, 9) west of the start, no other items, every door closed); TooManyCrawlers exactly when the key owns three, leaving the registry alone; otherwise a new crawler at the start, facing North, not walking, with an empty bag |
| TrainingService.LabyrinthService.UpdateCrawler | Labyrinth.TrainingServer/Services/LabyrinthService.cs:196-280 | NotFound and Forbidden change nothing; otherwise the direction is set, a refused walk is a Conflict that keeps the position, an allowed walk moves by the delta, and a closed door is opened for one key and stays open |
| TrainingService.LabyrinthService.Walk | Labyrinth.TrainingServer/Services/LabyrinthService.cs:216-255 | blocked exactly when the map refuses the move; otherwise one step, spending a key on a closed door, which opens |
| TrainingService.LabyrinthService.TransferFromBag | Labyrinth.TrainingServer/Services/LabyrinthService.cs:285-322 | succeeds exactly for the owner of a crawler on the grid; moves the requested items from bag to cell; no other cell changes; failures change nothing |
| TrainingService.LabyrinthService.TransferFromGround | Labyrinth.TrainingServer/Services/LabyrinthService.cs:327-364 | succeeds exactly for the owner of a crawler on the grid; moves the requested items from cell to bag; no other cell changes; failures change nothing |
| TrainingService.LabyrinthService.DeleteCrawler | Labyrinth.TrainingServer/Services/LabyrinthService.cs:369-386 | NotFound for an unknown id, Forbidden for another key, otherwise only that crawler is removed |
| TrainingService.LabyrinthService.Reset | Labyrinth.TrainingServer/Services/LabyrinthService.cs:391-398 | no map and no crawlers, so later updates are NotFound |

## Left out

- Concurrency is not modelled.
  - The orchestrator's tasks, `Task.WhenAny` and its linked cancellation
    source are replaced by inputs: the completion order, and how each
    participant's exploration ended.
  - `Task.Yield` in the explorer is left out.
  - The service's `lock` only serialises calls, so the service is
    sequential.
- Orchestration.RunAsync: the handler for a cancelled task (lines 131-134)
  is not modelled. The participant code already catches cancellation, so the
  handler cannot be reached.
  - Exceptions other than cancellation are not modelled.
  - The participants' crawler and explorer factories are not modelled.
  - The external cancellation token is not modelled.
- Orchestration.RunSingleCrawler: the exploration is not run. Its outcome
  (cancelled, cancelled while looking, or the budget left and the tile
  faced) is an input.
- Event handlers (PositionChanged, DirectionChanged, CrawlerStarted,
  CrawlerFinished) are not callbacks; each is an entry appended to a log.
- `Guid.NewGuid` in `CreateCrawler` becomes the parameter `newId`, which must
  not be in the registry.
- The unused `settings` argument of `CreateCrawler` is left out.
- The crawler is external code (`ICrawler`, the client `Direction`
  class, the tile classes and the inventory).
  - It is modelled by the `Crawler` class: observations and walk success are
    given functions of the world.
  - An inventory transfer moves everything, in order, as
    `Exploration.Inventory.MoveAllFrom`.
- Exploration.Inventory.MoveAllFrom: the all-or-nothing transfer of the
  source may fail and move nothing; that outcome is not modelled. The
  inventory implementation is external code, and the explorer ignores the
  transfer's result (Labyrinth/Exploration/BfsExplorer.cs:202-205).
- Exploration.BfsExplorer.GetOut: it takes a bag.
  - The source's default of a fresh empty bag is left out.
  - The pathfinder is the modelled BFS itself, and the `IPathfinder`
    interface is left out.
- Exploration.BfsExplorer.constructor requires a map size of at least one.
  The source would fail when writing the centre of an empty map.
  - The source's default map size of 100 (BfsExplorer.cs:38) is left out;
    the size is always an argument.
- Orchestration.NewOrchestrator: the source's default of 3 crawlers
  (CrawlerOrchestrator.cs:62) is left out; the count is always an argument.
- TrainingService.LabyrinthService.GetAllCrawlers: the array's order (the
  registry dictionary's enumeration order) is not modelled. The model states
  which snapshots are returned, each once, but not their order.
- TrainingMap.LabyrinthMap.constructor requires non-negative sizes, where
  the source would throw. The tile array's initial contents are left
  unspecified.
- `FollowPath` in the explorer is never called, so it is left out.
- Default arms of switches over enumerations (`_ => (0, 0)`, `_ => false`)
  are left out; they apply only to values outside the enumeration. A tile
  type the client does not recognise is `OtherType`.
- Pathfinding.FindNearestUnknown: ties between frontiers at the same depth
  are broken by the North, East, South, West order of the search. The model
  proves only that the frontier returned is a nearest one, not which of them
  that order picks. So `GetOut` is only known to move towards some nearest
  frontier.
- Pathfinding.FindPath: likewise, the model proves only that the path is a
  shortest one. It does not prove which of several shortest paths is
  returned.
- Integers are unbounded. Coordinates and budgets stay far from 32-bit
  limits.
- The storage of the service is modelled differently:
  - the item lists that the source mutates in place are written back as new
    sequences;
  - a crawler state is a value in the registry map, not a shared object.
- These are not modelled: `Labyrinth/Program.cs` (console rendering, contest
  networking, argument parsing), the HTTP controller, the server's hosting
  code, and the inventory concurrency tests.
