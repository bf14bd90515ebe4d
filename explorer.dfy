// The frontier explorer: it keeps its own map of what the crawler has seen,
// centred on where the crawler started, and repeatedly steps towards the
// nearest cell it has not seen yet, until it faces the exit, runs out of
// steps, runs out of unexplored ground, or is cancelled.
//
// The crawler it drives and the labyrinth around it are external. They are
// modelled by the Crawler class below: what the crawler observes and whether
// a walk succeeds are given functions of the world, and each crawler action
// takes one unit of time, which is how cancellation arrives.

module Exploration {
  import opened Geometry
  import opened Tiles
  import opened Options
  import opened PathResults
  import opened Walks
  import Pathfinding

  /** An item a crawler can carry. */
  datatype Item = Key | OtherItem(name: string)

  /** An inventory: a room's contents or a crawler's bag. */
  class Inventory {
    var items: seq<Item>

    constructor(items: seq<Item>)
      ensures this.items == items
    {
      this.items := items;
    }

    /** Moves every item of `other` here, after the items already held, keeping their order. */
    method MoveAllFrom(other: Inventory)
      requires other != this
      modifies this, other
      ensures items == old(items) + old(other.items)
      ensures other.items == []
    {
      items := items + other.items;
      other.items := [];
    }
  }

  /**
   * A cancellation token that is signalled once the crawler has performed
   * `after` actions, or never.
   */
  datatype Cancellation = Cancellation(after: Option<nat>)
  {
    predicate IsRequested(actions: nat)
    {
      after.Some? && after.value <= actions
    }
  }

  /** Once requested, a cancellation stays requested. */
  lemma RequestedStays(c: Cancellation, a: nat, b: nat)
    requires c.IsRequested(a) && a <= b
    ensures c.IsRequested(b)
  {
  }

  /** The notifications an explorer raises. */
  datatype ExplorerEvent = PositionChanged(position: Position) | DirectionChanged(direction: Direction)

  /**
   * The crawler seen from the explorer: it faces a direction, reports the
   * type of the tile it faces, turns, and tries to walk. `position` is in the
   * world's coordinates, which the explorer never sees.
   */
  class Crawler {
    var direction: Direction
    var position: Position
    /** How many actions the crawler has performed so far. */
    var actions: nat
    /** What a crawler facing a cell reports. */
    const world: Position -> TileType
    /** Whether a walk into a cell succeeds for a bag holding the given items. */
    const canEnter: (Position, seq<Item>) -> bool
    /** The inventories of the rooms that have one. */
    const rooms: map<Position, Inventory>

    function Facing(): Position
      reads this
    {
      Move(position, direction)
    }

    method FacingTileType() returns (t: TileType)
      modifies this
      ensures t == world(Facing())
      ensures direction == old(direction) && position == old(position) && actions == old(actions) + 1
    {
      t := world(Facing());
      actions := actions + 1;
    }

    method TurnRight()
      modifies this
      ensures direction == Geometry.TurnRight(old(direction))
      ensures position == old(position) && actions == old(actions) + 1
    {
      direction := Geometry.TurnRight(direction);
      actions := actions + 1;
    }

    method TurnLeft()
      modifies this
      ensures direction == Geometry.TurnLeft(old(direction))
      ensures position == old(position) && actions == old(actions) + 1
    {
      direction := Geometry.TurnLeft(direction);
      actions := actions + 1;
    }

    /** Walks into the faced cell when it can be entered; the result is the room's inventory, or null. */
    method TryWalk(bag: Inventory) returns (room: Inventory?)
      requires bag !in rooms.Values
      modifies this
      ensures direction == old(direction) && actions == old(actions) + 1
      ensures canEnter(old(Facing()), bag.items) ==>
        position == old(Facing()) && room != null && room != bag &&
        (old(Facing()) in rooms ==> room == rooms[old(Facing())]) &&
        (old(Facing()) !in rooms ==> fresh(room) && room.items == [])
      ensures !canEnter(old(Facing()), bag.items) ==> position == old(position) && room == null
    {
      var target := Facing();
      actions := actions + 1;
      if canEnter(target, bag.items) {
        position := target;
        if target in rooms {
          room := rooms[target];
        } else {
          room := new Inventory([]);
        }
      } else {
        room := null;
      }
    }
  }

  // ---------------------------------------------------------------------
  // What the explorer writes into its map.
  // ---------------------------------------------------------------------

  /**
   * The tile recorded for an observation. A door is recorded closed, which
   * is what a newly created door is; an unrecognised type records nothing.
   */
  function ObservedTile(t: TileType): (r: Tile)
    ensures t != OtherType ==> r != Unknown
    ensures r == Unknown || r == Room || r == Wall || r == Door(false) || r == Outside
  {
    match t
    case RoomType => Room
    case WallType => Wall
    case DoorType => Door(false)
    case OutsideType => Outside
    case OtherType => Unknown
  }

  /** A cell's tile after an observation: only an unknown cell takes the observed tile. */
  function AfterObservation(old_: Tile, t: TileType): (r: Tile)
    ensures old_ != Unknown ==> r == old_
    ensures old_ == Unknown ==> r == ObservedTile(t)
  {
    if old_ == Unknown then ObservedTile(t) else old_
  }

  /** A cell's tile after a failed walk into it: an unknown cell becomes a wall. */
  function AfterFailedWalk(old_: Tile): (r: Tile)
    ensures old_ != Unknown ==> r == old_
    ensures old_ == Unknown ==> r == Wall
  {
    if old_ == Unknown then Wall else old_
  }

  /** The direction to face for a first step from `d` towards `target`: right when one right turn does it. */
  function TurnStep(d: Direction, target: Direction): (r: Direction)
    ensures r == Geometry.TurnRight(d) || Geometry.TurnRight(r) == d
  {
    if Geometry.TurnRight(d) == target then Geometry.TurnRight(d) else Geometry.TurnLeft(d)
  }

  /** The direction faced after `n` turns towards `target`. */
  function Turned(d: Direction, target: Direction, n: nat): Direction
    decreases n
  {
    if n == 0 then d else Turned(TurnStep(d, target), target, n - 1)
  }

  /** The notifications raised by `n` turns towards `target`, one per turn. */
  function TurnEvents(d: Direction, target: Direction, n: nat): (r: seq<ExplorerEvent>)
    ensures |r| == n
    decreases n
  {
    if n == 0 then [] else [DirectionChanged(TurnStep(d, target))] + TurnEvents(TurnStep(d, target), target, n - 1)
  }

  /** How many turns it takes to face `target`: none, one (either way) or two (to the left). */
  function TurnsNeeded(d: Direction, target: Direction): (n: nat)
    ensures n <= 2
  {
    if d == target then 0
    else if Geometry.TurnRight(d) == target || Geometry.TurnLeft(d) == target then 1
    else 2
  }

  /**
   * Turning as the explorer does faces `target` after exactly
   * `TurnsNeeded(d, target)` turns, and not before.
   */
  lemma TurnPlanArrives(d: Direction, target: Direction)
    ensures Turned(d, target, TurnsNeeded(d, target)) == target
    ensures forall i :: 0 <= i < TurnsNeeded(d, target) ==> Turned(d, target, i) != target
  {
    match d
    case North =>
    case East =>
    case South =>
    case West =>
  }

  lemma TurnedStep(d: Direction, target: Direction, n: nat)
    ensures Turned(d, target, n + 1) == TurnStep(Turned(d, target, n), target)
    ensures TurnEvents(d, target, n + 1) == TurnEvents(d, target, n) + [DirectionChanged(Turned(d, target, n + 1))]
    decreases n
  {
    if n > 0 {
      TurnedStep(TurnStep(d, target), target, n - 1);
    }
  }

  /** The direction of the step from `from` to `to`, if they are 4-neighbours. */
  function GetDirectionTo(from: Position, to: Position): (r: Option<Direction>)
    ensures r.Some? ==> Move(from, r.value) == to
    ensures r.Some? <==> to in Neighbors(from)
  {
    var dx, dy := to.x - from.x, to.y - from.y;
    if dx == 0 && dy == -1 then Some(North)
    else if dx == 1 && dy == 0 then Some(East)
    else if dx == 0 && dy == 1 then Some(South)
    else if dx == -1 && dy == 0 then Some(West)
    else None
  }

  /** The step target of a frontier walk (its first cell, or the unknown cell itself when the walk is empty) is a 4-neighbour of the start. */
  lemma FrontierStepAdjacent(m: array2<Tile>, s: Position, path: seq<Position>, u: Position)
    requires IsFrontier(m, s, path, u)
    ensures |path| == 0 ==> GetDirectionTo(s, u).Some?
    ensures |path| > 0 ==> GetDirectionTo(s, path[0]).Some?
  {
    FrontierFacts(m, s, path, u);
    if |path| > 0 {
      WalkAt(m, s, path, 0);
    }
  }

  class BfsExplorer {
    const crawler: Crawler
    const localMap: array2<Tile>
    const mapSize: int
    var currentPos: Position
    var currentDir: Direction
    /** The notifications raised so far, oldest first. */
    var events: seq<ExplorerEvent>

    ghost predicate Valid()
      reads this
    {
      localMap.Length0 == mapSize && localMap.Length1 == mapSize
    }

    /**
     * A fresh explorer: its map is all unknown but for the centre, a room
     * where the crawler stands.
     */
    constructor(crawler: Crawler, mapSize: int)
      requires mapSize >= 1
      ensures Valid() && fresh(localMap)
      ensures this.crawler == crawler && this.mapSize == mapSize
      ensures currentPos == Position(mapSize / 2, mapSize / 2) && currentDir == crawler.direction
      ensures forall x, y :: 0 <= x < mapSize && 0 <= y < mapSize ==>
        localMap[x, y] == (if x == mapSize / 2 && y == mapSize / 2 then Room else Unknown)
      ensures events == []
    {
      this.crawler := crawler;
      this.mapSize := mapSize;
      var map_ := new Tile[mapSize, mapSize];
      for x := 0 to mapSize
        invariant forall i, j :: 0 <= i < x && 0 <= j < mapSize ==> map_[i, j] == Unknown
      {
        for y := 0 to mapSize
          invariant forall i, j :: 0 <= i < x && 0 <= j < mapSize ==> map_[i, j] == Unknown
          invariant forall j :: 0 <= j < y ==> map_[x, j] == Unknown
        {
          map_[x, y] := Unknown;
        }
      }
      var center := mapSize / 2;
      currentPos := Position(center, center);
      currentDir := crawler.direction;
      map_[center, center] := Room;
      localMap := map_;
      events := [];
    }

    predicate IsInBounds(pos: Position)
      requires Valid()
      reads this
      ensures IsInBounds(pos) <==> OnGrid(localMap, pos)
    {
      pos.x >= 0 && pos.x < mapSize && pos.y >= 0 && pos.y < mapSize
    }

    /** Records an observation of the cell `pos`, if it is on the map and still unknown. */
    method UpdateMapWithTileType(pos: Position, tileType: TileType)
      requires Valid()
      modifies localMap
      ensures forall x, y :: 0 <= x < mapSize && 0 <= y < mapSize && Position(x, y) != pos ==>
        localMap[x, y] == old(localMap[x, y])
      ensures OnGrid(localMap, pos) ==> localMap[pos.x, pos.y] == AfterObservation(old(localMap[pos.x, pos.y]), tileType)
    {
      if !IsInBounds(pos) {
        return;
      }
      if localMap[pos.x, pos.y] != Unknown {
        return;
      }
      match tileType
      case RoomType => localMap[pos.x, pos.y] := Room;
      case WallType => localMap[pos.x, pos.y] := Wall;
      case DoorType => localMap[pos.x, pos.y] := Door(false);
      case OutsideType => localMap[pos.x, pos.y] := Outside;
      case OtherType =>
    }

    /** Cells known at the start of a call keep their tile. */
    twostate predicate KnownKept()
      requires Valid()
      reads this, localMap
    {
      forall x, y :: 0 <= x < mapSize && 0 <= y < mapSize && old(localMap[x, y]) != Unknown ==>
        localMap[x, y] == old(localMap[x, y])
    }

    /**
     * Turns the crawler until it faces `targetDir`, one step of budget and
     * one notification per turn, stopping early when the budget runs out or
     * cancellation is requested.
     */
    method TurnToFace(targetDir: Direction, maxSteps: int, ct: Cancellation) returns (remaining: int)
      requires Valid()
      modifies this, crawler
      ensures remaining <= maxSteps && maxSteps - remaining <= TurnsNeeded(old(crawler.direction), targetDir)
      ensures maxSteps >= 0 ==> remaining >= 0
      ensures crawler.direction == Turned(old(crawler.direction), targetDir, maxSteps - remaining)
      ensures events == old(events) + TurnEvents(old(crawler.direction), targetDir, maxSteps - remaining)
      ensures crawler.actions == old(crawler.actions) + (maxSteps - remaining)
      ensures crawler.position == old(crawler.position) && currentPos == old(currentPos)
      ensures currentDir == if remaining == maxSteps then old(currentDir) else crawler.direction
      ensures crawler.direction == targetDir || remaining <= 0 || ct.IsRequested(crawler.actions)
    {
      ghost var d0 := old(crawler.direction);
      remaining := maxSteps;
      while crawler.direction != targetDir && remaining > 0 && !ct.IsRequested(crawler.actions)
        invariant remaining <= maxSteps && (maxSteps >= 0 ==> remaining >= 0)
        invariant maxSteps - remaining <= TurnsNeeded(d0, targetDir)
        invariant crawler.direction == Turned(d0, targetDir, maxSteps - remaining)
        invariant events == old(events) + TurnEvents(d0, targetDir, maxSteps - remaining)
        invariant crawler.actions == old(crawler.actions) + (maxSteps - remaining)
        invariant crawler.position == old(crawler.position) && currentPos == old(currentPos)
        invariant currentDir == if remaining == maxSteps then old(currentDir) else crawler.direction
        decreases remaining
      {
        TurnPlanArrives(d0, targetDir);
        TurnedStep(d0, targetDir, maxSteps - remaining);
        var testDir := Geometry.TurnRight(crawler.direction);
        if testDir == targetDir {
          crawler.TurnRight();
        } else {
          crawler.TurnLeft();
        }
        currentDir := crawler.direction;
        remaining := remaining - 1;
        events := events + [DirectionChanged(crawler.direction)];
      }
    }

    /**
     * Observes the faced cell and tries to walk into it, for one step of
     * budget. On success the explorer's position follows the crawler and the
     * bag takes every item of the room; on failure an unknown faced cell
     * becomes a wall.
     */
    method TryWalkForward(bag: Inventory, maxSteps: int, ct: Cancellation) returns (remaining: int)
      requires Valid() && bag !in crawler.rooms.Values
      modifies this, localMap, crawler, bag, crawler.rooms.Values
      ensures KnownKept()
      ensures crawler.direction == old(crawler.direction) && currentDir == old(currentDir)
      // the crawler's world position stays the explorer's map position shifted by a fixed offset
      ensures crawler.position.x - currentPos.x == old(crawler.position.x - currentPos.x)
      ensures crawler.position.y - currentPos.y == old(crawler.position.y - currentPos.y)
      ensures crawler.actions >= old(crawler.actions)
      ensures old(bag.items) <= bag.items
      ensures ct.IsRequested(old(crawler.actions)) || maxSteps <= 0 ==>
        remaining == maxSteps && events == old(events) && currentPos == old(currentPos) &&
        crawler.position == old(crawler.position) && crawler.actions == old(crawler.actions) &&
        bag.items == old(bag.items) && forall x, y :: 0 <= x < mapSize && 0 <= y < mapSize ==> localMap[x, y] == old(localMap[x, y])
      ensures !ct.IsRequested(old(crawler.actions)) && maxSteps > 0 ==> remaining == maxSteps - 1
      ensures !ct.IsRequested(old(crawler.actions)) && maxSteps > 0 ==>
        var f := Move(old(currentPos), old(crawler.direction));
        && (forall x, y :: 0 <= x < mapSize && 0 <= y < mapSize && Position(x, y) != f ==>
              localMap[x, y] == old(localMap[x, y]))
        && (currentPos == f) == old(crawler.canEnter(crawler.Facing(), bag.items))
        && (currentPos != f ==> currentPos == old(currentPos) && events == old(events))
        && (currentPos == f ==> crawler.position == old(crawler.Facing()) && events == old(events) + [PositionChanged(crawler.position)])
        && (currentPos != f ==> crawler.position == old(crawler.position))
        && (OnGrid(localMap, f) ==>
              var seen := AfterObservation(old(localMap[f.x, f.y]), old(crawler.world(crawler.Facing())));
              localMap[f.x, f.y] == if currentPos == f then seen else AfterFailedWalk(seen))
    {
      if ct.IsRequested(crawler.actions) || maxSteps <= 0 {
        return maxSteps;
      }

      // first observe what is ahead
      var facingType := crawler.FacingTileType();
      var facingPos := Move(currentPos, crawler.direction);
      UpdateMapWithTileType(facingPos, facingType);

      var room := crawler.TryWalk(bag);
      remaining := maxSteps - 1;

      if room != null {
        currentPos := facingPos;
        bag.MoveAllFrom(room);
        events := events + [PositionChanged(crawler.position)];
      } else {
        // failed to walk: the cell is marked as a wall unless it is known already
        if IsInBounds(facingPos) && localMap[facingPos.x, facingPos.y] == Unknown {
          localMap[facingPos.x, facingPos.y] := Wall;
        }
      }
    }

    /**
     * One step towards the nearest unknown cell: face it and try to walk in
     * when it is adjacent, otherwise face the first cell of the path and
     * try to walk there. `stop` is set when the search loop must end.
     */
    method StepTowardsFrontier(pathResult: PathResult, bag: Inventory, maxSteps: int, ct: Cancellation)
      returns (remaining: int, stop: bool)
      requires Valid() && bag !in crawler.rooms.Values && maxSteps > 0
      requires pathResult.status == UnknownReached && pathResult.nearestUnknown.Some?
      requires IsFrontier(localMap, currentPos, pathResult.path, pathResult.nearestUnknown.value)
      modifies this, localMap, crawler, bag, crawler.rooms.Values
      ensures 0 <= remaining < maxSteps || (remaining == maxSteps && stop)
      ensures stop ==> ct.IsRequested(crawler.actions) || remaining <= 0
      ensures KnownKept()
      ensures |events| - |old(events)| <= maxSteps - remaining
      ensures crawler.position.x - currentPos.x == old(crawler.position.x - currentPos.x)
      ensures crawler.position.y - currentPos.y == old(crawler.position.y - currentPos.y)
      ensures crawler.actions >= old(crawler.actions)
      ensures old(bag.items) <= bag.items
      // the step goes to the adjacent unknown cell, or to the first cell of the path
      ensures var target := if |pathResult.path| == 0 then pathResult.nearestUnknown.value else pathResult.path[0];
        && GetDirectionTo(old(currentPos), target).Some?
        && (crawler.direction == GetDirectionTo(old(currentPos), target).value || ct.IsRequested(crawler.actions) || remaining <= 0)
        && (currentPos == old(currentPos) || (currentPos == target && crawler.direction == GetDirectionTo(old(currentPos), target).value))
    {
      FrontierStepAdjacent(localMap, currentPos, pathResult.path, pathResult.nearestUnknown.value);
      stop := false;
      if |pathResult.path| == 0 && pathResult.nearestUnknown.Some? {
        // the unknown cell is adjacent: face it and try to walk in
        var targetDir := GetDirectionTo(currentPos, pathResult.nearestUnknown.value).value;
        remaining := TurnToFace(targetDir, maxSteps, ct);
        if ct.IsRequested(crawler.actions) {
          return remaining, true;
        }
        remaining := TryWalkForward(bag, remaining, ct);
      } else {
        // follow the path one step, then look again
        var nextPos := pathResult.path[0];
        var targetDir := GetDirectionTo(currentPos, nextPos).value;
        remaining := TurnToFace(targetDir, maxSteps, ct);
        if ct.IsRequested(crawler.actions) || remaining <= 0 {
          return remaining, true;
        }
        remaining := TryWalkForward(bag, remaining, ct);
      }
    }

    /**
     * Explores until the crawler faces the exit, the budget runs out, the
     * map holds no reachable unknown cell, or cancellation is requested, and
     * returns the budget left.
     */
    method GetOut(maxSteps: int, bag: Inventory, ct: Cancellation) returns (remaining: int)
      requires Valid() && bag !in crawler.rooms.Values
      modifies this, localMap, crawler, bag, crawler.rooms.Values
      ensures remaining <= maxSteps && (maxSteps >= 0 ==> remaining >= 0)
      ensures maxSteps <= 0 || ct.IsRequested(old(crawler.actions)) ==>
        remaining == maxSteps && events == old(events) && currentPos == old(currentPos) && currentDir == old(currentDir) &&
        crawler.position == old(crawler.position) && crawler.direction == old(crawler.direction) &&
        crawler.actions == old(crawler.actions) && bag.items == old(bag.items) &&
        forall x, y :: 0 <= x < mapSize && 0 <= y < mapSize ==> localMap[x, y] == old(localMap[x, y])
      // facing the exit at the start: the look costs no budget and nothing moves
      ensures maxSteps > 0 && !ct.IsRequested(old(crawler.actions)) && old(crawler.world(crawler.Facing())) == OutsideType ==>
        remaining == maxSteps && events == old(events) && currentPos == old(currentPos) && currentDir == old(currentDir) &&
        crawler.position == old(crawler.position) && crawler.direction == old(crawler.direction) && bag.items == old(bag.items)
      ensures KnownKept()
      ensures |events| - |old(events)| <= maxSteps - remaining
      ensures crawler.position.x - currentPos.x == old(crawler.position.x - currentPos.x)
      ensures crawler.position.y - currentPos.y == old(crawler.position.y - currentPos.y)
      ensures old(bag.items) <= bag.items
      ensures remaining > 0 && !ct.IsRequested(crawler.actions) ==>
        crawler.world(crawler.Facing()) == OutsideType || forall q, u :: !IsFrontier(localMap, currentPos, q, u)
    {
      remaining := maxSteps;
      ghost var ran := false;
      ghost var exitAhead := crawler.world(Move(crawler.position, crawler.direction)) == OutsideType;
      while remaining > 0 && !ct.IsRequested(crawler.actions)
        invariant remaining <= maxSteps && (maxSteps >= 0 ==> remaining >= 0)
        invariant (maxSteps <= 0 || ct.IsRequested(old(crawler.actions))) ==> !ran
        invariant exitAhead ==> !ran
        invariant !ran ==>
          remaining == maxSteps && events == old(events) && currentPos == old(currentPos) && currentDir == old(currentDir) &&
          crawler.position == old(crawler.position) && crawler.direction == old(crawler.direction) &&
          crawler.actions == old(crawler.actions) && bag.items == old(bag.items) &&
          forall x, y :: 0 <= x < mapSize && 0 <= y < mapSize ==> localMap[x, y] == old(localMap[x, y])
        invariant forall x, y :: 0 <= x < mapSize && 0 <= y < mapSize && old(localMap[x, y]) != Unknown ==>
          localMap[x, y] == old(localMap[x, y])
        invariant |events| - |old(events)| <= maxSteps - remaining
        invariant crawler.position.x - currentPos.x == old(crawler.position.x - currentPos.x)
        invariant crawler.position.y - currentPos.y == old(crawler.position.y - currentPos.y)
        invariant crawler.actions >= old(crawler.actions)
        invariant old(bag.items) <= bag.items
        decreases remaining
      {
        ran := true;
        // 1. observe the faced cell and record it
        var facingType := crawler.FacingTileType();
        var facingPos := Move(currentPos, crawler.direction);
        UpdateMapWithTileType(facingPos, facingType);

        // 2. facing the outside: the exit is found
        if facingType == OutsideType {
          return remaining;
        }

        // 3. the nearest unknown cell
        var pathResult := Pathfinding.FindNearestUnknown(currentPos, localMap);
        if pathResult.status == PathStatus.NotFound {
          // the map is fully explored and holds no exit
          return remaining;
        }

        // 4. one step towards it
        ghost var before := remaining;
        var stop;
        remaining, stop := StepTowardsFrontier(pathResult, bag, remaining, ct);
        if stop {
          break;
        }
        assert remaining < before || remaining <= 0;
      }
    }
  }
}
