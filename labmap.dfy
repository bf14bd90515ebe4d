// The training server's labyrinth: a grid of tile types with the items lying
// on each cell and the open/closed state of each door, and the fixed maze the
// server plays on.

module TrainingMap {
  import opened Geometry
  import opened Tiles
  import opened Options
  import opened CrawlerStates

  /** The item the default maze places next to the start. */
  const StartKey := InventoryItem(Key, None)

  /** The cell one step away in `direction`, as the server computes it. */
  function GetDirectionDelta(direction: Direction): (r: (int, int))
    ensures r == (DeltaX(direction), DeltaY(direction))
    ensures Abs(r.0) + Abs(r.1) == 1
  {
    match direction
    case North => (0, -1)
    case East => (1, 0)
    case South => (0, 1)
    case West => (-1, 0)
  }

  /** A border cell of a `width` by `height` grid. */
  predicate IsBorder(width: int, height: int, x: int, y: int)
  {
    x == 0 || x == width - 1 || y == 0 || y == height - 1
  }

  /** An inner pillar: both coordinates even and at least two cells from every edge. */
  predicate IsPillar(width: int, height: int, x: int, y: int)
  {
    2 <= x < width - 2 && 2 <= y < height - 2 && x % 2 == 0 && y % 2 == 0
  }

  /** The single door of the default maze, halfway down the west edge. */
  predicate IsDefaultDoor(height: int, x: int, y: int)
  {
    x == 0 && y == height / 2
  }

  /** The tile of each cell of the default maze. */
  function DefaultTile(width: int, height: int, x: int, y: int): TileType
  {
    if IsDefaultDoor(height, x, y) then DoorType
    else if IsBorder(width, height, x, y) then WallType
    else if IsPillar(width, height, x, y) then WallType
    else RoomType
  }

  /** The tile after the room fill and the outer walls. */
  function Walled(width: int, height: int, x: int, y: int): TileType
  {
    if IsBorder(width, height, x, y) then WallType else RoomType
  }

  class LabyrinthMap {
    const width: int
    const height: int
    const tiles: array2<TileType>
    const tileItems: array2<seq<InventoryItem>>
    /** true when the door on that cell is open */
    const doorStates: array2<bool>
    const startX: int
    const startY: int

    ghost predicate Valid()
      reads this
    {
      && tiles.Length0 == width && tiles.Length1 == height
      && tileItems.Length0 == width && tileItems.Length1 == height
      && doorStates.Length0 == width && doorStates.Length1 == height
    }

    predicate InBounds(x: int, y: int)
      reads this
    {
      0 <= x < width && 0 <= y < height
    }

    /** A map of the given size with no items and every door closed; the tiles are not set. */
    constructor(width: int, height: int, startX: int, startY: int)
      requires width >= 0 && height >= 0
      ensures Valid()
      ensures this.width == width && this.height == height
      ensures this.startX == startX && this.startY == startY
      ensures fresh(tiles) && fresh(tileItems) && fresh(doorStates)
      ensures forall x, y :: 0 <= x < width && 0 <= y < height ==> tileItems[x, y] == [] && !doorStates[x, y]
    {
      this.width := width;
      this.height := height;
      this.startX := startX;
      this.startY := startY;
      tiles := new TileType[width, height];
      tileItems := new seq<InventoryItem>[width, height];
      doorStates := new bool[width, height]((x, y) => false);
      new;
      for x := 0 to width
        modifies tileItems
        invariant forall a, b :: 0 <= a < x && 0 <= b < height ==> tileItems[a, b] == []
      {
        for y := 0 to height
          modifies tileItems
          invariant forall a, b :: 0 <= a < x && 0 <= b < height ==> tileItems[a, b] == []
          invariant forall b :: 0 <= b < y ==> tileItems[x, b] == []
        {
          tileItems[x, y] := [];
        }
      }
    }

    /**
     * The 21 by 19 maze the server plays on: walls around the edge and on a
     * grid of pillars, one door in the west wall, the start in the middle
     * and a key just west of it.
     */
    static method CreateDefault() returns (m: LabyrinthMap)
      ensures fresh(m) && fresh(m.tiles) && fresh(m.tileItems) && fresh(m.doorStates)
      ensures m.Valid() && m.width == 21 && m.height == 19
      ensures m.startX == m.width / 2 && m.startY == m.height / 2
      ensures forall x, y :: 0 <= x < 21 && 0 <= y < 19 ==> m.tiles[x, y] == DefaultTile(21, 19, x, y)
      ensures forall x, y :: 0 <= x < 21 && 0 <= y < 19 ==>
        m.tileItems[x, y] == (if x == m.startX - 1 && y == m.startY then [StartKey] else [])
      ensures forall x, y :: 0 <= x < 21 && 0 <= y < 19 ==> !m.doorStates[x, y]
    {
      var width := 21;
      var height := 19;
      var startX := width / 2;
      var startY := height / 2;
      m := new LabyrinthMap(width, height, startX, startY);

      // fill with rooms
      m.FillRooms();
      // outer walls
      for x := 0 to width
        modifies m.tiles
        invariant forall a, b :: 0 <= a < width && 0 <= b < height ==>
          m.tiles[a, b] == if a < x && (b == 0 || b == height - 1) then WallType else RoomType
      {
        m.tiles[x, 0] := WallType;
        m.tiles[x, height - 1] := WallType;
      }
      for y := 0 to height
        modifies m.tiles
        invariant forall a, b :: 0 <= a < width && 0 <= b < height ==>
          m.tiles[a, b] == if (b < y && (a == 0 || a == width - 1)) || b == 0 || b == height - 1 then WallType else RoomType
      {
        m.tiles[0, y] := WallType;
        m.tiles[width - 1, y] := WallType;
      }
      assert forall a, b :: 0 <= a < width && 0 <= b < height ==> m.tiles[a, b] == Walled(width, height, a, b);
      // pillars at even positions
      m.AddPillars();
      // the door
      m.tiles[0, height / 2] := DoorType;
      // the key
      m.tileItems[startX - 1, startY] := m.tileItems[startX - 1, startY] + [StartKey];
    }

    /** Every tile becomes a room. */
    method FillRooms()
      requires Valid()
      modifies tiles
      ensures forall a, b :: 0 <= a < width && 0 <= b < height ==> tiles[a, b] == RoomType
    {
      for x := 0 to width
        invariant forall a, b :: 0 <= a < x && 0 <= b < height ==> tiles[a, b] == RoomType
      {
        for y := 0 to height
          invariant forall a, b :: 0 <= a < x && 0 <= b < height ==> tiles[a, b] == RoomType
          invariant forall b :: 0 <= b < y ==> tiles[x, b] == RoomType
        {
          tiles[x, y] := RoomType;
        }
      }
    }

    /** Walls are raised on every cell with both coordinates even, two or more cells inside the edge. */
    method AddPillars()
      requires Valid() && width >= 0 && height >= 0
      requires forall a, b :: 0 <= a < width && 0 <= b < height ==> tiles[a, b] == Walled(width, height, a, b)
      modifies tiles
      ensures forall a, b :: 0 <= a < width && 0 <= b < height ==>
        tiles[a, b] == if IsPillar(width, height, a, b) then WallType else Walled(width, height, a, b)
    {
      var x := 2;
      while x < width - 2
        invariant 2 <= x && x % 2 == 0
        invariant forall a, b :: 0 <= a < width && 0 <= b < height ==>
          tiles[a, b] == if a < x && IsPillar(width, height, a, b) then WallType else Walled(width, height, a, b)
        decreases width - x
      {
        var y := 2;
        while y < height - 2
          invariant 2 <= y && y % 2 == 0
          invariant forall a, b :: 0 <= a < width && 0 <= b < height ==>
            tiles[a, b] == if (a < x || (a == x && b < y)) && IsPillar(width, height, a, b) then WallType else Walled(width, height, a, b)
          decreases height - y
        {
          tiles[x, y] := WallType;
          y := y + 2;
        }
        x := x + 2;
      }
    }

    /** The tile faced from (x, y): outside the grid it is Outside. */
    function GetFacingTile(x: int, y: int, direction: Direction): (r: TileType)
      requires Valid()
      reads this, tiles
      ensures var p := Move(Position(x, y), direction);
        r == if InBounds(p.x, p.y) then tiles[p.x, p.y] else OutsideType
    {
      var (dx, dy) := GetDirectionDelta(direction);
      var newX := x + dx;
      var newY := y + dy;
      if newX < 0 || newX >= width || newY < 0 || newY >= height then OutsideType
      else tiles[newX, newY]
    }

    /**
     * Whether a crawler on (x, y) may step in `direction`: off the grid (an
     * escape), onto a room or onto an outside tile it may; into a wall it
     * may not; into a door only with a key or when the door is open.
     */
    predicate CanMoveTo(x: int, y: int, direction: Direction, hasKey: bool)
      requires Valid()
      reads this, tiles, doorStates
    {
      var (dx, dy) := GetDirectionDelta(direction);
      var newX := x + dx;
      var newY := y + dy;
      if newX < 0 || newX >= width || newY < 0 || newY >= height then true
      else match tiles[newX, newY]
        case RoomType => true
        case WallType => false
        case DoorType => hasKey || doorStates[newX, newY]
        case OutsideType => true
        case OtherType => false
    }
  }

  /** What a move permits, by the type of the target tile. */
  lemma CanMoveToCases(m: LabyrinthMap, x: int, y: int, direction: Direction, hasKey: bool)
    requires m.Valid()
    ensures var p := Move(Position(x, y), direction);
      && (!m.InBounds(p.x, p.y) ==> m.CanMoveTo(x, y, direction, hasKey))
      && (m.InBounds(p.x, p.y) ==>
           (m.CanMoveTo(x, y, direction, hasKey) <==>
              m.tiles[p.x, p.y] == RoomType || m.tiles[p.x, p.y] == OutsideType ||
              (m.tiles[p.x, p.y] == DoorType && (hasKey || m.doorStates[p.x, p.y]))))
  {
  }

  /** A key never forbids a move, and walls forbid it with or without one. */
  lemma CanMoveToKeyMonotone(m: LabyrinthMap, x: int, y: int, direction: Direction)
    requires m.Valid()
    ensures m.CanMoveTo(x, y, direction, false) ==> m.CanMoveTo(x, y, direction, true)
    ensures m.GetFacingTile(x, y, direction) == WallType ==> !m.CanMoveTo(x, y, direction, true)
  {
  }

  /** Along the edge of the default maze every cell is a wall, except the door at (0, 9). */
  lemma DefaultBorder(x: int, y: int)
    requires 0 <= x < 21 && 0 <= y < 19 && IsBorder(21, 19, x, y)
    ensures DefaultTile(21, 19, x, y) == if x == 0 && y == 9 then DoorType else WallType
  {
  }

  /** Inside the edge, the default maze has walls exactly on the even-even pillar cells. */
  lemma DefaultInterior(x: int, y: int)
    requires 0 < x < 20 && 0 < y < 18
    ensures DefaultTile(21, 19, x, y) == WallType <==> x % 2 == 0 && y % 2 == 0 && 2 <= x <= 18 && 2 <= y <= 16
    ensures DefaultTile(21, 19, x, y) != WallType ==> DefaultTile(21, 19, x, y) == RoomType
  {
  }

  /** The start and the key's cell are rooms, and the door is reachable from inside. */
  lemma DefaultStartCells()
    ensures DefaultTile(21, 19, 10, 9) == RoomType
    ensures DefaultTile(21, 19, 9, 9) == RoomType
    ensures DefaultTile(21, 19, 1, 9) == RoomType
  {
  }
}
