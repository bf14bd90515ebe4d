// The training server's game: a registry of crawlers owned by application
// keys, playing on one shared labyrinth that is built when the first crawler
// is created. Crawlers turn and walk, open doors with keys, and move items
// between their bag and the cell they stand on.

module TrainingService {
  import opened Geometry
  import opened Tiles
  import opened Options
  import opened CrawlerStates
  import opened TrainingMap

  /** No application key may own more crawlers than this. */
  const MaxCrawlersPerAppKey := 3

  datatype CreateCrawlerResult = Success | TooManyCrawlers
  datatype UpdateCrawlerResult = Success | NotFound | Forbidden | Conflict
  datatype TransferResult = Success | NotFound | Forbidden
  datatype DeleteCrawlerResult = Success | NotFound | Forbidden

  /** The crawlers of a registry that belong to `appKey`. */
  function OwnedIn(crawlers: map<Guid, CrawlerState>, appKey: Guid): set<Guid>
  {
    set id | id in crawlers && crawlers[id].appKey == appKey
  }

  /** Every crawler is filed under its own id. */
  ghost predicate FiledById(crawlers: map<Guid, CrawlerState>)
  {
    forall id :: id in crawlers ==> crawlers[id].id == id
  }

  /** No application key owns more than MaxCrawlersPerAppKey crawlers. */
  ghost predicate WithinCap(crawlers: map<Guid, CrawlerState>)
  {
    forall k :: |OwnedIn(crawlers, k)| <= MaxCrawlersPerAppKey
  }

  /** Whether a bag holds a key. */
  predicate HasKey(bag: seq<InventoryItem>)
  {
    exists i :: 0 <= i < |bag| && bag[i].kind == Key
  }

  /** Whether a transfer request asks for its item to be moved. */
  predicate MoveRequested(item: InventoryItem)
  {
    item.moveRequired == Some(true)
  }

  /**
   * The items of `source` and `destination` after a transfer: for each
   * request that asks for a move, in order, the first item of that kind
   * leaves `source` and a fresh item of that kind joins the end of
   * `destination`; a request for a kind `source` lacks moves nothing.
   */
  function MoveItems(source: seq<InventoryItem>, destination: seq<InventoryItem>, requests: seq<InventoryItem>)
    : (seq<InventoryItem>, seq<InventoryItem>)
    decreases |requests|
  {
    if |requests| == 0 then (source, destination)
    else
      var (s, d) := MoveItems(source, destination, requests[..|requests| - 1]);
      var item := requests[|requests| - 1];
      if !MoveRequested(item) then (s, d)
      else match FindKind(s, item.kind)
        case None => (s, d)
        case Some(i) => (RemoveAt(s, i), d + [InventoryItem(item.kind, None)])
  }

  /** A transfer neither creates nor destroys items: the kinds held between both sides are the same. */
  lemma {:induction false} MoveItemsPreservesKinds(source: seq<InventoryItem>, destination: seq<InventoryItem>, requests: seq<InventoryItem>)
    ensures var (s, d) := MoveItems(source, destination, requests);
      Kinds(s) + Kinds(d) == Kinds(source) + Kinds(destination)
    decreases |requests|
  {
    if |requests| > 0 {
      var (s, d) := MoveItems(source, destination, requests[..|requests| - 1]);
      MoveItemsPreservesKinds(source, destination, requests[..|requests| - 1]);
      var item := requests[|requests| - 1];
      if MoveRequested(item) && FindKind(s, item.kind).Some? {
        var i := FindKind(s, item.kind).value;
        KindsAppendOne(d, InventoryItem(item.kind, None));
        assert KindSeq(s)[i] == item.kind;
        var ks, kd := Kinds(s), Kinds(d);
        assert item.kind in ks;
        assert Kinds(RemoveAt(s, i)) + Kinds(d + [InventoryItem(item.kind, None)])
          == (ks - multiset{item.kind}) + (kd + multiset{item.kind});
      }
    }
  }

  /** Each request moves at most one item, and requests that do not ask for a move move nothing. */
  lemma {:induction false} MoveItemsBound(source: seq<InventoryItem>, destination: seq<InventoryItem>, requests: seq<InventoryItem>)
    ensures var (s, d) := MoveItems(source, destination, requests);
      && |s| + |d| == |source| + |destination|
      && |destination| <= |d| <= |destination| + |requests|
      && ((forall i :: 0 <= i < |requests| ==> !MoveRequested(requests[i])) ==> s == source && d == destination)
    decreases |requests|
  {
    if |requests| > 0 {
      MoveItemsBound(source, destination, requests[..|requests| - 1]);
    }
  }

  class LabyrinthService {
    var labyrinth: LabyrinthMap?
    var crawlers: map<Guid, CrawlerState>

    /**
     * There are no crawlers before the labyrinth exists, every crawler is
     * filed under its own id, and no application key owns more than
     * MaxCrawlersPerAppKey of them.
     */
    ghost predicate Valid()
      reads this, labyrinth
    {
      && (labyrinth == null ==> crawlers == map[])
      && (labyrinth != null ==> labyrinth.Valid() && labyrinth.InBounds(labyrinth.startX, labyrinth.startY))
      && FiledById(crawlers)
      && WithinCap(crawlers)
    }

    /** The arrays a turn or walk may change. */
    ghost function Doors(): set<object>
      reads this
    {
      if labyrinth == null then {} else {labyrinth.doorStates}
    }

    /** The arrays a transfer may change. */
    ghost function Cells(): set<object>
      reads this
    {
      if labyrinth == null then {} else {labyrinth.tileItems}
    }

    constructor()
      ensures Valid() && labyrinth == null && crawlers == map[]
    {
      labyrinth := null;
      crawlers := map[];
    }

    /** The items on a cell, or none off the grid or before the labyrinth exists. */
    function GetTileItemsSafe(x: int, y: int): (r: seq<InventoryItem>)
      requires Valid()
      reads this, labyrinth, if labyrinth == null then {} else {labyrinth.tileItems}
      ensures labyrinth != null && labyrinth.InBounds(x, y) ==> r == labyrinth.tileItems[x, y]
      ensures (labyrinth == null || !labyrinth.InBounds(x, y)) ==> r == []
    {
      if labyrinth == null || x < 0 || x >= labyrinth.width || y < 0 || y >= labyrinth.height then []
      else labyrinth.tileItems[x, y]
    }

    /** A crawler's snapshot as the queries report it. */
    function Snapshot(id: Guid): CrawlerDto
      requires Valid() && labyrinth != null && id in crawlers
      reads this, labyrinth, labyrinth.tiles, labyrinth.tileItems
    {
      var s := crawlers[id];
      s.ToDto(labyrinth.GetFacingTile(s.x, s.y, s.direction), GetTileItemsSafe(s.x, s.y))
    }

    /** The snapshots of exactly the crawlers `appKey` owns, each once. */
    method GetAllCrawlers(appKey: Guid) returns (r: seq<CrawlerDto>)
      requires Valid()
      ensures labyrinth == null ==> r == []
      ensures labyrinth != null ==>
        && (forall i :: 0 <= i < |r| ==> r[i].id in OwnedIn(crawlers, appKey) && r[i] == Snapshot(r[i].id))
        && (forall id :: id in OwnedIn(crawlers, appKey) ==> exists i :: 0 <= i < |r| && r[i].id == id)
        && (forall i, j :: 0 <= i < j < |r| ==> r[i].id != r[j].id)
    {
      if labyrinth == null {
        return [];
      }
      r := [];
      ghost var ids: seq<Guid> := [];
      var remaining := crawlers.Keys;
      while |remaining| > 0
        invariant Collected(appKey, remaining, ids, r)
        decreases |remaining|
      {
        NoMemberEmpty(remaining);
        var id :| id in remaining;
        var c := crawlers[id];
        ghost var before, beforeIds := r, ids;
        if c.appKey == appKey {
          r := r + [c.ToDto(labyrinth.GetFacingTile(c.x, c.y, c.direction), GetTileItemsSafe(c.x, c.y))];
          ids := ids + [id];
        }
        CollectedStep(appKey, remaining, beforeIds, before, id, ids, r);
        remaining := remaining - {id};
      }
      forall id | id in OwnedIn(crawlers, appKey)
        ensures exists i :: 0 <= i < |r| && r[i].id == id
      {
        var i :| 0 <= i < |ids| && ids[i] == id;
      }
    }

    /**
     * While the registry is being listed: `r` holds the snapshots of the
     * crawlers `ids`, which are distinct, all belong to `appKey` and are
     * all the crawlers of `appKey` no longer `remaining`.
     */
    ghost predicate Collected(appKey: Guid, remaining: set<Guid>, ids: seq<Guid>, r: seq<CrawlerDto>)
      requires Valid() && labyrinth != null
      reads this, labyrinth, labyrinth.tiles, labyrinth.tileItems
    {
      && remaining <= crawlers.Keys && |ids| == |r|
      && (forall i :: 0 <= i < |r| ==>
            ids[i] in OwnedIn(crawlers, appKey) && ids[i] !in remaining && r[i] == Snapshot(ids[i]) && r[i].id == ids[i])
      && (forall id :: id in OwnedIn(crawlers, appKey) && id !in remaining ==> id in ids)
      && (forall i, j :: 0 <= i < j < |ids| ==> ids[i] != ids[j])
    }

    /** Looking at one more crawler keeps the listing in step. */
    lemma CollectedStep(appKey: Guid, remaining: set<Guid>, ids: seq<Guid>, r: seq<CrawlerDto>,
                        id: Guid, ids': seq<Guid>, r': seq<CrawlerDto>)
      requires Valid() && labyrinth != null
      requires Collected(appKey, remaining, ids, r) && id in remaining
      requires crawlers[id].appKey == appKey ==> ids' == ids + [id] && r' == r + [Snapshot(id)]
      requires crawlers[id].appKey != appKey ==> ids' == ids && r' == r
      ensures Collected(appKey, remaining - {id}, ids', r')
    {
    }

    /**
     * A crawler's snapshot for its owner; nothing for an unknown id (or
     * before the labyrinth exists), and a refusal for anyone else.
     */
    function GetCrawler(crawlerId: Guid, appKey: Guid): (r: (Option<CrawlerDto>, bool))
      requires Valid()
      reads this, labyrinth, if labyrinth == null then {} else {labyrinth.tiles, labyrinth.tileItems}
      ensures r.0.Some? <==> labyrinth != null && crawlerId in crawlers && crawlers[crawlerId].appKey == appKey
      ensures r.1 <==> labyrinth != null && crawlerId in crawlers && crawlers[crawlerId].appKey != appKey
      ensures r.0.Some? ==> r.0.value == Snapshot(crawlerId) && r.0.value.id == crawlerId
    {
      if labyrinth == null || crawlerId !in crawlers then (None, false)
      else
        var s := crawlers[crawlerId];
        if s.appKey != appKey then (None, true)
        else (Some(s.ToDto(labyrinth.GetFacingTile(s.x, s.y, s.direction), GetTileItemsSafe(s.x, s.y))), false)
    }

    /** A crawler's bag for its owner. Unlike the other queries this one does not look at the labyrinth. */
    function GetCrawlerBag(crawlerId: Guid, appKey: Guid): (r: (Option<seq<InventoryItem>>, bool))
      reads this
      ensures r.0.Some? <==> crawlerId in crawlers && crawlers[crawlerId].appKey == appKey
      ensures r.1 <==> crawlerId in crawlers && crawlers[crawlerId].appKey != appKey
      ensures r.0.Some? ==> r.0.value == crawlers[crawlerId].bag
    {
      if crawlerId !in crawlers then (None, false)
      else
        var s := crawlers[crawlerId];
        if s.appKey != appKey then (None, true)
        else (Some(s.bag), false)
    }

    /** The items on a crawler's cell, for its owner; none when the crawler is off the grid. */
    function GetCrawlerItems(crawlerId: Guid, appKey: Guid): (r: (Option<seq<InventoryItem>>, bool))
      requires Valid()
      reads this, labyrinth, if labyrinth == null then {} else {labyrinth.tileItems}
      ensures r.0.Some? <==> labyrinth != null && crawlerId in crawlers && crawlers[crawlerId].appKey == appKey
      ensures r.1 <==> labyrinth != null && crawlerId in crawlers && crawlers[crawlerId].appKey != appKey
      ensures r.0.Some? ==>
        var s := crawlers[crawlerId];
        r.0.value == if labyrinth.InBounds(s.x, s.y) then labyrinth.tileItems[s.x, s.y] else []
    {
      if labyrinth == null || crawlerId !in crawlers then (None, false)
      else
        var s := crawlers[crawlerId];
        if s.appKey != appKey then (None, true)
        else (Some(GetTileItemsSafe(s.x, s.y)), false)
    }

    /**
     * Creates a crawler for `appKey` under the unused id `newId`, building the
     * default labyrinth first if there is none. A key that already owns
     * MaxCrawlersPerAppKey crawlers is refused and the registry is left as
     * it was (the labyrinth, once built, stays).
     */
    method CreateCrawler(appKey: Guid, newId: Guid) returns (crawler: Option<CrawlerDto>, result: CreateCrawlerResult)
      requires Valid() && newId !in crawlers
      modifies this
      ensures Valid() && labyrinth != null
      ensures old(labyrinth) != null ==> labyrinth == old(labyrinth)
      ensures old(labyrinth) == null ==>
        && fresh(labyrinth) && labyrinth.width == 21 && labyrinth.height == 19
        && labyrinth.startX == 10 && labyrinth.startY == 9
        && (forall x, y :: 0 <= x < 21 && 0 <= y < 19 ==> labyrinth.tiles[x, y] == DefaultTile(21, 19, x, y))
        && (forall x, y :: 0 <= x < 21 && 0 <= y < 19 ==>
              labyrinth.tileItems[x, y] == (if x == 9 && y == 9 then [StartKey] else []) && !labyrinth.doorStates[x, y])
      ensures result == CreateCrawlerResult.TooManyCrawlers <==> |OwnedIn(old(crawlers), appKey)| >= MaxCrawlersPerAppKey
      ensures result == CreateCrawlerResult.TooManyCrawlers ==> crawler == None && crawlers == old(crawlers)
      ensures result == CreateCrawlerResult.Success ==>
        var s := CrawlerState(newId, appKey, labyrinth.startX, labyrinth.startY, North, false, []);
        && crawlers == old(crawlers)[newId := s]
        && crawler == Some(s.ToDto(labyrinth.GetFacingTile(s.x, s.y, North), labyrinth.tileItems[s.x, s.y]))
        && |OwnedIn(crawlers, appKey)| == |OwnedIn(old(crawlers), appKey)| + 1
    {
      if labyrinth == null {
        labyrinth := LabyrinthMap.CreateDefault();
      }

      var existingCount := |OwnedIn(crawlers, appKey)|;
      if existingCount >= MaxCrawlersPerAppKey {
        return None, CreateCrawlerResult.TooManyCrawlers;
      }

      var crawlerState := CrawlerState(newId, appKey, labyrinth.startX, labyrinth.startY, North, false, []);
      OwnedInsert(crawlers, crawlerState);
      crawlers := crawlers[crawlerState.id := crawlerState];

      var facingTile := labyrinth.GetFacingTile(crawlerState.x, crawlerState.y, crawlerState.direction);
      var tileItems := labyrinth.tileItems[crawlerState.x, crawlerState.y];
      return Some(crawlerState.ToDto(facingTile, tileItems)), CreateCrawlerResult.Success;
    }

    /**
     * Turns the crawler to `update.dir` and, when `update.walking`, steps it
     * one cell that way if the labyrinth lets it: a closed door is entered
     * with a key, which the door keeps, and stays open. A refused step is a
     * Conflict but keeps the turn.
     */
    method UpdateCrawler(crawlerId: Guid, appKey: Guid, update: CrawlerDto)
      returns (crawler: Option<CrawlerDto>, result: UpdateCrawlerResult)
      requires Valid()
      modifies this, Doors()
      ensures Valid() && labyrinth == old(labyrinth)
      ensures result == UpdateCrawlerResult.NotFound <==> old(labyrinth == null || crawlerId !in crawlers)
      ensures result == UpdateCrawlerResult.Forbidden <==> old(IsForeign(crawlerId, appKey))
      ensures crawler.None? <==> result == UpdateCrawlerResult.NotFound || result == UpdateCrawlerResult.Forbidden
      ensures crawler.None? ==> crawlers == old(crawlers) && unchanged(Doors())
      ensures crawler.Some? ==>
        var s := old(crawlers[crawlerId]);
        var allowed := old(Allowed(labyrinth, s, update.dir));
        var unlocks := update.walking && old(Unlocks(labyrinth, s, update.dir));
        && crawlers == old(crawlers)[crawlerId := Updated(s, update.dir, update.walking && allowed, unlocks)]
        && (result == UpdateCrawlerResult.Conflict <==> update.walking && !allowed)
        && DoorsAfter(labyrinth, unlocks, Move(Position(s.x, s.y), update.dir))
        && crawler.value == Reported(labyrinth, crawlers[crawlerId])
    {
      if labyrinth == null || crawlerId !in crawlers {
        return None, UpdateCrawlerResult.NotFound;
      }
      var crawlerState := crawlers[crawlerId];
      if crawlerState.appKey != appKey {
        return None, UpdateCrawlerResult.Forbidden;
      }

      var movementBlocked := false;
      // the turn comes first
      crawlerState := crawlerState.(direction := update.dir);
      if update.walking {
        crawlerState, movementBlocked := Walk(crawlerState);
      } else {
        crawlerState := Updated(crawlerState, update.dir, false, false);
      }
      assert crawlerState.id == crawlerId;
      OwnedReplace(crawlers, crawlerState);
      crawlers := crawlers[crawlerId := crawlerState];

      var facingTile;
      if crawlerState.x < 0 || crawlerState.x >= labyrinth.width || crawlerState.y < 0 || crawlerState.y >= labyrinth.height {
        facingTile := OutsideType;
      } else {
        facingTile := labyrinth.GetFacingTile(crawlerState.x, crawlerState.y, crawlerState.direction);
      }
      var tileItems := GetTileItemsSafe(crawlerState.x, crawlerState.y);

      result := if movementBlocked then UpdateCrawlerResult.Conflict else UpdateCrawlerResult.Success;
      return Some(crawlerState.ToDto(facingTile, tileItems)), result;
    }

    /** Door states change only where a door was unlocked, and then to open. */
    twostate predicate DoorsAfter(m: LabyrinthMap, unlocks: bool, target: Position)
      requires m.Valid()
      reads m, m.doorStates
    {
      forall x, y :: m.InBounds(x, y) ==>
        m.doorStates[x, y] == (old(m.doorStates[x, y]) || (unlocks && x == target.x && y == target.y))
    }

    /** `crawlerId` names a crawler that someone other than `appKey` owns. */
    predicate IsForeign(crawlerId: Guid, appKey: Guid)
      reads this
    {
      labyrinth != null && crawlerId in crawlers && crawlers[crawlerId].appKey != appKey
    }

    /**
     * One step of a crawler in the direction it faces: refused when the
     * labyrinth does not let it pass, and otherwise onto the next cell,
     * opening a closed door with a key from the bag.
     */
    method Walk(s: CrawlerState) returns (t: CrawlerState, movementBlocked: bool)
      requires Valid() && labyrinth != null
      modifies labyrinth.doorStates
      ensures movementBlocked <==> !old(Allowed(labyrinth, s, s.direction))
      ensures t == Updated(s, s.direction, !movementBlocked, old(Unlocks(labyrinth, s, s.direction)))
      ensures DoorsAfter(labyrinth, old(Unlocks(labyrinth, s, s.direction)), Move(Position(s.x, s.y), s.direction))
    {
      ghost var unlocks := Unlocks(labyrinth, s, s.direction);
      t := s;
      movementBlocked := false;
      var hasKey := HasKey(t.bag);
      if labyrinth.CanMoveTo(t.x, t.y, t.direction, hasKey) {
        var (dx, dy) := GetDirectionDelta(t.direction);
        var newX := t.x + dx;
        var newY := t.y + dy;
        if 0 <= newX < labyrinth.width && 0 <= newY < labyrinth.height {
          if labyrinth.tiles[newX, newY] == DoorType && !labyrinth.doorStates[newX, newY] {
            // a key opens the door
            var keyIndex := FindKind(t.bag, Key);
            if keyIndex.Some? {
              t := t.(bag := RemoveAt(t.bag, keyIndex.value));
              labyrinth.doorStates[newX, newY] := true;
            }
          }
        }
        // inside the grid or outside it (an escape), the crawler moves
        t := t.(x := newX, y := newY);
      } else {
        movementBlocked := true;
      }
      t := t.(walking := false);
    }

    /** Whether the crawler's cell allows a transfer: it exists, `appKey` owns it and it is on the grid. */
    predicate MayTransfer(crawlerId: Guid, appKey: Guid)
      reads this, labyrinth
    {
      && labyrinth != null && crawlerId in crawlers && crawlers[crawlerId].appKey == appKey
      && labyrinth.InBounds(crawlers[crawlerId].x, crawlers[crawlerId].y)
    }

    /**
     * Moves the requested items from the crawler's bag onto its cell and
     * returns what is left in the bag. A crawler off the grid cannot
     * transfer and is reported as not found.
     */
    method TransferFromBag(crawlerId: Guid, appKey: Guid, itemsToTransfer: seq<InventoryItem>)
      returns (items: Option<seq<InventoryItem>>, result: TransferResult)
      requires Valid()
      modifies this, Cells()
      ensures Valid() && labyrinth == old(labyrinth)
      ensures result == TransferResult.Success <==> old(MayTransfer(crawlerId, appKey))
      ensures result == TransferResult.Forbidden <==> old(IsForeign(crawlerId, appKey))
      ensures result != TransferResult.Success ==>
        items == None && crawlers == old(crawlers) && unchanged(Cells())
      ensures result == TransferResult.Success ==>
        var s := old(crawlers[crawlerId]);
        var (bag, tile) := MoveItems(s.bag, old(labyrinth.tileItems[s.x, s.y]), itemsToTransfer);
        && crawlers == old(crawlers)[crawlerId := s.(bag := bag)]
        && items == Some(bag)
        && labyrinth.tileItems[s.x, s.y] == tile
        && (forall x, y :: labyrinth.InBounds(x, y) && (x != s.x || y != s.y) ==>
              labyrinth.tileItems[x, y] == old(labyrinth.tileItems[x, y]))
    {
      if labyrinth == null || crawlerId !in crawlers {
        return None, TransferResult.NotFound;
      }
      var crawlerState := crawlers[crawlerId];
      if crawlerState.appKey != appKey {
        return None, TransferResult.Forbidden;
      }
      if crawlerState.x < 0 || crawlerState.x >= labyrinth.width || crawlerState.y < 0 || crawlerState.y >= labyrinth.height {
        // no transfer from outside the grid
        return None, TransferResult.NotFound;
      }

      var tileItems := labyrinth.tileItems[crawlerState.x, crawlerState.y];
      var bag, tile := MoveRequestedItems(crawlerState.bag, tileItems, itemsToTransfer);
      labyrinth.tileItems[crawlerState.x, crawlerState.y] := tile;
      crawlerState := crawlerState.(bag := bag);
      OwnedReplace(crawlers, crawlerState);
      crawlers := crawlers[crawlerId := crawlerState];
      return Some(bag), TransferResult.Success;
    }

    /**
     * Moves the requested items from the crawler's cell into its bag and
     * returns what is left on the cell.
     */
    method TransferFromGround(crawlerId: Guid, appKey: Guid, itemsToTransfer: seq<InventoryItem>)
      returns (items: Option<seq<InventoryItem>>, result: TransferResult)
      requires Valid()
      modifies this, Cells()
      ensures Valid() && labyrinth == old(labyrinth)
      ensures result == TransferResult.Success <==> old(MayTransfer(crawlerId, appKey))
      ensures result == TransferResult.Forbidden <==> old(IsForeign(crawlerId, appKey))
      ensures result != TransferResult.Success ==>
        items == None && crawlers == old(crawlers) && unchanged(Cells())
      ensures result == TransferResult.Success ==>
        var s := old(crawlers[crawlerId]);
        var (tile, bag) := MoveItems(old(labyrinth.tileItems[s.x, s.y]), s.bag, itemsToTransfer);
        && crawlers == old(crawlers)[crawlerId := s.(bag := bag)]
        && items == Some(tile)
        && labyrinth.tileItems[s.x, s.y] == tile
        && (forall x, y :: labyrinth.InBounds(x, y) && (x != s.x || y != s.y) ==>
              labyrinth.tileItems[x, y] == old(labyrinth.tileItems[x, y]))
    {
      if labyrinth == null || crawlerId !in crawlers {
        return None, TransferResult.NotFound;
      }
      var crawlerState := crawlers[crawlerId];
      if crawlerState.appKey != appKey {
        return None, TransferResult.Forbidden;
      }
      if crawlerState.x < 0 || crawlerState.x >= labyrinth.width || crawlerState.y < 0 || crawlerState.y >= labyrinth.height {
        // no transfer from outside the grid
        return None, TransferResult.NotFound;
      }

      var tileItems := labyrinth.tileItems[crawlerState.x, crawlerState.y];
      var tile, bag := MoveRequestedItems(tileItems, crawlerState.bag, itemsToTransfer);
      labyrinth.tileItems[crawlerState.x, crawlerState.y] := tile;
      crawlerState := crawlerState.(bag := bag);
      OwnedReplace(crawlers, crawlerState);
      crawlers := crawlers[crawlerId := crawlerState];
      return Some(tile), TransferResult.Success;
    }

    /** Removes a crawler for its owner; nothing else changes. */
    method DeleteCrawler(crawlerId: Guid, appKey: Guid) returns (result: DeleteCrawlerResult)
      requires Valid()
      modifies this
      ensures Valid() && labyrinth == old(labyrinth)
      ensures result == DeleteCrawlerResult.NotFound <==> crawlerId !in old(crawlers)
      ensures result == DeleteCrawlerResult.Forbidden <==> crawlerId in old(crawlers) && old(crawlers[crawlerId].appKey) != appKey
      ensures result == DeleteCrawlerResult.Success ==> crawlers == old(crawlers) - {crawlerId}
      ensures result != DeleteCrawlerResult.Success ==> crawlers == old(crawlers)
    {
      if crawlerId !in crawlers {
        return DeleteCrawlerResult.NotFound;
      }
      if crawlers[crawlerId].appKey != appKey {
        return DeleteCrawlerResult.Forbidden;
      }
      OwnedRemove(crawlers, crawlerId);
      crawlers := crawlers - {crawlerId};
      return DeleteCrawlerResult.Success;
    }

    /** Forgets the labyrinth and every crawler. */
    method Reset()
      modifies this
      ensures Valid() && labyrinth == null && crawlers == map[]
    {
      labyrinth := null;
      crawlers := map[];
    }
  }

  /** Whether the labyrinth lets the crawler step in `direction`, given its bag. */
  predicate Allowed(m: LabyrinthMap, s: CrawlerState, direction: Direction)
    requires m.Valid()
    reads m, m.tiles, m.doorStates
  {
    m.CanMoveTo(s.x, s.y, direction, HasKey(s.bag))
  }

  /** Whether a step in `direction` is allowed and enters a closed door on the grid. */
  predicate Unlocks(m: LabyrinthMap, s: CrawlerState, direction: Direction)
    requires m.Valid()
    reads m, m.tiles, m.doorStates
  {
    var t := Move(Position(s.x, s.y), direction);
    && Allowed(m, s, direction) && m.InBounds(t.x, t.y)
    && m.tiles[t.x, t.y] == DoorType && !m.doorStates[t.x, t.y]
  }

  /**
   * The crawler after an update: facing `direction`, not walking, one cell
   * further when it `moved`, and one key lighter when it `unlocked` a door.
   */
  function Updated(s: CrawlerState, direction: Direction, moved: bool, unlocked: bool): CrawlerState
  {
    var t := Move(Position(s.x, s.y), direction);
    s.(direction := direction, walking := false,
       x := if moved then t.x else s.x, y := if moved then t.y else s.y,
       bag := if unlocked then UseKey(s.bag) else s.bag)
  }

  /** The bag without its first key. */
  function UseKey(bag: seq<InventoryItem>): seq<InventoryItem>
  {
    match FindKind(bag, Key)
    case None => bag
    case Some(i) => RemoveAt(bag, i)
  }

  /** The snapshot an update reports: off the grid the crawler faces the outside and stands on nothing. */
  function Reported(m: LabyrinthMap, c: CrawlerState): CrawlerDto
    requires m.Valid()
    reads m, m.tiles, m.tileItems
  {
    if m.InBounds(c.x, c.y) then c.ToDto(m.GetFacingTile(c.x, c.y, c.direction), m.tileItems[c.x, c.y])
    else c.ToDto(OutsideType, [])
  }

  /**
   * An update keeps the crawler's identity and owner, sets its direction,
   * and moves it by exactly the direction's delta or not at all.
   */
  lemma UpdatedMoves(s: CrawlerState, direction: Direction, moved: bool, unlocked: bool)
    ensures var u := Updated(s, direction, moved, unlocked);
      && u.id == s.id && u.appKey == s.appKey && u.direction == direction && !u.walking
      && (moved ==> (u.x, u.y) == (s.x + GetDirectionDelta(direction).0, s.y + GetDirectionDelta(direction).1))
      && (!moved ==> u.x == s.x && u.y == s.y)
  {
  }

  /** Opening a door costs exactly one key; every other update leaves the bag alone. */
  lemma UpdatedKeys(s: CrawlerState, direction: Direction, moved: bool, unlocked: bool)
    ensures var u := Updated(s, direction, moved, unlocked);
      && (unlocked && HasKey(s.bag) ==> Kinds(u.bag) == Kinds(s.bag) - multiset{Key} && |u.bag| == |s.bag| - 1)
      && (!unlocked ==> u.bag == s.bag)
  {
    if unlocked && HasKey(s.bag) {
      var i :| 0 <= i < |s.bag| && s.bag[i].kind == Key;
      assert FindKind(s.bag, Key).Some?;
    }
  }

  /**
   * A closed door is only passed with a key, so unlocking always has one to
   * spend; walls are never passed, and an open door never needs a key.
   */
  lemma UnlocksNeedsKey(m: LabyrinthMap, s: CrawlerState, direction: Direction)
    requires m.Valid()
    ensures Unlocks(m, s, direction) ==> HasKey(s.bag)
    ensures var t := Move(Position(s.x, s.y), direction);
      m.InBounds(t.x, t.y) && m.tiles[t.x, t.y] == WallType ==> !Allowed(m, s, direction)
    ensures var t := Move(Position(s.x, s.y), direction);
      m.InBounds(t.x, t.y) && m.tiles[t.x, t.y] == DoorType && m.doorStates[t.x, t.y] ==> Allowed(m, s, direction)
  {
  }

  /**
   * Carries out a transfer request by request: the first source item of each
   * requested kind leaves the source, and a new item of that kind is added
   * to the destination.
   */
  method MoveRequestedItems(source: seq<InventoryItem>, destination: seq<InventoryItem>, requests: seq<InventoryItem>)
    returns (s: seq<InventoryItem>, d: seq<InventoryItem>)
    ensures (s, d) == MoveItems(source, destination, requests)
  {
    s, d := source, destination;
    for k := 0 to |requests|
      invariant (s, d) == MoveItems(source, destination, requests[..k])
    {
      var item := requests[k];
      assert requests[..k + 1][..k] == requests[..k];
      if MoveRequested(item) {
        var found := FindKind(s, item.kind);
        if found.Some? {
          s := RemoveAt(s, found.value);
          d := d + [InventoryItem(item.kind, None)];
        }
      }
    }
    assert requests[..|requests|] == requests;
  }

  /** A set with no member is the empty set. */
  lemma NoMemberEmpty(s: set<Guid>)
    ensures (forall x :: x !in s) ==> s == {}
  {
    if forall x :: x !in s {
      assert forall x :: x in s <==> x in {};
    }
  }

  /** Filing a new crawler under a fresh id gives its owner one more crawler and nobody else any. */
  lemma OwnedInsert(crawlers: map<Guid, CrawlerState>, s: CrawlerState)
    requires s.id !in crawlers
    requires WithinCap(crawlers) && FiledById(crawlers) && |OwnedIn(crawlers, s.appKey)| < MaxCrawlersPerAppKey
    ensures |OwnedIn(crawlers[s.id := s], s.appKey)| == |OwnedIn(crawlers, s.appKey)| + 1
    ensures WithinCap(crawlers[s.id := s]) && FiledById(crawlers[s.id := s])
  {
    var after := crawlers[s.id := s];
    assert OwnedIn(after, s.appKey) == OwnedIn(crawlers, s.appKey) + {s.id};
    forall k
      ensures |OwnedIn(after, k)| <= MaxCrawlersPerAppKey
    {
      if k != s.appKey {
        assert OwnedIn(after, k) == OwnedIn(crawlers, k);
      }
    }
  }

  /** Updating a crawler that keeps its id and owner changes nobody's count. */
  lemma OwnedReplace(crawlers: map<Guid, CrawlerState>, s: CrawlerState)
    requires s.id in crawlers && crawlers[s.id].appKey == s.appKey
    requires WithinCap(crawlers) && FiledById(crawlers)
    ensures WithinCap(crawlers[s.id := s]) && FiledById(crawlers[s.id := s])
  {
    var after := crawlers[s.id := s];
    forall k
      ensures |OwnedIn(after, k)| <= MaxCrawlersPerAppKey
    {
      assert OwnedIn(after, k) == OwnedIn(crawlers, k);
    }
  }

  /** Removing a crawler never raises a count. */
  lemma OwnedRemove(crawlers: map<Guid, CrawlerState>, id: Guid)
    requires WithinCap(crawlers) && FiledById(crawlers)
    ensures WithinCap(crawlers - {id}) && FiledById(crawlers - {id})
  {
    forall k
      ensures |OwnedIn(crawlers - {id}, k)| <= MaxCrawlersPerAppKey
    {
      var before, after := OwnedIn(crawlers, k), OwnedIn(crawlers - {id}, k);
      if id in before {
        assert after == before - {id};
        assert before == after + {id};
      } else {
        assert after == before;
      }
    }
  }
}
