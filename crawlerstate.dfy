// The training server's record of one crawler, and the snapshot of it that
// is sent to clients.

module CrawlerStates {
  import opened Geometry
  import opened Tiles
  import opened Options

  /** Crawler ids and application keys; only equality matters. */
  type Guid = int

  /** The kinds of item a bag or a tile can hold; only keys have a meaning to the server. */
  datatype ItemType = Key | OtherItemType(name: string)

  /** An item, with the flag a transfer request sets on the items it wants moved. */
  datatype InventoryItem = InventoryItem(kind: ItemType, moveRequired: Option<bool>)

  /** The snapshot of a crawler clients receive. */
  datatype CrawlerDto = CrawlerDto(
    id: Guid, x: int, y: int, dir: Direction, walking: bool,
    facingTile: TileType, bag: seq<InventoryItem>, items: seq<InventoryItem>)

  /** What the server keeps about a crawler: who owns it, where it is and what it carries. */
  datatype CrawlerState = CrawlerState(
    id: Guid, appKey: Guid, x: int, y: int, direction: Direction, walking: bool,
    bag: seq<InventoryItem>)
  {
    /**
     * The snapshot of this crawler, given the tile it faces and the items on
     * its cell: identity, position and direction as kept, never walking, and
     * copies of the bag and of the cell's items in their order.
     */
    function ToDto(facingTile: TileType, tileItems: seq<InventoryItem>): (r: CrawlerDto)
      ensures r.id == id && r.x == x && r.y == y && r.dir == direction
      ensures !r.walking && r.facingTile == facingTile
      ensures r.bag == bag && r.items == tileItems
    {
      CrawlerDto(id, x, y, direction, false, facingTile, bag, tileItems)
    }
  }

  /** The snapshot does not depend on whether the state says it is walking, nor on who owns it. */
  lemma ToDtoIgnoresWalking(s: CrawlerState, walking: bool, appKey: Guid, facingTile: TileType, tileItems: seq<InventoryItem>)
    ensures s.(walking := walking, appKey := appKey).ToDto(facingTile, tileItems) == s.ToDto(facingTile, tileItems)
  {
  }

  /** The kinds of a list of items, in order. */
  function KindSeq(items: seq<InventoryItem>): (r: seq<ItemType>)
    ensures |r| == |items| && forall j :: 0 <= j < |items| ==> r[j] == items[j].kind
  {
    if |items| == 0 then [] else [items[0].kind] + KindSeq(items[1..])
  }

  /** The kinds of a list of items, with their multiplicities. */
  function Kinds(items: seq<InventoryItem>): multiset<ItemType>
  {
    multiset(KindSeq(items))
  }

  /** Position of the first item of a kind, as a search from the front finds it. */
  function FindKind(items: seq<InventoryItem>, k: ItemType): (r: Option<nat>)
    ensures r.None? <==> forall i :: 0 <= i < |items| ==> items[i].kind != k
    ensures r.Some? ==> r.value < |items| && items[r.value].kind == k &&
                        forall i :: 0 <= i < r.value ==> items[i].kind != k
  {
    if |items| == 0 then None
    else if items[0].kind == k then Some(0)
    else match FindKind(items[1..], k)
      case None => None
      case Some(i) => Some(i + 1)
  }

  /** The list without its `i`-th item. */
  function RemoveAt(items: seq<InventoryItem>, i: nat): (r: seq<InventoryItem>)
    requires i < |items|
    ensures |r| == |items| - 1
    ensures Kinds(r) == Kinds(items) - multiset{items[i].kind}
  {
    var r := items[..i] + items[i + 1..];
    KindsRemoveAt(items, i, r);
    r
  }

  lemma KindsRemoveAt(items: seq<InventoryItem>, i: nat, r: seq<InventoryItem>)
    requires i < |items| && r == items[..i] + items[i + 1..]
    ensures Kinds(r) == Kinds(items) - multiset{items[i].kind}
  {
    var s := KindSeq(items);
    assert KindSeq(r) == s[..i] + s[i + 1..];
    assert s == s[..i] + [s[i]] + s[i + 1..];
  }

  /** Adding an item at the end adds its kind. */
  lemma KindsAppendOne(items: seq<InventoryItem>, x: InventoryItem)
    ensures Kinds(items + [x]) == Kinds(items) + multiset{x.kind}
  {
    assert KindSeq(items + [x]) == KindSeq(items) + [x.kind];
  }
}
