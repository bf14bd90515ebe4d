// The tiles a crawler can meet, as the exploring client represents them.

module Tiles {

  /**
   * A cell of the client's local map. Door openness is an explicit field;
   * Unknown marks a cell that has not been observed yet.
   */
  datatype Tile = Room | Wall | Door(isOpened: bool) | Outside | Unknown

  /**
   * The tile class a crawler reports for the cell it faces. OtherType stands
   * for any type that is not one of the four recognised ones.
   */
  datatype TileType = RoomType | WallType | DoorType | OutsideType | OtherType
}
