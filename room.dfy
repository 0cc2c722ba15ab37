/**
  What every room has: its type, its place on the grid, its description, and
  whether the player has been inside.
*/
module RoomCore {
  import opened Positions

  datatype RoomType = Regular | Puzzle | Treasure | Monster | Trap | Exit

  /**
    The state every room variant shares. Type, position and description are
    fixed when the room is built; `visited` only ever goes from false to true.
  */
  class Room {
    const roomType: RoomType
    const position: Position
    const description: string
    var visited: bool

    /** A new room has not been visited. */
    constructor(roomType: RoomType, position: Position, description: string)
      ensures this.roomType == roomType && this.position == position && this.description == description
      ensures !visited
    {
      this.roomType := roomType;
      this.position := position;
      this.description := description;
      this.visited := false;
    }

    /** Marking twice is the same as marking once: the flag is just set. */
    method MarkVisited()
      modifies this
      ensures visited && IsVisited()
    {
      visited := true;
    }

    predicate IsVisited()
      reads this
    {
      visited
    }

    function GetType(): (t: RoomType)
      ensures t == roomType
    {
      roomType
    }

    function GetPosition(): (p: Position)
      ensures p == position
    {
      position
    }
  }
}
