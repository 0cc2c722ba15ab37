/**
  Building a room of a given type. A built room is held through `RoomRef`,
  which records which variant it is, the way the game tells a monster room
  from the others by its class.
*/
module RoomFactory {
  import opened Wrappers
  import opened Positions
  import opened RoomCore
  import RegularRooms
  import PuzzleRooms
  import TreasureRooms
  import MonsterRooms
  import TrapRooms
  import ExitRooms

  /** A room of any variant. */
  datatype RoomRef =
    | RegularRef(regular: RegularRooms.RegularRoom)
    | PuzzleRef(puzzle: PuzzleRooms.PuzzleRoom)
    | TreasureRef(treasure: TreasureRooms.TreasureRoom)
    | MonsterRef(monster: MonsterRooms.MonsterRoom)
    | TrapRef(trap: TrapRooms.TrapRoom)
    | ExitRef(exit: ExitRooms.ExitRoom)
  {
    /** The variant, as the room's class tells it. */
    function Kind(): RoomType
    {
      match this
      case RegularRef(_) => Regular
      case PuzzleRef(_) => Puzzle
      case TreasureRef(_) => Treasure
      case MonsterRef(_) => Monster
      case TrapRef(_) => RoomType.Trap
      case ExitRef(_) => Exit
    }

    /** The state all variants share. */
    function Base(): Room
    {
      match this
      case RegularRef(r) => r.base
      case PuzzleRef(r) => r.base
      case TreasureRef(r) => r.base
      case MonsterRef(r) => r.base
      case TrapRef(r) => r.base
      case ExitRef(r) => r.base
    }

    /** The type the room reports is the variant it is. */
    predicate WellFormed()
    {
      Base().roomType == Kind()
    }
  }

  /**
    The draws each variant makes while it is built: riddle and reward of a
    puzzle room, the contents of a treasure room, enemy and reward of a
    monster room, kind and visibility of a trap, and lock of an exit.
  */
  datatype RoomDraws = RoomDraws(
    riddle: Below5,
    puzzleReward: Below5,
    treasure: TreasureRooms.TreasureDraws,
    enemyKind: Below6,
    monsterReward: Below5,
    trapKind: Below5,
    trapHidden: bool,
    exitLocked: bool,
    exitLock: Below3)

  /**
    `createRoom`: every type is handled, so the fallback to a regular room
    never runs. The new room has the requested type, reports it, stands at
    the requested position and has not been visited.
  */
  method CreateRoom(t: RoomType, p: Position, d: RoomDraws) returns (r: RoomRef)
    ensures r.Kind() == t && r.WellFormed()
    ensures r.Base().position == p && !r.Base().visited
    ensures fresh(r.Base())
  {
    match t
    case Regular =>
      var room := new RegularRooms.RegularRoom(p);
      r := RegularRef(room);
    case Puzzle =>
      var room := new PuzzleRooms.PuzzleRoom(p, d.riddle, d.puzzleReward);
      r := PuzzleRef(room);
    case Treasure =>
      var room := new TreasureRooms.TreasureRoom(p, d.treasure);
      r := TreasureRef(room);
    case Monster =>
      var room := new MonsterRooms.MonsterRoom(p, d.enemyKind, d.monsterReward);
      r := MonsterRef(room);
    case Trap =>
      var room := new TrapRooms.TrapRoom(p, d.trapKind, d.trapHidden);
      r := TrapRef(room);
    case Exit =>
      var room := new ExitRooms.ExitRoom(p, d.exitLocked, d.exitLock);
      r := ExitRef(room);
  }
}
