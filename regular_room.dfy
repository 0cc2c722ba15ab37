/** The plain room: nothing to find, nothing to change. */
module RegularRooms {
  import opened JavaLang
  import opened Positions
  import opened RoomCore
  import opened Players

  const RegularDescription: string := "A simple stone room with flickering torches on the walls."

  class RegularRoom {
    const base: Room

    constructor(position: Position)
      ensures fresh(base)
      ensures base.roomType == Regular && base.position == position && !base.visited
      ensures base.description == RegularDescription
    {
      base := new Room(Regular, position, RegularDescription);
    }

    method OnEnter(player: Player) returns (msg: string)
      modifies base
      ensures base.visited
      ensures msg == "You enter " + base.description
    {
      base.MarkVisited();
      msg := "You enter " + base.description;
    }

    /**
      Looking or searching (any letter case) describes the room; anything
      else is answered with "There's nothing to <action> here.". Only
      constant fields are read, so neither the room nor the player changes.
    */
    function OnInteract(action: string): (msg: string)
      ensures !EqualsIgnoreCase(action, "look") && !EqualsIgnoreCase(action, "examine") && !EqualsIgnoreCase(action, "search") ==>
                msg == "There's nothing to " + action + " here."
      ensures EqualsIgnoreCase(action, "look") || EqualsIgnoreCase(action, "examine") ==>
                StartsWith(msg, "You examine the room more closely. ")
                && msg == "You examine the room more closely. " + base.description
                          + " There's nothing particularly interesting here."
      ensures !EqualsIgnoreCase(action, "look") && !EqualsIgnoreCase(action, "examine") && EqualsIgnoreCase(action, "search") ==>
                msg == "You search the room carefully, but find nothing of value."
    {
      if EqualsIgnoreCase(action, "look") || EqualsIgnoreCase(action, "examine") then
        "You examine the room more closely. " + base.description + " There's nothing particularly interesting here."
      else if EqualsIgnoreCase(action, "search") then
        "You search the room carefully, but find nothing of value."
      else
        "There's nothing to " + action + " here."
    }
  }
}
