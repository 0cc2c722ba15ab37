/**
  The exit room: a door that may be locked with one of three locks. Opening
  an unlocked door wins the game; the game recognises the win by the
  "VICTORY" prefix of the reply, so the replies are modelled word for word.
*/
module ExitRooms {
  import opened Wrappers
  import opened JavaLang
  import opened Positions
  import opened Artifacts
  import opened RoomCore
  import opened Players
  import TreasureRooms

  const ExitDescription: string := "A room with a large, ornate door that appears to lead outside."

  const LockIds: seq<string> := ["golden_lock", "crystal_lock", "runic_lock"]

  /** The key each lock needs, as the door names it, in the order of `LockIds`. */
  const LockKeyNames: seq<string> := ["Golden Key", "Crystal Key", "Runic Key"]

  /** The kind of each lock, as the door is described, in the order of `LockIds`. */
  const LockKinds: seq<string> := ["golden", "crystal", "runic"]

  // Long texts are written as two literals so that the verifier can see their first letters.
  const VictoryMessage: string := "VICTORY!" + " You escape from the magical labyrinth!"
  const UnlockMessage: string := "You use your key to unlock the exit door." + " You can now escape the labyrinth!"
  const ExitHelpMessage: string := "Try 'open', 'exit', or 'examine'" + " to interact with the exit."
  const ExamineUnlockedMessage: string := "You examine the exit door." + " It's unlocked and ready to be opened."

  /**
    The name of the key a lock needs, as the door announces it: each of the
    three locks names its own key, and a name is announced for exactly that
    lock; any other lock asks for a "special key".
  */
  function KeyName(lock: string): (n: string)
    ensures forall i :: 0 <= i < |LockIds| ==> (lock == LockIds[i] <==> n == LockKeyNames[i])
    ensures lock !in LockIds <==> n == "special key"
  {
    if lock == "golden_lock" then "Golden Key"
    else if lock == "crystal_lock" then "Crystal Key"
    else if lock == "runic_lock" then "Runic Key"
    else "special key"
  }

  /**
    The kind of lock, as the door is described: each of the three locks has
    its own kind, and a kind is described for exactly that lock; any other
    lock is "peculiar".
  */
  function LockType(lock: string): (t: string)
    ensures forall i :: 0 <= i < |LockIds| ==> (lock == LockIds[i] <==> t == LockKinds[i])
    ensures lock !in LockIds <==> t == "peculiar"
  {
    if lock == "golden_lock" then "golden"
    else if lock == "crystal_lock" then "crystal"
    else if lock == "runic_lock" then "runic"
    else "peculiar"
  }

  /** The key a locked door asks for by name is the treasure key that opens it. */
  lemma NamedKeyOpens(i: int)
    requires 0 <= i < |LockIds|
    ensures TreasureRooms.KeyArtifacts[i].Opens(LockIds[i])
    ensures TreasureRooms.KeyArtifacts[i].name == KeyName(LockIds[i])
  {
  }

  const LockedOpening: string := "The exit door is locked."

  function LockedMessage(lock: string): string
  {
    LockedOpening + (" You need a " + KeyName(lock) + " to unlock it.")
  }

  /** The locked-door reply is never taken for the victory. */
  lemma LockedMessageOpening(lock: string)
    ensures |LockedMessage(lock)| > 0 && LockedMessage(lock)[0] == 'T'
  {
    assert LockedOpening[0] == 'T';
  }

  function ExamineLockedMessage(lock: string): string
  {
    "You examine the exit door. It has a " + LockType(lock) + " lock. You'll need the matching key to open it."
  }

  predicate IsOpenAction(action: string)
  {
    EqualsIgnoreCase(action, "open") || EqualsIgnoreCase(action, "exit")
    || EqualsIgnoreCase(action, "escape") || EqualsIgnoreCase(action, "leave")
  }

  predicate IsLookAction(action: string)
  {
    EqualsIgnoreCase(action, "examine") || EqualsIgnoreCase(action, "look")
  }

  class ExitRoom {
    const base: Room
    var locked: bool
    const keyRequired: Option<string>

    /** A locked door always names one of the three locks. */
    ghost predicate Valid()
      reads this
    {
      locked ==> keyRequired.Some? && keyRequired.value in LockIds
    }

    /**
      The first draw (under 0.5) decides whether the door is locked; only a
      locked door draws which lock it has.
    */
    constructor(position: Position, lockedDraw: bool, lockIndex: Below3)
      ensures fresh(base)
      ensures base.roomType == Exit && base.position == position && !base.visited
      ensures base.description == ExitDescription
      ensures locked == lockedDraw
      ensures keyRequired.Some? <==> locked
      ensures locked ==> keyRequired == Some(LockIds[lockIndex])
      ensures Valid()
    {
      base := new Room(Exit, position, ExitDescription);
      locked := lockedDraw;
      keyRequired := if lockedDraw then Some(LockIds[lockIndex]) else None;
    }

    method OnEnter(player: Player) returns (msg: string)
      modifies base
      ensures base.visited
      ensures locked == old(locked)
      ensures msg == "You've found the exit! " + base.description +
                     (if locked then " However, the door is locked. You'll need a key to open it."
                      else " The door is unlocked. You can escape the labyrinth!")
    {
      base.MarkVisited();
      if locked {
        msg := "You've found the exit! " + base.description + " However, the door is locked. You'll need a key to open it.";
      } else {
        msg := "You've found the exit! " + base.description + " The door is unlocked. You can escape the labyrinth!";
      }
    }

    /**
      Opening an unlocked door is the victory, and the only reply that starts
      with "VICTORY". Opening a locked door with the matching key in the
      inventory unlocks it (the key is kept) but is not yet the victory;
      without the key the door stays locked and the reply names the key.
      Looking never changes the lock. The player is only read.
    */
    method OnInteract(player: Player, action: string) returns (msg: string)
      requires Valid()
      modifies this
      ensures Valid()
      ensures StartsWith(msg, "VICTORY") <==> IsOpenAction(action) && !old(locked)
      ensures IsOpenAction(action) && !old(locked) ==> msg == VictoryMessage && !locked
      ensures IsOpenAction(action) && old(locked) && HoldsKeyFor(player.inventory, keyRequired.value) ==>
                !locked && msg == UnlockMessage
      ensures IsOpenAction(action) && old(locked) && !HoldsKeyFor(player.inventory, keyRequired.value) ==>
                locked && msg == LockedMessage(keyRequired.value)
      ensures !IsOpenAction(action) ==> locked == old(locked)
      ensures !IsOpenAction(action) && IsLookAction(action) ==>
                msg == (if locked then ExamineLockedMessage(keyRequired.value) else ExamineUnlockedMessage)
      ensures !IsOpenAction(action) && !IsLookAction(action) ==> msg == ExitHelpMessage
      ensures !old(locked) ==> !locked
    {
      if IsOpenAction(action) {
        if locked {
          var hasKey := HoldsKeyFor(player.inventory, keyRequired.value);
          if hasKey {
            locked := false;
            msg := UnlockMessage;
            assert msg[0] == 'Y';
          } else {
            msg := LockedMessage(keyRequired.value);
            LockedMessageOpening(keyRequired.value);
          }
        } else {
          msg := VictoryMessage;
        }
      } else if IsLookAction(action) {
        if locked {
          msg := ExamineLockedMessage(keyRequired.value);
        } else {
          msg := ExamineUnlockedMessage;
        }
        assert msg[0] == 'Y';
      } else {
        msg := ExitHelpMessage;
        assert msg[0] == 'T';
      }
    }

    method Unlock()
      modifies this
      ensures !locked
      ensures Valid()
    {
      locked := false;
    }
  }
}
