/**
  The trap room: one trap, hidden or in plain sight, that can hurt the
  player on the way in and when the player tries to deal with it. Springing
  it also traps the player until they answer a riddle.
*/
module TrapRooms {
  import opened Wrappers
  import opened JavaLang
  import opened Positions
  import opened Traps
  import opened RoomCore
  import opened Entities
  import opened Players

  /** Name, description and damage of each kind of trap. */
  const TrapTypes: seq<(string, string, int)> := [
    ("Spike Pit", "A pit filled with sharp spikes", 20),
    ("Poison Dart", "A trap that shoots poisonous darts", 15),
    ("Fire Geyser", "A geyser that erupts with fire", 25),
    ("Crushing Ceiling", "A ceiling that lowers to crush intruders", 30),
    ("Acid Spray", "A trap that sprays corrosive acid", 18)
  ]

  /** The riddles a sprung trap poses, with their answers. */
  const TrapRiddles: seq<(string, string)> := [
    ("What gets wetter as it dries?", "towel"),
    ("I\U{2019}m tall when I\U{2019}m young and short when I\U{2019}m old. What am I?", "candle"),
    ("What has hands but can\U{2019}t clap?", "clock"),
    ("The more you take, the more you leave behind. What am I?", "footsteps"),
    ("What has to be broken before you can use it?", "egg")
  ]

  const HiddenRoomText: string := "A room that feels somehow off. There's an uneasy feeling in the air."
  const VisibleRoomText: string := "A room that feels somehow off. You can see a dangerous trap here."

  /** A trap of the drawn kind, hidden when the 70% draw succeeds and active otherwise. */
  method GenerateRandomTrap(kind: Below5, hidden: bool) returns (trap: Trap)
    ensures fresh(trap)
    ensures trap.name == TrapTypes[kind].0 && trap.description == TrapTypes[kind].1
    ensures trap.damage == TrapTypes[kind].2 && trap.damage > 0
    ensures hidden ==> trap.IsHidden()
    ensures !hidden ==> trap.IsActive()
  {
    trap := new Trap(TrapTypes[kind].0, TrapTypes[kind].1, TrapTypes[kind].2);
    if hidden {
      trap.SetHidden();
    } else {
      trap.SetActive();
    }
  }

  datatype EnterOutcome =
    | Quiet
    | TrapSprung(wasHidden: bool, damage: int, alive: bool)

  datatype TrapOutcome =
    | Discovered
    | NothingNoticed
    | ExaminedTrap
    | ExaminedDisabled
    | AlreadyDisabled
    | NotYetFound
    | DisarmSucceeded
    | DisarmFailed(alive: bool)
    | StumbledIn(alive: bool)
    | Avoided
    | PartlyTriggered(alive: bool)
    | PassedDisabled
    | TrapHelp

  predicate IsLookAction(action: string)
  {
    EqualsIgnoreCase(action, "examine") || EqualsIgnoreCase(action, "look") || EqualsIgnoreCase(action, "inspect")
  }

  predicate IsDisarmAction(action: string)
  {
    EqualsIgnoreCase(action, "disarm") || EqualsIgnoreCase(action, "disable")
  }

  predicate IsAvoidAction(action: string)
  {
    EqualsIgnoreCase(action, "avoid") || EqualsIgnoreCase(action, "jump over") || EqualsIgnoreCase(action, "bypass")
  }

  class TrapRoom {
    const base: Room
    const trap: Trap

    /** The room's trap starts Hidden or Active, never Disabled. */
    constructor(position: Position, kind: Below5, hidden: bool)
      ensures fresh(base) && fresh(trap)
      ensures base.roomType == RoomType.Trap && base.position == position && !base.visited
      ensures base.description == (if hidden then HiddenRoomText else VisibleRoomText)
      ensures trap.IsHidden() || trap.IsActive()
      ensures hidden <==> trap.IsHidden()
      ensures trap.damage == TrapTypes[kind].2
    {
      var t := GenerateRandomTrap(kind, hidden);
      base := new Room(RoomType.Trap, position, if t.IsHidden() then HiddenRoomText else VisibleRoomText);
      trap := t;
    }

    /**
      Walking in springs an active trap always and a hidden one when the 70%
      draw succeeds. A sprung trap is active afterwards, the player is
      trapped with the drawn riddle and takes the trap's damage through the
      player's own defense. A disabled trap never does anything.
    */
    method OnEnter(player: Player, stumbles: bool, riddle: Below5) returns (outcome: EnterOutcome)
      modifies base, trap, player
      ensures base.visited
      ensures var sprung := old(trap.IsActive()) || (old(trap.IsHidden()) && stumbles);
              sprung ==>
                trap.IsActive() && player.isTrapped
                && player.trapRiddle == Some(TrapRiddles[riddle].0) && player.trapAnswer == Some(TrapRiddles[riddle].1)
                && player.health == HealthAfterHit(old(player.health), ActualDamage(trap.damage, player.defense, 2))
                && outcome == TrapSprung(old(trap.IsHidden()), trap.damage, player.health > 0)
      ensures var sprung := old(trap.IsActive()) || (old(trap.IsHidden()) && stumbles);
              !sprung ==>
                trap.state == old(trap.state) && outcome == Quiet
                && player.health == old(player.health) && player.isTrapped == old(player.isTrapped)
                && player.trapRiddle == old(player.trapRiddle) && player.trapAnswer == old(player.trapAnswer)
      ensures old(trap.IsDisabled()) ==> trap.IsDisabled() && outcome == Quiet
      ensures old(player.Valid()) ==> player.Valid()
      ensures player.maxHealth == old(player.maxHealth) && player.inventory == old(player.inventory)
      ensures player.attack == old(player.attack) && player.defense == old(player.defense)
      ensures player.level == old(player.level) && player.position == old(player.position)
      ensures player.experience == old(player.experience) && player.remainingMoves == old(player.remainingMoves)
    {
      base.MarkVisited();
      if trap.IsActive() || (trap.IsHidden() && stumbles) {
        var wasHidden := trap.IsHidden();
        if wasHidden {
          trap.SetActive();
        }
        player.SetTrapped(true);
        player.SetTrapPuzzle(TrapRiddles[riddle].0, TrapRiddles[riddle].1);
        var alive := player.TakeDamage(trap.damage);
        outcome := TrapSprung(wasHidden, trap.damage, alive);
      } else {
        outcome := Quiet;
      }
    }

    /**
      Looking may spot a hidden trap (60% draw). Disarming does nothing to a
      disabled or unseen trap, and an active one is disabled on the 50% draw
      or else hits the player for its full damage. Avoiding an unseen trap
      springs it for full damage; an active one is passed on the 70% draw or
      else hits for half its damage (Java division); a disabled one is simply
      passed. Each action draws at most once, so one coin covers it.
    */
    method OnInteract(player: Player, action: string, coin: bool) returns (outcome: TrapOutcome)
      modifies trap, player
      ensures old(trap.IsDisabled()) ==> trap.IsDisabled()
      ensures IsLookAction(action) ==>
                player.health == old(player.health)
                && (old(trap.IsHidden()) && coin ==> trap.IsActive() && outcome == Discovered)
                && (!(old(trap.IsHidden()) && coin) ==> trap.state == old(trap.state))
                && (old(trap.IsHidden()) && !coin ==> outcome == NothingNoticed)
                && (old(trap.IsActive()) ==> outcome == ExaminedTrap)
                && (old(trap.IsDisabled()) ==> outcome == ExaminedDisabled)
      ensures !IsLookAction(action) && IsDisarmAction(action) ==>
                (old(trap.IsDisabled()) ==> outcome == AlreadyDisabled && player.health == old(player.health))
                && (old(trap.IsHidden()) ==> outcome == NotYetFound && trap.IsHidden() && player.health == old(player.health))
                && (old(trap.IsActive()) && coin ==> outcome == DisarmSucceeded && trap.IsDisabled() && player.health == old(player.health))
                && (old(trap.IsActive()) && !coin ==>
                      trap.IsActive() && player.health == HealthAfterHit(old(player.health), ActualDamage(trap.damage, player.defense, 2))
                      && outcome == DisarmFailed(player.health > 0))
      ensures !IsLookAction(action) && !IsDisarmAction(action) && IsAvoidAction(action) ==>
                (old(trap.IsHidden()) ==>
                   trap.IsActive() && player.health == HealthAfterHit(old(player.health), ActualDamage(trap.damage, player.defense, 2))
                   && outcome == StumbledIn(player.health > 0))
                && (old(trap.IsActive()) && coin ==> outcome == Avoided && trap.IsActive() && player.health == old(player.health))
                && (old(trap.IsActive()) && !coin ==>
                      trap.IsActive() && player.health == HealthAfterHit(old(player.health), ActualDamage(Div(trap.damage, 2), player.defense, 2))
                      && outcome == PartlyTriggered(player.health > 0))
                && (old(trap.IsDisabled()) ==> outcome == PassedDisabled && player.health == old(player.health))
      ensures !IsLookAction(action) && !IsDisarmAction(action) && !IsAvoidAction(action) ==>
                outcome == TrapHelp && trap.state == old(trap.state) && player.health == old(player.health)
      ensures old(player.Valid()) ==> player.Valid()
      ensures player.maxHealth == old(player.maxHealth) && player.inventory == old(player.inventory)
      ensures player.attack == old(player.attack) && player.defense == old(player.defense)
      ensures player.level == old(player.level) && player.position == old(player.position)
      ensures player.experience == old(player.experience) && player.remainingMoves == old(player.remainingMoves)
      ensures player.isTrapped == old(player.isTrapped)
      ensures player.trapRiddle == old(player.trapRiddle) && player.trapAnswer == old(player.trapAnswer)
    {
      if IsLookAction(action) {
        if trap.IsHidden() && coin {
          trap.Reveal();
          return Discovered;
        } else if trap.IsHidden() {
          return NothingNoticed;
        } else if trap.IsActive() {
          return ExaminedTrap;
        } else {
          return ExaminedDisabled;
        }
      } else if IsDisarmAction(action) {
        if trap.IsDisabled() {
          return AlreadyDisabled;
        }
        if trap.IsHidden() {
          return NotYetFound;
        }
        if trap.IsActive() && coin {
          trap.Disable();
          return DisarmSucceeded;
        } else if trap.IsActive() {
          var alive := player.TakeDamage(trap.damage);
          return DisarmFailed(alive);
        }
      } else if IsAvoidAction(action) {
        if trap.IsHidden() {
          var alive := player.TakeDamage(trap.damage);
          trap.SetActive();
          return StumbledIn(alive);
        } else if trap.IsActive() && coin {
          return Avoided;
        } else if trap.IsActive() {
          var alive := player.TakeDamage(Div(trap.damage, 2));
          return PartlyTriggered(alive);
        } else {
          return PassedDisabled;
        }
      }
      return TrapHelp;
    }
  }
}
