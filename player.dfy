/**
  The player: health and stats, experience and levels, the inventory of
  artifacts, the move budget, the position on the grid, and the
  "trapped by a riddle" sub-state a trap room can put the player in.
*/
module Players {
  import opened Wrappers
  import opened JavaLang
  import opened Positions
  import opened Artifacts
  import opened Entities

  /** Moves a new player may make. */
  const StartingMoves: int := 30

  /** Experience needed to leave `level` is a hundred per level. */
  function LevelThreshold(level: int): int
  {
    level * 100
  }

  /** Some artifact in `inventory` carries `name`, ignoring case. */
  predicate HoldsNamed(inventory: seq<Artifact>, name: string)
  {
    exists i :: 0 <= i < |inventory| && EqualsIgnoreCase(inventory[i].name, name)
  }

  /** Some artifact in `inventory` is a key for `lock`. */
  predicate HoldsKeyFor(inventory: seq<Artifact>, lock: string)
  {
    exists i :: 0 <= i < |inventory| && inventory[i].Opens(lock)
  }

  class Player {
    const name: string
    var maxHealth: int
    var health: int
    var attack: int
    var defense: int
    var level: int
    var experience: int
    var position: Position
    var inventory: seq<Artifact>
    var remainingMoves: int
    var isTrapped: bool
    var trapRiddle: Option<string>
    var trapAnswer: Option<string>

    /** Health within `[0, maxHealth]`, a positive level, and a move budget that never goes negative. */
    ghost predicate Valid()
      reads this
    {
      0 <= health <= maxHealth && level >= 1 && remainingMoves >= 0
    }

    /** Level 1 with no experience, full health, at the origin, with nothing carried and 30 moves. */
    constructor(name: string, health: int, attack: int, defense: int)
      ensures this.name == name
      ensures this.maxHealth == health && this.health == health
      ensures this.attack == attack && this.defense == defense
      ensures level == 1 && experience == 0
      ensures position == Position(0, 0)
      ensures inventory == []
      ensures remainingMoves == StartingMoves
      ensures !isTrapped && trapRiddle == None && trapAnswer == None
      ensures health >= 0 ==> Valid()
    {
      this.name := name;
      this.maxHealth := health;
      this.health := health;
      this.attack := attack;
      this.defense := defense;
      this.level := 1;
      this.experience := 0;
      this.position := Position(0, 0);
      this.inventory := [];
      this.remainingMoves := StartingMoves;
      this.isTrapped := false;
      this.trapRiddle := None;
      this.trapAnswer := None;
    }

    method SetTrapPuzzle(riddle: string, answer: string)
      modifies this
      ensures trapRiddle == Some(riddle) && trapAnswer == Some(answer)
      ensures isTrapped == old(isTrapped) && health == old(health) && maxHealth == old(maxHealth)
      ensures inventory == old(inventory) && position == old(position)
      ensures attack == old(attack) && defense == old(defense) && level == old(level) && experience == old(experience)
      ensures remainingMoves == old(remainingMoves)
    {
      trapRiddle := Some(riddle);
      trapAnswer := Some(answer);
    }

    method SetTrapped(trapped: bool)
      modifies this
      ensures isTrapped == trapped
      ensures trapRiddle == old(trapRiddle) && trapAnswer == old(trapAnswer)
      ensures health == old(health) && maxHealth == old(maxHealth)
      ensures inventory == old(inventory) && position == old(position)
      ensures attack == old(attack) && defense == old(defense) && level == old(level) && experience == old(experience)
      ensures remainingMoves == old(remainingMoves)
    {
      isTrapped := trapped;
    }

    /**
      Answering the trap riddle: right when an answer is set and it equals the
      trimmed attempt ignoring case. A right answer frees the player and
      forgets the riddle; a wrong one changes nothing.
    */
    method SolveTrap(answer: string) returns (ok: bool)
      modifies this
      ensures ok <==> old(trapAnswer).Some? && EqualsIgnoreCase(old(trapAnswer).value, Trim(answer))
      ensures ok ==> !isTrapped && trapRiddle == None && trapAnswer == None
      ensures !ok ==> isTrapped == old(isTrapped) && trapRiddle == old(trapRiddle) && trapAnswer == old(trapAnswer)
      ensures health == old(health) && maxHealth == old(maxHealth)
      ensures inventory == old(inventory) && position == old(position)
      ensures attack == old(attack) && defense == old(defense) && level == old(level) && experience == old(experience)
      ensures remainingMoves == old(remainingMoves)
    {
      if trapAnswer.Some? && EqualsIgnoreCase(trapAnswer.value, Trim(answer)) {
        isTrapped := false;
        trapRiddle := None;
        trapAnswer := None;
        return true;
      }
      return false;
    }

    /** One move used up; the budget stops at zero. */
    method DecrementMoves()
      modifies this
      ensures old(HasMovesLeft()) ==> remainingMoves == old(remainingMoves) - 1
      ensures !old(HasMovesLeft()) ==> remainingMoves == old(remainingMoves)
      ensures old(Valid()) ==> Valid()
      ensures health == old(health) && maxHealth == old(maxHealth) && level == old(level)
      ensures attack == old(attack) && defense == old(defense) && experience == old(experience)
      ensures isTrapped == old(isTrapped) && inventory == old(inventory) && position == old(position)
      ensures trapRiddle == old(trapRiddle) && trapAnswer == old(trapAnswer)
    {
      if remainingMoves > 0 {
        remainingMoves := remainingMoves - 1;
      }
    }

    predicate HasMovesLeft()
      reads this
    {
      remainingMoves > 0
    }

    /** One step in direction `d`, changing only the coordinate that direction moves along. */
    method Move(d: Direction)
      modifies this
      ensures position == old(position).Adjacent(d)
      ensures health == old(health) && maxHealth == old(maxHealth) && level == old(level)
      ensures attack == old(attack) && defense == old(defense) && experience == old(experience)
      ensures remainingMoves == old(remainingMoves) && isTrapped == old(isTrapped) && inventory == old(inventory)
      ensures trapRiddle == old(trapRiddle) && trapAnswer == old(trapAnswer)
    {
      match d
      case North => position := position.WithY(position.y - 1);
      case South => position := position.WithY(position.y + 1);
      case East => position := position.WithX(position.x + 1);
      case West => position := position.WithX(position.x - 1);
    }

    /** Damage less half the defense (Java division), at least one point, clamped at zero. */
    method TakeDamage(damage: int) returns (alive: bool)
      modifies this
      ensures health == HealthAfterHit(old(health), ActualDamage(damage, defense, 2))
      ensures alive <==> health > 0
      ensures old(health) > 0 ==> health < old(health)
      ensures old(Valid()) ==> Valid()
      ensures maxHealth == old(maxHealth) && attack == old(attack) && defense == old(defense)
      ensures level == old(level) && experience == old(experience)
      ensures inventory == old(inventory) && position == old(position) && remainingMoves == old(remainingMoves)
      ensures isTrapped == old(isTrapped) && trapRiddle == old(trapRiddle) && trapAnswer == old(trapAnswer)
    {
      var actual := Max(1, damage - Div(defense, 2));
      health := health - actual;
      if health <= 0 {
        health := 0;
        return false;
      }
      return true;
    }

    method Heal(amount: int)
      modifies this
      ensures health == HealthAfterHeal(old(health), maxHealth, amount)
      ensures old(Valid()) && amount >= 0 ==> Valid()
      ensures maxHealth == old(maxHealth) && attack == old(attack) && defense == old(defense)
      ensures level == old(level) && experience == old(experience)
      ensures inventory == old(inventory) && position == old(position) && remainingMoves == old(remainingMoves)
      ensures isTrapped == old(isTrapped) && trapRiddle == old(trapRiddle) && trapAnswer == old(trapAnswer)
    {
      health := Min(maxHealth, health + amount);
    }

    /** One level gained: +10 maximum health, full heal, +2 attack, +1 defense. */
    method LevelUp()
      modifies this
      ensures level == old(level) + 1
      ensures maxHealth == old(maxHealth) + 10 && health == maxHealth
      ensures attack == old(attack) + 2 && defense == old(defense) + 1
      ensures experience == old(experience)
      ensures old(Valid()) ==> Valid()
      ensures inventory == old(inventory) && position == old(position) && remainingMoves == old(remainingMoves)
      ensures isTrapped == old(isTrapped) && trapRiddle == old(trapRiddle) && trapAnswer == old(trapAnswer)
    {
      level := level + 1;
      maxHealth := maxHealth + 10;
      health := maxHealth;
      attack := attack + 2;
      defense := defense + 1;
    }

    /**
      Experience is added and never reset; reaching the threshold of the
      current level grants exactly one level, however far past it the total is.
    */
    method GainExperience(exp: int)
      modifies this
      ensures experience == old(experience) + exp
      ensures experience >= LevelThreshold(old(level)) ==>
                level == old(level) + 1 && maxHealth == old(maxHealth) + 10 && health == maxHealth
                && attack == old(attack) + 2 && defense == old(defense) + 1
      ensures experience < LevelThreshold(old(level)) ==>
                level == old(level) && maxHealth == old(maxHealth) && health == old(health)
                && attack == old(attack) && defense == old(defense)
      ensures old(Valid()) ==> Valid()
      ensures inventory == old(inventory) && position == old(position) && remainingMoves == old(remainingMoves)
      ensures isTrapped == old(isTrapped) && trapRiddle == old(trapRiddle) && trapAnswer == old(trapAnswer)
    {
      experience := experience + exp;
      if experience >= LevelThreshold(level) {
        LevelUp();
      }
    }

    /**
      The artifact goes at the end of the inventory; its health bonus raises
      health and maximum health alike, so their gap is kept.
    */
    method AddArtifact(a: Artifact)
      modifies this
      ensures inventory == old(inventory) + [a]
      ensures maxHealth == old(maxHealth) + a.healthBonus && health == old(health) + a.healthBonus
      ensures attack == old(attack) + a.attackBonus && defense == old(defense) + a.defenseBonus
      ensures maxHealth - health == old(maxHealth - health)
      ensures HasArtifact(a.name)
      ensures forall n :: old(HasArtifact(n)) ==> HasArtifact(n)
      ensures old(Valid()) && a.healthBonus >= 0 ==> Valid()
      ensures level == old(level) && experience == old(experience)
      ensures position == old(position) && remainingMoves == old(remainingMoves)
      ensures isTrapped == old(isTrapped) && trapRiddle == old(trapRiddle) && trapAnswer == old(trapAnswer)
    {
      inventory := inventory + [a];
      maxHealth := maxHealth + a.healthBonus;
      health := health + a.healthBonus;
      attack := attack + a.attackBonus;
      defense := defense + a.defenseBonus;
      assert EqualsIgnoreCase(inventory[|inventory| - 1].name, a.name);
      forall n | old(HasArtifact(n)) ensures HasArtifact(n) {
        var i :| 0 <= i < |old(inventory)| && EqualsIgnoreCase(old(inventory)[i].name, n);
        assert inventory[i] == old(inventory)[i];
      }
    }

    /** Some carried artifact has this name, ignoring case. */
    predicate HasArtifact(artifactName: string)
      reads this
    {
      HoldsNamed(inventory, artifactName)
    }
  }

  /** Appending can only add names: whatever was held is still held. */
  lemma HoldsNamedAppend(inventory: seq<Artifact>, more: seq<Artifact>, name: string)
    ensures HoldsNamed(inventory + more, name) <==> HoldsNamed(inventory, name) || HoldsNamed(more, name)
  {
    if HoldsNamed(inventory + more, name) {
      var i :| 0 <= i < |inventory + more| && EqualsIgnoreCase((inventory + more)[i].name, name);
      if i >= |inventory| {
        assert more[i - |inventory|] == (inventory + more)[i];
      }
    }
    if HoldsNamed(more, name) {
      var j :| 0 <= j < |more| && EqualsIgnoreCase(more[j].name, name);
      assert (inventory + more)[|inventory| + j] == more[j];
    }
    if HoldsNamed(inventory, name) {
      var j :| 0 <= j < |inventory| && EqualsIgnoreCase(inventory[j].name, name);
      assert (inventory + more)[j] == inventory[j];
    }
  }

  /** Name lookup ignores case in the query: `HasArtifact("GOLDEN KEY")` finds a "Golden Key". */
  lemma HoldsNamedIgnoresCase(inventory: seq<Artifact>, a: string, b: string)
    requires EqualsIgnoreCase(a, b)
    ensures HoldsNamed(inventory, a) <==> HoldsNamed(inventory, b)
  {
    if HoldsNamed(inventory, a) {
      var i :| 0 <= i < |inventory| && EqualsIgnoreCase(inventory[i].name, a);
      assert EqualsIgnoreCase(inventory[i].name, b);
    }
    if HoldsNamed(inventory, b) {
      var i :| 0 <= i < |inventory| && EqualsIgnoreCase(inventory[i].name, b);
      assert EqualsIgnoreCase(inventory[i].name, a);
    }
  }
}
