/**
  The monster room: an enemy that starts asleep, a turn-based fight to the
  death, and a reward for the first victory.
*/
module MonsterRooms {
  import opened Wrappers
  import opened JavaLang
  import opened Positions
  import opened Artifacts
  import opened EnemyStates
  import opened Entities
  import opened RoomCore
  import opened Players

  /** Name, description, health, attack, defense, speed and experience value of each kind of enemy. */
  datatype EnemyKind = EnemyKind(name: string, description: string, health: int, attack: int, defense: int, speed: int, experience: int)

  const EnemyTypes: seq<EnemyKind> := [
    EnemyKind("Goblin", "A small, green creature with a wicked grin", 15, 8, 3, 2, 10),
    EnemyKind("Skeleton", "A reanimated skeleton clutching a rusty sword", 25, 10, 2, 3, 15),
    EnemyKind("Orc", "A bulky, green-skinned brute with tusks", 35, 12, 5, 5, 20),
    EnemyKind("Troll", "A towering creature with thick, regenerating skin", 50, 15, 8, 10, 30),
    EnemyKind("Ghost", "A translucent specter that floats eerily", 20, 8, 1, 15, 25),
    EnemyKind("Giant Spider", "A hairy arachnid the size of a wolf", 30, 12, 4, 4, 20)
  ]

  const MonsterRewards: seq<Artifact> := [
    StatItem("Monster Fang", "A sharp fang taken from a defeated monster", 0, 3, 0),
    StatItem("Monster Hide", "Tough hide that improves defense", 0, 0, 3),
    StatItem("Monster Heart", "A still-beating heart that increases health", 10, 0, 0),
    StatItem("Monster Claw", "A razor-sharp claw useful in combat", 0, 5, 0),
    StatItem("Monster Eye", "A magical eye that enhances perception", 5, 2, 2)
  ]

  const LairPrefix: string := "A dark room with the presence of danger. "

  /** An enemy of the drawn kind, at full health and asleep. */
  method GenerateRandomEnemy(kind: Below6) returns (e: Enemy)
    ensures fresh(e)
    ensures e.name == EnemyTypes[kind].name && e.description == EnemyTypes[kind].description
    ensures e.health == e.maxHealth == EnemyTypes[kind].health && e.health > 0
    ensures e.attack == EnemyTypes[kind].attack && e.defense == EnemyTypes[kind].defense
    ensures e.experienceValue == EnemyTypes[kind].experience
    ensures e.state == Sleeping && e.Valid()
  {
    var k := EnemyTypes[kind];
    e := new Enemy(k.name, k.description, k.health, k.attack, k.defense, k.speed, k.experience);
    e.SetState(Sleeping);
  }

  /** One blow of the fight, with the damage the striker dealt before defense. */
  datatype Strike = PlayerStrike(damage: int) | EnemyStrike(damage: int)

  /** Who strikes on turn `i`: the first striker on even turns, the other side on odd ones. */
  predicate PlayerStrikesOn(playerFirst: bool, i: nat)
  {
    (i % 2 == 0) == playerFirst
  }

  /** Turn `i` of a fight, given the attack values each side rolls on each turn. */
  function StrikeOn(playerFirst: bool, i: nat, playerHits: nat -> int, enemyHits: nat -> int): Strike
  {
    if PlayerStrikesOn(playerFirst, i) then PlayerStrike(playerHits(i)) else EnemyStrike(enemyHits(i))
  }

  lemma NextTurn(playerFirst: bool, i: nat)
    ensures PlayerStrikesOn(playerFirst, i + 1) == !PlayerStrikesOn(playerFirst, i)
  {
    assert (i + 1) % 2 == 0 <==> i % 2 != 0;
  }

  /** Turns strictly alternate: no side ever strikes twice in a row. */
  lemma Alternation(playerFirst: bool, i: nat, playerHits: nat -> int, enemyHits: nat -> int)
    ensures StrikeOn(playerFirst, i, playerHits, enemyHits).PlayerStrike?
            != StrikeOn(playerFirst, i + 1, playerHits, enemyHits).PlayerStrike?
  {
    NextTurn(playerFirst, i);
  }

  /**
    The fight as a value: from the healths `ph` and `eh` at turn `i`, the
    side whose turn it is strikes with that turn's attack value, less the
    other side's defense (halved for the player, a third for the enemy, at
    least one point), until one side is down. The result is both healths at
    the end and the number of turns struck; `FightEnds` says what it means.
  */
  function FightFrom(ph: int, eh: int, pdef: int, edef: int, playerFirst: bool,
                     playerHits: nat -> int, enemyHits: nat -> int, i: nat): (int, int, nat)
    decreases if ph > 0 && eh > 0 then ph + eh else 0
  {
    if ph <= 0 || eh <= 0 then (ph, eh, i)
    else if PlayerStrikesOn(playerFirst, i) then
      FightFrom(ph, HealthAfterHit(eh, ActualDamage(playerHits(i), edef, 3)), pdef, edef, playerFirst, playerHits, enemyHits, i + 1)
    else
      FightFrom(HealthAfterHit(ph, ActualDamage(enemyHits(i), pdef, 2)), eh, pdef, edef, playerFirst, playerHits, enemyHits, i + 1)
  }

  /**
    How every fight ends: a fight that cannot start leaves everything as it
    was; otherwise exactly one side ends at zero and the other keeps some
    health, neither gains any, the side that falls is the one struck on the
    last turn, and the fight lasts at most one turn less than the two
    healths add up to.
  */
  lemma {:induction false} FightEnds(ph: int, eh: int, pdef: int, edef: int, playerFirst: bool,
                                     playerHits: nat -> int, enemyHits: nat -> int, i: nat)
    ensures var r := FightFrom(ph, eh, pdef, edef, playerFirst, playerHits, enemyHits, i);
            (!(ph > 0 && eh > 0) ==> r == (ph, eh, i))
            && (ph > 0 && eh > 0 ==>
                  i < r.2 <= i + ph + eh - 1
                  && 0 <= r.0 <= ph && 0 <= r.1 <= eh
                  && (r.0 == 0) != (r.1 == 0)
                  && (r.1 == 0 <==> PlayerStrikesOn(playerFirst, r.2 - 1)))
    decreases if ph > 0 && eh > 0 then ph + eh else 0
  {
    if ph > 0 && eh > 0 {
      if PlayerStrikesOn(playerFirst, i) {
        FightEnds(ph, HealthAfterHit(eh, ActualDamage(playerHits(i), edef, 3)), pdef, edef, playerFirst, playerHits, enemyHits, i + 1);
      } else {
        FightEnds(HealthAfterHit(ph, ActualDamage(enemyHits(i), pdef, 2)), eh, pdef, edef, playerFirst, playerHits, enemyHits, i + 1);
      }
    }
  }

  /**
    A player who strikes first with at least the enemy's health plus a third
    of its defense (Java division) wins in one blow, unhurt.
  */
  lemma OneBlowVictory(ph: int, eh: int, pdef: int, edef: int, playerHits: nat -> int, enemyHits: nat -> int)
    requires ph > 0 && eh > 0
    requires playerHits(0) >= eh + Div(edef, 3)
    ensures FightFrom(ph, eh, pdef, edef, true, playerHits, enemyHits, 0) == (ph, 0, 1)
  {
    assert HealthAfterHit(eh, ActualDamage(playerHits(0), edef, 3)) == 0;
  }

  /**
    An enemy that strikes first with at least the player's health plus half
    the player's defense (Java division) wins in one blow, unhurt.
  */
  lemma OneBlowDefeat(ph: int, eh: int, pdef: int, edef: int, playerHits: nat -> int, enemyHits: nat -> int)
    requires ph > 0 && eh > 0
    requires enemyHits(0) >= ph + Div(pdef, 2)
    ensures FightFrom(ph, eh, pdef, edef, false, playerHits, enemyHits, 0) == (0, eh, 1)
  {
    assert HealthAfterHit(ph, ActualDamage(enemyHits(0), pdef, 2)) == 0;
  }

  datatype EnterOutcome = EnteredDefeated | EnteredLair(enemyState: EnemyState)

  datatype MonsterOutcome =
    | AlreadyDefeated
    | Lost(log: seq<Strike>)
    | Won(log: seq<Strike>, experience: int, reward: Artifact)
    | ExaminedEnemy(enemyState: EnemyState)
    | SneakedPast
    | Spotted
    | MonsterHelp

  predicate IsFightAction(action: string)
  {
    EqualsIgnoreCase(action, "attack") || EqualsIgnoreCase(action, "fight")
  }

  predicate IsLookAction(action: string)
  {
    EqualsIgnoreCase(action, "examine") || EqualsIgnoreCase(action, "look")
  }

  predicate IsSneakAction(action: string)
  {
    EqualsIgnoreCase(action, "sneak") || EqualsIgnoreCase(action, "hide")
  }

  class MonsterRoom {
    const base: Room
    const enemy: Enemy
    const reward: Artifact
    var defeated: bool

    /** The reward does no harm, and an enemy that is not yet defeated is alive. */
    ghost predicate Valid()
      reads this, enemy
    {
      Harmless(reward) && enemy.Valid() && (!defeated ==> enemy.health > 0)
    }

    /** A new room holds a sleeping enemy of the drawn kind and the drawn reward. */
    constructor(position: Position, kind: Below6, rewardIndex: Below5)
      ensures fresh(base) && fresh(enemy)
      ensures base.roomType == Monster && base.position == position && !base.visited
      ensures base.description == LairPrefix + enemy.description
      ensures enemy.state == Sleeping && enemy.Valid() && enemy.health > 0
      ensures enemy.name == EnemyTypes[kind].name
      ensures reward == MonsterRewards[rewardIndex]
      ensures !defeated
      ensures Valid()
    {
      var e := GenerateRandomEnemy(kind);
      base := new Room(Monster, position, LairPrefix + e.description);
      enemy := e;
      reward := MonsterRewards[rewardIndex];
      defeated := false;
    }

    /** Marks the room visited; an undefeated enemy notices the player (it may wake). */
    method OnEnter(player: Player, wakes: bool) returns (outcome: EnterOutcome)
      modifies base, enemy
      ensures base.visited
      ensures defeated == old(defeated)
      ensures enemy.health == old(enemy.health)
      ensures !defeated ==> enemy.state == OnPlayerDetected(old(enemy.state), wakes) && outcome == EnteredLair(enemy.state)
      ensures defeated ==> enemy.state == old(enemy.state) && outcome == EnteredDefeated
    {
      base.MarkVisited();
      if defeated {
        return EnteredDefeated;
      }
      enemy.PlayerDetected(wakes);
      return EnteredLair(enemy.state);
    }

    /**
      The fight: the sides strike in turn, starting with `playerFirst`, until
      one of them reaches zero health; the blow that brings a side to zero
      ends it. Turn `i` uses the attack values `playerHits(i)` or
      `enemyHits(i)` and, when the enemy is hit, the low-health draw
      `flees(i)`. The enemy's state changes only through its low-health
      reaction, so an enemy that entered asleep fights asleep. Both healths
      and the number of turns are those `FightFrom` computes from the
      healths before the fight.
    */
    method Fight(player: Player, playerFirst: bool, playerHits: nat -> int, enemyHits: nat -> int, flees: nat -> bool)
      returns (log: seq<Strike>)
      modifies player, enemy
      ensures (player.health, enemy.health, |log|)
              == FightFrom(old(player.health), old(enemy.health), player.defense, enemy.defense,
                           playerFirst, playerHits, enemyHits, 0)
      ensures forall i :: 0 <= i < |log| ==> log[i] == StrikeOn(playerFirst, i, playerHits, enemyHits)
      ensures old(enemy.state) == Sleeping ==> enemy.state == Sleeping
      ensures old(enemy.state) != Sleeping ==> enemy.state != Sleeping
      ensures player.maxHealth == old(player.maxHealth) && player.attack == old(player.attack) && player.defense == old(player.defense)
      ensures player.level == old(player.level) && player.experience == old(player.experience)
      ensures player.inventory == old(player.inventory) && player.position == old(player.position)
      ensures player.remainingMoves == old(player.remainingMoves) && player.isTrapped == old(player.isTrapped)
      ensures player.trapRiddle == old(player.trapRiddle) && player.trapAnswer == old(player.trapAnswer)
    {
      ghost var result := FightFrom(player.health, enemy.health, player.defense, enemy.defense,
                                    playerFirst, playerHits, enemyHits, 0);
      log := [];
      var playerTurn := playerFirst;
      while player.health > 0 && enemy.health > 0
        invariant playerTurn == PlayerStrikesOn(playerFirst, |log|)
        invariant forall i :: 0 <= i < |log| ==> log[i] == StrikeOn(playerFirst, i, playerHits, enemyHits)
        invariant old(enemy.state) == Sleeping ==> enemy.state == Sleeping
        invariant old(enemy.state) != Sleeping ==> enemy.state != Sleeping
        invariant player.maxHealth == old(player.maxHealth) && player.attack == old(player.attack) && player.defense == old(player.defense)
        invariant player.level == old(player.level) && player.experience == old(player.experience)
        invariant player.inventory == old(player.inventory) && player.position == old(player.position)
        invariant player.remainingMoves == old(player.remainingMoves) && player.isTrapped == old(player.isTrapped)
        invariant player.trapRiddle == old(player.trapRiddle) && player.trapAnswer == old(player.trapAnswer)
        invariant FightFrom(player.health, enemy.health, player.defense, enemy.defense, playerFirst, playerHits, enemyHits, |log|)
                  == result
        decreases player.health + enemy.health
      {
        var turn := |log|;
        var over := Exchange(player, playerFirst, playerTurn, turn, playerHits, enemyHits, flees);
        log := log + [StrikeOn(playerFirst, turn, playerHits, enemyHits)];
        if over {
          break;
        }
        playerTurn := !playerTurn;
        NextTurn(playerFirst, turn);
      }
    }

    /**
      Turn `turn` of the fight: the side whose turn it is strikes once, and
      the fight is over when that blow brings the other side to zero. What
      is left of the fight is what `FightFrom` says was left before the blow.
    */
    method Exchange(player: Player, playerFirst: bool, playerTurn: bool, turn: nat,
                    playerHits: nat -> int, enemyHits: nat -> int, flees: nat -> bool)
      returns (over: bool)
      requires player.health > 0 && enemy.health > 0
      requires playerTurn == PlayerStrikesOn(playerFirst, turn)
      modifies player, enemy
      ensures FightFrom(player.health, enemy.health, player.defense, enemy.defense, playerFirst, playerHits, enemyHits, turn + 1)
              == FightFrom(old(player.health), old(enemy.health), player.defense, enemy.defense,
                           playerFirst, playerHits, enemyHits, turn)
      ensures over <==> !(player.health > 0 && enemy.health > 0)
      ensures player.health + enemy.health < old(player.health + enemy.health)
      ensures old(player.Valid()) ==> player.Valid()
      ensures old(enemy.Valid()) ==> enemy.Valid()
      ensures old(enemy.state) == Sleeping ==> enemy.state == Sleeping
      ensures old(enemy.state) != Sleeping ==> enemy.state != Sleeping
      ensures player.maxHealth == old(player.maxHealth) && player.attack == old(player.attack) && player.defense == old(player.defense)
      ensures player.level == old(player.level) && player.experience == old(player.experience)
      ensures player.inventory == old(player.inventory) && player.position == old(player.position)
      ensures player.remainingMoves == old(player.remainingMoves) && player.isTrapped == old(player.isTrapped)
      ensures player.trapRiddle == old(player.trapRiddle) && player.trapAnswer == old(player.trapAnswer)
    {
      if playerTurn {
        var enemyAlive := enemy.TakeDamage(playerHits(turn), flees(turn));
        over := !enemyAlive;
      } else {
        var playerAlive := player.TakeDamage(enemyHits(turn));
        over := !playerAlive;
      }
    }

    /**
      Once the enemy is defeated every action is refused and nothing changes,
      so there is no second fight and no second reward. A fight starts with
      the enemy noticing the player; the player strikes first exactly when
      standing on an even row. If the player falls, nothing is won; otherwise
      the room is cleared, the enemy's experience is gained (at most one
      level) and the reward is added once. Sneaking past leaves the enemy's
      state as it was: an enemy that cannot be avoided is already hunting,
      and noticing the player again does not change that.
    */
    method OnInteract(player: Player, action: string, wakes: bool,
                      playerHits: nat -> int, enemyHits: nat -> int, flees: nat -> bool)
      returns (outcome: MonsterOutcome)
      requires Valid()
      modifies this, player, enemy
      ensures Valid()
      ensures old(defeated) ==>
                outcome == AlreadyDefeated && defeated
                && player.health == old(player.health) && player.inventory == old(player.inventory)
                && player.experience == old(player.experience) && enemy.state == old(enemy.state)
                && unchanged(player)
      ensures !old(defeated) && IsFightAction(action) ==>
                (outcome.Lost? || outcome.Won?)
                && (forall i :: 0 <= i < |outcome.log| ==>
                      outcome.log[i] == StrikeOn(old(player.position.y) % 2 == 0, i, playerHits, enemyHits))
                && (old(player.health) > 0 ==> |outcome.log| > 0)
      ensures !old(defeated) && IsFightAction(action) ==>
                var r := FightFrom(old(player.health), old(enemy.health), old(player.defense), enemy.defense,
                                   old(player.position.y) % 2 == 0, playerHits, enemyHits, 0);
                |outcome.log| == r.2
                && (outcome.Lost? <==> r.0 <= 0)
                && (outcome.Lost? ==> player.health == r.0 && enemy.health == r.1)
                && (outcome.Won? ==> enemy.health == r.1 == 0 && r.0 > 0)
      ensures outcome.Lost? ==>
                !defeated && player.health <= 0 && enemy.health > 0
                && player.inventory == old(player.inventory) && player.experience == old(player.experience)
                && player.maxHealth == old(player.maxHealth) && player.attack == old(player.attack)
                && player.defense == old(player.defense) && player.level == old(player.level)
      ensures outcome.Won? ==>
                defeated && enemy.health == 0 && outcome.reward == reward
                && outcome.experience == enemy.experienceValue
                && player.inventory == old(player.inventory) + [reward]
                && player.experience == old(player.experience) + enemy.experienceValue
      ensures !old(defeated) && IsFightAction(action) && outcome.Won? ==>
                var r := FightFrom(old(player.health), old(enemy.health), old(player.defense), enemy.defense,
                                   old(player.position.y) % 2 == 0, playerHits, enemyHits, 0);
                var leveled := old(player.experience) + enemy.experienceValue >= LevelThreshold(old(player.level));
                player.level == old(player.level) + (if leveled then 1 else 0)
                && player.maxHealth == old(player.maxHealth) + (if leveled then 10 else 0) + reward.healthBonus
                && player.health == (if leveled then old(player.maxHealth) + 10 else r.0) + reward.healthBonus
                && player.attack == old(player.attack) + (if leveled then 2 else 0) + reward.attackBonus
                && player.defense == old(player.defense) + (if leveled then 1 else 0) + reward.defenseBonus
      ensures !old(defeated) && !IsFightAction(action) ==>
                !defeated && player.health == old(player.health) && player.inventory == old(player.inventory)
                && player.experience == old(player.experience) && enemy.state == old(enemy.state)
                && outcome == (if IsLookAction(action) then ExaminedEnemy(enemy.state)
                               else if IsSneakAction(action) then (if CanAvoid(old(enemy.state)) then SneakedPast else Spotted)
                               else MonsterHelp)
                && unchanged(player)
      ensures old(player.Valid()) ==> player.Valid()
      ensures player.position == old(player.position) && player.remainingMoves == old(player.remainingMoves)
      ensures player.isTrapped == old(player.isTrapped)
      ensures player.trapRiddle == old(player.trapRiddle) && player.trapAnswer == old(player.trapAnswer)
    {
      if defeated {
        return AlreadyDefeated;
      }
      if IsFightAction(action) {
        enemy.PlayerDetected(wakes);
        var playerFirst := player.position.y % 2 == 0;
        var log := Fight(player, playerFirst, playerHits, enemyHits, flees);
        FightEnds(old(player.health), old(enemy.health), player.defense, enemy.defense, playerFirst, playerHits, enemyHits, 0);
        if player.health <= 0 {
          return Lost(log);
        }
        defeated := true;
        player.GainExperience(enemy.experienceValue);
        player.AddArtifact(reward);
        return Won(log, enemy.experienceValue, reward);
      } else if IsLookAction(action) {
        return ExaminedEnemy(enemy.state);
      } else if IsSneakAction(action) {
        if CanAvoid(enemy.state) {
          return SneakedPast;
        }
        enemy.PlayerDetected(wakes);
        return Spotted;
      }
      return MonsterHelp;
    }
  }
}
