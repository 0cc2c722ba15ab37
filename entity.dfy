/**
  Health bookkeeping shared by everything that fights, and the enemy that
  carries the behaviour machine.
*/
module Entities {
  import opened JavaLang
  import opened EnemyStates

  /**
    The damage that actually lands: the raw damage less `defense / divisor`
    (Java division), but never less than one point.
  */
  function ActualDamage(damage: int, defense: int, divisor: int): (r: int)
    requires divisor > 0
    ensures r >= 1
    ensures r >= damage - Div(defense, divisor)
    ensures r == 1 || r == damage - Div(defense, divisor)
  {
    Max(1, damage - Div(defense, divisor))
  }

  /** Health after losing `actual` points, clamped at zero. */
  function HealthAfterHit(health: int, actual: int): (r: int)
    requires actual >= 1
    ensures r >= 0
    ensures r == 0 <==> health <= actual
    ensures r > 0 ==> r == health - actual
    ensures health > 0 ==> r < health
    ensures r <= health || health < 0
  {
    if health - actual <= 0 then 0 else health - actual
  }

  /** `heal`: raised by `amount`, but never above the maximum. */
  function HealthAfterHeal(health: int, maxHealth: int, amount: int): (r: int)
    ensures r <= maxHealth
    ensures r == maxHealth || r == health + amount
    ensures 0 <= health <= maxHealth && amount >= 0 ==> health <= r
  {
    Min(maxHealth, health + amount)
  }

  /** Repeated hits bring any health down to zero after at most that many hits. */
  lemma {:induction false} HitsBringDown(health: nat, hits: nat, actual: int)
    requires actual >= 1 && hits >= health
    ensures RepeatHit(health, hits, actual) == 0
    decreases hits
  {
    if hits > 0 {
      HitsBringDown(HealthAfterHit(health, actual), hits - 1, actual);
    }
  }

  function RepeatHit(health: int, hits: nat, actual: int): int
    requires actual >= 1
    decreases hits
  {
    if hits == 0 then health else RepeatHit(HealthAfterHit(health, actual), hits - 1, actual)
  }

  /**
    An enemy. The fields the entity base class declares live here too: no
    other entity kind takes part in the game. Name, description, maximum
    health, attack, defense, speed and experience value are never changed
    after construction, so they are constants.
  */
  class Enemy {
    const name: string
    const description: string
    const maxHealth: int
    const attack: int
    const defense: int
    const speed: int
    const experienceValue: int
    var health: int
    var state: EnemyState

    /** Health within `[0, maxHealth]`. */
    ghost predicate Valid()
      reads this
    {
      0 <= health <= maxHealth
    }

    /**
      A new enemy at full health. The room that creates an enemy puts it to
      sleep straight away, so the model starts it Sleeping.
    */
    constructor(name: string, description: string, health: int, attack: int, defense: int, speed: int, experienceValue: int)
      ensures this.name == name && this.description == description
      ensures this.health == health && maxHealth == health
      ensures this.attack == attack && this.defense == defense && this.speed == speed
      ensures this.experienceValue == experienceValue
      ensures state == Sleeping
      ensures health >= 0 ==> Valid()
    {
      this.name := name;
      this.description := description;
      this.maxHealth := health;
      this.health := health;
      this.attack := attack;
      this.defense := defense;
      this.speed := speed;
      this.experienceValue := experienceValue;
      this.state := Sleeping;
    }

    predicate CanBeAvoided()
      reads this
    {
      CanAvoid(state)
    }

    method SetState(s: EnemyState)
      modifies this
      ensures state == s && health == old(health)
    {
      state := s;
    }

    /** Forwards detection to the current state. */
    method PlayerDetected(wakes: bool)
      modifies this
      ensures state == OnPlayerDetected(old(state), wakes)
      ensures health == old(health)
    {
      SetState(OnPlayerDetected(state, wakes));
    }

    /** Forwards an attack to the current state, which reads the current health. */
    method PlayerAttacked(fightsBack: bool)
      modifies this
      ensures state == OnPlayerAttack(old(state), health, maxHealth, fightsBack)
      ensures health == old(health)
    {
      SetState(OnPlayerAttack(state, health, maxHealth, fightsBack));
    }

    /** The entity base behaviour: defense divided by three, clamped at zero. */
    method EntityTakeDamage(damage: int) returns (alive: bool)
      modifies this
      ensures health == HealthAfterHit(old(health), ActualDamage(damage, defense, 3))
      ensures alive <==> health > 0
      ensures old(health) > 0 ==> health < old(health)
      ensures old(Valid()) ==> Valid()
      ensures state == old(state)
    {
      var actual := Max(1, damage - Div(defense, 3));
      health := health - actual;
      if health <= 0 {
        health := 0;
        return false;
      }
      return true;
    }

    /**
      The enemy's override: the same health effect and result, and a
      surviving enemy under a third of its maximum health (Java division)
      reacts to low health.
    */
    method TakeDamage(damage: int, flees: bool) returns (alive: bool)
      modifies this
      ensures health == HealthAfterHit(old(health), ActualDamage(damage, defense, 3))
      ensures alive <==> health > 0
      ensures old(Valid()) ==> Valid()
      ensures alive && health < Div(maxHealth, 3) ==> state == OnLowHealth(old(state), flees)
      ensures !(alive && health < Div(maxHealth, 3)) ==> state == old(state)
    {
      alive := EntityTakeDamage(damage);
      if alive && health < Div(maxHealth, 3) {
        SetState(OnLowHealth(state, flees));
      }
    }

    method Heal(amount: int)
      modifies this
      ensures health == HealthAfterHeal(old(health), maxHealth, amount)
      ensures old(Valid()) && amount >= 0 ==> Valid()
      ensures state == old(state)
    {
      health := Min(maxHealth, health + amount);
    }
  }
}
