/**
  The enemy behaviour machine. An enemy starts Sleeping; detection may wake
  it, an attack always does; a hunting enemy may flee when hurt and a
  fleeing one may turn back. Each coin stands for one `Math.random()` draw:
  `true` means the draw fell under the threshold (0.7 to wake, 0.6 to flee
  on low health, 0.3 to fight back).
*/
module EnemyStates {
  import opened JavaLang

  datatype EnemyState = Sleeping | Hunting | Fleeing

  /** `onPlayerDetected`: only a sleeping enemy reacts, and wakes on the coin. */
  function OnPlayerDetected(s: EnemyState, wakes: bool): (t: EnemyState)
    ensures s == Sleeping ==> (t == Hunting <==> wakes) && (t == Sleeping <==> !wakes)
    ensures s != Sleeping ==> t == s
  {
    if s == Sleeping && wakes then Hunting else s
  }

  /**
    `onPlayerAttack`: a sleeper always wakes; a hunter flees when its health is
    under a quarter of its maximum (Java integer division); a fleer turns to
    fight on the coin.
  */
  function OnPlayerAttack(s: EnemyState, health: int, maxHealth: int, fightsBack: bool): (t: EnemyState)
    ensures s == Sleeping ==> t == Hunting
    ensures s == Hunting ==> (t == Fleeing <==> health < Div(maxHealth, 4)) && t != Sleeping
    ensures s == Fleeing ==> (t == Hunting <==> fightsBack) && t != Sleeping
  {
    match s
    case Sleeping => Hunting
    case Hunting => if health < Div(maxHealth, 4) then Fleeing else Hunting
    case Fleeing => if fightsBack then Hunting else Fleeing
  }

  /** `onLowHealth`: only a hunter reacts, and flees on the coin. */
  function OnLowHealth(s: EnemyState, flees: bool): (t: EnemyState)
    ensures s == Hunting ==> (t == Fleeing <==> flees) && (t == Hunting <==> !flees)
    ensures s != Hunting ==> t == s
  {
    if s == Hunting && flees then Fleeing else s
  }

  /** Sleeping and fleeing enemies can be sneaked past; a hunting one cannot. */
  predicate CanAvoid(s: EnemyState)
  {
    s != Hunting
  }

  function Description(s: EnemyState): (d: string)
    ensures |d| > 0
  {
    match s
    case Sleeping => "sleeping soundly, unaware of your presence"
    case Hunting => "alert and aggressively hunting you"
    case Fleeing => "wounded and trying to escape"
  }

  /** The events the machine reacts to, each with the draw or the health it reads. */
  datatype Event =
    | Detected(wakes: bool)
    | Attacked(health: int, maxHealth: int, fightsBack: bool)
    | LowHealth(flees: bool)

  function Step(s: EnemyState, e: Event): (t: EnemyState)
    ensures t == Sleeping ==> s == Sleeping
  {
    match e
    case Detected(w) => OnPlayerDetected(s, w)
    case Attacked(h, m, f) => OnPlayerAttack(s, h, m, f)
    case LowHealth(f) => OnLowHealth(s, f)
  }

  function Run(s: EnemyState, events: seq<Event>): EnemyState
    decreases |events|
  {
    if events == [] then s else Run(Step(s, events[0]), events[1..])
  }

  /** Once awake, an enemy never falls asleep again, whatever happens next. */
  lemma {:induction false} NeverSleepsAgain(s: EnemyState, events: seq<Event>)
    requires s != Sleeping
    ensures Run(s, events) != Sleeping
    decreases |events|
  {
    if events != [] {
      NeverSleepsAgain(Step(s, events[0]), events[1..]);
    }
  }

  /** Low-health reactions alone never make an enemy any less avoidable. */
  lemma {:induction false} LowHealthKeepsAvoidable(s: EnemyState, events: seq<Event>)
    requires CanAvoid(s)
    requires forall i :: 0 <= i < |events| ==> events[i].LowHealth?
    ensures Run(s, events) == s
    decreases |events|
  {
    if events != [] {
      LowHealthKeepsAvoidable(Step(s, events[0]), events[1..]);
    }
  }

  /** A sleeping enemy that is attacked can no longer be sneaked past. */
  lemma AttackWakes(health: int, maxHealth: int, fightsBack: bool)
    ensures !CanAvoid(OnPlayerAttack(Sleeping, health, maxHealth, fightsBack))
  {
  }
}
