/**
  Traps and their three-state machine: Hidden until found or sprung,
  Active once visible, Disabled for good once disarmed.
*/
module Traps {
  import opened Wrappers

  datatype TrapState = Hidden | Active | Disabled

  /**
    `trigger`: the damage dealt and the state afterwards. Springing a hidden
    trap reveals it; a disabled trap deals nothing.
  */
  function Trigger(s: TrapState, damage: int): (r: (TrapState, int))
    ensures s != Disabled ==> r == (Active, damage)
    ensures s == Disabled ==> r == (Disabled, 0)
  {
    match s
    case Hidden => (Active, damage)
    case Active => (Active, damage)
    case Disabled => (Disabled, 0)
  }

  /**
    `disarm`: whether the trap ends up harmless, and its next state. A hidden
    trap cannot be disarmed; an active one is when the coin (a draw under
    0.7) succeeds; a disabled one already is.
  */
  function Disarm(s: TrapState, success: bool): (r: (TrapState, bool))
    ensures r.1 <==> r.0 == Disabled
    ensures s == Hidden ==> r == (Hidden, false)
    ensures s == Active ==> r == (if success then (Disabled, true) else (Active, false))
    ensures s == Disabled ==> r == (Disabled, true)
  {
    match s
    case Hidden => (Hidden, false)
    case Active => if success then (Disabled, true) else (Active, false)
    case Disabled => (Disabled, true)
  }

  function Description(s: TrapState): (d: string)
    ensures |d| > 0
  {
    match s
    case Hidden => "The trap is hidden and cannot be seen."
    case Active => "The trap is active and ready to trigger."
    case Disabled => "The trap has been disabled and is harmless."
  }

  /** The events a trap's own state objects react to. */
  datatype TrapEvent = Sprung | DisarmAttempt(success: bool)

  function StepTrap(s: TrapState, damage: int, e: TrapEvent): TrapState
  {
    match e
    case Sprung => Trigger(s, damage).0
    case DisarmAttempt(ok) => Disarm(s, ok).0
  }

  function RunTrap(s: TrapState, damage: int, events: seq<TrapEvent>): TrapState
    decreases |events|
  {
    if events == [] then s else RunTrap(StepTrap(s, damage, events[0]), damage, events[1..])
  }

  /** Once disabled, a trap stays disabled and harmless whatever happens to it. */
  lemma {:induction false} DisabledIsFinal(damage: int, events: seq<TrapEvent>)
    ensures RunTrap(Disabled, damage, events) == Disabled
    ensures Trigger(RunTrap(Disabled, damage, events), damage).1 == 0
    decreases |events|
  {
    if events != [] {
      DisabledIsFinal(damage, events[1..]);
    }
  }

  /** No sequence of events hides a trap that has been seen. */
  lemma {:induction false} NeverHiddenAgain(s: TrapState, damage: int, events: seq<TrapEvent>)
    requires s != Hidden
    ensures RunTrap(s, damage, events) != Hidden
    decreases |events|
  {
    if events != [] {
      NeverHiddenAgain(StepTrap(s, damage, events[0]), damage, events[1..]);
    }
  }

  /**
    A trap. Its state is unset (Java `null`) until one of the setters runs;
    name, description and damage never change.
  */
  class Trap {
    const name: string
    const description: string
    const damage: int
    var state: Option<TrapState>

    constructor(name: string, description: string, damage: int)
      ensures this.name == name && this.description == description && this.damage == damage
      ensures state == None
      ensures !IsHidden() && !IsActive() && !IsDisabled()
    {
      this.name := name;
      this.description := description;
      this.damage := damage;
      this.state := None;
    }

    predicate IsHidden()
      reads this
    {
      state == Some(Hidden)
    }

    predicate IsActive()
      reads this
    {
      state == Some(Active)
    }

    predicate IsDisabled()
      reads this
    {
      state == Some(Disabled)
    }

    /** Once a state is set, exactly one of the three queries holds. */
    lemma ExactlyOneState()
      requires state.Some?
      ensures IsHidden() || IsActive() || IsDisabled()
      ensures !(IsHidden() && IsActive()) && !(IsHidden() && IsDisabled()) && !(IsActive() && IsDisabled())
    {
      match state.value
      case Hidden =>
      case Active =>
      case Disabled =>
    }

    method SetHidden()
      modifies this
      ensures IsHidden()
    {
      state := Some(Hidden);
    }

    method SetActive()
      modifies this
      ensures IsActive()
    {
      state := Some(Active);
    }

    method Disable()
      modifies this
      ensures IsDisabled()
    {
      state := Some(Disabled);
    }

    /** A hidden trap becomes active; any other state is kept. */
    method Reveal()
      modifies this
      ensures old(IsHidden()) ==> IsActive()
      ensures !old(IsHidden()) ==> state == old(state)
    {
      if IsHidden() {
        SetActive();
      }
    }

    /** The current state's `trigger`, applied to this trap. */
    method TriggerCurrent() returns (dealt: int)
      requires state.Some?
      modifies this
      ensures state == Some(Trigger(old(state.value), damage).0)
      ensures dealt == Trigger(old(state.value), damage).1
    {
      match state.value
      case Hidden =>
        SetActive();
        dealt := damage;
      case Active =>
        dealt := damage;
      case Disabled =>
        dealt := 0;
    }

    /** The current state's `disarm`, applied to this trap. */
    method DisarmCurrent(success: bool) returns (ok: bool)
      requires state.Some?
      modifies this
      ensures state == Some(Disarm(old(state.value), success).0)
      ensures ok == Disarm(old(state.value), success).1
    {
      match state.value
      case Hidden =>
        ok := false;
      case Active =>
        if success {
          Disable();
          ok := true;
        } else {
          ok := false;
        }
      case Disabled =>
        ok := true;
    }
  }
}
