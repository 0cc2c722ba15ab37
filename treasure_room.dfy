/**
  The treasure room: a handful of artifacts drawn when the room is built,
  handed over all at once to a player who loots it, and never again.
*/
module TreasureRooms {
  import opened Wrappers
  import opened JavaLang
  import opened Positions
  import opened Artifacts
  import opened RoomCore
  import opened Players

  const TreasureDescription: string := "A room filled with glittering treasures and ancient artifacts."

  const CommonArtifacts: seq<Artifact> := [
    StatItem("Health Potion", "A red potion that restores health", 20, 0, 0),
    StatItem("Strength Elixir", "A potion that temporarily increases strength", 0, 5, 0),
    StatItem("Shield Charm", "A charm that enhances defensive capabilities", 0, 0, 3),
    StatItem("Minor Healing Scroll", "A scroll that heals minor wounds", 10, 0, 0)
  ]

  const RareArtifacts: seq<Artifact> := [
    StatItem("Dragonscale Amulet", "An amulet made from dragon scales", 15, 5, 10),
    StatItem("Enchanted Sword", "A sword imbued with magical energy", 0, 15, 0),
    StatItem("Mage's Staff", "A staff that enhances magical abilities", 10, 10, 5),
    StatItem("Blessed Shield", "A shield blessed by the gods", 0, 0, 20)
  ]

  const KeyArtifacts: seq<Artifact> := [
    KeyItem("Golden Key", "A key that seems important", "golden_lock"),
    KeyItem("Crystal Key", "A key made of pure crystal", "crystal_lock"),
    KeyItem("Runic Key", "A key with strange runes inscribed", "runic_lock")
  ]

  /**
    The draws that decide a treasure room's contents: how many common items
    beyond the first (`nextInt(3)`), which common item each one is
    (`nextInt(4)` per item), whether a rare item comes (the 30% draw) and
    which, and whether a key comes (the 20% draw) and which.
  */
  datatype TreasureDraws = TreasureDraws(
    extraCommons: Below3,
    commonPick: nat -> Below4,
    rare: Option<Below4>,
    key: Option<Below3>)

  lemma TablesHarmless()
    ensures forall i :: 0 <= i < |CommonArtifacts| ==> Harmless(CommonArtifacts[i]) && !CommonArtifacts[i].isKey
    ensures forall i :: 0 <= i < |RareArtifacts| ==> Harmless(RareArtifacts[i]) && !RareArtifacts[i].isKey
    ensures forall i :: 0 <= i < |KeyArtifacts| ==> Harmless(KeyArtifacts[i]) && KeyArtifacts[i].isKey
  {
  }

  function CountKeys(s: seq<Artifact>): (n: nat)
    ensures n <= |s|
  {
    if s == [] then 0 else CountKeys(s[..|s| - 1]) + (if s[|s| - 1].isKey then 1 else 0)
  }

  lemma CountKeysAppend(s: seq<Artifact>, a: Artifact)
    ensures CountKeys(s + [a]) == CountKeys(s) + (if a.isKey then 1 else 0)
  {
    assert (s + [a])[..|s|] == s;
  }

  /**
    `generateArtifacts`: one to three common items, in draw order, then the
    rare item if drawn, then the key if drawn. The list holds one to five
    harmless artifacts and at most one key, which is last.
  */
  method GenerateArtifacts(d: TreasureDraws) returns (result: seq<Artifact>)
    ensures 1 <= |result| <= 5
    ensures |result| == d.extraCommons + 1 + (if d.rare.Some? then 1 else 0) + (if d.key.Some? then 1 else 0)
    ensures forall i :: 0 <= i <= d.extraCommons ==> result[i] == CommonArtifacts[d.commonPick(i)]
    ensures d.rare.Some? ==> result[d.extraCommons + 1] == RareArtifacts[d.rare.value]
    ensures d.key.Some? ==> result[|result| - 1] == KeyArtifacts[d.key.value]
    ensures forall i :: 0 <= i < |result| ==> Harmless(result[i])
    ensures CountKeys(result) == (if d.key.Some? then 1 else 0)
  {
    TablesHarmless();
    result := DrawCommons(d);
    if d.rare.Some? {
      CountKeysAppend(result, RareArtifacts[d.rare.value]);
      result := result + [RareArtifacts[d.rare.value]];
    }
    if d.key.Some? {
      CountKeysAppend(result, KeyArtifacts[d.key.value]);
      result := result + [KeyArtifacts[d.key.value]];
    }
  }

  /** The common items of a treasure room, one per draw. */
  method DrawCommons(d: TreasureDraws) returns (result: seq<Artifact>)
    ensures |result| == d.extraCommons + 1
    ensures forall i :: 0 <= i < |result| ==> result[i] == CommonArtifacts[d.commonPick(i)]
    ensures forall i :: 0 <= i < |result| ==> Harmless(result[i])
    ensures CountKeys(result) == 0
  {
    TablesHarmless();
    result := [];
    var i := 0;
    while i <= d.extraCommons
      invariant 0 <= i <= d.extraCommons + 1 && |result| == i
      invariant forall j :: 0 <= j < i ==> result[j] == CommonArtifacts[d.commonPick(j)]
      invariant forall j :: 0 <= j < i ==> Harmless(result[j])
      invariant CountKeys(result) == 0
    {
      CountKeysAppend(result, CommonArtifacts[d.commonPick(i)]);
      result := result + [CommonArtifacts[d.commonPick(i)]];
      i := i + 1;
    }
  }

  function SumHealth(s: seq<Artifact>): int
  {
    if s == [] then 0 else SumHealth(s[..|s| - 1]) + s[|s| - 1].healthBonus
  }

  function SumAttack(s: seq<Artifact>): int
  {
    if s == [] then 0 else SumAttack(s[..|s| - 1]) + s[|s| - 1].attackBonus
  }

  function SumDefense(s: seq<Artifact>): int
  {
    if s == [] then 0 else SumDefense(s[..|s| - 1]) + s[|s| - 1].defenseBonus
  }

  /** What an interaction did; the text shown for it is not modelled. */
  datatype TreasureOutcome =
    | AlreadyLooted
    | Collected(items: seq<Artifact>)
    | Listed(items: seq<Artifact>)
    | TreasureHint

  predicate IsLootAction(action: string)
  {
    EqualsIgnoreCase(action, "loot") || EqualsIgnoreCase(action, "take treasure")
    || EqualsIgnoreCase(action, "collect") || EqualsIgnoreCase(action, "gather")
  }

  predicate IsLookAction(action: string)
  {
    EqualsIgnoreCase(action, "examine") || EqualsIgnoreCase(action, "look")
  }

  class TreasureRoom {
    const base: Room
    const artifacts: seq<Artifact>
    var looted: bool

    /** The artifact list never changes: looting only sets the flag. */
    ghost predicate Valid()
    {
      1 <= |artifacts| <= 5 && (forall i :: 0 <= i < |artifacts| ==> Harmless(artifacts[i]))
    }

    constructor(position: Position, d: TreasureDraws)
      ensures fresh(base)
      ensures base.roomType == Treasure && base.position == position && !base.visited
      ensures base.description == TreasureDescription
      ensures !looted
      ensures Valid()
      ensures |artifacts| == d.extraCommons + 1 + (if d.rare.Some? then 1 else 0) + (if d.key.Some? then 1 else 0)
      ensures forall i :: 0 <= i <= d.extraCommons ==> artifacts[i] == CommonArtifacts[d.commonPick(i)]
      ensures d.rare.Some? ==> artifacts[d.extraCommons + 1] == RareArtifacts[d.rare.value]
      ensures d.key.Some? ==> artifacts[|artifacts| - 1] == KeyArtifacts[d.key.value]
      ensures CountKeys(artifacts) == (if d.key.Some? then 1 else 0)
    {
      var generated := GenerateArtifacts(d);
      base := new Room(Treasure, position, TreasureDescription);
      artifacts := generated;
      looted := false;
    }

    /** Marks the room visited; the loot flag and the artifacts stay as they were. */
    method OnEnter(player: Player) returns (outcome: TreasureOutcome)
      modifies base
      ensures base.visited
      ensures looted == old(looted)
      ensures outcome == (if looted then AlreadyLooted else Listed(artifacts))
    {
      base.MarkVisited();
      outcome := if looted then AlreadyLooted else Listed(artifacts);
    }

    /**
      Before looting, a loot action hands every artifact over in list order,
      with its bonuses, and sets the flag; looking lists the artifacts.
      After looting every action is refused and nothing changes, so nothing
      is ever handed over twice.
    */
    method OnInteract(player: Player, action: string) returns (outcome: TreasureOutcome)
      requires Valid()
      modifies this, player
      ensures old(looted) ==> outcome == AlreadyLooted && looted
      ensures !old(looted) && IsLootAction(action) ==>
                outcome == Collected(artifacts) && looted
                && player.inventory == old(player.inventory) + artifacts
                && player.maxHealth == old(player.maxHealth) + SumHealth(artifacts)
                && player.health == old(player.health) + SumHealth(artifacts)
                && player.attack == old(player.attack) + SumAttack(artifacts)
                && player.defense == old(player.defense) + SumDefense(artifacts)
      ensures !old(looted) && !IsLootAction(action) ==>
                !looted && outcome == (if IsLookAction(action) then Listed(artifacts) else TreasureHint)
      ensures old(looted) || !IsLootAction(action) ==>
                player.inventory == old(player.inventory) && player.health == old(player.health)
                && player.maxHealth == old(player.maxHealth) && player.attack == old(player.attack)
                && player.defense == old(player.defense)
      ensures old(player.Valid()) ==> player.Valid()
      ensures player.level == old(player.level) && player.experience == old(player.experience)
      ensures player.position == old(player.position) && player.remainingMoves == old(player.remainingMoves)
      ensures player.isTrapped == old(player.isTrapped)
      ensures player.trapRiddle == old(player.trapRiddle) && player.trapAnswer == old(player.trapAnswer)
    {
      if looted {
        return AlreadyLooted;
      }
      if IsLootAction(action) {
        var i := 0;
        while i < |artifacts|
          invariant 0 <= i <= |artifacts|
          invariant player.inventory == old(player.inventory) + artifacts[..i]
          invariant player.maxHealth == old(player.maxHealth) + SumHealth(artifacts[..i])
          invariant player.health == old(player.health) + SumHealth(artifacts[..i])
          invariant player.attack == old(player.attack) + SumAttack(artifacts[..i])
          invariant player.defense == old(player.defense) + SumDefense(artifacts[..i])
          invariant old(player.Valid()) ==> player.Valid()
          invariant player.level == old(player.level) && player.experience == old(player.experience)
          invariant player.position == old(player.position) && player.remainingMoves == old(player.remainingMoves)
          invariant player.isTrapped == old(player.isTrapped)
          invariant player.trapRiddle == old(player.trapRiddle) && player.trapAnswer == old(player.trapAnswer)
          invariant !looted
        {
          player.AddArtifact(artifacts[i]);
          assert artifacts[..i + 1][..i] == artifacts[..i];
          i := i + 1;
        }
        assert artifacts[..|artifacts|] == artifacts;
        looted := true;
        return Collected(artifacts);
      } else if IsLookAction(action) {
        return Listed(artifacts);
      }
      return TreasureHint;
    }

    /** A copy of the artifact list: a value, so callers cannot change the room through it. */
    function GetArtifacts(): (r: seq<Artifact>)
      ensures r == artifacts
    {
      artifacts
    }
  }
}
