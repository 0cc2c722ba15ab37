/**
  Collectable artifacts: either a stat item carrying health/attack/defense
  bonuses, or a key identified by the lock it opens. Artifacts have no
  setters, so whatever holds at construction holds for their whole life.
*/
module Artifacts {
  import opened Wrappers
  import opened JavaLang

  datatype Artifact = Artifact(
    name: string,
    description: string,
    healthBonus: int,
    attackBonus: int,
    defenseBonus: int,
    isKey: bool,
    keyId: Option<string>)
  {
    /** A key never carries a bonus, and only a key has a key id. */
    predicate WellFormed()
    {
      (isKey ==> healthBonus == 0 && attackBonus == 0 && defenseBonus == 0)
      && (!isKey ==> keyId == None)
    }

    /** The key id this artifact opens, if it is a key holding that id. */
    predicate Opens(lock: string)
    {
      isKey && keyId == Some(lock)
    }
  }

  /** Artifacts a player may safely receive: well formed, no penalty to any stat. */
  predicate Harmless(a: Artifact)
  {
    a.WellFormed() && a.healthBonus >= 0 && a.attackBonus >= 0 && a.defenseBonus >= 0
  }

  /** The five-argument constructor: a stat item. */
  function StatItem(name: string, description: string, hp: int, atk: int, def: int): (a: Artifact)
    ensures a.WellFormed()
    ensures !a.isKey && a.keyId == None
    ensures a.name == name && a.description == description
    ensures a.healthBonus == hp && a.attackBonus == atk && a.defenseBonus == def
  {
    Artifact(name, description, hp, atk, def, false, None)
  }

  /** The key constructor: no bonuses, flagged as a key, carrying its lock id. */
  function KeyItem(name: string, description: string, keyId: string): (a: Artifact)
    ensures a.WellFormed()
    ensures a.isKey && a.keyId == Some(keyId) && a.Opens(keyId)
    ensures a.name == name && a.description == description
    ensures a.healthBonus == 0 && a.attackBonus == 0 && a.defenseBonus == 0
  {
    Artifact(name, description, 0, 0, 0, true, Some(keyId))
  }

  /** `name: description`, the part every rendering starts with. */
  function Header(a: Artifact): string
  {
    a.name + ": " + a.description
  }

  /**
    One bonus clause such as ` HP+20`, present only for a non-zero bonus:
    the tag, then the bonus in Java's decimal form, which reads back as the
    bonus.
  */
  function BonusText(tag: string, bonus: int): (r: string)
    ensures bonus == 0 <==> r == []
    ensures bonus != 0 ==> StartsWith(r, tag) && r[|tag|..] == IntToString(bonus)
  {
    if bonus != 0 then
      var t := tag + IntToString(bonus);
      assert t[|tag|..] == IntToString(bonus);
      t
    else ""
  }

  /**
    `toString`: the header, then " (Key)" for a key, or else one clause per
    non-zero bonus, in the order health, attack, defense, each with its value.
  */
  function ToString(a: Artifact): (r: string)
    ensures StartsWith(r, Header(a))
    ensures a.isKey ==> r == Header(a) + " (Key)"
    ensures !a.isKey ==> r == Header(a) + Render(NonZero(Clauses(a)))
  {
    if a.isKey then Header(a) + " (Key)"
    else
      BonusTextsRender(a);
      Header(a) + BonusTexts(a)
  }

  /** The three bonuses of an artifact, each with its tag, in display order. */
  function Clauses(a: Artifact): seq<(string, int)>
  {
    [(" HP+", a.healthBonus), (" ATK+", a.attackBonus), (" DEF+", a.defenseBonus)]
  }

  /** The clauses whose bonus is not zero, in their order. */
  function NonZero(cs: seq<(string, int)>): (r: seq<(string, int)>)
    ensures forall i :: 0 <= i < |r| ==> r[i].1 != 0
    ensures forall i :: 0 <= i < |r| ==> r[i] in cs
    ensures forall c :: c in cs && c.1 != 0 ==> c in r
  {
    if cs == [] then []
    else if cs[0].1 != 0 then [cs[0]] + NonZero(cs[1..])
    else NonZero(cs[1..])
  }

  /** Each clause as its tag followed by its value, one after the other. */
  function Render(cs: seq<(string, int)>): string
  {
    if cs == [] then "" else cs[0].0 + IntToString(cs[0].1) + Render(cs[1..])
  }

  /** The bonus clauses are exactly the rendering of the non-zero clauses. */
  lemma BonusTextsRender(a: Artifact)
    ensures BonusTexts(a) == Render(NonZero(Clauses(a)))
  {
    var cs := Clauses(a);
    var h, at, d := BonusText(" HP+", a.healthBonus), BonusText(" ATK+", a.attackBonus), BonusText(" DEF+", a.defenseBonus);
    assert cs[1..][1..][1..] == [];
    RenderStep(cs[1..][1..]);
    RenderStep(cs[1..]);
    RenderStep(cs);
    assert Render(NonZero(cs)) == h + (at + (d + ""));
    assert h + (at + (d + "")) == h + at + d;
  }

  /** Rendering the non-zero clauses renders the first clause's text, then the rest. */
  lemma RenderStep(cs: seq<(string, int)>)
    requires cs != []
    ensures Render(NonZero(cs)) == BonusText(cs[0].0, cs[0].1) + Render(NonZero(cs[1..]))
  {
    if cs[0].1 != 0 {
      var rest := NonZero(cs[1..]);
      assert ([cs[0]] + rest)[0] == cs[0];
      assert ([cs[0]] + rest)[1..] == rest;
    }
  }

  /** The bonus clauses of a stat item, in the order health, attack, defense. */
  function BonusTexts(a: Artifact): string
  {
    BonusText(" HP+", a.healthBonus) + BonusText(" ATK+", a.attackBonus) + BonusText(" DEF+", a.defenseBonus)
  }

  /** A stat item with no bonus renders as just its header. */
  lemma PlainItemText(a: Artifact)
    requires !a.isKey && a.healthBonus == 0 && a.attackBonus == 0 && a.defenseBonus == 0
    ensures ToString(a) == Header(a)
  {
    assert BonusTexts(a) == [];
  }

  /**
    The first bonus clause after the header is the first non-zero bonus in
    the order health, attack, defense.
  */
  lemma FirstBonusClause(a: Artifact)
    requires !a.isKey
    ensures a.healthBonus != 0 ==> StartsWith(ToString(a)[|Header(a)|..], " HP+")
    ensures a.healthBonus == 0 && a.attackBonus != 0 ==> StartsWith(ToString(a)[|Header(a)|..], " ATK+")
    ensures a.healthBonus == 0 && a.attackBonus == 0 && a.defenseBonus != 0 ==> StartsWith(ToString(a)[|Header(a)|..], " DEF+")
  {
    assert ToString(a)[|Header(a)|..] == BonusTexts(a);
    FirstBonusText(a);
  }

  lemma FirstBonusText(a: Artifact)
    ensures a.healthBonus != 0 ==> StartsWith(BonusTexts(a), " HP+")
    ensures a.healthBonus == 0 && a.attackBonus != 0 ==> StartsWith(BonusTexts(a), " ATK+")
    ensures a.healthBonus == 0 && a.attackBonus == 0 && a.defenseBonus != 0 ==> StartsWith(BonusTexts(a), " DEF+")
  {
    var h, at, d := BonusText(" HP+", a.healthBonus), BonusText(" ATK+", a.attackBonus), BonusText(" DEF+", a.defenseBonus);
    if a.healthBonus != 0 {
      LeadingPart(h, at, d, " HP+");
    } else if a.attackBonus != 0 {
      LeadingPart(h, at, d, " ATK+");
    } else {
      LeadingPart(h, at, d, " DEF+");
    }
  }

  /** The first non-empty part of a three-part text decides how the whole starts. */
  lemma LeadingPart(x: string, y: string, z: string, prefix: string)
    ensures StartsWith(x, prefix) ==> StartsWith(x + y + z, prefix)
    ensures x == [] && StartsWith(y, prefix) ==> StartsWith(x + y + z, prefix)
    ensures x == [] && y == [] ==> x + y + z == z
  {
    if StartsWith(x, prefix) {
      assert (x + y + z)[..|prefix|] == x[..|prefix|];
    }
    if x == [] && StartsWith(y, prefix) {
      assert x + y + z == y + z;
      assert (y + z)[..|prefix|] == y[..|prefix|];
    }
    if x == [] && y == [] {
      assert x + y + z == z;
    }
  }

  /** A key's rendering never shows a bonus: it ends in the key marker. */
  lemma KeyTextEndsWithMarker(a: Artifact)
    requires a.isKey
    ensures |ToString(a)| == |Header(a)| + 6
    ensures ToString(a)[|Header(a)|..] == " (Key)"
  {
  }
}
