/** Stat-boost passives of character.cpp: the `addStatOnCharacter` switch,
    the boost-passive factory and `Character::addPassive`. The factory's two
    closures become `StatEffect` values run by `RunEffect`. */
module StatBoost {
  import opened Base
  import opened CharacterData

  /** The stat field each boost type writes. `MDef` writes the physical
      attack, exactly as the switch in character.cpp does; `Res` writes
      nothing (its body is commented out). */
  function BoostTarget(t: PlayerBoostType): Option<Stat> {
    match t
    case Health => Some(HealthStat)
    case PAtk => Some(PhysicalAttackStat)
    case MAtk => Some(MagicalAttackStat)
    case PDef => Some(PhysicalDefenseStat)
    case MDef => Some(PhysicalAttackStat)
    case Speed => Some(SpeedStat)
    case CChance => Some(CritChanceStat)
    case CDamage => Some(CritDamageStat)
    case Evasion => Some(EvasionRateStat)
    case Res => None
  }

  /** `addStatOnCharacter`: adds `value` to the one stat `t` selects and
      leaves every other field of the character as it was. */
  function AddStatOnCharacter(c: Character, t: PlayerBoostType, value: int): (r: Character)
    ensures SameBesideStats(c, r)
    ensures forall s :: StatOf(r, s) == StatOf(c, s) + (if BoostTarget(t) == Some(s) then value else 0)
  {
    match t
    case Health => c.(health := c.health + value)
    case PAtk => c.(physicalAttack := c.physicalAttack + value)
    case MAtk => c.(magicalAttack := c.magicalAttack + value)
    case PDef => c.(physicalDefense := c.physicalDefense + value)
    case MDef => c.(physicalAttack := c.physicalAttack + value)
    case Speed => c.(speed := c.speed + value)
    case CChance => c.(critChance := c.critChance + value)
    case CDamage => c.(critDamage := c.critDamage + value)
    case Evasion => c.(evasionRate := c.evasionRate + value)
    case Res => c
  }

  /** Adding `v` and then `-v` to the same stat, in either order, gives the
      character back. */
  lemma AddStatUndo(c: Character, t: PlayerBoostType, v: int)
    ensures AddStatOnCharacter(AddStatOnCharacter(c, t, v), t, -v) == c
    ensures AddStatOnCharacter(AddStatOnCharacter(c, t, -v), t, v) == c
  {
    var a := AddStatOnCharacter(AddStatOnCharacter(c, t, v), t, -v);
    var b := AddStatOnCharacter(AddStatOnCharacter(c, t, -v), t, v);
    StatsDetermineCharacter(a, c);
    StatsDetermineCharacter(b, c);
  }

  /** Two stat additions commute, whatever stats they touch. */
  lemma AddStatCommutes(c: Character, t1: PlayerBoostType, v1: int, t2: PlayerBoostType, v2: int)
    ensures AddStatOnCharacter(AddStatOnCharacter(c, t1, v1), t2, v2)
         == AddStatOnCharacter(AddStatOnCharacter(c, t2, v2), t1, v1)
  {
    var a := AddStatOnCharacter(AddStatOnCharacter(c, t1, v1), t2, v2);
    var b := AddStatOnCharacter(AddStatOnCharacter(c, t2, v2), t1, v1);
    StatsDetermineCharacter(a, b);
  }

  /** The elemental-resistance boost is not wired: it changes nothing. */
  lemma ResBoostIsNoOp(c: Character, v: int)
    ensures AddStatOnCharacter(c, Res, v) == c
  {
    StatsDetermineCharacter(AddStatOnCharacter(c, Res, v), c);
  }

  /** The magical-defence boost raises the physical attack and leaves the
      magical defence alone, as written in the source. */
  lemma MDefBoostRaisesPhysicalAttack(c: Character, v: int)
    ensures AddStatOnCharacter(c, MDef, v).physicalAttack == c.physicalAttack + v
    ensures AddStatOnCharacter(c, MDef, v).magicalDefense == c.magicalDefense
    ensures AddStatOnCharacter(c, MDef, v) == AddStatOnCharacter(c, PAtk, v)
  {
    var a := AddStatOnCharacter(c, MDef, v);
    assert StatOf(a, PhysicalAttackStat) == StatOf(c, PhysicalAttackStat) + v;
    assert StatOf(a, MagicalDefenseStat) == StatOf(c, MagicalDefenseStat);
    StatsDetermineCharacter(a, AddStatOnCharacter(c, PAtk, v));
  }

  /** Runs a passive callback on a character. Calling an empty
      `std::function` throws, so the callback must be set. */
  function RunEffect(e: StatEffect, c: Character): (r: Character)
    requires e.AddStat?
    ensures SameBesideStats(c, r)
  {
    AddStatOnCharacter(c, e.boost, e.delta)
  }

  /** A passive whose callbacks `addPassive` invokes on attachment. */
  predicate IsStatBoostPassive(p: Passive) {
    p.passiveType == CharacterEffect && p.trigger == StatBoost
  }

  /** `makeSimplePlayerBoostPassive(type, value, duration = -1, name = "PlayerBoost")`.
      A finite duration is stored one higher, because the counter starts
      ticking down at the beginning of the owner's turn. `duration + 1`
      overflows `int32_t` for the largest duration, which the caller must avoid. */
  function MakeSimplePlayerBoostPassive(t: PlayerBoostType, value: int,
                                        duration: Int32 := -1, name: string := "PlayerBoost"): (p: Passive)
    requires duration != INT32_MAX
    ensures IsStatBoostPassive(p) && p.name == name
    ensures duration == -1 ==> IsPermanent(p)
    ensures duration != -1 ==> p.remainingTurns == duration + 1
    ensures p.applyOnCharacter == AddStat(t, value) && p.removeFromCharacter == AddStat(t, -value)
    ensures ActivatesOnEveryTrigger(p) && !p.hidden && p.nbSuccesfulActivation == 0
    ensures p.currentNbOfTriggerSinceLastActivation == 0
  {
    NewPassive(CharacterEffect, StatBoost).(
      name := name,
      remainingTurns := if duration == -1 then -1 else duration + 1,
      applyOnCharacter := AddStat(t, value),
      removeFromCharacter := AddStat(t, -value))
  }

  /** With the factory's default arguments the boost is permanent and named
      "PlayerBoost". */
  lemma DefaultBoostIsPermanent(t: PlayerBoostType, value: int)
    ensures IsPermanent(MakeSimplePlayerBoostPassive(t, value))
    ensures MakeSimplePlayerBoostPassive(t, value).name == "PlayerBoost"
  {
  }

  /** A factory boost's remove callback undoes its apply callback, and the
      two may run in either order. */
  lemma BoostRemoveUndoesApply(t: PlayerBoostType, value: int, duration: Int32, name: string, c: Character)
    requires duration != INT32_MAX
    ensures var p := MakeSimplePlayerBoostPassive(t, value, duration, name);
            RunEffect(p.removeFromCharacter, RunEffect(p.applyOnCharacter, c)) == c
    ensures var p := MakeSimplePlayerBoostPassive(t, value, duration, name);
            RunEffect(p.applyOnCharacter, RunEffect(p.removeFromCharacter, c)) == c
  {
    AddStatUndo(c, t, value);
  }

  /** The precondition of `addPassive`: a stat-boost passive must carry an
      apply callback, since the method calls it. */
  predicate CanAttach(p: Passive) {
    IsStatBoostPassive(p) ==> p.applyOnCharacter.AddStat?
  }

  /** `Character::addPassive`: a stat-boost passive is applied to the stats
      at once; every passive is appended to the list. */
  function AddPassive(c: Character, p: Passive): (r: Character)
    requires CanAttach(p)
    ensures r.passives == c.passives + [p]
    ensures r.(passives := c.passives) == (if IsStatBoostPassive(p) then RunEffect(p.applyOnCharacter, c) else c)
  {
    var boosted := if IsStatBoostPassive(p) then RunEffect(p.applyOnCharacter, c) else c;
    boosted.(passives := boosted.passives + [p])
  }

  /** Attaching a passive that is not a stat boost changes no stat. */
  lemma AttachOtherPassiveKeepsStats(c: Character, p: Passive)
    requires !IsStatBoostPassive(p)
    ensures forall s :: StatOf(AddPassive(c, p), s) == StatOf(c, s)
  {
  }

  /** Attaching a factory boost raises exactly the targeted stat; running the
      passive's remove callback afterwards restores every stat, leaving only
      the appended passive behind. */
  lemma AttachedBoostIsReversible(c: Character, t: PlayerBoostType, value: int, duration: Int32, name: string)
    requires duration != INT32_MAX
    ensures var p := MakeSimplePlayerBoostPassive(t, value, duration, name);
            forall s :: StatOf(AddPassive(c, p), s) == StatOf(c, s) + (if BoostTarget(t) == Some(s) then value else 0)
    ensures var p := MakeSimplePlayerBoostPassive(t, value, duration, name);
            RunEffect(p.removeFromCharacter, AddPassive(c, p)) == c.(passives := c.passives + [p])
  {
    var p := MakeSimplePlayerBoostPassive(t, value, duration, name);
    var c' := c.(passives := c.passives + [p]);
    assert AddPassive(c, p) == AddStatOnCharacter(c', t, value);
    AddStatUndo(c', t, value);
  }

  /** A two-turn +5 physical-attack boost on an attack of 10 gives 15 at
      once, and removing it gives 10 again. */
  lemma PhysicalAttackBoostExample(c: Character)
    requires c.physicalAttack == 10
    ensures var p := MakeSimplePlayerBoostPassive(PAtk, 5, 2);
            && p.remainingTurns == 3
            && AddPassive(c, p).physicalAttack == 15
            && RunEffect(p.removeFromCharacter, AddPassive(c, p)).physicalAttack == 10
  {
    AttachedBoostIsReversible(c, PAtk, 5, 2, "PlayerBoost");
  }
}
