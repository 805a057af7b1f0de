/** The combat data model of character.h: elements, spells, passives and
    characters, with the defaults their C++ member initialisers give.
    The `float` fields are modelled as `int`. */
module CharacterData {
  import opened Base

  /** Number of elements; `elementalRes` holds one resistance per element. */
  const NbElements: nat := 7

  datatype Element = ElementLess | Water | Earth | Air | Fire | Light | Dark

  /** The `uint8_t` value of each element. */
  function ElementIndex(e: Element): (i: nat)
    ensures i < NbElements
  {
    match e
    case ElementLess => 0
    case Water => 1
    case Earth => 2
    case Air => 3
    case Fire => 4
    case Light => 5
    case Dark => 6
  }

  /** The element whose `uint8_t` value is `i`. */
  function ElementAt(i: nat): (e: Element)
    requires i < NbElements
    ensures ElementIndex(e) == i
  {
    if i == 0 then ElementLess
    else if i == 1 then Water
    else if i == 2 then Earth
    else if i == 3 then Air
    else if i == 4 then Fire
    else if i == 5 then Light
    else Dark
  }

  /** `NbElements` is exactly the number of elements: the enum values
      0 .. NbElements-1 and the elements are in one-to-one correspondence. */
  lemma ElementCountMatches(e: Element)
    ensures ElementAt(ElementIndex(e)) == e
  {
  }

  datatype DamageType = Physical | Magical

  datatype Spell = Spell(
    name: string,
    baseDmg: int,
    baseManaCost: int,
    baseCooldown: nat,
    elementType: Element,
    damageType: DamageType,
    selfOnly: bool,
    nbTargets: nat,
    canTargetSameCharacterMultipleTimes: bool,
    numberOfTurnsSinceLastUsed: nat)

  /** A default-initialised `Spell`. */
  function NewSpell(): (s: Spell)
    ensures s.baseDmg == 1 && s.baseCooldown == 1 && s.nbTargets == 1
    ensures !s.selfOnly && !s.canTargetSameCharacterMultipleTimes
    ensures s.numberOfTurnsSinceLastUsed == 0
    ensures s.elementType == ElementLess && s.damageType == Physical
  {
    Spell(name := "Unknown", baseDmg := 1, baseManaCost := 0, baseCooldown := 1,
          elementType := ElementLess, damageType := Physical, selfOnly := false,
          nbTargets := 1, canTargetSameCharacterMultipleTimes := false,
          numberOfTurnsSinceLastUsed := 0)
  }

  datatype TriggerType = TurnStart | TurnEnd | OnHit | OnDamageDealt | StatBoost

  datatype PassiveType = CharacterEffect | SpellEffect | TurnEffect

  /** The stat a boost passive acts on. */
  datatype PlayerBoostType = Health | PAtk | MAtk | PDef | MDef | Speed | CChance | CDamage | Evasion | Res

  /** A passive's `applyOnCharacter` / `removeFromCharacter` callback: either
      an empty `std::function`, or "add `delta` to the stat chosen by `boost`". */
  datatype StatEffect = Unset | AddStat(boost: PlayerBoostType, delta: int)

  datatype Passive = Passive(
    passiveType: PassiveType,
    trigger: TriggerType,
    name: string,
    remainingTurns: Int32,
    numberOfTriggerBeforeActivation: nat,
    currentNbOfTriggerSinceLastActivation: nat,
    hidden: bool,
    nbSuccesfulActivation: nat,
    applyOnCharacter: StatEffect,
    removeFromCharacter: StatEffect)

  /** `remainingTurns == -1` marks a passive that never expires. */
  predicate IsPermanent(p: Passive) {
    p.remainingTurns == -1
  }

  /** A passive whose counter reached 0 is due for removal. */
  predicate IsExpired(p: Passive) {
    p.remainingTurns == 0
  }

  /** A zero trigger threshold means the passive fires on every trigger. */
  predicate ActivatesOnEveryTrigger(p: Passive) {
    p.numberOfTriggerBeforeActivation == 0
  }

  /** A default-initialised `Passive`. Its `type` and `trigger` have no
      initialiser in C++, so they are parameters here. */
  function NewPassive(passiveType: PassiveType, trigger: TriggerType): (p: Passive)
    ensures IsPermanent(p) && !IsExpired(p)
    ensures ActivatesOnEveryTrigger(p) && p.currentNbOfTriggerSinceLastActivation == 0
    ensures !p.hidden && p.nbSuccesfulActivation == 0
    ensures p.applyOnCharacter == Unset && p.removeFromCharacter == Unset
  {
    Passive(passiveType := passiveType, trigger := trigger, name := "Passive",
            remainingTurns := -1, numberOfTriggerBeforeActivation := 0,
            currentNbOfTriggerSinceLastActivation := 0, hidden := false,
            nbSuccesfulActivation := 0, applyOnCharacter := Unset,
            removeFromCharacter := Unset)
  }

  datatype CharacterType = Player | Enemy

  datatype PlayingStatus = Alive | Dead

  datatype Character = Character(
    name: string,
    characterType: CharacterType,
    health: int,
    physicalAttack: int,
    magicalAttack: int,
    physicalDefense: int,
    magicalDefense: int,
    speed: int,
    critChance: int,
    critDamage: int,
    evasionRate: int,
    elementalRes: seq<int>,
    speedUnits: int,
    spells: seq<Spell>,
    passives: seq<Passive>,
    aggroMap: map<nat, int>,
    playingStatus: PlayingStatus,
    id: nat)

  /** One zero-initialised resistance per element. */
  predicate HasNeutralResistances(c: Character) {
    |c.elementalRes| == NbElements &&
    forall i :: 0 <= i < |c.elementalRes| ==> c.elementalRes[i] == 0
  }

  /** A default-initialised `Character`. */
  function NewCharacter(): (c: Character)
    ensures HasNeutralResistances(c)
    ensures c.characterType == Player && c.playingStatus == Alive
    ensures c.health == 100 && c.speed == 100 && c.speedUnits == 0 && c.id == 0
    ensures c.spells == [] && c.passives == [] && c.aggroMap == map[]
  {
    Character(name := "Unknown", characterType := Player, health := 100,
              physicalAttack := 10, magicalAttack := 10,
              physicalDefense := 1, magicalDefense := 1, speed := 100,
              critChance := 5, critDamage := 150, evasionRate := 1,
              elementalRes := seq(NbElements, _ => 0), speedUnits := 0,
              spells := [], passives := [], aggroMap := map[],
              playingStatus := Alive, id := 0)
  }

  /** The nine numeric stat fields a boost can reach. */
  datatype Stat =
    | HealthStat | PhysicalAttackStat | MagicalAttackStat
    | PhysicalDefenseStat | MagicalDefenseStat | SpeedStat
    | CritChanceStat | CritDamageStat | EvasionRateStat

  /** Reads one stat field. */
  function StatOf(c: Character, s: Stat): int {
    match s
    case HealthStat => c.health
    case PhysicalAttackStat => c.physicalAttack
    case MagicalAttackStat => c.magicalAttack
    case PhysicalDefenseStat => c.physicalDefense
    case MagicalDefenseStat => c.magicalDefense
    case SpeedStat => c.speed
    case CritChanceStat => c.critChance
    case CritDamageStat => c.critDamage
    case EvasionRateStat => c.evasionRate
  }

  /** `a` and `b` agree on every field except the nine stats. */
  predicate SameBesideStats(a: Character, b: Character) {
    && a.name == b.name && a.characterType == b.characterType
    && a.elementalRes == b.elementalRes && a.speedUnits == b.speedUnits
    && a.spells == b.spells && a.passives == b.passives
    && a.aggroMap == b.aggroMap && a.playingStatus == b.playingStatus
    && a.id == b.id
  }

  /** Two characters that agree on every stat and on everything else are equal. */
  lemma StatsDetermineCharacter(a: Character, b: Character)
    requires SameBesideStats(a, b)
    requires forall s :: StatOf(a, s) == StatOf(b, s)
    ensures a == b
  {
    assert StatOf(a, HealthStat) == StatOf(b, HealthStat);
    assert StatOf(a, PhysicalAttackStat) == StatOf(b, PhysicalAttackStat);
    assert StatOf(a, MagicalAttackStat) == StatOf(b, MagicalAttackStat);
    assert StatOf(a, PhysicalDefenseStat) == StatOf(b, PhysicalDefenseStat);
    assert StatOf(a, MagicalDefenseStat) == StatOf(b, MagicalDefenseStat);
    assert StatOf(a, SpeedStat) == StatOf(b, SpeedStat);
    assert StatOf(a, CritChanceStat) == StatOf(b, CritChanceStat);
    assert StatOf(a, CritDamageStat) == StatOf(b, CritDamageStat);
    assert StatOf(a, EvasionRateStat) == StatOf(b, EvasionRateStat);
  }
}
