/** The initiative scheduler and hit resolution of `FightSystem`
    (fightscene.cpp) over a roster of characters. Every character gains its
    `speed` in `speedUnits` per round; the first character holding the
    strictly highest count above the threshold plays and pays
    `threshold + 1`. Dead characters are not skipped: the code shown does
    not look at `playingStatus`. */
module FightSystem {
  import opened Base
  import opened CharacterData
  import opened StatBoost

  /** `SPEEDUNITTHRESHOLD`: a character must hold more speed units than this to play. */
  const SpeedUnitThreshold: int := 999

  /** What a turn costs in speed units. */
  const TurnCost: int := SpeedUnitThreshold + 1

  /** The notifications the fight system sends, and its error log line. */
  datatype Event =
    | FightSystemUpdate
    | PlayerNextTurn(chara: nat)
    | WrongIdLogged

  /** `c` is the first roster index holding the highest speed-unit count,
      and that count is above the threshold. */
  predicate IsFirstMax(cs: seq<Character>, c: nat) {
    && c < |cs|
    && cs[c].speedUnits > SpeedUnitThreshold
    && (forall j :: 0 <= j < |cs| ==> cs[j].speedUnits <= cs[c].speedUnits)
    && (forall j :: 0 <= j < c ==> cs[j].speedUnits < cs[c].speedUnits)
  }

  /** No character is above the threshold. */
  predicate NoneReady(cs: seq<Character>) {
    forall j :: 0 <= j < |cs| ==> cs[j].speedUnits <= SpeedUnitThreshold
  }

  /** What the scan loop knows after visiting the first `i` characters. */
  predicate ScanState(cs: seq<Character>, i: nat, higher: int, chosen: Option<nat>) {
    && i <= |cs|
    && match chosen
       case None =>
         higher == SpeedUnitThreshold && forall j :: 0 <= j < i ==> cs[j].speedUnits <= SpeedUnitThreshold
       case Some(c) =>
         && c < i && higher == cs[c].speedUnits && higher > SpeedUnitThreshold
         && (forall j :: 0 <= j < i ==> cs[j].speedUnits <= higher)
         && (forall j :: 0 <= j < c ==> cs[j].speedUnits < higher)
  }

  /** The loop of `findNextPlayingCharacter` from index `i` on: a character
      replaces the current candidate only when strictly above it. */
  function Scan(cs: seq<Character>, i: nat, higher: int, chosen: Option<nat>): (r: Option<nat>)
    requires ScanState(cs, i, higher, chosen)
    ensures r.None? ==> NoneReady(cs)
    ensures r.Some? ==> IsFirstMax(cs, r.value)
    decreases |cs| - i
  {
    if i == |cs| then chosen
    else if cs[i].speedUnits > higher then Scan(cs, i + 1, cs[i].speedUnits, Some(i))
    else Scan(cs, i + 1, higher, chosen)
  }

  /** `findNextPlayingCharacter`: the index of the character to play, or
      none (a null pointer) when nobody is above the threshold. */
  function FindNextPlayingCharacter(cs: seq<Character>): (r: Option<nat>)
    ensures r.None? <==> NoneReady(cs)
    ensures r.Some? ==> IsFirstMax(cs, r.value)
  {
    Scan(cs, 0, SpeedUnitThreshold, None)
  }

  /** At most one index is the first maximum. */
  lemma FirstMaxIsUnique(cs: seq<Character>, a: nat, b: nat)
    requires IsFirstMax(cs, a) && IsFirstMax(cs, b)
    ensures a == b
  {
  }

  /** The scan picks exactly the first maximum above the threshold. */
  lemma FindNextIsFirstMax(cs: seq<Character>, i: nat)
    ensures FindNextPlayingCharacter(cs) == Some(i) <==> IsFirstMax(cs, i)
  {
    var r := FindNextPlayingCharacter(cs);
    if IsFirstMax(cs, i) {
      assert !NoneReady(cs) by { assert cs[i].speedUnits > SpeedUnitThreshold; }
      FirstMaxIsUnique(cs, r.value, i);
    }
  }

  /** One accumulation round: every character, whatever its status, gains its speed. */
  function AddRound(cs: seq<Character>): (r: seq<Character>)
    ensures |r| == |cs|
    ensures forall k :: 0 <= k < |cs| ==> r[k] == cs[k].(speedUnits := cs[k].speedUnits + cs[k].speed)
  {
    seq(|cs|, k requires 0 <= k < |cs| => cs[k].(speedUnits := cs[k].speedUnits + cs[k].speed))
  }

  /** The roster after `n` accumulation rounds. */
  function Accumulate(cs: seq<Character>, n: nat): (r: seq<Character>)
    ensures |r| == |cs|
  {
    if n == 0 then cs else AddRound(Accumulate(cs, n - 1))
  }

  /** After `n` rounds each character has gained exactly `n` times its speed
      and nothing else has changed. */
  lemma {:induction false} AccumulateClosedForm(cs: seq<Character>, n: nat)
    ensures forall k :: 0 <= k < |cs| ==>
      Accumulate(cs, n)[k] == cs[k].(speedUnits := cs[k].speedUnits + n * cs[k].speed)
  {
    if n > 0 {
      AccumulateClosedForm(cs, n - 1);
      forall k | 0 <= k < |cs|
        ensures Accumulate(cs, n)[k] == cs[k].(speedUnits := cs[k].speedUnits + n * cs[k].speed)
      {
        var prev := Accumulate(cs, n - 1);
        assert prev[k].speedUnits == cs[k].speedUnits + (n - 1) * cs[k].speed;
        assert (n - 1) * cs[k].speed + cs[k].speed == n * cs[k].speed;
      }
    }
  }

  /** The chosen character pays for its turn. */
  function TakeTurn(cs: seq<Character>, c: nat): seq<Character>
    requires c < |cs|
  {
    cs[c := cs[c].(speedUnits := cs[c].speedUnits - TurnCost)]
  }

  /** Someone is ready now, or someone gains speed units each round: the
      accumulation loop of `calculateNextPlayingCharacter` then stops. */
  predicate CanSchedule(cs: seq<Character>) {
    FindNextPlayingCharacter(cs).Some? || exists j :: 0 <= j < |cs| && cs[j].speed > 0
  }

  /** Nobody was ready after any number of rounds below `n`. */
  predicate NoTurnBefore(cs: seq<Character>, n: nat) {
    forall m :: 0 <= m < n ==> NoneReady(Accumulate(cs, m))
  }

  /** Extends `NoTurnBefore` by one round. */
  lemma NoTurnBeforeStep(cs: seq<Character>, n: nat)
    requires NoTurnBefore(cs, n) && NoneReady(Accumulate(cs, n))
    ensures NoTurnBefore(cs, n + 1)
  {
  }

  /** `r` is the roster after `rounds` accumulation rounds, the fewest that
      put someone above the threshold, with `chosen` then paying for its turn. */
  predicate Scheduled(cs: seq<Character>, r: seq<Character>, chosen: nat, rounds: nat) {
    && IsFirstMax(Accumulate(cs, rounds), chosen)
    && NoTurnBefore(cs, rounds)
    && r == TakeTurn(Accumulate(cs, rounds), chosen)
  }

  /** `calculateNextPlayingCharacter`: let every character accumulate speed
      until one is ready, and charge the chosen character for its turn. */
  method CalculateNextPlayingCharacter(cs: seq<Character>) returns (r: seq<Character>, chosen: nat, rounds: nat)
    requires CanSchedule(cs)
    ensures Scheduled(cs, r, chosen, rounds)
  {
    var cur := cs;
    rounds := 0;
    var next := FindNextPlayingCharacter(cur);
    ghost var j: nat := 0;
    if next.None? {
      j :| 0 <= j < |cs| && cs[j].speed > 0;
    }
    while next.None?
      invariant cur == Accumulate(cs, rounds)
      invariant next == FindNextPlayingCharacter(cur)
      invariant NoTurnBefore(cs, rounds)
      invariant next.None? ==> j < |cs| && cur[j].speed == cs[j].speed > 0
      decreases if next.None? then TurnCost - cur[j].speedUnits else 0
    {
      ghost var before := cur[j];
      assert before.speedUnits <= SpeedUnitThreshold;
      NoTurnBeforeStep(cs, rounds);
      cur := AddRound(cur);
      assert cur[j] == before.(speedUnits := before.speedUnits + before.speed);
      rounds := rounds + 1;
      next := FindNextPlayingCharacter(cur);
    }
    chosen := next.value;
    r := TakeTurn(cur, chosen);
  }

  /** What a schedule does to each character: only `speedUnits` moves, by
      the same number of rounds for everyone, and the chosen character is
      charged one turn out of a count that was the highest. */
  lemma ScheduledShape(cs: seq<Character>, r: seq<Character>, chosen: nat, rounds: nat)
    requires Scheduled(cs, r, chosen, rounds)
    ensures |r| == |cs| && chosen < |cs|
    ensures forall k :: 0 <= k < |cs| ==> r[k] == cs[k].(speedUnits := r[k].speedUnits)
    ensures forall k :: 0 <= k < |cs| ==>
      r[k].speedUnits == cs[k].speedUnits + rounds * cs[k].speed - (if k == chosen then TurnCost else 0)
    ensures forall k :: 0 <= k < |cs| ==> r[k].speedUnits <= r[chosen].speedUnits + TurnCost
    ensures r[chosen].speedUnits > -1
  {
    AccumulateClosedForm(cs, rounds);
  }

  /** The schedule is determined by the roster: the number of rounds, the
      chosen character and the resulting roster are unique. */
  lemma ScheduleIsDeterministic(cs: seq<Character>, r1: seq<Character>, c1: nat, n1: nat,
                                r2: seq<Character>, c2: nat, n2: nat)
    requires Scheduled(cs, r1, c1, n1) && Scheduled(cs, r2, c2, n2)
    ensures n1 == n2 && c1 == c2 && r1 == r2
  {
    if n1 < n2 {
      FindNextIsFirstMax(Accumulate(cs, n1), c1);
      assert false;
    } else if n2 < n1 {
      FindNextIsFirstMax(Accumulate(cs, n2), c2);
      assert false;
    }
    FirstMaxIsUnique(Accumulate(cs, n1), c1, c2);
  }

  /** A roster whose characters all start at 0 speed units with speed 100
      (fresh characters, say): after exactly 10 rounds everyone reaches
      1000, and the tie goes to the first in roster order. */
  lemma EqualRosterStartsAtFront(cs: seq<Character>, r: seq<Character>, chosen: nat, rounds: nat)
    requires |cs| > 0
    requires forall k :: 0 <= k < |cs| ==> cs[k].speedUnits == 0 && cs[k].speed == 100
    requires Scheduled(cs, r, chosen, rounds)
    ensures chosen == 0 && rounds == 10
  {
    var acc := Accumulate(cs, 10);
    AccumulateClosedForm(cs, 10);
    assert IsFirstMax(acc, 0);
    forall m | 0 <= m < 10
      ensures FindNextPlayingCharacter(Accumulate(cs, m)).None?
    {
      AccumulateClosedForm(cs, m);
      assert NoneReady(Accumulate(cs, m));
    }
    ScheduleIsDeterministic(cs, r, chosen, rounds, TakeTurn(acc, 0), 0, 10);
  }

  /** Fresh characters form such a roster. */
  lemma FreshRosterStartsAtFront(n: nat, r: seq<Character>, chosen: nat, rounds: nat)
    requires n > 0
    requires Scheduled(seq(n, _ => NewCharacter()), r, chosen, rounds)
    ensures chosen == 0 && rounds == 10
  {
    EqualRosterStartsAtFront(seq(n, _ => NewCharacter()), r, chosen, rounds);
  }

  /** `onEvent(const FightSceneUpdate&)`: schedule the next character and
      announce its turn only when it is a player. */
  method OnFightSceneUpdate(cs: seq<Character>) returns (r: seq<Character>, chosen: nat, events: seq<Event>)
    requires CanSchedule(cs)
    ensures exists rounds: nat :: Scheduled(cs, r, chosen, rounds)
    ensures chosen < |cs|
    ensures cs[chosen].characterType == Player ==> events == [PlayerNextTurn(chosen)]
    ensures cs[chosen].characterType != Player ==> events == []
  {
    var rounds;
    r, chosen, rounds := CalculateNextPlayingCharacter(cs);
    ScheduledShape(cs, r, chosen, rounds);
    if r[chosen].characterType == Player {
      events := [PlayerNextTurn(chosen)];
    } else {
      events := [];
    }
  }

  /** What a hit leaves behind: the roster and the events sent. */
  datatype HitOutcome = HitOutcome(roster: seq<Character>, events: seq<Event>)

  /** `onEvent(const EnemyHit&)`: an out-of-range id is logged and ignored;
      otherwise the target loses the spell's base damage in health and the
      scene is told to refresh. */
  function OnEnemyHit(cs: seq<Character>, id: nat, spell: Spell): (r: HitOutcome)
    ensures id >= |cs| ==> r.roster == cs && r.events == [WrongIdLogged]
    ensures id < |cs| ==> |r.roster| == |cs| && r.events == [FightSystemUpdate]
    ensures id < |cs| ==> r.roster[id].health == cs[id].health - spell.baseDmg
    ensures id < |cs| ==> r.roster[id] == cs[id].(health := r.roster[id].health)
    ensures forall k :: 0 <= k < |cs| && k != id ==> r.roster[k] == cs[k]
  {
    if |cs| <= id then HitOutcome(cs, [WrongIdLogged])
    else HitOutcome(cs[id := cs[id].(health := cs[id].health - spell.baseDmg)], [FightSystemUpdate])
  }

  /** A health boost of the spell's damage undoes a hit. */
  lemma HitUndoneByHealthBoost(cs: seq<Character>, id: nat, spell: Spell)
    requires id < |cs|
    ensures AddStatOnCharacter(OnEnemyHit(cs, id, spell).roster[id], Health, spell.baseDmg) == cs[id]
  {
    var h := OnEnemyHit(cs, id, spell).roster[id];
    StatsDetermineCharacter(AddStatOnCharacter(h, Health, spell.baseDmg), cs[id]);
  }
}
