# GameOff combat and inventory core in Dafny

This project models three small cores of the GameOff game and proves
properties of them.

- **Initiative scheduler and hit resolution** of `FightSystem`
  (`src/GameOff/fightscene.cpp`). Each round, every character on the roster
  gains its `speed` in `speedUnits`. The first character holding the
  strictly highest count above the threshold 999 plays, and pays 1000 units
  for its turn. A hit lowers the target's health by the spell's base damage.
  Dead characters are not skipped, because the code never reads
  `playingStatus`.
- **Stat-boost passives** (`src/GameOff/character.cpp` over the data model
  of `src/GameOff/character.h`). `addStatOnCharacter` adds a signed delta to
  one stat. The boost factory builds a passive whose apply and remove
  actions add `+value` and `-value`. `Character::addPassive` applies a boost
  on attachment. The `std::function` closures become the `StatEffect`
  datatype. The `MDef` case writes the physical attack, exactly as the
  switch does.
- **Inventory stacking** (`InventorySystem` in
  `src/GameOff/inventory.cpp`, with `Item` and its `operator==` from
  `src/GameOff/inventory.h`). The store maps each item type to a sequence of
  stacks. `LoseItem`, and `GainItem` for any stack size other than 1, look
  up the last stored stack equal to the event's item; a stack size of 1 is
  appended without a lookup. `operator[]` creates a missing bucket, so a handler always leaves a
  bucket for the item's type.

`float` fields are modelled as `int`. The item count `Item.nbItems`, the
only `size_t` that a modelled operation changes, is the `SizeT` subset type
with explicit wrap-around modulo 2^64. The other `size_t` values (the spell
and passive counters, `Character.id`, the aggro map's keys and the id in an
enemy hit) are `nat`, because nothing in the model does arithmetic on them.
An `int` or `int32_t` is `Int32`.

Modules, one per file:
- `Base`: shared types.
- `CharacterData`: `character.h`.
- `StatBoost`: `character.cpp`.
- `FightSystem`: `fightscene.cpp`.
- `Items`: `Item` of `inventory.h`.
- `Inventory`: the handlers as written.
- `InventoryIntended`: the corrected handlers behind the findings below.

## Model

| member | source | states |
|---|---|---|
| Base.SizeAdd | src/GameOff/inventory.cpp:22 | `size_t` addition: the exact sum when it fits, otherwise the sum minus 2^64 |
| Base.SizeSub | src/GameOff/inventory.cpp:78 | `size_t` subtraction: the exact difference when it is not negative, otherwise the difference plus 2^64 |
| Base.ToInt32 | src/GameOff/inventory.cpp:26 | narrowing to `int` keeps values in range and otherwise agrees with the input modulo 2^32 |
| CharacterData.ElementIndex | src/GameOff/character.h:15-24 | every element's `uint8_t` value is below `NbElements` |
| CharacterData.ElementAt | src/GameOff/character.h:12-24 | every value below `NbElements` names an element with that value |
| CharacterData.ElementCountMatches | src/GameOff/character.h:13-24 | `NbElements == 7` is exactly the number of elements: values and elements correspond one to one |
| CharacterData.NewSpell | src/GameOff/character.h:32-54 | a fresh spell does 1 damage, has cooldown 1 and one target, is not self-only, cannot hit a target twice, is unused, and is element-less physical |
| CharacterData.NewPassive | src/GameOff/character.h:72-96 | a fresh passive is permanent (counter -1, not expired), fires on every trigger, has both trigger counters at 0, is visible, has no activations and has no callbacks |
| CharacterData.NewCharacter | src/GameOff/character.h:136-185 | a fresh character is an alive Player with health 100, speed 100, no speed units, id 0, one zero resistance per element, and no spells, passives or aggro |
| StatBoost.AddStatOnCharacter | src/GameOff/character.cpp:5-50 | exactly the stat the boost type selects moves by `value`; every other stat and every non-stat field is unchanged |
| StatBoost.AddStatUndo | src/GameOff/character.cpp:5-50 | adding `v` and then `-v` to a stat, in either order, gives the character back |
| StatBoost.AddStatCommutes | src/GameOff/character.cpp:5-50 | two stat additions give the same character in either order |
| StatBoost.ResBoostIsNoOp | src/GameOff/character.cpp:45-47 | the resistance boost leaves the character unchanged |
| StatBoost.MDefBoostRaisesPhysicalAttack | src/GameOff/character.cpp:25-27 | the magical-defence boost raises the physical attack, leaves the magical defence alone, and acts exactly like the physical-attack boost |
| StatBoost.RunEffect | src/GameOff/character.cpp:66-67 | running a callback changes only the nine stats |
| StatBoost.MakeSimplePlayerBoostPassive | src/GameOff/character.cpp:52-70 | the factory builds a character-effect, stat-boost passive with the given name; it is permanent for duration -1 and lasts `duration + 1` turns otherwise; the apply callback adds `value` to the chosen stat and the remove callback adds `-value`; it activates on every trigger, is not hidden and starts with no triggers or activations counted |
| StatBoost.DefaultBoostIsPermanent | src/GameOff/character.h:122 | with the default arguments, the boost is permanent and named "PlayerBoost" |
| StatBoost.BoostRemoveUndoesApply | src/GameOff/character.cpp:66-67 | a factory boost's remove callback undoes its apply callback, and the two may run in either order |
| StatBoost.AddPassive | src/GameOff/character.cpp:72-80 | the passive list grows by exactly the new passive; the stats change as the apply callback says for a stat-boost passive, and not at all otherwise |
| StatBoost.AttachOtherPassiveKeepsStats | src/GameOff/character.cpp:74-77 | attaching a passive that is not a stat boost changes no stat |
| StatBoost.AttachedBoostIsReversible | src/GameOff/character.cpp:52-80 | attaching a factory boost raises exactly the targeted stat; its remove callback then restores the character, apart from the appended passive |
| StatBoost.PhysicalAttackBoostExample | src/GameOff/character.cpp:62-67 | a two-turn +5 attack boost stores 3 remaining turns, raises an attack of 10 to 15, and removing it gives 10 |
| FightSystem.Scan | src/GameOff/fightscene.cpp:92-102 | from any state the loop can reach, the scan ends with nobody above the threshold or with the first index holding the highest count |
| FightSystem.FindNextPlayingCharacter | src/GameOff/fightscene.cpp:84-108 | returns none exactly when nobody is above 999; otherwise returns the first index whose count is above 999 and at least every other count |
| FightSystem.FirstMaxIsUnique | src/GameOff/fightscene.cpp:94 | the strict comparison makes the first maximum unique |
| FightSystem.FindNextIsFirstMax | src/GameOff/fightscene.cpp:84-108 | the scan returns `i` if and only if `i` is the first maximum above the threshold |
| FightSystem.AddRound | src/GameOff/fightscene.cpp:68-71 | one round adds each character's own speed to its speed units, whatever its status, and changes nothing else |
| FightSystem.AccumulateClosedForm | src/GameOff/fightscene.cpp:66-71 | after `n` rounds, each character holds its starting units plus `n` times its speed, and nothing else has changed |
| FightSystem.CalculateNextPlayingCharacter | src/GameOff/fightscene.cpp:55-82 | the loop stops once someone has positive speed. The result is the roster after the fewest accumulation rounds that put anyone above 999, with the first maximum of that roster chosen and charged 1000 units |
| FightSystem.ScheduledShape | src/GameOff/fightscene.cpp:55-82 | a schedule changes only speed units: everyone gains the same number of rounds of speed, and the winner pays 1000 from a count that was the highest, so it keeps more than -1 units and no count exceeds its own by more than 1000 |
| FightSystem.ScheduleIsDeterministic | src/GameOff/fightscene.cpp:55-82 | the roster determines the number of rounds, the winner and the resulting roster |
| FightSystem.EqualRosterStartsAtFront | src/GameOff/fightscene.cpp:55-108 | a roster all at 0 units and speed 100 needs exactly 10 rounds, and the tie goes to the first character |
| FightSystem.FreshRosterStartsAtFront | src/GameOff/fightscene.cpp:55-82 | a roster of default characters first gives the turn to the front character, after 10 rounds |
| FightSystem.OnFightSceneUpdate | src/GameOff/fightscene.cpp:45-53 | schedules the next character, and sends `PlayerNextTurn` for it if and only if it is a Player |
| FightSystem.OnEnemyHit | src/GameOff/fightscene.cpp:30-43 | an out-of-range id is logged and leaves the roster unchanged. Otherwise only the target's health changes, by exactly the spell's base damage, and an update is sent |
| FightSystem.HitUndoneByHealthBoost | src/GameOff/fightscene.cpp:38 | a health boost of the spell's damage restores the hit character |
| Items.NewItem | src/GameOff/inventory.h:32-61 | a default item is a single-item, non-infinite Common Key stack of size 1 |
| Items.ItemEqualsIgnoresCountAndDescription | src/GameOff/inventory.h:63-66 | two items are equal exactly when they agree once count and description are blanked |
| Items.RecountedItemIsEqual | src/GameOff/inventory.h:63-66 | changing an item's count or description keeps it equal to the original, both ways round |
| Items.ItemEqualsIsEquivalence | src/GameOff/inventory.h:63-66 | item equality is reflexive, symmetric and transitive |
| Inventory.LastMatch | src/GameOff/inventory.cpp:15 | the reverse search finds nothing exactly when no stack is equal, and otherwise finds the last equal stack |
| Inventory.LastMatchIsUnique | src/GameOff/inventory.cpp:15 | the search returns `k` if and only if `k` is the last equal stack |
| Inventory.PushedCopies | src/GameOff/inventory.cpp:49-62 | for a count of `q` full stacks, the loop pushes `q` copies of the item; the i-th holds the `q - i` stacks' worth still left |
| Inventory.AppendStacks | src/GameOff/inventory.cpp:43-62 | the tail of the handler keeps the given bucket as a prefix and appends at least one stack. It runs away if and only if the stack size is not -1 and the counter does not land exactly on 0: for a positive stack size the count must be a positive multiple of it, for stack size 0 the count must be 0, and for a negative stack size the count's distance to 2^64 must be a multiple of its magnitude |
| Inventory.RisingCopies | src/GameOff/inventory.cpp:49-62 | for a negative stack size and a count `q` steps of its magnitude below 2^64, the loop pushes `q` copies of the item; the i-th holds the count raised by `i` steps |
| Inventory.GainItem | src/GameOff/inventory.cpp:5-64 | a stored gain touches only the item's bucket; stack sizes 1 and -1 always store |
| Inventory.GainSingleStackAppends | src/GameOff/inventory.cpp:9-13 | with stack size 1, the item is appended once to its bucket |
| Inventory.GainInfiniteMerges | src/GameOff/inventory.cpp:15-24 | with stack size -1, the last equal stack absorbs the count modulo 2^64; the bucket keeps its length and every other stack |
| Inventory.GainInfiniteAppendsOnce | src/GameOff/inventory.cpp:43-47 | with stack size -1 and no equal stack, exactly one stack is appended |
| Inventory.FiniteGainSkipsTopUp | src/GameOff/inventory.cpp:26-40 | with a stack size above 1 and no overfull stack, the stored stacks are left alone and the loop gets the whole count |
| Inventory.GainFiniteAppendsCopies | src/GameOff/inventory.cpp:49-62 | for `k >= 1` full stacks, exactly `k` stacks are appended after the untouched bucket; each is the item with the count still left when it was pushed |
| Inventory.FiniteGainRunsAway | src/GameOff/inventory.cpp:49-62 | with no overfull stack, the loop wraps its counter if and only if the count is not a positive multiple of the stack size |
| Inventory.NegativeGainRunsAway | src/GameOff/inventory.cpp:49-62 | with a stack size below -1 and no equal stack stored, the loop runs away if and only if the count's distance to 2^64 is not a multiple of the stack size's magnitude |
| Inventory.GainNegativeAppendsRising | src/GameOff/inventory.cpp:49-62 | with a stack size below -1, no equal stack and a count `q` steps below 2^64, exactly `q` stacks are appended after the untouched bucket, each the item with the count at its push |
| Inventory.NegativeStackExample | src/GameOff/inventory.cpp:49-62 | a stack size of -2 with a count 2 below 2^64 stores exactly one stack: the subtraction raises the counter to 2^64, which is 0 |
| Inventory.LoseItem | src/GameOff/inventory.cpp:66-84 | only the item's bucket changes. An error is logged if and only if no stack is equal, and then the bucket and an existing store are unchanged |
| Inventory.LoseDecrements | src/GameOff/inventory.cpp:70-78 | losing from a stack of more than one lowers the last equal stack by exactly 1; the other stacks keep their values and order |
| Inventory.LoseRemovesEmptied | src/GameOff/inventory.cpp:80-83 | losing the last item of a stack erases it; the other stacks keep their relative order |
| Inventory.LoseErasesExactlyAtZero | src/GameOff/inventory.cpp:78-83 | the bucket shrinks if and only if the stack held exactly 1; a stack that held 0 wraps to the largest `size_t` |
| InventoryIntended.Chunks | src/GameOff/inventory.cpp:49-62 | the intended loop cuts a count into stacks of the item, each non-empty and at most full, that together hold exactly the count |
| InventoryIntended.GainItemIntended | src/GameOff/inventory.cpp:5-64 | the corrected gain touches only the item's bucket |
| InventoryIntended.IntendedGainKeepsCount | src/GameOff/inventory.cpp:5-64 | for a stack size above 1, the corrected gain raises the bucket's total by exactly the gained count, and never overfills a stack that was not overfull |
| InventoryIntended.LoseItemIntended | src/GameOff/inventory.cpp:66-84 | the corrected loss touches only the item's bucket, and logs an error if and only if no stack is equal |
| InventoryIntended.IntendedLoseTakesOne | src/GameOff/inventory.cpp:66-84 | the corrected loss never raises the bucket's total, and lowers it by exactly one when the matched stack held any item |
| InventoryIntended.UncappedStacksExample | src/GameOff/inventory.cpp:58 | gaining 10 items of stack size 5 stores stacks of 10 and 5 (15 items) as written, and two stacks of 5 as intended |
| InventoryIntended.PartialStackExample | src/GameOff/inventory.cpp:26-28 | gaining 2 onto a stack of 3 (size 5) wraps the loop counter as written, and tops the stack up to 5 as intended |
| InventoryIntended.RemainderExample | src/GameOff/inventory.cpp:60-62 | gaining 7 items of stack size 5 wraps the loop counter as written, and stores stacks of 5 and 2 as intended |
| InventoryIntended.EmptyStackLossExample | src/GameOff/inventory.cpp:78-83 | losing from a stored stack of 0 wraps its count to the largest `size_t` as written, and erases the stack as intended |

## Left out

- `float` arithmetic: health, stats, speed and speed units are integers, so IEEE rounding is not modelled.
- `FightScene::init` and `startUp` (fightscene.cpp:110-238) are UI wiring. Only their events are modelled, as the `Event` values.
- `application.cpp`, `ttftext.h` and `contextmenu.h` are windowing, rendering and thread bootstrap, not part of this model.
- `fightscene.h` is an older revision that does not match fightscene.cpp: it has an `EnemyHit` with a damage value and separate enemy and player vectors. The model follows fightscene.cpp with the types of character.h.
- `item.h` repeats the `Item` definitions of inventory.h, which `Items` covers.
- `characustomizationscene`, `characterstats.h`, `skilltree.h` and `location.h` are UI glue or plain data with no operation on the core.
- Passive ticking and expiry, cooldowns, aggro and skipping dead characters do not appear in the code. `IsExpired` only names the documented meaning of a 0 counter.
- Logging is reduced to the `WrongIdLogged` event and the `errorLogged` flag.
- Item attribute values have an engine type and are modelled as strings.
- Characters are referred to by roster index, where the code passes pointers.
- CalculateNextPlayingCharacter: requires that someone is ready or has positive speed, because otherwise the code loops forever.
- OnFightSceneUpdate: requires the same, for the same reason.
- MakeSimplePlayerBoostPassive: requires `duration != INT32_MAX`, because `duration + 1` overflows `int32_t` there.
- AddPassive: requires a stat-boost passive to carry an apply callback, because calling an empty `std::function` throws.
- RunEffect: requires a set callback, for the same reason.
- GainItem: when the loop counter passes over 0 and wraps, the result is `Runaway`. The code then pushes about 2^64 divided by the stack size's magnitude more stacks, and stops only if the counter ever lands exactly on 0; the model does not list those stacks or tell those cases apart.
- AppendStacks: the same `Runaway` result covers every run whose counter wraps, including the ones that end after about 2^64 / |stack size| pushes, and a stack size of 0 with a positive count, which never ends.
- GainItemIntended: requires a stack size of -1 or at least 1; the code gives no meaning to other sizes.
- IntendedGainKeepsCount: covers stack sizes above 1 only. Sizes 1 and -1 behave as in the code.

## Findings

| source | as written | input that shows it | evidently intended | confidence | as-written member | corrected member |
|---|---|---|---|---|---|---|
| src/GameOff/inventory.cpp:58 | the loop pushes `item`, the whole remaining count, instead of the capped `itemToPush` | empty inventory, gain 10 items of stack size 5 | two stacks of 5 | high, not executed | Inventory.GainItem, InventoryIntended.UncappedStacksExample | InventoryIntended.GainItemIntended, InventoryIntended.IntendedGainKeepsCount |
| src/GameOff/inventory.cpp:26-28 | `remainingSize` is the stored count minus the stack size, so it is positive only for an overfull stack and a partial stack is never topped up | a stored stack of 3 (size 5), gain 2 more | the stack is topped up to 5 | high, not executed | Inventory.GainItem, InventoryIntended.PartialStackExample | InventoryIntended.GainItemIntended, InventoryIntended.IntendedGainKeepsCount |
| src/GameOff/inventory.cpp:60-62 | a full stack is subtracted from a smaller remainder, so the `size_t` counter wraps and the loop keeps pushing | empty inventory, gain 7 items of stack size 5 | a stack of 5 and a stack of 2 | high, not executed | Inventory.GainItem, InventoryIntended.RemainderExample | InventoryIntended.GainItemIntended, InventoryIntended.IntendedGainKeepsCount |
| src/GameOff/inventory.cpp:78-83 | `nbItems -= 1` on a stack holding 0 wraps to the largest `size_t`, which `<= 0` does not catch | gain a default key with count 0 (stack size 1), then lose it | the stack is erased | medium, not executed | Inventory.LoseItem, InventoryIntended.EmptyStackLossExample | InventoryIntended.LoseItemIntended, InventoryIntended.IntendedLoseTakesOne |
