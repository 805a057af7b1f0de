/** `InventorySystem` of inventory.cpp: a bucket of item stacks per item
    type, and the `GainItem` / `LoseItem` handlers as written. `LoseItem`,
    and `GainItem` for stack sizes other than 1, look up the LAST stored
    stack equal to the event's item (a reverse `std::find`).
    Counts are `size_t` and wrap around; the stacking loop of `GainItem`
    can wrap its counter around, which the `Runaway` outcome records. */
module Inventory {
  import opened Base
  import opened Items

  /** `InventorySystem::items`. */
  type Store = map<ItemType, seq<Item>>

  /** `items[t]` as a value: a missing bucket reads as empty. */
  function Bucket(inv: Store, t: ItemType): seq<Item> {
    if t in inv then inv[t] else []
  }

  /** `r` differs from `inv` at most in bucket `t`, which `operator[]` creates
      if it was missing. */
  predicate OnlyBucketChanged(inv: Store, r: Store, t: ItemType) {
    && r.Keys == inv.Keys + {t}
    && forall u :: u in inv && u != t ==> r[u] == inv[u]
  }

  /** `k` is the last index of `b` holding a stack equal to `x`. */
  predicate IsLastMatch(b: seq<Item>, x: Item, k: nat) {
    && k < |b| && ItemEquals(b[k], x)
    && forall j :: k < j < |b| ==> !ItemEquals(b[j], x)
  }

  /** No stack of `b` equals `x`. */
  predicate NoMatch(b: seq<Item>, x: Item) {
    forall j :: 0 <= j < |b| ==> !ItemEquals(b[j], x)
  }

  /** `std::find(rbegin, rend, x)`: the index of the last stack equal to `x`. */
  function LastMatch(b: seq<Item>, x: Item): (r: Option<nat>)
    ensures r.None? <==> NoMatch(b, x)
    ensures r.Some? ==> IsLastMatch(b, x, r.value)
    decreases |b|
  {
    if |b| == 0 then None
    else if ItemEquals(b[|b| - 1], x) then Some(|b| - 1)
    else LastMatch(b[..|b| - 1], x)
  }

  /** There is exactly one last match. */
  lemma LastMatchIsUnique(b: seq<Item>, x: Item, k: nat)
    ensures LastMatch(b, x) == Some(k) <==> IsLastMatch(b, x, k)
  {
    var r := LastMatch(b, x);
    if IsLastMatch(b, x, k) {
      assert !NoMatch(b, x) by { assert ItemEquals(b[k], x); }
    }
  }

  /** A multiple of a positive `s` lying in `[0, s)` is 0. */
  lemma MultipleBelowIsZero(x: int, s: int)
    requires s > 0 && 0 <= x * s < s
    ensures x == 0
  {
    if x >= 1 {
      assert false;
    } else if x <= -1 {
      assert false;
    }
  }

  /** Exact division: `q * s` divided by `s` is `q`. */
  lemma ExactQuotient(n: nat, s: nat, q: nat)
    requires s > 0 && n == q * s
    ensures n / s == q && n % s == 0
  {
    var d := n / s;
    assert n == d * s + n % s;
    assert (q - d) * s == n % s;
    MultipleBelowIsZero(q - d, s);
  }

  /** The stacks the do-while loop pushes when the count is `q` full stacks:
      the loop pushes `item` itself, not the capped copy, so the i-th pushed
      stack holds the `(q - i)` stacks' worth still left at that iteration. */
  function PushedCopies(item: Item, q: nat): (r: seq<Item>)
    requires item.stacksize > 0 && item.nbItems == q * item.stacksize
    ensures |r| == q
    ensures forall i :: 0 <= i < q ==> r[i] == item.(nbItems := r[i].nbItems)
    ensures forall i :: 0 <= i < q ==> r[i].nbItems == (q - i) * item.stacksize
    decreases q
  {
    if q == 0 then []
    else
      var s := item.stacksize;
      assert item.nbItems - s == (q - 1) * s;
      var rest := PushedCopies(item.(nbItems := item.nbItems - s), q - 1);
      assert forall i :: 1 <= i < q ==> ([item] + rest)[i] == rest[i - 1];
      [item] + rest
  }

  /** The stacks the do-while loop pushes for a stack size below 0: the
      `size_t` counter rises by the stack size's magnitude at each pass and
      the loop stops when it lands exactly on 2^64, that is on 0, after `q`
      pushes. */
  function RisingCopies(item: Item, q: nat): (r: seq<Item>)
    requires item.stacksize < 0 && q >= 1 && item.nbItems + q * -(item.stacksize as int) == SIZE_MOD
    ensures |r| == q
    ensures forall i :: 0 <= i < q ==> r[i] == item.(nbItems := r[i].nbItems)
    ensures forall i :: 0 <= i < q ==> r[i].nbItems == item.nbItems - i * item.stacksize
    decreases q
  {
    if q == 1 then [item]
    else
      var m := -(item.stacksize as int);
      assert item.nbItems + m + (q - 1) * m == SIZE_MOD;
      var rest := RisingCopies(item.(nbItems := item.nbItems + m), q - 1);
      assert forall i :: 1 <= i < q ==> ([item] + rest)[i] == rest[i - 1];
      [item] + rest
  }

  /** The do-while loop ends without its `size_t` counter passing over 0:
      for a positive stack size, a positive multiple of it; for stack size 0,
      a zero count (one push, then `0 - 0` stops it); for a negative stack
      size, a count whose distance to 2^64 is a multiple of its magnitude. */
  predicate LoopEnds(n: SizeT, s: Int32) {
    (s > 0 && n > 0 && n % s == 0) || (s == 0 && n == 0) || (s < 0 && (SIZE_MOD - n) % -(s as int) == 0)
  }

  /** What a `GainItem` leaves behind: the store, or `Runaway` when the
      stacking loop's `size_t` counter passes over 0 and wraps around (or,
      for stack size 0, never changes): the loop then goes on for about
      2^64 divided by the stack size's magnitude more pushes, and stops only
      if the counter ever lands exactly on 0. */
  datatype GainOutcome = Stored(inv: Store) | Runaway

  /** Lines 43-62 of `onEvent(const GainItem&)`: append one stack for an
      infinite item, otherwise run the stacking loop. */
  function AppendStacks(inv: Store, b: seq<Item>, item: Item): (r: GainOutcome)
    ensures r.Stored? ==> r.inv == inv[item.itemType := Bucket(r.inv, item.itemType)]
    ensures r.Stored? ==> |Bucket(r.inv, item.itemType)| > |b| && Bucket(r.inv, item.itemType)[..|b|] == b
    ensures r.Runaway? <==> item.stacksize != -1 && !LoopEnds(item.nbItems, item.stacksize)
  {
    var t := item.itemType;
    var s := item.stacksize;
    if s == -1 then Stored(inv[t := b + [item]])
    else if !LoopEnds(item.nbItems, s) then Runaway
    else if s == 0 then Stored(inv[t := b + [item]])
    else if s > 0 then
      var q := item.nbItems / s;
      assert item.nbItems == q * s;
      Stored(inv[t := b + PushedCopies(item, q)])
    else
      var q := (SIZE_MOD - item.nbItems) / -(s as int);
      assert SIZE_MOD - item.nbItems == q * -(s as int);
      Stored(inv[t := b + RisingCopies(item, q)])
  }

  /** The loop's stacks for a positive stack size dividing the count. */
  lemma AppendFallingStacks(inv: Store, b: seq<Item>, item: Item, q: nat)
    requires item.stacksize > 0 && q >= 1 && item.nbItems == q * item.stacksize
    ensures AppendStacks(inv, b, item) == Stored(inv[item.itemType := b + PushedCopies(item, q)])
  {
    ExactQuotient(item.nbItems, item.stacksize, q);
  }

  /** The loop's stacks for a stack size below -1 whose magnitude divides
      the count's distance to 2^64. */
  lemma AppendRisingStacks(inv: Store, b: seq<Item>, item: Item, q: nat)
    requires item.stacksize < -1 && q >= 1 && item.nbItems + q * -(item.stacksize as int) == SIZE_MOD
    ensures AppendStacks(inv, b, item) == Stored(inv[item.itemType := b + RisingCopies(item, q)])
  {
    ExactQuotient(SIZE_MOD - item.nbItems, -(item.stacksize as int), q);
  }

  /** `onEvent(const GainItem&)`. */
  function GainItem(inv: Store, item: Item): (r: GainOutcome)
    ensures r.Stored? ==> OnlyBucketChanged(inv, r.inv, item.itemType)
    ensures item.stacksize == 1 || item.stacksize == -1 ==> r.Stored?
  {
    var t := item.itemType;
    var b := Bucket(inv, t);
    if item.stacksize == 1 then Stored(inv[t := b + [item]])
    else
      match LastMatch(b, item)
      case None => AppendStacks(inv, b, item)
      case Some(k) =>
        var top := b[k];
        if top.stacksize == -1 then
          Stored(inv[t := b[k := top.(nbItems := SizeAdd(top.nbItems, item.nbItems))]])
        else
          // A size_t difference narrowed to int: both conversions are modulo 2^32 here.
          var remainingSize := ToInt32(top.nbItems - top.stacksize);
          if remainingSize > 0 then
            if remainingSize > item.nbItems then
              Stored(inv[t := b[k := top.(nbItems := SizeAdd(top.nbItems, item.nbItems))]])
            else
              AppendStacks(inv, b[k := top.(nbItems := SizeAdd(top.nbItems, remainingSize))],
                           item.(nbItems := item.nbItems - remainingSize))
          else AppendStacks(inv, b, item)
  }

  /** A stack size of 1: the item is appended once to its bucket. */
  lemma GainSingleStackAppends(inv: Store, item: Item)
    requires item.stacksize == 1
    ensures GainItem(inv, item).Stored?
    ensures Bucket(GainItem(inv, item).inv, item.itemType) == Bucket(inv, item.itemType) + [item]
  {
  }

  /** An infinite item with an equal stack already stored: the last such
      stack absorbs the count (modulo 2^64), nothing is appended and every
      other stack is kept. */
  lemma GainInfiniteMerges(inv: Store, item: Item, k: nat)
    requires IsInfinite(item) && IsLastMatch(Bucket(inv, item.itemType), item, k)
    ensures GainItem(inv, item).Stored?
    ensures var b := Bucket(inv, item.itemType);
            var nb := Bucket(GainItem(inv, item).inv, item.itemType);
            |nb| == |b| && nb[k] == b[k].(nbItems := SizeAdd(b[k].nbItems, item.nbItems))
            && (forall j :: 0 <= j < |b| && j != k ==> nb[j] == b[j])
  {
    LastMatchIsUnique(Bucket(inv, item.itemType), item, k);
  }

  /** An infinite item with no equal stack: exactly one stack is appended. */
  lemma GainInfiniteAppendsOnce(inv: Store, item: Item)
    requires IsInfinite(item) && NoMatch(Bucket(inv, item.itemType), item)
    ensures GainItem(inv, item).Stored?
    ensures Bucket(GainItem(inv, item).inv, item.itemType) == Bucket(inv, item.itemType) + [item]
  {
  }

  /** No stored stack equal to `item` holds more than a full stack. */
  predicate NotOverfull(b: seq<Item>, item: Item) {
    forall j :: 0 <= j < |b| && ItemEquals(b[j], item) ==> b[j].nbItems <= item.stacksize
  }

  /** With a finite stack size above 1 and no overfull stack, the stored
      stacks are left alone and the loop is reached with the full count. */
  lemma FiniteGainSkipsTopUp(inv: Store, item: Item)
    requires item.stacksize > 1 && NotOverfull(Bucket(inv, item.itemType), item)
    ensures GainItem(inv, item) == AppendStacks(inv, Bucket(inv, item.itemType), item)
  {
    var b := Bucket(inv, item.itemType);
    match LastMatch(b, item)
    case None =>
    case Some(k) =>
      assert b[k].nbItems <= item.stacksize;
      assert ToInt32(b[k].nbItems - b[k].stacksize) <= 0;
  }

  /** A finite stack size above 1, no overfull stack, and a count of `q`
      full stacks: exactly `q` stacks are appended, the i-th holding the
      `(q - i)` stacks' worth still left when it was pushed. */
  lemma GainFiniteAppendsCopies(inv: Store, item: Item, q: nat)
    requires item.stacksize > 1 && NotOverfull(Bucket(inv, item.itemType), item)
    requires q >= 1 && item.nbItems == q * item.stacksize
    ensures GainItem(inv, item).Stored?
    ensures var b := Bucket(inv, item.itemType);
            var nb := Bucket(GainItem(inv, item).inv, item.itemType);
            |nb| == |b| + q && nb[..|b|] == b
            && (forall i :: |b| <= i < |nb| ==> nb[i] == item.(nbItems := nb[i].nbItems))
            && (forall i :: |b| <= i < |nb| ==> nb[i].nbItems == (q - (i - |b|)) * item.stacksize)
  {
    FiniteGainSkipsTopUp(inv, item);
    var b := Bucket(inv, item.itemType);
    var pushed := PushedCopies(item, q);
    AppendFallingStacks(inv, b, item, q);
    var nb: seq<Item> := b + pushed;
    assert nb[..|b|] == b;
    forall i | |b| <= i < |nb|
      ensures nb[i] == item.(nbItems := nb[i].nbItems)
      ensures nb[i].nbItems == (q - (i - |b|)) * item.stacksize
    {
      assert nb[i] == pushed[i - |b|];
    }
  }

  /** A finite stack size above 1 with no overfull stack: the loop runs away
      exactly when the count is not a positive multiple of the stack size. */
  lemma FiniteGainRunsAway(inv: Store, item: Item)
    requires item.stacksize > 1 && NotOverfull(Bucket(inv, item.itemType), item)
    ensures GainItem(inv, item).Runaway? <==> !(item.nbItems > 0 && item.nbItems % item.stacksize == 0)
  {
    FiniteGainSkipsTopUp(inv, item);
  }

  /** With no equal stack stored and a stack size other than 1, the handler
      goes straight to the loop with the whole bucket and count. */
  lemma NoMatchGainAppends(inv: Store, item: Item)
    requires item.stacksize != 1 && NoMatch(Bucket(inv, item.itemType), item)
    ensures GainItem(inv, item) == AppendStacks(inv, Bucket(inv, item.itemType), item)
  {
  }

  /** A stack size below -1 and no equal stack stored: the loop runs away
      exactly when the count's distance to 2^64 is not a multiple of the
      stack size's magnitude. */
  lemma NegativeGainRunsAway(inv: Store, item: Item)
    requires item.stacksize < -1 && NoMatch(Bucket(inv, item.itemType), item)
    ensures GainItem(inv, item).Runaway? <==> (SIZE_MOD - item.nbItems) % -(item.stacksize as int) != 0
  {
  }

  /** A stack size below -1, no equal stack stored, and a count `q` steps of
      the stack size's magnitude below 2^64: exactly `q` stacks are appended,
      the i-th holding the count raised by `i` such steps. */
  lemma GainNegativeAppendsRising(inv: Store, item: Item, q: nat)
    requires item.stacksize < -1 && NoMatch(Bucket(inv, item.itemType), item)
    requires q >= 1 && item.nbItems + q * -(item.stacksize as int) == SIZE_MOD
    ensures GainItem(inv, item).Stored?
    ensures var b := Bucket(inv, item.itemType);
            var nb := Bucket(GainItem(inv, item).inv, item.itemType);
            |nb| == |b| + q && nb[..|b|] == b
            && (forall i :: |b| <= i < |nb| ==> nb[i] == item.(nbItems := nb[i].nbItems))
            && (forall i :: |b| <= i < |nb| ==> nb[i].nbItems == item.nbItems - (i - |b|) * item.stacksize)
  {
    NoMatchGainAppends(inv, item);
    var b := Bucket(inv, item.itemType);
    var pushed := RisingCopies(item, q);
    AppendRisingStacks(inv, b, item, q);
    var nb: seq<Item> := b + pushed;
    assert nb[..|b|] == b;
    forall i | |b| <= i < |nb|
      ensures nb[i] == item.(nbItems := nb[i].nbItems)
      ensures nb[i].nbItems == item.nbItems - (i - |b|) * item.stacksize
    {
      assert nb[i] == pushed[i - |b|];
    }
  }

  /** A stack size of -2 and a count 2 below 2^64 into an empty store: one
      push, then the counter rises to 2^64, which is 0, and the loop stops. */
  lemma NegativeStackExample()
    ensures var item := NewItem().(stacksize := -2, nbItems := SIZE_MOD - 2);
            GainItem(map[], item) == Stored(map[item.itemType := [item]])
  {
    var item := NewItem().(stacksize := -2, nbItems := SIZE_MOD - 2);
    var empty: Store := map[];
    assert Bucket(empty, item.itemType) == [];
    GainNegativeAppendsRising(empty, item, 1);
    var nb := Bucket(GainItem(empty, item).inv, item.itemType);
    assert nb == [item];
  }

  /** What a `LoseItem` leaves behind: the store, and whether the "not in
      the inventory" error was logged. */
  datatype LoseOutcome = LoseOutcome(inv: Store, errorLogged: bool)

  /** `onEvent(const LoseItem&)`: decrement the last equal stack (a `size_t`
      decrement) and erase it once the count is 0. */
  function LoseItem(inv: Store, item: Item): (r: LoseOutcome)
    ensures OnlyBucketChanged(inv, r.inv, item.itemType)
    ensures r.errorLogged <==> NoMatch(Bucket(inv, item.itemType), item)
    ensures r.errorLogged ==> Bucket(r.inv, item.itemType) == Bucket(inv, item.itemType)
    ensures r.errorLogged && item.itemType in inv ==> r.inv == inv
  {
    var t := item.itemType;
    var b := Bucket(inv, t);
    match LastMatch(b, item)
    case None => LoseOutcome(inv[t := b], true)
    case Some(k) =>
      var left := SizeSub(b[k].nbItems, 1);
      if left == 0 then LoseOutcome(inv[t := b[..k] + b[k + 1..]], false)
      else LoseOutcome(inv[t := b[k := b[k].(nbItems := left)]], false)
  }

  /** Losing one item from a stack holding more than one: only the last equal
      stack changes, and it holds one item fewer. */
  lemma LoseDecrements(inv: Store, item: Item, k: nat)
    requires IsLastMatch(Bucket(inv, item.itemType), item, k)
    requires Bucket(inv, item.itemType)[k].nbItems > 1
    ensures var b := Bucket(inv, item.itemType);
            var nb := Bucket(LoseItem(inv, item).inv, item.itemType);
            |nb| == |b| && nb[k] == b[k].(nbItems := b[k].nbItems - 1)
            && (forall j :: 0 <= j < |b| && j != k ==> nb[j] == b[j])
  {
    LastMatchIsUnique(Bucket(inv, item.itemType), item, k);
  }

  /** Losing the last item of a stack erases that stack; the other stacks
      keep their relative order. */
  lemma LoseRemovesEmptied(inv: Store, item: Item, k: nat)
    requires IsLastMatch(Bucket(inv, item.itemType), item, k)
    requires Bucket(inv, item.itemType)[k].nbItems == 1
    ensures var b := Bucket(inv, item.itemType);
            var nb := Bucket(LoseItem(inv, item).inv, item.itemType);
            |nb| == |b| - 1
            && (forall j :: 0 <= j < k ==> nb[j] == b[j])
            && (forall j :: k <= j < |nb| ==> nb[j] == b[j + 1])
  {
    LastMatchIsUnique(Bucket(inv, item.itemType), item, k);
  }

  /** The matched stack is erased exactly when its decremented count is 0;
      a stack that held 0 items wraps to the largest `size_t` and stays. */
  lemma LoseErasesExactlyAtZero(inv: Store, item: Item, k: nat)
    requires IsLastMatch(Bucket(inv, item.itemType), item, k)
    ensures var b := Bucket(inv, item.itemType);
            var nb := Bucket(LoseItem(inv, item).inv, item.itemType);
            (|nb| < |b| <==> b[k].nbItems == 1)
            && (b[k].nbItems == 0 ==> nb[k].nbItems == SIZE_MOD - 1)
  {
    LastMatchIsUnique(Bucket(inv, item.itemType), item, k);
  }
}
