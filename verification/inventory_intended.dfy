/** The stacking behaviour inventory.cpp evidently intends, next to
    concrete inputs on which the code as written (module `Inventory`)
    departs from it:
    - the stacking loop pushes the uncapped `item` instead of `itemToPush`,
      so stacks overflow and the stored count grows beyond what was gained;
    - `remainingSize` is the stored count minus the stack size, so a
      partially filled stack is never topped up;
    - the loop subtracts a full stack from a partial remainder, so its
      `size_t` counter underflows;
    - losing an item from a stack holding 0 wraps its count around instead
      of erasing it.
    The intended handlers keep the stored count exact and never overfill a
    stack. */
module InventoryIntended {
  import opened Base
  import opened Items
  import opened Inventory

  /** The number of items a bucket holds across its stacks. */
  function Total(b: seq<Item>): nat
    decreases |b|
  {
    if |b| == 0 then 0 else Total(b[..|b| - 1]) + b[|b| - 1].nbItems
  }

  lemma {:induction false} TotalAppend(a: seq<Item>, b: seq<Item>)
    ensures Total(a + b) == Total(a) + Total(b)
    decreases |b|
  {
    if |b| == 0 {
      assert a + b == a;
    } else {
      assert (a + b)[..|a + b| - 1] == a + b[..|b| - 1];
      TotalAppend(a, b[..|b| - 1]);
    }
  }

  lemma {:induction false} TotalUpdate(b: seq<Item>, k: nat, x: Item)
    requires k < |b|
    ensures Total(b[k := x]) == Total(b) - b[k].nbItems + x.nbItems
  {
    assert b == b[..k] + [b[k]] + b[k + 1..];
    assert b[k := x] == b[..k] + [x] + b[k + 1..];
    TotalAppend(b[..k] + [b[k]], b[k + 1..]);
    TotalAppend(b[..k] + [x], b[k + 1..]);
    TotalAppend(b[..k], [b[k]]);
    TotalAppend(b[..k], [x]);
    assert Total([x]) == x.nbItems by { assert [x][..0] == []; }
    assert Total([b[k]]) == b[k].nbItems by { assert [b[k]][..0] == []; }
  }

  lemma {:induction false} TotalErase(b: seq<Item>, k: nat)
    requires k < |b|
    ensures Total(b[..k] + b[k + 1..]) == Total(b) - b[k].nbItems
  {
    assert b == b[..k] + [b[k]] + b[k + 1..];
    TotalAppend(b[..k] + [b[k]], b[k + 1..]);
    TotalAppend(b[..k], [b[k]]);
    TotalAppend(b[..k], b[k + 1..]);
    assert Total([b[k]]) == b[k].nbItems by { assert [b[k]][..0] == []; }
  }

  /** Every stack of `r` is a non-empty, at most full copy of `item`. */
  predicate FreshStacks(r: seq<Item>, item: Item) {
    forall i :: 0 <= i < |r| ==>
      r[i] == item.(nbItems := r[i].nbItems) && 0 < r[i].nbItems <= item.stacksize
  }

  /** `n` items of kind `item` cut into full stacks and one last partial stack. */
  function Chunks(item: Item, n: nat): (r: seq<Item>)
    requires item.stacksize > 0
    ensures Total(r) == n
    ensures FreshStacks(r, item)
    decreases n
  {
    if n == 0 then []
    else
      var c := if n < item.stacksize then n else item.stacksize;
      var rest := Chunks(item, n - c);
      var head := item.(nbItems := c);
      TotalAppend([head], rest);
      assert Total([head]) == c by { assert [head][..0] == []; }
      [head] + rest
  }

  /** Appending fresh stacks keeps a bucket within the stack size. */
  lemma AppendWithin(b: seq<Item>, r: seq<Item>, item: Item)
    requires NotOverfull(b, item) && FreshStacks(r, item)
    ensures NotOverfull(b + r, item)
  {
    forall j | 0 <= j < |b + r| && ItemEquals((b + r)[j], item)
      ensures (b + r)[j].nbItems <= item.stacksize
    {
      if j >= |b| {
        assert (b + r)[j] == r[j - |b|];
      }
    }
  }

  /** A stack size the stacking code can work with: no limit, or at least 1. */
  predicate ValidStackSize(s: Int32) {
    s == -1 || s >= 1
  }

  /** The intended `onEvent(const GainItem&)`: a finite item first tops up
      the last equal stack if it has room, then the rest is stored in full
      stacks and one last partial stack. Stack sizes 1 and -1 behave as in
      the code. */
  function GainItemIntended(inv: Store, item: Item): (r: Store)
    requires ValidStackSize(item.stacksize)
    ensures OnlyBucketChanged(inv, r, item.itemType)
  {
    var t := item.itemType;
    var b := Bucket(inv, t);
    if item.stacksize == 1 then inv[t := b + [item]]
    else
      match LastMatch(b, item)
      case Some(k) =>
        if item.stacksize == -1 then
          inv[t := b[k := b[k].(nbItems := SizeAdd(b[k].nbItems, item.nbItems))]]
        else if b[k].nbItems < item.stacksize then
          var room := item.stacksize - b[k].nbItems;
          var fill := if item.nbItems < room then item.nbItems else room;
          inv[t := b[k := b[k].(nbItems := b[k].nbItems + fill)] + Chunks(item, item.nbItems - fill)]
        else inv[t := b + Chunks(item, item.nbItems)]
      case None =>
        if item.stacksize == -1 then inv[t := b + [item]]
        else inv[t := b + Chunks(item, item.nbItems)]
  }

  /** For a finite stack size the intended gain stores exactly the gained
      count, and never overfills a stack that was not overfull before. */
  lemma IntendedGainKeepsCount(inv: Store, item: Item)
    requires item.stacksize > 1
    ensures var b := Bucket(inv, item.itemType);
            Total(Bucket(GainItemIntended(inv, item), item.itemType)) == Total(b) + item.nbItems
    ensures NotOverfull(Bucket(inv, item.itemType), item) ==>
            NotOverfull(Bucket(GainItemIntended(inv, item), item.itemType), item)
  {
    var b := Bucket(inv, item.itemType);
    var nb := Bucket(GainItemIntended(inv, item), item.itemType);
    match LastMatch(b, item)
    case Some(k) =>
      if b[k].nbItems < item.stacksize {
        var room := item.stacksize - b[k].nbItems;
        var fill := if item.nbItems < room then item.nbItems else room;
        var topped := b[k := b[k].(nbItems := b[k].nbItems + fill)];
        var rest := Chunks(item, item.nbItems - fill);
        assert nb == topped + rest;
        TotalUpdate(b, k, b[k].(nbItems := b[k].nbItems + fill));
        TotalAppend(topped, rest);
        if NotOverfull(b, item) {
          assert NotOverfull(topped, item);
          AppendWithin(topped, rest, item);
        }
      } else {
        TotalAppend(b, Chunks(item, item.nbItems));
        if NotOverfull(b, item) {
          AppendWithin(b, Chunks(item, item.nbItems), item);
        }
      }
    case None =>
      TotalAppend(b, Chunks(item, item.nbItems));
      if NotOverfull(b, item) {
        AppendWithin(b, Chunks(item, item.nbItems), item);
      }
  }

  /** The intended `onEvent(const LoseItem&)`: a stack whose count drops to
      0, or that held none, is erased instead of wrapping around. */
  function LoseItemIntended(inv: Store, item: Item): (r: LoseOutcome)
    ensures OnlyBucketChanged(inv, r.inv, item.itemType)
    ensures r.errorLogged <==> NoMatch(Bucket(inv, item.itemType), item)
  {
    var t := item.itemType;
    var b := Bucket(inv, t);
    match LastMatch(b, item)
    case None => LoseOutcome(inv[t := b], true)
    case Some(k) =>
      if b[k].nbItems <= 1 then LoseOutcome(inv[t := b[..k] + b[k + 1..]], false)
      else LoseOutcome(inv[t := b[k := b[k].(nbItems := b[k].nbItems - 1)]], false)
  }

  /** The intended loss never raises the stored count, and takes away exactly
      one item whenever the matching stack held any. */
  lemma IntendedLoseTakesOne(inv: Store, item: Item, k: nat)
    requires IsLastMatch(Bucket(inv, item.itemType), item, k)
    ensures var b := Bucket(inv, item.itemType);
            var nb := Bucket(LoseItemIntended(inv, item).inv, item.itemType);
            Total(nb) <= Total(b)
            && (b[k].nbItems > 0 ==> Total(nb) + 1 == Total(b))
  {
    var b := Bucket(inv, item.itemType);
    LastMatchIsUnique(b, item, k);
    if b[k].nbItems <= 1 {
      TotalErase(b, k);
    } else {
      TotalUpdate(b, k, b[k].(nbItems := b[k].nbItems - 1));
    }
  }

  /** A stackable potion, five to a stack, holding `n`. */
  function Potion(n: SizeT): Item {
    Item(name := "Potion", itemType := Consomable, stacksize := 5, nbItems := n,
         rarity := Common, attributes := map[], description := "An item")
  }

  /** Gaining 10 potions into an empty inventory: the code stores a stack
      of 10 and one of 5 (15 potions, one stack over its size); the intended
      handler stores two full stacks. */
  lemma UncappedStacksExample()
    ensures GainItem(map[], Potion(10)) == Stored(map[Consomable := [Potion(10), Potion(5)]])
    ensures Total([Potion(10), Potion(5)]) == 15
    ensures GainItemIntended(map[], Potion(10)) == map[Consomable := [Potion(5), Potion(5)]]
  {
    var empty: Store := map[];
    assert Bucket(empty, Consomable) == [];
    assert LastMatch([], Potion(10)) == None;
    ExactQuotient(10, 5, 2);
    assert LoopEnds(10, 5);
    assert PushedCopies(Potion(10), 2) == [Potion(10), Potion(5)];
    assert AppendStacks(empty, [], Potion(10)) == Stored(empty[Consomable := [] + PushedCopies(Potion(10), 2)]);
    assert Chunks(Potion(10), 10) == [Potion(5), Potion(5)] by {
      assert Chunks(Potion(10), 0) == [];
      assert Chunks(Potion(10), 5) == [Potion(5)];
    }
    assert [] + Chunks(Potion(10), 10) == [Potion(5), Potion(5)];
    assert GainItemIntended(empty, Potion(10)) == empty[Consomable := [] + Chunks(Potion(10), 10)];
    assert [Potion(10), Potion(5)][..1] == [Potion(10)];
    assert [Potion(10)][..0] == [];
  }

  /** Gaining 2 potions onto a stored stack of 3: the code leaves the stack
      at 3 and its loop underflows; the intended handler tops the stack up
      to 5. */
  lemma PartialStackExample()
    ensures GainItem(map[Consomable := [Potion(3)]], Potion(2)).Runaway?
    ensures GainItemIntended(map[Consomable := [Potion(3)]], Potion(2)) == map[Consomable := [Potion(5)]]
  {
    var inv: Store := map[Consomable := [Potion(3)]];
    var b := [Potion(3)];
    assert Bucket(inv, Consomable) == b;
    assert ItemEquals(b[0], Potion(2));
    assert LastMatch(b, Potion(2)) == Some(0);
    assert ToInt32(3 - 5) == -2;
    assert !LoopEnds(2, 5);
    assert GainItem(inv, Potion(2)) == AppendStacks(inv, b, Potion(2));
    assert Chunks(Potion(2), 0) == [];
    assert b[0 := Potion(3).(nbItems := 3 + 2)] + Chunks(Potion(2), 0) == [Potion(5)];
    assert GainItemIntended(inv, Potion(2)) == inv[Consomable := b[0 := Potion(3).(nbItems := 3 + 2)] + Chunks(Potion(2), 0)];
  }

  /** Gaining 7 potions into an empty inventory: the code's loop pushes a
      stack of 7 and one of 2, then its counter underflows at `2 - 5`; the
      intended handler stores a full stack and a stack of 2. */
  lemma RemainderExample()
    ensures GainItem(map[], Potion(7)).Runaway?
    ensures GainItemIntended(map[], Potion(7)) == map[Consomable := [Potion(5), Potion(2)]]
  {
    var empty: Store := map[];
    assert Bucket(empty, Consomable) == [];
    assert LastMatch([], Potion(7)) == None;
    assert !LoopEnds(7, 5);
    assert Chunks(Potion(7), 7) == [Potion(5), Potion(2)] by {
      assert Chunks(Potion(7), 0) == [];
      assert Chunks(Potion(7), 2) == [Potion(2)];
    }
    assert [] + Chunks(Potion(7), 7) == [Potion(5), Potion(2)];
    assert GainItemIntended(empty, Potion(7)) == empty[Consomable := [] + Chunks(Potion(7), 7)];
  }

  /** A default key stack holding no key. */
  function NoKeys(): Item {
    NewItem().(nbItems := 0)
  }

  /** Losing a key from a stored stack of 0 keys (which a gain with stack
      size 1 and count 0 stores): the code wraps the count to the largest
      `size_t`; the intended handler erases the stack. */
  lemma EmptyStackLossExample()
    ensures GainItem(map[], NoKeys()) == Stored(map[Key := [NoKeys()]])
    ensures LoseItem(map[Key := [NoKeys()]], NoKeys())
         == LoseOutcome(map[Key := [NoKeys().(nbItems := SIZE_MOD - 1)]], false)
    ensures LoseItemIntended(map[Key := [NoKeys()]], NoKeys()) == LoseOutcome(map[Key := []], false)
  {
    var key := NoKeys();
    var empty: Store := map[];
    var inv: Store := map[Key := [key]];
    assert Bucket(empty, Key) == [];
    assert [] + [key] == [key];
    assert Bucket(inv, Key) == [key];
    assert LastMatch([key], key) == Some(0);
    assert SizeSub(0, 1) == SIZE_MOD - 1;
    assert [key][0 := key.(nbItems := SIZE_MOD - 1)] == [key.(nbItems := SIZE_MOD - 1)];
    assert [key][..0] + [key][1..] == [];
  }
}
