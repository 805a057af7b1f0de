/** Items of inventory.h: their types, rarities, defaults and the equality
    `Item::operator==`, which ignores the stack count and the description. */
module Items {
  import opened Base

  datatype ItemType = Weapon | Armor | Consomable | SkillBook | SkillXp | Material | SpellStone | Key

  datatype ItemRarity = Common | Uncommon | Rare | Epic | Legendary | Mythic | Unique

  /** An item stack. `stacksize` is how many items fit in one stack (-1 for
      no limit); `nbItems` is how many this stack holds. Attribute values
      are an engine type and are modelled as strings. */
  datatype Item = Item(
    name: string,
    itemType: ItemType,
    stacksize: Int32,
    nbItems: SizeT,
    rarity: ItemRarity,
    attributes: map<string, string>,
    description: string)

  /** A stack without a size limit. */
  predicate IsInfinite(it: Item) {
    it.stacksize == -1
  }

  /** A default-initialised `Item`. */
  function NewItem(): (it: Item)
    ensures it.stacksize == 1 && it.nbItems == 1
    ensures it.itemType == Key && it.rarity == Common
    ensures !IsInfinite(it)
  {
    Item(name := "None", itemType := Key, stacksize := 1, nbItems := 1,
         rarity := Common, attributes := map[], description := "An item")
  }

  /** `Item::operator==`: name, stack size, type, rarity and attributes agree. */
  predicate ItemEquals(a: Item, b: Item) {
    a.name == b.name && a.stacksize == b.stacksize && a.itemType == b.itemType
    && a.rarity == b.rarity && a.attributes == b.attributes
  }

  /** The part of an item that equality looks at: everything but the count
      and the description. */
  function Kind(it: Item): Item {
    it.(nbItems := 0, description := "")
  }

  /** Two items are equal exactly when they agree once their counts and
      descriptions are blanked out. */
  lemma ItemEqualsIgnoresCountAndDescription(a: Item, b: Item)
    ensures ItemEquals(a, b) <==> Kind(a) == Kind(b)
  {
  }

  /** Changing the count or the description keeps an item equal to itself. */
  lemma RecountedItemIsEqual(a: Item, n: SizeT, d: string)
    ensures ItemEquals(a, a.(nbItems := n, description := d))
    ensures ItemEquals(a.(nbItems := n, description := d), a)
  {
  }

  /** `Item::operator==` is an equivalence relation. */
  lemma ItemEqualsIsEquivalence(a: Item, b: Item, c: Item)
    ensures ItemEquals(a, a)
    ensures ItemEquals(a, b) ==> ItemEquals(b, a)
    ensures ItemEquals(a, b) && ItemEquals(b, c) ==> ItemEquals(a, c)
  {
  }
}
