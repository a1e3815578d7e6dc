/** Catalog entries and the built-in default catalog of the case opener. */
module Items {

  /** One catalog row: the `item_name`, `rarity` and `price` columns.
      Prices are floats in the application; here they are whole cents. */
  datatype Item = Item(name: string, rarity: string, price: int)

  /** The catalog the application starts with (`default_items`), in order. */
  const DefaultItems: seq<Item> := [
    Item("AK-47 | Redline", "Mil-Spec", 500),
    Item("M4A1-S | Nitro", "Mil-Spec", 450),
    Item("SG 553 | Tiger Moth", "Mil-Spec", 350),
    Item("P90 | Grim", "Mil-Spec", 250),
    Item("AWP | Worm God", "Restricted", 2000),
    Item("Desert Eagle | Conspiracy", "Restricted", 1500),
    Item("Glock-18 | Fade", "Restricted", 1200),
    Item("M4A4 | Desolate Space", "Classified", 5000),
    Item("AK-47 | Fire Serpent", "Classified", 6000),
    Item("AK-47 | Case Hardened", "Covert", 25000),
    Item("M4A1-S | Hyper Beast", "Covert", 30000),
    Item("Karambit | Doppler", "Exceedingly Rare", 200000),
    Item("Butterfly Knife | Fade", "Exceedingly Rare", 220000)
  ]
}
