/**
 * The eco-point ledger: the player's balance and inventory, BuyAction, and the
 * vending machine's price table and affordability filter.
 */
module Players {
  import opened Wrappers
  import opened Tags
  import opened Items
  import Text

  /** spendEcoPoints: Math.max(balance - amount, 0). */
  function Spent(balance: int, amount: int): (r: int)
    ensures r >= 0
    ensures balance >= amount ==> r == balance - amount
    ensures balance < amount ==> r == 0
  {
    if balance - amount >= 0 then balance - amount else 0
  }

  /** The player: a name and, unlike the engine's actors, an eco-point balance. */
  class Player {
    const name: string
    var ecoPoints: int
    var inventory: seq<Item>

    /** A new player starts with no eco points and an empty inventory. */
    constructor (name: string)
      ensures this.name == name && ecoPoints == 0 && inventory == []
    {
      this.name := name;
      ecoPoints := 0;
      inventory := [];
    }

    /** canAfford(price): the balance covers the price. */
    predicate CanAfford(price: int)
      reads this
      ensures CanAfford(price) <==> Spent(ecoPoints, price) == ecoPoints - price
    {
      ecoPoints >= price
    }

    method EarnEcoPoints(amount: int)
      modifies this
      ensures ecoPoints == old(ecoPoints) + amount
      ensures inventory == old(inventory)
    {
      ecoPoints := ecoPoints + amount;
    }

    method SpendEcoPoints(amount: int)
      modifies this
      ensures ecoPoints == Spent(old(ecoPoints), amount)
      ensures inventory == old(inventory)
    {
      ecoPoints := Spent(ecoPoints, amount);
    }

    /** The engine's addItemToInventory: the item goes to the end. */
    method AddItemToInventory(item: Item)
      modifies this
      ensures inventory == old(inventory) + [item]
      ensures ecoPoints == old(ecoPoints)
    {
      inventory := inventory + [item];
    }

    /** The engine's removeItemFromInventory, for the item held in the given slot. */
    method RemoveItemFromInventory(slot: nat)
      requires slot < |inventory|
      modifies this
      ensures inventory == old(inventory[..slot]) + old(inventory[slot + 1..])
      ensures ecoPoints == old(ecoPoints)
    {
      inventory := inventory[..slot] + inventory[slot + 1..];
    }

    /** getCorpse: the player is never eaten, so its corpse has no age limit and no healing. */
    function Corpse(): (c: Item)
      reads this
      ensures c.Corpse? && c.name == "Dead " + name + " corpse"
      ensures c.age == 0 && c.maxAge == 0 && c.healing == 0
    {
      NewCorpse("Dead " + name, 0, 0)
    }

    /**
     * BuyAction.execute: an unaffordable price raises a RuntimeException and
     * changes nothing; otherwise the price is paid and the item is added.
     */
    method Buy(item: Item, price: int) returns (r: Result<string>)
      modifies this
      ensures r.Err? <==> old(ecoPoints) < price
      ensures r.Err? ==> r.error == Runtime && ecoPoints == old(ecoPoints) && inventory == old(inventory)
      ensures r.Ok? ==> ecoPoints == old(ecoPoints) - price && ecoPoints >= 0 && inventory == old(inventory) + [item]
    {
      if !CanAfford(price) {
        r := Err(Runtime);
      } else {
        SpendEcoPoints(price);
        AddItemToInventory(item);
        r := Ok(name + " bought " + Name(item) + " with " + Text.IntToString(price) + " eco points.");
      }
    }
  }

  // ----- VendingMachine -----

  datatype Product =
    | FruitProduct | VegetarianMealKitProduct | CarnivoreMealKitProduct
    | StegosaurEggProduct | BrachiosaurEggProduct | AllosaurEggProduct | PterodactylEggProduct
    | LaserGunProduct | WaterBottleProduct

  /** The keys of productsOnSale. */
  function ProductName(p: Product): string
  {
    match p
    case FruitProduct => "Fruit"
    case VegetarianMealKitProduct => "VegetarianMealKit"
    case CarnivoreMealKitProduct => "CarnivoreMealKit"
    case StegosaurEggProduct => "StegosaurEgg"
    case BrachiosaurEggProduct => "BrachiosaurEgg"
    case AllosaurEggProduct => "AllosaurEgg"
    case PterodactylEggProduct => "PterodactylEgg"
    case LaserGunProduct => "LaserGun"
    case WaterBottleProduct => "WaterBottle"
  }

  /** The values of productsOnSale. */
  function Price(p: Product): int
  {
    match p
    case FruitProduct => 30
    case VegetarianMealKitProduct => 100
    case CarnivoreMealKitProduct => 500
    case StegosaurEggProduct => 200
    case BrachiosaurEggProduct => 500
    case AllosaurEggProduct => 1000
    case PterodactylEggProduct => 400
    case LaserGunProduct => 500
    case WaterBottleProduct => 100
  }

  /** The position of each product in AllProducts. */
  function Slot(p: Product): nat
  {
    match p
    case FruitProduct => 0
    case VegetarianMealKitProduct => 1
    case CarnivoreMealKitProduct => 2
    case StegosaurEggProduct => 3
    case BrachiosaurEggProduct => 4
    case AllosaurEggProduct => 5
    case PterodactylEggProduct => 6
    case LaserGunProduct => 7
    case WaterBottleProduct => 8
  }

  /** Every product on sale, once each. */
  function AllProducts(): (r: seq<Product>)
    ensures |r| == 9
    ensures forall p: Product :: Slot(p) < |r| && r[Slot(p)] == p
  {
    [FruitProduct, VegetarianMealKitProduct, CarnivoreMealKitProduct,
     StegosaurEggProduct, BrachiosaurEggProduct, AllosaurEggProduct, PterodactylEggProduct,
     LaserGunProduct, WaterBottleProduct]
  }

  /** The product a name of productsOnSale stands for. */
  function ProductOf(itemName: string): (r: Option<Product>)
    ensures r.Some? ==> ProductName(r.value) == itemName
    ensures r.None? ==> forall p: Product :: ProductName(p) != itemName
  {
    match itemName
    case "Fruit" => Some(FruitProduct)
    case "VegetarianMealKit" => Some(VegetarianMealKitProduct)
    case "CarnivoreMealKit" => Some(CarnivoreMealKitProduct)
    case "StegosaurEgg" => Some(StegosaurEggProduct)
    case "BrachiosaurEgg" => Some(BrachiosaurEggProduct)
    case "AllosaurEgg" => Some(AllosaurEggProduct)
    case "PterodactylEgg" => Some(PterodactylEggProduct)
    case "LaserGun" => Some(LaserGunProduct)
    case "WaterBottle" => Some(WaterBottleProduct)
    case _ => None
  }

  /**
   * nameToItem: the item a product name stands for, or None (Java's null) for
   * an unknown name. An egg holds a fresh baby, whose id and gender are given.
   */
  function NameToItem(itemName: string, babyId: int, babyFemale: bool): (r: Option<Item>)
    ensures r.None? <==> forall p: Product :: ProductName(p) != itemName
    ensures r.Some? ==> (IsConsumable(r.value) <==> itemName != "LaserGun")
  {
    match ProductOf(itemName)
    case None => None
    case Some(p) =>
      Some(match p
        case FruitProduct => Fruit(0)
        case VegetarianMealKitProduct => VegetarianMealKit
        case CarnivoreMealKitProduct => CarnivoreMealKit
        case StegosaurEggProduct => NewEgg(Stegosaur, babyId, babyFemale)
        case BrachiosaurEggProduct => NewEgg(Brachiosaur, babyId, babyFemale)
        case AllosaurEggProduct => NewEgg(Allosaur, babyId, babyFemale)
        case PterodactylEggProduct => NewEgg(Pterodactyl, babyId, babyFemale)
        case LaserGunProduct => LaserGun
        case WaterBottleProduct => WaterBottle)
  }

  /** Each product name stands for an item of the product's own kind; egg names for an egg of that species at age 0. */
  lemma NameToItemKinds(babyId: int, babyFemale: bool)
    ensures forall p: Product :: NameToItem(ProductName(p), babyId, babyFemale).Some?
    ensures NameToItem("StegosaurEgg", babyId, babyFemale) == Some(Egg(Stegosaur, babyId, babyFemale, 0))
    ensures NameToItem("PterodactylEgg", babyId, babyFemale) == Some(Egg(Pterodactyl, babyId, babyFemale, 0))
    ensures NameToItem("Fruit", babyId, babyFemale) == Some(Fruit(0))
  {
  }

  /**
   * allowableActions: the BuyActions on offer, as (product, price) pairs. A
   * non-player actor is offered nothing; the player exactly the products whose
   * price its balance covers. The product map is a HashMap, so the order of
   * the offers is left open.
   */
  function Offers(isPlayer: bool, ecoPoints: int): (r: set<(Product, int)>)
    ensures !isPlayer ==> r == {}
    ensures forall p: Product :: (p, Price(p)) in r <==> isPlayer && Price(p) <= ecoPoints
    ensures forall o :: o in r ==> o.1 == Price(o.0) && o.1 <= ecoPoints
  {
    if !isPlayer then {}
    else
      assert forall p: Product :: p in AllProducts() by {
        forall p: Product ensures p in AllProducts() {
          assert AllProducts()[Slot(p)] == p;
        }
      }
      set p | p in AllProducts() && Price(p) <= ecoPoints :: (p, Price(p))
  }

  /** A larger balance is offered everything a smaller one is. */
  lemma OffersGrow(lo: int, hi: int)
    requires lo <= hi
    ensures Offers(true, lo) <= Offers(true, hi)
  {
  }

  /** BuyAction.menuDescription: "Buy <item> with <price> eco points.". */
  function BuyMenu(item: Item, price: int): (r: string)
    ensures |r| == 22 + |Name(item)| + |Text.IntToString(price)|
    ensures r[..4] == "Buy " && r[4..4 + |Name(item)|] == Name(item) && r[4 + |Name(item)|..10 + |Name(item)|] == " with "
    ensures r[|r| - 12..] == " eco points."
    ensures Text.IsIntText(r[10 + |Name(item)|..|r| - 12]) && Text.ParseInt(r[10 + |Name(item)|..|r| - 12]) == price
  {
    Text.ConcatSlices("Buy ", Name(item), " with ", Text.IntToString(price), " eco points.");
    "Buy " + Name(item) + " with " + Text.IntToString(price) + " eco points."
  }
}
