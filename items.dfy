/** The items of the game: consumables, eggs, corpses and the laser gun, and their timers. */
module Items {
  import opened Tags
  import SpeciesTable
  import opened Wrappers

  /**
   * An item as a value. An egg carries the id and gender of the baby that was
   * created with it; turnsToHatch and hatchEarnings follow from its species.
   */
  datatype Item =
    | Fruit(age: int)
    | Egg(species: Species, babyId: int, babyFemale: bool, age: int)
    | Corpse(name: string, age: int, maxAge: int, healing: int)
    | Fish
    | WaterBottle
    | VegetarianMealKit
    | CarnivoreMealKit
    | LaserGun

  function ClassOf(it: Item): SpeciesTable.ItemClass
  {
    match it
    case Fruit(_) => SpeciesTable.FruitClass
    case Egg(_, _, _, _) => SpeciesTable.EggClass
    case Corpse(_, _, _, _) => SpeciesTable.CorpseClass
    case Fish => SpeciesTable.FishClass
    case WaterBottle => SpeciesTable.WaterBottleClass
    case VegetarianMealKit => SpeciesTable.VegetarianMealKitClass
    case CarnivoreMealKit => SpeciesTable.CarnivoreMealKitClass
    case LaserGun => SpeciesTable.LaserGunClass
  }

  /** Every item except the laser gun extends ConsumableItem. */
  predicate IsConsumable(it: Item) { !it.LaserGun? }

  /** The item's name, which is also what its toString prints. */
  function Name(it: Item): string
  {
    match it
    case Fruit(_) => "Fruit"
    case Egg(sp, _, _, _) => SpeciesTable.Of(sp).name + " Egg"
    case Corpse(n, _, _, _) => n
    case Fish => "Fish"
    case WaterBottle => "Water Bottle"
    case VegetarianMealKit => "Vegetarian Meal Kit"
    case CarnivoreMealKit => "Carnivore Meal Kit"
    case LaserGun => "Laser Gun"
  }

  /** Turns an egg of the species needs before it can hatch (the Egg.getEgg factories). */
  function TurnsToHatch(sp: Species): int
  {
    match sp
    case Stegosaur => 40
    case Brachiosaur => 20
    case Allosaur => 50
    case Pterodactyl => 50
  }

  /** Eco points the player earns when an egg of the species hatches. */
  function HatchEarnings(sp: Species): int
  {
    match sp
    case Stegosaur => 100
    case Brachiosaur => 1000
    case Allosaur => 1000
    case Pterodactyl => 1000
  }

  /** Egg.getEgg: a new egg holding the freshly created baby, at age 0. */
  function NewEgg(sp: Species, babyId: int, babyFemale: bool): (e: Item)
    ensures e.Egg? && e.age == 0 && e.species == sp && e.babyId == babyId
  {
    Egg(sp, babyId, babyFemale, 0)
  }

  /** The Corpse constructor: the name gains a " corpse" suffix and the age starts at 0. */
  function NewCorpse(name: string, maxAge: int, healing: int): (c: Item)
    ensures c.Corpse? && c.name == name + " corpse" && c.age == 0
    ensures c.maxAge == maxAge && c.healing == healing
  {
    Corpse(name + " corpse", 0, maxAge, healing)
  }

  /** What a tick does to an item lying on a location. */
  datatype TickOutcome = Kept(item: Item) | Removed | Hatched(egg: Item)

  /**
   * One call of the item's tick(Location): Fruit, Egg and Corpse add 1 to their
   * age and then decide; every other item keeps itself unchanged.
   */
  function Tick(it: Item, occupied: bool): (r: TickOutcome)
    ensures it.Fruit? ==> (r.Removed? <==> it.age + 1 == 15)
    ensures it.Corpse? ==> (r.Removed? <==> it.age + 1 == it.maxAge || it.healing <= 0)
    ensures it.Egg? ==> (r.Hatched? <==> it.age + 1 >= TurnsToHatch(it.species) && !occupied)
    ensures r.Kept? ==> r.item.Fruit? == it.Fruit? && r.item.Egg? == it.Egg? && r.item.Corpse? == it.Corpse?
    ensures r.Kept? && (it.Fruit? || it.Egg? || it.Corpse?) ==> r.item == it.(age := it.age + 1)
    ensures !(it.Fruit? || it.Egg? || it.Corpse?) ==> r == Kept(it)
    ensures r.Hatched? ==> it.Egg? && r.egg == it
  {
    match it
    case Fruit(a) => if a + 1 == 15 then Removed else Kept(Fruit(a + 1))
    case Egg(sp, id, f, a) =>
      if a + 1 >= TurnsToHatch(sp) && !occupied then Hatched(it) else Kept(Egg(sp, id, f, a + 1))
    case Corpse(n, a, m, h) => if a + 1 == m || h <= 0 then Removed else Kept(Corpse(n, a + 1, m, h))
    case _ => Kept(it)
  }

  /** n ticks of an item that is never removed nor hatched in between. */
  function TickTimes(it: Item, occupied: bool, n: nat): Option<Item>
    decreases n
  {
    if n == 0 then Some(it)
    else match TickTimes(it, occupied, n - 1)
      case None => None
      case Some(it') => (match Tick(it', occupied) case Kept(i) => Some(i) case _ => None)
  }

  /** A fresh fruit survives its first 14 ticks and is removed by its 15th. */
  lemma {:induction false} FruitRotsAtFifteen(n: nat)
    requires n <= 14
    ensures TickTimes(Fruit(0), false, n) == Some(Fruit(n))
    ensures n == 14 ==> Tick(Fruit(14), false) == Removed
  {
    if n > 0 {
      FruitRotsAtFifteen(n - 1);
    }
  }

  /** An egg on an occupied location never hatches, however long it waits. */
  lemma {:induction false} OccupiedEggNeverHatches(sp: Species, id: int, f: bool, n: nat)
    ensures TickTimes(NewEgg(sp, id, f), true, n) == Some(Egg(sp, id, f, n))
  {
    if n > 0 {
      OccupiedEggNeverHatches(sp, id, f, n - 1);
    }
  }

  /** A fresh egg on a free location stays an egg for turnsToHatch - 1 ticks. */
  lemma {:induction false} EggWaitsUntilDue(sp: Species, id: int, f: bool, n: nat)
    requires n < TurnsToHatch(sp)
    ensures TickTimes(NewEgg(sp, id, f), false, n) == Some(Egg(sp, id, f, n))
    ensures n == TurnsToHatch(sp) - 1 ==> Tick(Egg(sp, id, f, n), false).Hatched?
  {
    if n > 0 {
      EggWaitsUntilDue(sp, id, f, n - 1);
    }
  }
}
