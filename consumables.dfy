/**
 * The consumable resolver: the double dispatch of ConsumableItem.visit over the
 * four species, one table entry per (item, species) pair.
 */
module Consumables {
  import opened Tags
  import opened Wrappers
  import opened Items
  import SpeciesTable

  /** The int[] {food, water} a visit returns. */
  datatype Points = Points(food: int, water: int)

  /** A visit's tuple (None for the null "not applicable") and the item as it is afterwards. */
  datatype Visit = Visit(points: Option<Points>, after: Item)

  /** The defaults of ConsumableItem: every visit returns null and changes nothing. */
  function Default(it: Item): (v: Visit)
    ensures v.points.None? && v.after == it
  {
    Visit(None, it)
  }

  /** item.visit(dinosaur), the dinosaur being of species sp. */
  function Resolve(it: Item, sp: Species): (v: Visit)
    requires IsConsumable(it)
  {
    var maxHp := SpeciesTable.Of(sp).maxHp;
    var maxWater := SpeciesTable.Of(sp).maxWater;
    match it
    case Fruit(_) =>
      if sp == Stegosaur || sp == Brachiosaur then Visit(Some(Points(20, 0)), it) else Default(it)
    case Egg(_, _, _, _) =>
      if sp == Allosaur || sp == Pterodactyl then Visit(Some(Points(10, 0)), it) else Default(it)
    case Corpse(n, a, m, h) =>
      if sp == Allosaur then Visit(Some(Points(h, 0)), it)
      else if sp == Pterodactyl then Visit(Some(Points(10, 0)), Corpse(n, a, m, h - 10))
      else Default(it)
    case Fish =>
      if sp == Pterodactyl then Visit(Some(Points(5, 0)), it) else Default(it)
    case WaterBottle => Visit(Some(Points(0, maxWater)), it)
    case VegetarianMealKit =>
      if sp == Stegosaur || sp == Brachiosaur then Visit(Some(Points(maxHp, 0)), it) else Default(it)
    case CarnivoreMealKit =>
      if sp == Allosaur || sp == Pterodactyl then Visit(Some(Points(maxHp, 0)), it) else Default(it)
  }

  /** Which pairs the table defines: every other pair is "not applicable". */
  predicate Applies(it: Item, sp: Species)
  {
    match it
    case Fruit(_) => sp == Stegosaur || sp == Brachiosaur
    case Egg(_, _, _, _) => sp == Allosaur || sp == Pterodactyl
    case Corpse(_, _, _, _) => sp == Allosaur || sp == Pterodactyl
    case Fish => sp == Pterodactyl
    case WaterBottle => true
    case VegetarianMealKit => sp == Stegosaur || sp == Brachiosaur
    case CarnivoreMealKit => sp == Allosaur || sp == Pterodactyl
    case LaserGun => false
  }

  /** The resolver answers exactly on the defined pairs and is null everywhere else. */
  lemma ResolveDefinedExactly(it: Item, sp: Species)
    requires IsConsumable(it)
    ensures Resolve(it, sp).points.Some? <==> Applies(it, sp)
  {
  }

  /** Only Corpse visited by a Pterodactyl changes the item, lowering its healing points by 10. */
  lemma ResolveSideEffect(it: Item, sp: Species)
    requires IsConsumable(it)
    ensures Resolve(it, sp).after != it <==> it.Corpse? && sp == Pterodactyl
    ensures it.Corpse? && sp == Pterodactyl ==>
      Resolve(it, sp).after == it.(healing := it.healing - 10) && Resolve(it, sp).points == Some(Points(10, 0))
  {
  }

  /** Each visit of a Pterodactyl to a corpse lowers its healing points by another 10. */
  lemma {:induction false} CorpseVisitedRepeatedly(c: Item, n: nat)
    requires c.Corpse?
    ensures VisitTimes(c, Pterodactyl, n) == c.(healing := c.healing - 10 * n)
  {
    if n > 0 {
      CorpseVisitedRepeatedly(c, n - 1);
    }
  }

  /** The item after n successive visits by the same species. */
  function VisitTimes(it: Item, sp: Species, n: nat): (r: Item)
    requires IsConsumable(it)
    ensures IsConsumable(r)
    decreases n
  {
    if n == 0 then it else Resolve(VisitTimes(it, sp, n - 1), sp).after
  }

  /** The table, entry by entry. */
  lemma ResolveTable(sp: Species)
    ensures Resolve(Fruit(0), sp).points ==
      (if sp in {Stegosaur, Brachiosaur} then Some(Points(20, 0)) else None)
    ensures Resolve(Fish, sp).points == (if sp == Pterodactyl then Some(Points(5, 0)) else None)
    ensures Resolve(WaterBottle, sp).points == Some(Points(0, SpeciesTable.Of(sp).maxWater))
    ensures Resolve(VegetarianMealKit, sp).points ==
      (if sp in {Stegosaur, Brachiosaur} then Some(Points(SpeciesTable.Of(sp).maxHp, 0)) else None)
    ensures Resolve(CarnivoreMealKit, sp).points ==
      (if sp in {Allosaur, Pterodactyl} then Some(Points(SpeciesTable.Of(sp).maxHp, 0)) else None)
    ensures forall sp', id, f, a :: (Resolve(Egg(sp', id, f, a), sp).points ==
      (if sp in {Allosaur, Pterodactyl} then Some(Points(10, 0)) else None))
    ensures forall n, a, m, h :: (Resolve(Corpse(n, a, m, h), sp).points ==
      (if sp == Allosaur then Some(Points(h, 0)) else if sp == Pterodactyl then Some(Points(10, 0)) else None))
  {
  }
}
