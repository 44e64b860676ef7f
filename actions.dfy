/**
 * The actions that change the world: MateAction, LayEggAction, DrinkAction,
 * EatItemOnGroundAction, EatFromSearchableGroundAction, FeedAction,
 * DieAction, and the tick of an item lying on a location (Fruit and Corpse
 * rotting, Egg hatching). The world's locations are one table, held by a
 * Board whose methods update it in place.
 */
module Actions {
  import opened Tags
  import opened Wrappers
  import opened Items
  import opened Grounds
  import opened Dinosaurs
  import opened Locations
  import Consumables
  import Behaviours
  import Players
  import Collections

  /** Location i holds a dinosaur. */
  predicate HasDino(locs: seq<Loc>, i: nat)
  {
    i < |locs| && locs[i].actor.Some? && locs[i].actor.value.DinoActor?
  }

  function DinoAt(locs: seq<Loc>, i: nat): Dino
    requires HasDino(locs, i)
  {
    locs[i].actor.value.dino
  }

  // ----- single-location updates -----

  /** The dinosaur standing at i becomes d (the object updated in place). */
  function WithDino(locs: seq<Loc>, i: nat, d: Dino): (r: seq<Loc>)
    requires i < |locs|
    ensures |r| == |locs| && HasDino(r, i) && DinoAt(r, i) == d
    ensures r[i].(actor := locs[i].actor) == locs[i]
    ensures forall j :: 0 <= j < |locs| && j != i ==> r[j] == locs[j]
    ensures ValidLocs(locs) ==> ValidLocs(r)
  {
    locs[i := locs[i].(actor := Some(DinoActor(d)))]
  }

  /** Location.addItem: the item goes to the end of the location's list. */
  function WithItem(locs: seq<Loc>, i: nat, it: Item): (r: seq<Loc>)
    requires i < |locs|
    ensures |r| == |locs| && r[i].items == locs[i].items + [it]
    ensures r[i].(items := locs[i].items) == locs[i]
    ensures forall j :: 0 <= j < |locs| && j != i ==> r[j] == locs[j]
    ensures ValidLocs(locs) ==> ValidLocs(r)
  {
    locs[i := locs[i].(items := locs[i].items + [it])]
  }

  /** Location.removeItem of the item held in slot k. */
  function WithoutItem(locs: seq<Loc>, i: nat, k: nat): (r: seq<Loc>)
    requires i < |locs| && k < |locs[i].items|
    ensures |r| == |locs| && |r[i].items| == |locs[i].items| - 1
    ensures r[i].items == locs[i].items[..k] + locs[i].items[k + 1..]
    ensures r[i].(items := locs[i].items) == locs[i]
    ensures forall j :: 0 <= j < |locs| && j != i ==> r[j] == locs[j]
    ensures ValidLocs(locs) ==> ValidLocs(r)
  {
    locs[i := locs[i].(items := locs[i].items[..k] + locs[i].items[k + 1..])]
  }

  /** The ground of location i becomes g (a searchable ground changed in place). */
  function WithGround(locs: seq<Loc>, i: nat, g: Ground): (r: seq<Loc>)
    requires i < |locs|
    ensures |r| == |locs| && r[i].ground == g
    ensures r[i].(ground := locs[i].ground) == locs[i]
    ensures forall j :: 0 <= j < |locs| && j != i ==> r[j] == locs[j]
    ensures ValidLocs(locs) ==> ValidLocs(r)
  {
    locs[i := locs[i].(ground := g)]
  }

  /** GameMap.removeActor. */
  function WithoutActor(locs: seq<Loc>, i: nat): (r: seq<Loc>)
    requires i < |locs|
    ensures |r| == |locs| && r[i].actor.None?
    ensures r[i].(actor := locs[i].actor) == locs[i]
    ensures forall j :: 0 <= j < |locs| && j != i ==> r[j] == locs[j]
    ensures ValidLocs(locs) ==> ValidLocs(r)
  {
    locs[i := locs[i].(actor := None)]
  }

  /**
   * DieAction(dropCorpse).execute on the dinosaur at i: its corpse is added
   * to its location exactly when dropCorpse holds, and it leaves the map.
   */
  function Died(locs: seq<Loc>, i: nat, dropCorpse: bool): (r: seq<Loc>)
    requires HasDino(locs, i)
    ensures |r| == |locs| && r[i].actor.None?
    ensures r[i].items == locs[i].items + (if dropCorpse then [CorpseOf(DinoAt(locs, i))] else [])
    ensures r[i].ground == locs[i].ground && r[i].exits == locs[i].exits
    ensures r[i].x == locs[i].x && r[i].y == locs[i].y
    ensures forall j :: 0 <= j < |locs| && j != i ==> r[j] == locs[j]
    ensures ValidLocs(locs) ==> ValidLocs(r)
  {
    var l := if dropCorpse then WithItem(locs, i, CorpseOf(DinoAt(locs, i))) else locs;
    WithoutActor(l, i)
  }

  // ----- EatItemOnGroundAction -----

  /** Where the eating loop stops: at an item whose cast to ConsumableItem fails, or at the first with a tuple. */
  function Stops(sp: Species): Item -> bool
  {
    (it: Item) => !IsConsumable(it) || Consumables.Resolve(it, sp).points.Some?
  }

  /** Item it is eaten by a dinosaur of species sp: a consumable whose tuple is not null. */
  predicate Edible(it: Item, sp: Species)
  {
    IsConsumable(it) && Consumables.Resolve(it, sp).points.Some?
  }

  /** Every item before slot k is a consumable the species cannot eat. */
  predicate PassedOver(items: seq<Item>, sp: Species, k: nat)
    requires k <= |items|
  {
    forall j :: 0 <= j < k ==> IsConsumable(items[j]) && !Edible(items[j], sp)
  }

  /**
   * The slot where the loop of EatItemOnGroundAction stops: the first item
   * that is either edible or not a consumable at all (the failing cast);
   * None when it passes over every item.
   */
  function EatenSlot(items: seq<Item>, sp: Species): (r: Option<nat>)
    ensures r.None? <==> PassedOver(items, sp, |items|)
    ensures r.Some? ==> (r.value < |items| && PassedOver(items, sp, r.value)
      && (Edible(items[r.value], sp) || !IsConsumable(items[r.value])))
  {
    var r := Collections.FirstWhere(items, Stops(sp));
    assert r.Some? ==> Stops(sp)(items[r.value]);
    assert r.Some? ==> !PassedOver(items, sp, |items|) by {
      if r.Some? {
        assert !(IsConsumable(items[r.value]) && !Edible(items[r.value], sp));
      }
    }
    r
  }

  /** The cast to ConsumableItem fails exactly when a non-consumable comes before any edible item. */
  lemma EatFailsOnNonConsumable(items: seq<Item>, sp: Species, k: nat)
    requires k < |items| && PassedOver(items, sp, k) && !IsConsumable(items[k])
    ensures EatenSlot(items, sp) == Some(k)
  {
    assert !PassedOver(items, sp, |items|) by {
      assert !IsConsumable(items[k]);
    }
  }

  /** An edible item preceded only by items passed over is the one eaten. */
  lemma EatsFirstEdible(items: seq<Item>, sp: Species, k: nat)
    requires k < |items| && PassedOver(items, sp, k) && Edible(items[k], sp)
    ensures EatenSlot(items, sp) == Some(k)
  {
    var r := EatenSlot(items, sp);
    assert !PassedOver(items, sp, |items|) by {
      assert !(IsConsumable(items[k]) && !Edible(items[k], sp));
    }
  }

  /** The items of the eater's location once the item in slot k is eaten: a TINY eater leaves it, as visited. */
  function ItemsAfterEating(items: seq<Item>, k: nat, d: Dino): (r: seq<Item>)
    requires k < |items| && Edible(items[k], d.species)
    ensures Tiny in d.caps ==> (|r| == |items| && r[k] == Consumables.Resolve(items[k], d.species).after
      && forall j :: 0 <= j < |items| && j != k ==> r[j] == items[j])
    ensures Tiny !in d.caps ==> |r| == |items| - 1 && r[..k] == items[..k] && r[k..] == items[k + 1..]
  {
    if Tiny in d.caps then items[k := Consumables.Resolve(items[k], d.species).after]
    else items[..k] + items[k + 1..]
  }

  /**
   * What EatItemOnGroundAction.execute does to the world, and the (food,
   * water) points it reports: at the slot EatenSlot names, a non-consumable
   * fails the cast and an edible item is eaten (the pre-eating hook, then
   * heal and quenchThirst by its tuple); with no such slot nothing happens.
   * Only the eater's location changes.
   */
  function EatItemEffect(locs: seq<Loc>, here: nat): (r: (Result<(int, int)>, seq<Loc>))
    requires HasDino(locs, here)
    ensures var d, items := DinoAt(locs, here), locs[here].items;
      match EatenSlot(items, d.species)
      case None => r == (Ok((0, 0)), locs)
      case Some(k) =>
        if !IsConsumable(items[k]) then r == (Err(ClassCast), locs)
        else
          var p := Consumables.Resolve(items[k], d.species).points.value;
          var d' := QuenchThirst(Heal(PreEating(d), p.food), p.water);
          r.0 == Ok((p.food, p.water))
          && r.1 == locs[here := locs[here].(actor := Some(DinoActor(d')), items := ItemsAfterEating(items, k, d))]
    ensures |r.1| == |locs| && forall j :: 0 <= j < |locs| && j != here ==> r.1[j] == locs[j]
    ensures r.1[here].ground == locs[here].ground && r.1[here].exits == locs[here].exits
    ensures ValidLocs(locs) ==> ValidLocs(r.1)
  {
    var d, items := DinoAt(locs, here), locs[here].items;
    match EatenSlot(items, d.species)
    case None => (Ok((0, 0)), locs)
    case Some(k) =>
      if !IsConsumable(items[k]) then (Err(ClassCast), locs)
      else
        var p := Consumables.Resolve(items[k], d.species).points.value;
        var d' := QuenchThirst(Heal(PreEating(d), p.food), p.water);
        (Ok((p.food, p.water)), locs[here := locs[here].(actor := Some(DinoActor(d')), items := ItemsAfterEating(items, k, d))])
  }

  // ----- EatFromSearchableGroundAction -----

  /** The words of EatFromSearchableGroundAction.menuDescription, by which of the two answers were null. */
  function EatFromGroundText(actor: string, food: Option<int>, water: Option<int>, groundName: string): string
  {
    if food.Some? && water.Some? then
      actor + " gained " + Text.IntToString(food.value) + " food points & " + Text.IntToString(water.value)
        + " water points by feeding on " + groundName + "."
    else if food.Some? then
      actor + " gained " + Text.IntToString(food.value) + " food points by feeding on " + groundName + "."
    else if water.Some? then
      actor + " gained " + Text.IntToString(water.value) + " water points by feeding on " + groundName + "."
    else
      actor + " cannot eat from " + groundName + "."
  }

  /** getClass().getSimpleName() of a ground. */
  function GroundName(g: Ground): string
  {
    match g
    case Dirt => "Dirt"
    case Wall => "Wall"
    case Bush(_) => "Bush"
    case Tree(_, _, _) => "Tree"
    case Lake(_, _) => "Lake"
    case VendingMachine => "VendingMachine"
  }

  /**
   * A searchable ground either answers both queries (a Lake, whose food answer
   * is never null) or at most the food query (a Bush or a Tree): the
   * water-only message can never be shown.
   */
  lemma EatFromGroundAnswers(g: Ground, t: Target, fishDraw: bool)
    requires IsSearchable(g)
    ensures var f := FoodPoints(g, t, false, fishDraw);
      var w := WaterPoints(f.ground, t, false);
      (g.Lake? ==> f.value.Some? && w.value.Some? && w.ground.sips == g.sips - 1)
      && (!g.Lake? ==> w.value.None? && w.ground == f.ground)
      && (w.value.Some? ==> f.value.Some?)
  {
  }

  // ----- the world's location table -----

  class Board {
    var locs: seq<Loc>

    constructor (locs: seq<Loc>)
      ensures this.locs == locs
    {
      this.locs := locs;
    }

    method SetGround(i: nat, g: Ground)
      requires i < |locs|
      modifies this
      ensures locs == WithGround(old(locs), i, g)
    {
      locs := WithGround(locs, i, g);
    }

    method SetDino(i: nat, d: Dino)
      requires i < |locs|
      modifies this
      ensures locs == WithDino(old(locs), i, d)
    {
      locs := WithDino(locs, i, d);
    }

    /**
     * MateAction(d1, d2).execute: a female d1 becomes pregnant, otherwise d2
     * does; exactly one of the two changes, and only in that capability.
     */
    method Mate(d1: nat, d2: nat) returns (msg: string)
      requires HasDino(locs, d1) && HasDino(locs, d2) && d1 != d2
      modifies this
      ensures |locs| == |old(locs)| && HasDino(locs, d1) && HasDino(locs, d2)
      ensures var a, b := DinoAt(old(locs), d1), DinoAt(old(locs), d2);
        if Female in a.caps then DinoAt(locs, d1) == a.(caps := a.caps + {Pregnant}) && DinoAt(locs, d2) == b
        else DinoAt(locs, d1) == a && DinoAt(locs, d2) == b.(caps := b.caps + {Pregnant})
      ensures forall j :: 0 <= j < |locs| && j != d1 && j != d2 ==> locs[j] == old(locs)[j]
      ensures locs[d1].(actor := None) == old(locs)[d1].(actor := None)
      ensures locs[d2].(actor := None) == old(locs)[d2].(actor := None)
      ensures msg == "### " + Describe(DinoAt(old(locs), d1)) + " and " + Describe(DinoAt(old(locs), d2)) + " has mated ###"
    {
      var a, b := DinoAt(locs, d1), DinoAt(locs, d2);
      if Female in a.caps {
        locs := WithDino(locs, d1, a.(caps := a.caps + {Pregnant}));
      } else {
        locs := WithDino(locs, d2, b.(caps := b.caps + {Pregnant}));
      }
      msg := "### " + Describe(a) + " and " + Describe(b) + " has mated ###";
    }

    /** LayEggAction(egg).execute: the egg is added to the parent's location and the parent is no longer pregnant. */
    method LayEgg(here: nat, egg: Item)
      requires HasDino(locs, here)
      modifies this
      ensures var d := DinoAt(old(locs), here);
        locs == WithDino(WithItem(old(locs), here, egg), here, d.(caps := d.caps - {Pregnant}))
    {
      var d := DinoAt(locs, here);
      locs := WithItem(locs, here, egg);
      locs := WithDino(locs, here, d.(caps := d.caps - {Pregnant}));
    }

    /**
     * DrinkAction.execute for the dinosaur at here, with the water source its
     * constructor found: one sip less at the source, and 80 water (TALL) or 30
     * (otherwise) for the drinker. Without a source the call on null fails.
     */
    method Drink(here: nat, source: Option<nat>) returns (r: Result<int>)
      requires HasDino(locs, here)
      requires source.Some? ==> source.value < |locs| && locs[source.value].ground.Lake?
      modifies this
      ensures source.None? ==> r == Err(NullReference) && locs == old(locs)
      ensures source.Some? ==> var d := DinoAt(old(locs), here);
        var points := if Tall in d.caps then 80 else 30;
        r == Ok(points)
        && locs == WithDino(WithGround(old(locs), source.value, DecrementSips(old(locs)[source.value].ground)),
                            here, QuenchThirst(d, points))
    {
      if source.None? {
        return Err(NullReference);
      }
      var s := source.value;
      var d := DinoAt(locs, here);
      locs := WithGround(locs, s, DecrementSips(locs[s].ground));
      var points := if Tall in d.caps then 80 else 30;
      locs := WithDino(locs, here, QuenchThirst(d, points));
      r := Ok(points);
    }

    /** EatItemOnGroundAction.execute: the loop over the location's items, stopping at the first with a tuple. */
    method EatItemOnGround(here: nat) returns (r: Result<(int, int)>)
      requires HasDino(locs, here)
      modifies this
      ensures (r, locs) == EatItemEffect(old(locs), here)
    {
      var d, items := DinoAt(locs, here), locs[here].items;
      var i := 0;
      while i < |items|
        invariant 0 <= i <= |items| && locs == old(locs)
        invariant PassedOver(items, d.species, i)
      {
        if !IsConsumable(items[i]) {
          EatFailsOnNonConsumable(items, d.species, i);
          return Err(ClassCast);
        }
        var v := Consumables.Resolve(items[i], d.species);
        if v.points.Some? {
          EatsFirstEdible(items, d.species, i);
          var p := v.points.value;
          var d' := QuenchThirst(Heal(PreEating(d), p.food), p.water);
          locs := locs[here := locs[here].(actor := Some(DinoActor(d')), items := ItemsAfterEating(items, i, d))];
          return Ok((p.food, p.water));
        }
        i := i + 1;
      }
      r := Ok((0, 0));
    }

    /**
     * EatFromSearchableGroundAction.execute: the ground is cast to a
     * searchable ground (failing otherwise), asked once for food and once for
     * water in commit mode, and each non-null answer is applied.
     */
    method EatFromSearchableGround(here: nat, fishDraw: bool) returns (r: Result<(Option<int>, Option<int>)>)
      requires HasDino(locs, here)
      modifies this
      ensures var g := old(locs)[here].ground;
        !IsSearchable(g) ==> r == Err(ClassCast) && locs == old(locs)
      ensures var g, d := old(locs)[here].ground, DinoAt(old(locs), here);
        IsSearchable(g) ==>
          var f := FoodPoints(g, Behaviours.TargetOf(d), false, fishDraw);
          var w := WaterPoints(f.ground, Behaviours.TargetOf(d), false);
          var fed := if f.value.Some? then Heal(d, f.value.value) else d;
          r == Ok((f.value, w.value))
          && locs == WithGround(WithDino(old(locs), here, if w.value.Some? then QuenchThirst(fed, w.value.value) else fed),
                                here, w.ground)
    {
      var g, d := locs[here].ground, DinoAt(locs, here);
      if !IsSearchable(g) {
        return Err(ClassCast);
      }
      var t := Behaviours.TargetOf(d);
      var f := CommitFoodPoints(g, t, fishDraw);
      var w := WaterPoints(f.ground, t, false);
      locs := WithGround(locs, here, w.ground);
      if f.value.Some? {
        d := Heal(d, f.value.value);
      }
      if w.value.Some? {
        d := QuenchThirst(d, w.value.value);
      }
      locs := WithDino(locs, here, d);
      r := Ok((f.value, w.value));
    }

    /**
     * FeedAction.execute with the tuple fixed when the action was offered: the
     * player earns 10 eco points and gives up the item, and the dinosaur heals
     * and drinks by the tuple.
     */
    method Feed(player: Players.Player, offer: FeedOffer, here: nat)
      requires HasDino(locs, here) && offer.slot < |player.inventory|
      modifies this, player
      ensures player.ecoPoints == old(player.ecoPoints) + 10
      ensures player.inventory == old(player.inventory[..offer.slot]) + old(player.inventory[offer.slot + 1..])
      ensures locs == WithDino(old(locs), here, QuenchThirst(Heal(DinoAt(old(locs), here), offer.food), offer.water))
    {
      player.EarnEcoPoints(10);
      player.RemoveItemFromInventory(offer.slot);
      var d := DinoAt(locs, here);
      d := Heal(d, offer.food);
      d := QuenchThirst(d, offer.water);
      locs := WithDino(locs, here, d);
    }

    /**
     * DieAction(dropCorpse).execute on the dinosaur at i. A dinosaur carries no
     * inventory, so the loop dropping its items does nothing.
     */
    method Die(i: nat, dropCorpse: bool)
      requires HasDino(locs, i)
      modifies this
      ensures locs == Died(old(locs), i, dropCorpse)
    {
      if dropCorpse {
        locs := WithItem(locs, i, CorpseOf(DinoAt(locs, i)));
      }
      locs := WithoutActor(locs, i);
    }

    /**
     * Egg.hatch: the player earns the egg's hatching reward, the baby is
     * placed on the location, and the egg is removed.
     */
    method Hatch(player: Players.Player, here: nat, k: nat)
      requires here < |locs| && k < |locs[here].items| && locs[here].items[k].Egg?
      modifies this, player
      ensures player.ecoPoints == old(player.ecoPoints) + HatchEarnings(old(locs)[here].items[k].species)
      ensures player.inventory == old(player.inventory)
      ensures locs == WithDino(WithoutItem(old(locs), here, k), here, Hatchling(old(locs)[here].items[k]))
    {
      var egg := locs[here].items[k];
      player.EarnEcoPoints(HatchEarnings(egg.species));
      locs := WithDino(locs, here, Hatchling(egg));
      locs := WithoutItem(locs, here, k);
      assert locs == WithDino(WithoutItem(old(locs), here, k), here, Hatchling(egg));
    }

    /**
     * The tick of the item in slot k of location here: a fruit or corpse ages
     * and may rot away, an egg ages and hatches once due on an empty location,
     * any other item stays as it is.
     */
    method TickItem(player: Players.Player, here: nat, k: nat)
      requires here < |locs| && k < |locs[here].items|
      modifies this, player
      ensures var it := old(locs)[here].items[k];
        match Tick(it, old(locs)[here].actor.Some?)
        case Kept(it') => locs == old(locs)[here := old(locs)[here].(items := old(locs)[here].items[k := it'])]
                          && player.ecoPoints == old(player.ecoPoints)
        case Removed => locs == WithoutItem(old(locs), here, k) && player.ecoPoints == old(player.ecoPoints)
        case Hatched(egg) => locs == WithDino(WithoutItem(old(locs), here, k), here, Hatchling(egg))
                             && player.ecoPoints == old(player.ecoPoints) + HatchEarnings(egg.species)
      ensures player.inventory == old(player.inventory)
    {
      var it := locs[here].items[k];
      var outcome := Tick(it, locs[here].actor.Some?);
      match outcome
      case Kept(it') =>
        locs := locs[here := locs[here].(items := locs[here].items[k := it'])];
      case Removed =>
        locs := WithoutItem(locs, here, k);
      case Hatched(egg) =>
        Hatch(player, here, k);
    }
  }
}
