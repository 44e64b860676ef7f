/**
 * The grounds of the game. Bush, Tree and Lake are searchable grounds that hold
 * their own item list (fruit or fish) and answer food and water queries in scout
 * mode (a read-only count) or commit mode (the food is taken away).
 */
module Grounds {
  import opened Tags
  import opened Wrappers
  import opened Items
  import SpeciesTable

  datatype Ground =
    | Dirt
    | Wall
    | Bush(items: seq<Item>)
    | Tree(age: int, display: char, items: seq<Item>)
    | Lake(sips: int, items: seq<Item>)
    | VendingMachine

  /** The capabilities each ground's constructor adds. */
  function Caps(g: Ground): set<GroundCap>
  {
    match g
    case Dirt => {Fertile}
    case Bush(_) => {Crushable, ShortPlant}
    case Tree(_, _, _) => {RechargeFlight, BlocksShortPlantGrowth}
    case _ => {}
  }

  /**
   * Ground.canActorEnter: the engine's default admits everyone; Wall and
   * VendingMachine admit no one, and a Lake admits only flying actors.
   */
  predicate CanActorEnter(g: Ground, actorCaps: set<ActorCap>)
  {
    match g
    case Wall => false
    case VendingMachine => false
    case Lake(_, _) => Fly in actorCaps
    case _ => true
  }

  /** The grounds that extend SearchableGround. */
  predicate IsSearchable(g: Ground) { g.Bush? || g.Tree? || g.Lake? }

  /** The grounds that implement WaterBody. */
  predicate IsWaterBody(g: Ground) { g.Lake? }

  function NewBush(): Ground { Bush([]) }

  function NewTree(): Ground { Tree(0, '+', []) }

  /** The Lake constructor: 25 sips and five fish. */
  function NewLake(): (g: Ground)
    ensures g.Lake? && g.sips == 25 && |g.items| == 5 && forall i :: 0 <= i < 5 ==> g.items[i] == Fish
  {
    Lake(25, [Fish, Fish, Fish, Fish, Fish])
  }

  lemma GroundCaps()
    ensures Caps(NewBush()) == {Crushable, ShortPlant}
    ensures Caps(NewTree()) == {RechargeFlight, BlocksShortPlantGrowth}
    ensures Caps(Dirt) == {Fertile}
    ensures forall c :: !CanActorEnter(Wall, c) && !CanActorEnter(VendingMachine, c)
    ensures forall s, it, c :: CanActorEnter(Lake(s, it), c) <==> Fly in c
  {
  }

  // ----- SearchableGround.removeItems -----

  predicate IsInstance(cls: SpeciesTable.ItemClass, it: Item) { ClassOf(it) == cls }

  /** The items of the class, in order. */
  function Matching(s: seq<Item>, cls: SpeciesTable.ItemClass): (r: seq<Item>)
    ensures |r| <= |s|
  {
    if s == [] then []
    else if IsInstance(cls, s[0]) then [s[0]] + Matching(s[1..], cls)
    else Matching(s[1..], cls)
  }

  /** The items not of the class, in order. */
  function Others(s: seq<Item>, cls: SpeciesTable.ItemClass): seq<Item>
  {
    if s == [] then []
    else if IsInstance(cls, s[0]) then Others(s[1..], cls)
    else [s[0]] + Others(s[1..], cls)
  }

  /** Number of items of the class (the stream filter count of scout mode). */
  function Count(s: seq<Item>, cls: SpeciesTable.ItemClass): nat
  {
    |Matching(s, cls)|
  }

  /**
   * The specification of removeItems: drop the first `quantity` items of the
   * class, keep everything else in order, and report how many were dropped.
   */
  function RemoveFirst(s: seq<Item>, cls: SpeciesTable.ItemClass, quantity: int): (seq<Item>, int)
  {
    if quantity <= 0 || s == [] then (s, 0)
    else if IsInstance(cls, s[0]) then
      var r := RemoveFirst(s[1..], cls, quantity - 1); (r.0, r.1 + 1)
    else
      var r := RemoveFirst(s[1..], cls, quantity); ([s[0]] + r.0, r.1)
  }

  /** What removeItems has established after dropping `removed` items and keeping `kept` from s[..k]. */
  predicate RemovalSoFar(s: seq<Item>, cls: SpeciesTable.ItemClass, quantity: int, kept: seq<Item>, k: int, removed: int)
    requires 0 <= k <= |s|
  {
    var r := RemoveFirst(s[k..], cls, quantity - removed);
    RemoveFirst(s, cls, quantity) == (kept + r.0, removed + r.1)
  }

  /** The loop step of removeItems in both of its branches. */
  lemma RemovalStep(s: seq<Item>, cls: SpeciesTable.ItemClass, quantity: int, kept: seq<Item>, k: int, removed: int)
    requires 0 <= k < |s| && removed < quantity
    requires RemovalSoFar(s, cls, quantity, kept, k, removed)
    ensures IsInstance(cls, s[k]) ==> RemovalSoFar(s, cls, quantity, kept, k + 1, removed + 1)
    ensures !IsInstance(cls, s[k]) ==> RemovalSoFar(s, cls, quantity, kept + [s[k]], k + 1, removed)
  {
    var t := s[k..];
    assert t[0] == s[k] && t[1..] == s[k + 1..];
    if !IsInstance(cls, s[k]) {
      var r := RemoveFirst(t[1..], cls, quantity - removed);
      assert kept + ([s[k]] + r.0) == (kept + [s[k]]) + r.0;
    }
  }

  /** When removeItems' loop stops, the rest of the list is kept as it is. */
  lemma RemovalDone(s: seq<Item>, cls: SpeciesTable.ItemClass, quantity: int, kept: seq<Item>, k: int, removed: int)
    requires 0 <= k <= |s| && (removed >= quantity || k == |s|)
    requires RemovalSoFar(s, cls, quantity, kept, k, removed)
    ensures RemoveFirst(s, cls, quantity) == (kept + s[k..], removed)
  {
    if k == |s| {
      assert s[k..] == [];
    }
  }

  lemma SplitAt(kept: seq<Item>, t: seq<Item>)
    requires t != []
    ensures (kept + t)[..|kept|] == kept && (kept + t)[|kept|] == t[0] && (kept + t)[|kept| + 1..] == t[1..]
    ensures kept + t == (kept + [t[0]]) + t[1..]
  {
  }

  /** removeItems: a while loop with an index and a removed counter, deleting in place. */
  method RemoveItems(s: seq<Item>, cls: SpeciesTable.ItemClass, quantity: int) returns (list: seq<Item>, removed: int)
    ensures (list, removed) == RemoveFirst(s, cls, quantity)
  {
    list := s;
    removed := 0;
    var index := 0;
    ghost var k := 0;
    ghost var kept: seq<Item> := [];
    assert s[k..] == s && kept + s[k..] == s;
    assert kept + RemoveFirst(s, cls, quantity).0 == RemoveFirst(s, cls, quantity).0;
    while removed < quantity && index < |list|
      invariant 0 <= k <= |s| && |kept| == index
      invariant list == kept + s[k..]
      invariant 0 <= removed && (quantity <= 0 ==> removed == 0) && (quantity > 0 ==> removed <= quantity)
      invariant RemovalSoFar(s, cls, quantity, kept, k, removed)
      decreases |list| - index
    {
      SplitAt(kept, s[k..]);
      assert s[k..][1..] == s[k + 1..];
      RemovalStep(s, cls, quantity, kept, k, removed);
      if IsInstance(cls, list[index]) {
        list := list[..index] + list[index + 1..];
        removed := removed + 1;
      } else {
        kept := kept + [s[k]];
        index := index + 1;
      }
      k := k + 1;
    }
    RemovalDone(s, cls, quantity, kept, k, removed);
  }

  /** removeItems returns min(quantity, matching count), and nothing when quantity <= 0. */
  lemma {:induction false} RemoveFirstCount(s: seq<Item>, cls: SpeciesTable.ItemClass, quantity: int)
    ensures RemoveFirst(s, cls, quantity).1 ==
      (if quantity <= 0 then 0 else if quantity < Count(s, cls) then quantity else Count(s, cls))
    ensures |RemoveFirst(s, cls, quantity).0| == |s| - RemoveFirst(s, cls, quantity).1
  {
    if quantity <= 0 || s == [] {
    } else {
      RemoveFirstCount(s[1..], cls, if IsInstance(cls, s[0]) then quantity - 1 else quantity);
    }
  }

  /**
   * The removed items are the earliest items of the class; the items of other
   * classes stay, in their original order.
   */
  lemma {:induction false} RemoveFirstKeepsOrder(s: seq<Item>, cls: SpeciesTable.ItemClass, quantity: int)
    ensures 0 <= RemoveFirst(s, cls, quantity).1 <= |Matching(s, cls)|
    ensures Matching(RemoveFirst(s, cls, quantity).0, cls) == Matching(s, cls)[RemoveFirst(s, cls, quantity).1..]
    ensures Others(RemoveFirst(s, cls, quantity).0, cls) == Others(s, cls)
  {
    if quantity <= 0 || s == [] {
    } else {
      var q := if IsInstance(cls, s[0]) then quantity - 1 else quantity;
      RemoveFirstKeepsOrder(s[1..], cls, q);
      var r := RemoveFirst(s[1..], cls, q);
      if !IsInstance(cls, s[0]) {
        assert ([s[0]] + r.0)[0] == s[0] && ([s[0]] + r.0)[1..] == r.0;
      }
    }
  }

  // ----- food and water points -----

  /**
   * Math.ceil((double) n / k) cast back to int, for a positive divisor. Dafny's
   * division is Euclidean, so the negative case is written out.
   */
  function CeilDiv(n: int, k: int): (r: int)
    requires k > 0
    ensures (r - 1) * k < n <= r * k
  {
    if n >= 0 then (n + k - 1) / k else -((-n) / k)
  }

  /** What a searchable ground reads from the actor it feeds. */
  datatype Target = Target(caps: set<ActorCap>, hp: int, maxHp: int)

  /** The answer of getFoodPoints or getWaterPoints (None is Java's null) and the ground afterwards. */
  datatype Points = Points(value: Option<int>, ground: Ground)

  /** Bush and Tree: per-fruit healing and the capability the eater needs. */
  function FruitPoints(items: seq<Item>, t: Target, scout: bool, perFruit: int): (r: (Option<int>, seq<Item>))
    requires perFruit > 0
  {
    var amount := if scout then Count(items, SpeciesTable.FruitClass)
                  else RemoveFirst(items, SpeciesTable.FruitClass, CeilDiv(t.maxHp - t.hp, perFruit)).1;
    var rest := if scout then items else RemoveFirst(items, SpeciesTable.FruitClass, CeilDiv(t.maxHp - t.hp, perFruit)).0;
    (if amount > 0 then Some(amount * perFruit) else None, rest)
  }

  /**
   * getFoodPoints(target, scoutOnly). `fishDraw` is the lake's rand.nextInt(2)
   * (true for 1): in commit mode a flyer takes at most that many fish.
   */
  function FoodPoints(g: Ground, t: Target, scout: bool, fishDraw: bool): (r: Points)
    ensures scout ==> r.ground == g
    ensures !IsSearchable(g) ==> r == Points(None, g)
    ensures g.Lake? ==> r.value.Some? && r.ground.Lake? && r.ground.sips == g.sips
  {
    match g
    case Bush(items) =>
      if Short in t.caps then var p := FruitPoints(items, t, scout, 10); Points(p.0, Bush(p.1))
      else Points(None, g)
    case Tree(age, display, items) =>
      if Tall in t.caps then var p := FruitPoints(items, t, scout, 5); Points(p.0, Tree(age, display, p.1))
      else Points(None, g)
    case Lake(sips, items) =>
      if Fly in t.caps then
        var amount := if scout then Count(items, SpeciesTable.FishClass)
                      else RemoveFirst(items, SpeciesTable.FishClass, if fishDraw then 1 else 0).1;
        var rest := if scout then items else RemoveFirst(items, SpeciesTable.FishClass, if fishDraw then 1 else 0).0;
        Points(Some(if amount > 0 then amount * 5 else 0), Lake(sips, rest))
      else Points(Some(0), g)
    case _ => Points(None, g)
  }

  /** getWaterPoints(target, scoutOnly): only a Lake answers, and commit mode uses one sip. */
  function WaterPoints(g: Ground, t: Target, scout: bool): (r: Points)
    ensures !g.Lake? ==> r == Points(None, g)
    ensures g.Lake? ==> r.value == Some(if Fly in t.caps then 30 else 0)
    ensures g.Lake? ==> r.ground == (if scout then g else g.(sips := g.sips - 1))
  {
    match g
    case Lake(sips, items) =>
      Points(Some(if Fly in t.caps then 30 else 0), if scout then g else Lake(sips - 1, items))
    case _ => Points(None, g)
  }

  /** Commit-mode getFoodPoints, removing through the removeItems loop. */
  method CommitFoodPoints(g: Ground, t: Target, fishDraw: bool) returns (r: Points)
    ensures r == FoodPoints(g, t, false, fishDraw)
  {
    match g
    case Bush(items) =>
      if Short in t.caps {
        var rest, amount := RemoveItems(items, SpeciesTable.FruitClass, CeilDiv(t.maxHp - t.hp, 10));
        r := Points(if amount > 0 then Some(amount * 10) else None, Bush(rest));
      } else {
        r := Points(None, g);
      }
    case Tree(age, display, items) =>
      if Tall in t.caps {
        var rest, amount := RemoveItems(items, SpeciesTable.FruitClass, CeilDiv(t.maxHp - t.hp, 5));
        r := Points(if amount > 0 then Some(amount * 5) else None, Tree(age, display, rest));
      } else {
        r := Points(None, g);
      }
    case Lake(sips, items) =>
      if Fly in t.caps {
        var rest, amount := RemoveItems(items, SpeciesTable.FishClass, if fishDraw then 1 else 0);
        r := Points(Some(if amount > 0 then amount * 5 else 0), Lake(sips, rest));
      } else {
        r := Points(Some(0), g);
      }
    case _ =>
      r := Points(None, g);
  }

  /** Bush and Tree in scout mode: per-fruit points times the fruit count, or null with no fruit. */
  lemma FruitScout(items: seq<Item>, t: Target, perFruit: int)
    requires perFruit > 0
    ensures var n := Count(items, SpeciesTable.FruitClass);
      FruitPoints(items, t, true, perFruit) == (if n > 0 then Some(n * perFruit) else None, items)
  {
  }

  /**
   * Bush and Tree in commit mode: min(ceil(deficit / per-fruit), fruit count) fruits
   * are removed and per-fruit points times that number reported (null when none).
   * A commit never takes more fruit than it needs to close the deficit.
   */
  lemma FruitCommit(items: seq<Item>, t: Target, perFruit: int)
    requires perFruit > 0
    ensures var n := Count(items, SpeciesTable.FruitClass);
      var q := CeilDiv(t.maxHp - t.hp, perFruit);
      var taken := if q <= 0 then 0 else if q < n then q else n;
      var c := FruitPoints(items, t, false, perFruit);
      c.0 == (if taken > 0 then Some(taken * perFruit) else None) &&
      |c.1| == |items| - taken &&
      Count(c.1, SpeciesTable.FruitClass) == n - taken &&
      Others(c.1, SpeciesTable.FruitClass) == Others(items, SpeciesTable.FruitClass) &&
      (taken > 0 ==> (taken - 1) * perFruit < t.maxHp - t.hp)
  {
    var fruit := SpeciesTable.FruitClass;
    var q := CeilDiv(t.maxHp - t.hp, perFruit);
    var n := Count(items, fruit);
    var r := RemoveFirst(items, fruit, q);
    RemoveFirstCount(items, fruit, q);
    RemoveFirstKeepsOrder(items, fruit, q);
    var taken := if q <= 0 then 0 else if q < n then q else n;
    assert r.1 == taken;
    assert FruitPoints(items, t, false, perFruit) == (if taken > 0 then Some(taken * perFruit) else None, r.0);
    assert Count(r.0, fruit) == n - taken by {
      assert Matching(r.0, fruit) == Matching(items, fruit)[taken..];
    }
    if taken > 0 {
      FewerWithinDeficit(taken, q, perFruit, t.maxHp - t.hp);
    }
  }

  /** Taking no more than the rounded-up quotient never overshoots by a whole portion. */
  lemma FewerWithinDeficit(taken: int, q: int, k: int, deficit: int)
    requires k > 0 && 0 < taken <= q && (q - 1) * k < deficit
    ensures (taken - 1) * k < deficit
  {
    assert (q - 1) * k == (taken - 1) * k + (q - taken) * k;
    assert (q - taken) * k >= 0;
  }

  /** A Lake answers 0, not null, to every actor that cannot fly, in both modes. */
  lemma LakeFoodNeverNull(g: Ground, t: Target, scout: bool, fishDraw: bool)
    requires g.Lake? && Fly !in t.caps
    ensures FoodPoints(g, t, scout, fishDraw) == Points(Some(0), g)
  {
  }

  /** A flyer at a Lake: scout mode counts five points per fish; commit mode takes at most one fish. */
  lemma {:induction false} LakeFishing(g: Ground, t: Target, fishDraw: bool)
    requires g.Lake? && Fly in t.caps
    ensures FoodPoints(g, t, true, fishDraw).value == Some(5 * Count(g.items, SpeciesTable.FishClass))
    ensures var c := FoodPoints(g, t, false, fishDraw);
      var n := Count(g.items, SpeciesTable.FishClass);
      var taken := if fishDraw && n > 0 then 1 else 0;
      c.value == Some(5 * taken) && Count(c.ground.items, SpeciesTable.FishClass) == n - taken &&
      |c.ground.items| == |g.items| - taken
  {
    var q := if fishDraw then 1 else 0;
    RemoveFirstCount(g.items, SpeciesTable.FishClass, q);
    RemoveFirstKeepsOrder(g.items, SpeciesTable.FishClass, q);
  }

  // ----- the Lake's sips counter (WaterBody) -----

  predicate HasSips(g: Ground)
    requires g.Lake?
  {
    g.sips > 0
  }

  /** addSips: a negative amount is rejected and nothing changes. */
  function AddSips(g: Ground, amount: int): (r: Result<Ground>)
    requires g.Lake?
    ensures r.Err? <==> amount < 0
    ensures r.Err? ==> r.error == IllegalArgument
    ensures r.Ok? ==> r.value == g.(sips := g.sips + amount)
  {
    if amount < 0 then Err(IllegalArgument) else Ok(Lake(g.sips + amount, g.items))
  }

  /** decrementSips: one sip less, with no lower bound. */
  function DecrementSips(g: Ground): (r: Ground)
    requires g.Lake?
    ensures r.Lake? && r.sips == g.sips - 1 && r.items == g.items
  {
    Lake(g.sips - 1, g.items)
  }

  /** A lake that is drunk from and then rained on regains its sip. */
  lemma SipsRoundTrip(g: Ground, amount: int)
    requires g.Lake? && amount >= 0
    ensures AddSips(DecrementSips(g), amount + 1) == Ok(g.(sips := g.sips + amount))
    ensures HasSips(g) <==> g.sips >= 1
  {
  }

  // ----- Tree ageing -----

  /** The age and display part of Tree.tick: 't' from age 10 and 'T' from age 20. */
  function TreeGrow(g: Ground): (r: Ground)
    requires g.Tree?
    ensures r.Tree? && r.age == g.age + 1 && r.items == g.items
    ensures r.display == (if g.age + 1 == 10 then 't' else if g.age + 1 == 20 then 'T' else g.display)
  {
    var a := g.age + 1;
    Tree(a, if a == 10 then 't' else if a == 20 then 'T' else g.display, g.items)
  }

  /** n growth ticks of a tree. */
  function GrowTimes(g: Ground, n: nat): (r: Ground)
    requires g.Tree?
    ensures r.Tree?
    decreases n
  {
    if n == 0 then g else TreeGrow(GrowTimes(g, n - 1))
  }

  /** A new tree shows '+' for its first 9 ticks, 't' from tick 10 and 'T' from tick 20 on. */
  lemma {:induction false} TreeDisplay(n: nat)
    ensures GrowTimes(NewTree(), n).age == n
    ensures GrowTimes(NewTree(), n).display == (if n < 10 then '+' else if n < 20 then 't' else 'T')
  {
    if n > 0 {
      TreeDisplay(n - 1);
    }
  }
}
