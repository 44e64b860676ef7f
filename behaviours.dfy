/**
 * The dinosaur behaviours: each one looks at the map from the dinosaur's
 * location and proposes an action, or none (Java's null) so that the next
 * behaviour of the chain is asked. They read the map and change nothing, except
 * PreyingBehaviour, whose decision is returned here as a Hunt and carried out
 * by the turn (Turns.RunBehaviour).
 */
module Behaviours {
  import opened Tags
  import opened Wrappers
  import opened Items
  import opened Grounds
  import opened Dinosaurs
  import opened Locations
  import SpeciesTable
  import Collections

  /** The actions the behaviours return. */
  datatype Action =
    | MoveTo(dest: nat, direction: string, hotKey: Option<string>)  // MoveActorAction
    | Mate(partner: nat)                 // MateAction(dinosaur, the dinosaur standing at partner)
    | Drink(source: Option<nat>)         // DrinkAction, with the water source its constructor found
    | EatItemOnGround                    // EatItemOnGroundAction(dinosaur)
    | EatFromSearchableGround            // EatFromSearchableGroundAction(dinosaur)
    | Attack(target: nat)                // AttackAction on the dinosaur standing at target
    | DoNothing                          // DoNothingAction

  /** The dinosaur d stands at location here (map.locationOf(d) == here). */
  predicate Holds(locs: seq<Loc>, here: nat, d: Dino)
  {
    here < |locs| && locs[here].actor == Some(DinoActor(d))
  }

  /** Location.canActorEnter, as assumed of the engine: nobody stands there and the ground admits the actor. */
  predicate Enterable(locs: seq<Loc>, dest: nat, caps: set<ActorCap>)
    requires dest < |locs|
  {
    locs[dest].actor.None? && CanActorEnter(locs[dest].ground, caps)
  }

  // ----- FollowBehaviour -----

  /** An exit the follower may take: its destination is enterable and strictly closer to obj than cur. */
  predicate Approaches(locs: seq<Loc>, caps: set<ActorCap>, obj: nat, cur: nat, e: Exit)
    requires obj < |locs|
  {
    e.dest < |locs| && Enterable(locs, e.dest, caps) && Dist(locs[e.dest], locs[obj]) < cur
  }

  /**
   * FollowBehaviour(obj).getAction: a move through the first exit, in exit
   * order, whose destination is enterable and strictly closer to obj than
   * here is; none when there is no such exit.
   */
  function Follow(locs: seq<Loc>, here: nat, caps: set<ActorCap>, obj: nat): (r: Option<Action>)
    requires ValidLocs(locs) && here < |locs| && obj < |locs|
    ensures r.Some? ==>
      var exits, cur := locs[here].exits, Dist(locs[here], locs[obj]);
      r.value.MoveTo? && r.value.hotKey.None? &&
      exists j :: 0 <= j < |exits| && exits[j].dest == r.value.dest && exits[j].name == r.value.direction
        && Approaches(locs, caps, obj, cur, exits[j])
        && forall i :: 0 <= i < j ==> !Approaches(locs, caps, obj, cur, exits[i])
    ensures r.Some? ==> (r.value.MoveTo? && r.value.dest < |locs| && Adjacent(locs, here, r.value.dest)
      && Enterable(locs, r.value.dest, caps) && Dist(locs[r.value.dest], locs[obj]) < Dist(locs[here], locs[obj]))
    ensures r.None? <==> forall j :: 0 <= j < |locs[here].exits| ==>
      !Approaches(locs, caps, obj, Dist(locs[here], locs[obj]), locs[here].exits[j])
    ensures Dist(locs[here], locs[obj]) == 0 ==> r.None?
  {
    var exits, cur := locs[here].exits, Dist(locs[here], locs[obj]);
    match Collections.FirstWhere(exits, (e: Exit) => Approaches(locs, caps, obj, cur, e))
    case None => None
    case Some(j) =>
      assert Approaches(locs, caps, obj, cur, exits[j]);
      Some(MoveTo(exits[j].dest, exits[j].name, None))
  }

  // ----- WanderBehaviour -----

  /** The moves "around" through every exit whose destination the actor may enter, in exit order. */
  function Candidates(locs: seq<Loc>, exits: seq<Exit>, caps: set<ActorCap>): (r: seq<Action>)
    requires ExitsInRange(locs, exits)
    ensures |r| <= |exits|
    ensures forall a :: a in r ==> (a.MoveTo? && a.direction == "around" && a.dest < |locs|
      && Enterable(locs, a.dest, caps)
      && exists j :: 0 <= j < |exits| && exits[j].dest == a.dest && a.hotKey == Some(exits[j].hotKey))
    ensures r == [] <==> forall j :: 0 <= j < |exits| ==> !Enterable(locs, exits[j].dest, caps)
    decreases |exits|
  {
    if exits == [] then []
    else
      var rest := Candidates(locs, exits[1..], caps);
      assert forall a :: a in rest ==> exists j :: 1 <= j < |exits| && exits[j].dest == a.dest && a.hotKey == Some(exits[j].hotKey) by {
        forall a | a in rest
          ensures exists j :: 1 <= j < |exits| && exits[j].dest == a.dest && a.hotKey == Some(exits[j].hotKey)
        {
          var i :| 0 <= i < |exits[1..]| && exits[1..][i].dest == a.dest && a.hotKey == Some(exits[1..][i].hotKey);
          assert exits[i + 1] == exits[1..][i];
        }
      }
      assert forall j :: 1 <= j < |exits| ==> exits[j] == exits[1..][j - 1];
      if Enterable(locs, exits[0].dest, caps) then [MoveTo(exits[0].dest, "around", Some(exits[0].hotKey))] + rest
      else rest
  }

  /**
   * WanderBehaviour.getAction: one of the candidate moves, chosen by `pick`
   * (the value of random.nextInt(number of candidates)); none when there is no
   * candidate.
   */
  function Wander(locs: seq<Loc>, here: nat, caps: set<ActorCap>, pick: nat): (r: Option<Action>)
    requires ValidLocs(locs) && here < |locs|
    requires var c := Candidates(locs, locs[here].exits, caps); c == [] || pick < |c|
    ensures r.None? <==> forall j :: 0 <= j < |locs[here].exits| ==> !Enterable(locs, locs[here].exits[j].dest, caps)
    ensures r.Some? ==> r.value in Candidates(locs, locs[here].exits, caps)
    ensures r.Some? ==> (r.value.MoveTo? && r.value.dest < |locs| && Adjacent(locs, here, r.value.dest)
      && Enterable(locs, r.value.dest, caps))
  {
    var c := Candidates(locs, locs[here].exits, caps);
    if c == [] then None
    else
      assert c[pick] in c;
      Some(c[pick])
  }

  // ----- RechargeSkillBehaviour -----

  /**
   * RechargeSkillBehaviour(skill, groundId).getAction: nothing for a dinosaur
   * that has the skill; otherwise Follow toward the first location, in search
   * order, whose ground has groundId, and nothing when there is none.
   */
  function RechargeSkill(locs: seq<Loc>, here: nat, d: Dino, skill: ActorCap, groundId: GroundCap): (r: Option<Action>)
    requires ValidLocs(locs) && here < |locs|
    ensures skill in d.caps ==> r.None?
    ensures r.Some? ==> (r.value.MoveTo? && r.value.dest < |locs| && Adjacent(locs, here, r.value.dest)
      && Enterable(locs, r.value.dest, d.caps))
    ensures groundId in Caps(locs[here].ground) ==> r.None?
    ensures (forall k :: 0 <= k < |Search(locs, here)| ==> groundId !in Caps(locs[Search(locs, here)[k]].ground)) ==> r.None?
    ensures r.Some? ==> skill !in d.caps
    ensures skill !in d.caps && (exists k :: 0 <= k < |Search(locs, here)| && groundId in Caps(locs[Search(locs, here)[k]].ground)) ==>
      exists k :: (0 <= k < |Search(locs, here)| && groundId in Caps(locs[Search(locs, here)[k]].ground)
        && (forall i :: 0 <= i < k ==> groundId !in Caps(locs[Search(locs, here)[i]].ground))
        && r == Follow(locs, here, d.caps, Search(locs, here)[k]))
  {
    if skill in d.caps then None
    else
      var s := Search(locs, here);
      SearchStartsHere(locs, here);
      match Collections.FirstWhere(s, (x: nat) => x < |locs| && groundId in Caps(locs[x].ground))
      case None => None
      case Some(k) => Follow(locs, here, d.caps, s[k])
  }

  // ----- MatingBehaviour -----

  /** isOppositeGender: exactly one of the two is FEMALE. */
  predicate OppositeGender(a: Dino, b: Dino)
  {
    (Female !in a.caps && Female in b.caps) || (Female in a.caps && Female !in b.caps)
  }

  /** Being of opposite gender is symmetric, and no dinosaur is of opposite gender to itself. */
  lemma OppositeGenderFacts(a: Dino, b: Dino)
    ensures OppositeGender(a, b) == OppositeGender(b, a)
    ensures !OppositeGender(a, a)
    ensures OppositeGender(a, b) <==> (Female in a.caps <==> Female !in b.caps)
  {
  }

  predicate OnRechargeGround(locs: seq<Loc>, i: nat)
    requires i < |locs|
  {
    RechargeFlight in Caps(locs[i].ground)
  }

  /**
   * Location x holds a mate for d, who stands at here: a dinosaur of d's class
   * (isInstance and isSameSpecies), both fertile where they stand, of opposite gender.
   */
  predicate IsPartner(locs: seq<Loc>, here: nat, d: Dino, x: nat)
    requires here < |locs|
  {
    x < |locs| && locs[x].actor.Some? && locs[x].actor.value.DinoActor?
    && var mate := locs[x].actor.value.dino;
       mate.species == d.species
       && IsFertile(d, OnRechargeGround(locs, here)) && IsFertile(mate, OnRechargeGround(locs, x))
       && OppositeGender(d, mate)
  }

  /**
   * MatingBehaviour.getAction: the first partner in search order; a MateAction
   * when the partner stands at one of the exits, otherwise Follow toward it.
   */
  function Mating(locs: seq<Loc>, here: nat, d: Dino): (r: Option<Action>)
    requires ValidLocs(locs) && Holds(locs, here, d)
    ensures r.Some? ==> r.value.Mate? || (r.value.MoveTo? && r.value.dest < |locs| && Adjacent(locs, here, r.value.dest))
    ensures r.Some? && r.value.Mate? ==>
      IsPartner(locs, here, d, r.value.partner) && Adjacent(locs, here, r.value.partner) && r.value.partner != here
    ensures r.Some? ==> exists k :: (0 <= k < |Search(locs, here)| && IsPartner(locs, here, d, Search(locs, here)[k])
      && (forall i :: 0 <= i < k ==> !IsPartner(locs, here, d, Search(locs, here)[i]))
      && r == (if Adjacent(locs, here, Search(locs, here)[k]) then Some(Mate(Search(locs, here)[k]))
               else Follow(locs, here, d.caps, Search(locs, here)[k])))
    ensures (forall k :: 0 <= k < |Search(locs, here)| ==> !IsPartner(locs, here, d, Search(locs, here)[k])) ==> r.None?
    ensures !IsFertile(d, OnRechargeGround(locs, here)) ==> r.None?
  {
    var s := Search(locs, here);
    match Collections.FirstWhere(s, (x: nat) => IsPartner(locs, here, d, x))
    case None => None
    case Some(k) =>
      assert IsPartner(locs, here, d, s[k]);
      if Adjacent(locs, here, s[k]) then Some(Mate(s[k])) else Follow(locs, here, d.caps, s[k])
  }

  // ----- ThirstyBehaviour -----

  predicate HasWater(locs: seq<Loc>, dest: nat)
  {
    dest < |locs| && IsWaterBody(locs[dest].ground) && HasSips(locs[dest].ground)
  }

  /** isNextToWaterSource: some exit leads to a water body that still has sips. */
  predicate NextToWater(locs: seq<Loc>, i: nat)
    requires i < |locs|
  {
    exists j :: 0 <= j < |locs[i].exits| && HasWater(locs, locs[i].exits[j].dest)
  }

  /** The DrinkAction constructor's choice: the first exit destination, in exit order, that is a water body with sips. */
  function WaterSource(locs: seq<Loc>, i: nat): (r: Option<nat>)
    requires i < |locs|
    ensures r.Some? <==> NextToWater(locs, i)
    ensures r.Some? ==> HasWater(locs, r.value) && Adjacent(locs, i, r.value)
  {
    var exits := locs[i].exits;
    match Collections.FirstWhere(exits, (e: Exit) => HasWater(locs, e.dest))
    case None => None
    case Some(j) => Some(exits[j].dest)
  }

  /**
   * ThirstyBehaviour.getAction: nothing unless thirsty; at the first location,
   * in search order, next to a water source, drink when it is here and follow
   * toward it otherwise.
   */
  function Thirsty(locs: seq<Loc>, here: nat, d: Dino): (r: Option<Action>)
    requires ValidLocs(locs) && here < |locs|
    ensures !IsThirsty(d) ==> r.None?
    ensures r.Some? ==> r.value.Drink? || (r.value.MoveTo? && r.value.dest < |locs| && Adjacent(locs, here, r.value.dest))
    ensures r.Some? && r.value.Drink? ==> NextToWater(locs, here) && r.value.source.Some? && r.value.source == WaterSource(locs, here)
    ensures IsThirsty(d) && NextToWater(locs, here) ==> r == Some(Drink(WaterSource(locs, here)))
    ensures (forall k :: 0 <= k < |Search(locs, here)| ==> !NextToWater(locs, Search(locs, here)[k])) ==> r.None?
    ensures IsThirsty(d) && (exists k :: 0 <= k < |Search(locs, here)| && NextToWater(locs, Search(locs, here)[k])) ==>
      exists k :: (0 <= k < |Search(locs, here)| && NextToWater(locs, Search(locs, here)[k])
        && (forall i :: 0 <= i < k ==> !NextToWater(locs, Search(locs, here)[i]))
        && r == (if Search(locs, here)[k] == here then Some(Drink(WaterSource(locs, here)))
                 else Follow(locs, here, d.caps, Search(locs, here)[k])))
  {
    if !IsThirsty(d) then None
    else
      var s := Search(locs, here);
      SearchStartsHere(locs, here);
      match Collections.FirstWhere(s, (x: nat) => x < |locs| && NextToWater(locs, x))
      case None => None
      case Some(k) =>
        if s[k] == here then Some(Drink(WaterSource(locs, here))) else Follow(locs, here, d.caps, s[k])
  }

  // ----- HungryBehaviour -----

  /** isSafeToEatFrom: a Pterodactyl eats only where no other actor stands at an exit; the others eat anywhere. */
  predicate SafeToEatFrom(locs: seq<Loc>, here: nat, d: Dino, x: nat)
    requires ValidLocs(locs) && x < |locs|
  {
    d.species == Pterodactyl ==>
      forall j :: 0 <= j < |locs[x].exits| ==> locs[locs[x].exits[j].dest].actor.None? || locs[x].exits[j].dest == here
  }

  /** isOnGroundFood: the location is safe and holds an item of a class the dinosaur eats. */
  predicate OnGroundFood(locs: seq<Loc>, here: nat, d: Dino, x: nat)
    requires ValidLocs(locs) && x < |locs|
  {
    SafeToEatFrom(locs, here, d, x)
    && exists k :: 0 <= k < |locs[x].items| && ClassOf(locs[x].items[k]) in SpeciesTable.Of(d.species).validFoods
  }

  /** What a searchable ground sees of the dinosaur it would feed. */
  function TargetOf(d: Dino): Target
  {
    Target(d.caps, d.hp, MaxHp(d))
  }

  /** isInGroundFood: the ground is searchable and its scout-mode getFoodPoints is not null. */
  predicate InGroundFood(locs: seq<Loc>, d: Dino, x: nat)
    requires x < |locs|
  {
    IsSearchable(locs[x].ground) && FoodPoints(locs[x].ground, TargetOf(d), true, false).value.Some?
  }

  predicate HasFood(locs: seq<Loc>, here: nat, d: Dino, x: nat)
    requires ValidLocs(locs)
  {
    x < |locs| && (OnGroundFood(locs, here, d, x) || InGroundFood(locs, d, x))
  }

  /**
   * HungryBehaviour.getAction: nothing unless hungry; at the first location,
   * in search order, with food on or in the ground, eat when it is here (food
   * on the ground first) and follow toward it otherwise, even when Follow has
   * no move.
   */
  function Hungry(locs: seq<Loc>, here: nat, d: Dino): (r: Option<Action>)
    requires ValidLocs(locs) && here < |locs|
    ensures !IsHungry(d) ==> r.None?
    ensures r.Some? ==> (r.value in {EatItemOnGround, EatFromSearchableGround}
      || (r.value.MoveTo? && r.value.dest < |locs| && Adjacent(locs, here, r.value.dest)))
    ensures r == Some(EatItemOnGround) ==> OnGroundFood(locs, here, d, here)
    ensures r == Some(EatFromSearchableGround) ==> InGroundFood(locs, d, here) && !OnGroundFood(locs, here, d, here)
    ensures IsHungry(d) && OnGroundFood(locs, here, d, here) ==> r == Some(EatItemOnGround)
    ensures IsHungry(d) && !OnGroundFood(locs, here, d, here) && InGroundFood(locs, d, here) ==> r == Some(EatFromSearchableGround)
    ensures (forall k :: 0 <= k < |Search(locs, here)| ==> !HasFood(locs, here, d, Search(locs, here)[k])) ==> r.None?
    ensures IsHungry(d) && (exists k :: 0 <= k < |Search(locs, here)| && HasFood(locs, here, d, Search(locs, here)[k])) ==>
      exists k :: (0 <= k < |Search(locs, here)| && HasFood(locs, here, d, Search(locs, here)[k])
        && (forall i :: 0 <= i < k ==> !HasFood(locs, here, d, Search(locs, here)[i]))
        && r == (if Search(locs, here)[k] != here then Follow(locs, here, d.caps, Search(locs, here)[k])
                 else if OnGroundFood(locs, here, d, here) then Some(EatItemOnGround)
                 else Some(EatFromSearchableGround)))
  {
    if !IsHungry(d) then None
    else
      var s := Search(locs, here);
      SearchStartsHere(locs, here);
      match Collections.FirstWhere(s, (x: nat) => HasFood(locs, here, d, x))
      case None => None
      case Some(k) =>
        var p := s[k];
        if OnGroundFood(locs, here, d, p) then
          if p == here then Some(EatItemOnGround) else Follow(locs, here, d.caps, p)
        else
          if p == here then Some(EatFromSearchableGround) else Follow(locs, here, d.caps, p)
  }

  // ----- PreyingBehaviour -----

  /** hasPrey: x holds a PREY dinosaur that cannot fly, is not the hunter and is not on the hunter's blacklist. */
  predicate HasPrey(locs: seq<Loc>, here: nat, hunter: Dino, x: nat)
  {
    x < |locs| && locs[x].actor.Some? && locs[x].actor.value.DinoActor?
    && var prey := locs[x].actor.value.dino;
       Prey in prey.caps && Fly !in prey.caps && x != here && prey.id !in hunter.blacklist
  }

  /** The prey location of PreyingBehaviour: the last location in search order with prey, because the loop never breaks. */
  function PreyLocation(locs: seq<Loc>, here: nat, hunter: Dino): (r: Option<nat>)
    requires ValidLocs(locs) && here < |locs|
    ensures r.Some? ==> HasPrey(locs, here, hunter, r.value) && r.value != here
    ensures r.Some? ==> exists k :: (0 <= k < |Search(locs, here)| && Search(locs, here)[k] == r.value
      && forall j :: k < j < |Search(locs, here)| ==> !HasPrey(locs, here, hunter, Search(locs, here)[j]))
    ensures r.None? <==> forall j :: 0 <= j < |Search(locs, here)| ==> !HasPrey(locs, here, hunter, Search(locs, here)[j])
  {
    var s := Search(locs, here);
    match Collections.LastWhere(s, PreyTest(locs, here, hunter))
    case None => None
    case Some(k) => Some(s[k])
  }

  function PreyTest(locs: seq<Loc>, here: nat, hunter: Dino): nat -> bool
  {
    (x: nat) => HasPrey(locs, here, hunter, x)
  }

  /** The last match among the locations seen so far. */
  function LastPrey(locs: seq<Loc>, here: nat, hunter: Dino, seen: seq<nat>): Option<nat>
  {
    match Collections.LastWhere(seen, PreyTest(locs, here, hunter))
    case None => None
    case Some(k) => Some(seen[k])
  }

  /** Seeing one more location `l` keeps the loop's bookkeeping. */
  lemma PreySeen(locs: seq<Loc>, here: nat, hunter: Dino, seen: seq<nat>, l: nat, rest: seq<nat>, full: seq<nat>)
    requires seen + ([l] + rest) == full
    ensures (seen + [l]) + rest == full
    ensures LastPrey(locs, here, hunter, seen + [l])
         == if HasPrey(locs, here, hunter, l) then Some(l) else LastPrey(locs, here, hunter, seen)
  {
    Collections.LastWhereSnoc(seen, l, PreyTest(locs, here, hunter));
    assert (seen + [l]) + rest == seen + ([l] + rest);
    assert (seen + [l])[|seen|] == l;
  }

  /**
   * The search loop of PreyingBehaviour.getAction, run over the location
   * iterator: every location with prey overwrites the answer.
   */
  method FindPrey(locs: seq<Loc>, here: nat, hunter: Dino) returns (p: Option<nat>)
    requires ValidLocs(locs) && here < |locs|
    ensures p == PreyLocation(locs, here, hunter)
  {
    var it := new LocationIterator(locs, here);
    ghost var seen: seq<nat> := [];
    p := None;
    while it.HasNext()
      invariant it.Valid() && it.locs == locs
      invariant seen + it.Remaining() == Search(locs, here)
      invariant p == LastPrey(locs, here, hunter, seen)
      decreases |Indices(|locs|) - it.visited|, |it.queue|
    {
      var next := it.Next();
      var l := next.value;
      PreySeen(locs, here, hunter, seen, l, it.Remaining(), Search(locs, here));
      if HasPrey(locs, here, hunter, l) {
        p := Some(l);
      }
      seen := seen + [l];
    }
    assert seen == Search(locs, here);
  }

  /** What PreyingBehaviour decides; Devour and Strike carry the prey's location. */
  datatype Hunt =
    | NoHunt                        // null: not a hungry hunter, or no prey
    | Devour(prey: nat)             // adjacent tiny prey that cannot fly: DieAction(false) on it and a full heal, then null
    | Strike(prey: nat)             // other adjacent prey: blacklist it and return AttackAction
    | Chase(move: Option<Action>)   // prey further away: Follow toward it

  /**
   * PreyingBehaviour.getAction: nothing for a dinosaur that is not a hungry
   * hunter or that sees no prey; otherwise devour, strike or chase the prey at
   * PreyLocation.
   */
  function Preying(locs: seq<Loc>, here: nat, hunter: Dino): (r: Hunt)
    requires ValidLocs(locs) && here < |locs|
    ensures !SpeciesTable.IsHuntable(hunter.species) || !IsHungry(hunter) ==> r.NoHunt?
    ensures r.NoHunt? && SpeciesTable.IsHuntable(hunter.species) && IsHungry(hunter) ==> PreyLocation(locs, here, hunter).None?
    ensures r.Devour? || r.Strike? ==>
      Some(r.prey) == PreyLocation(locs, here, hunter) && Adjacent(locs, here, r.prey)
    ensures r.Devour? ==> var v := locs[r.prey].actor.value.dino; Tiny in v.caps && Fly !in v.caps
    ensures r.Strike? ==> var v := locs[r.prey].actor.value.dino; Tiny !in v.caps || Fly in v.caps
    ensures r.Chase? ==> (PreyLocation(locs, here, hunter).Some?
      && r.move == Follow(locs, here, hunter.caps, PreyLocation(locs, here, hunter).value)
      && !Adjacent(locs, here, PreyLocation(locs, here, hunter).value))
  {
    if !SpeciesTable.IsHuntable(hunter.species) || !IsHungry(hunter) then NoHunt
    else
      match PreyLocation(locs, here, hunter)
      case None => NoHunt
      case Some(p) =>
        var prey := locs[p].actor.value.dino;
        if Adjacent(locs, here, p) then
          if Tiny in prey.caps && Fly !in prey.caps then Devour(p) else Strike(p)
        else
          Chase(Follow(locs, here, hunter.caps, p))
  }
}
