/**
 * Dinosaur.playTurn: the species prelude and the vitals, the egg and the
 * death, and the behaviour chain, whose behaviours are asked in priority order
 * until one returns an action. PreyingBehaviour is the only behaviour that
 * changes the map while deciding: it devours small prey on the spot, or
 * blacklists the prey it attacks.
 */
module Turns {
  import opened Tags
  import opened Wrappers
  import opened Items
  import opened Dinosaurs
  import opened Locations
  import opened Behaviours
  import opened Actions
  import SpeciesTable

  /**
   * WanderBehaviour with the random index drawn by the caller: the draw is
   * reduced modulo the number of candidate moves (nextInt(size)).
   */
  function WanderDraw(locs: seq<Loc>, here: nat, caps: set<ActorCap>, pick: nat): (r: Option<Action>)
    requires ValidLocs(locs) && here < |locs|
    ensures r.None? <==> forall j :: 0 <= j < |locs[here].exits| ==> !Enterable(locs, locs[here].exits[j].dest, caps)
    ensures r.Some? ==> r.value in Candidates(locs, locs[here].exits, caps)
  {
    var c := Candidates(locs, locs[here].exits, caps);
    Wander(locs, here, caps, if c == [] then 0 else pick % |c|)
  }

  /**
   * One behaviour's getAction for the dinosaur standing at here: the action it
   * returns (None for null) and the map after it. Only PreyingBehaviour changes
   * the map, and never moves the hunter.
   */
  function BehaviourOutcome(locs: seq<Loc>, here: nat, b: SpeciesTable.Behaviour, pick: nat): (r: (Option<Action>, seq<Loc>))
    requires ValidLocs(locs) && HasDino(locs, here)
    ensures ValidLocs(r.1) && |r.1| == |locs| && HasDino(r.1, here)
    ensures DinoAt(r.1, here).species == DinoAt(locs, here).species
    ensures !b.Preying? ==> r.1 == locs
    ensures var d := DinoAt(locs, here);
      b.Preying? ==> match Preying(locs, here, d)
        case NoHunt => r == (None, locs)
        case Devour(p) => r.0.None? && !HasDino(r.1, p) && DinoAt(r.1, here).hp == Heal(d, MaxHp(d)).hp
        case Strike(p) => r.0 == Some(Attack(p)) && DinoAt(r.1, here) == AddToBlacklist(d, DinoAt(locs, p).id)
        case Chase(m) => r == (m, locs)
  {
    var d := DinoAt(locs, here);
    match b
    case RechargeSkill(skill, groundId) => (Behaviours.RechargeSkill(locs, here, d, skill, groundId), locs)
    case Mating => (Behaviours.Mating(locs, here, d), locs)
    case Thirsty => (Behaviours.Thirsty(locs, here, d), locs)
    case Hungry => (Behaviours.Hungry(locs, here, d), locs)
    case Wander => (WanderDraw(locs, here, d.caps, pick), locs)
    case Preying =>
      match Preying(locs, here, d)
      case NoHunt => (None, locs)
      case Devour(p) => (None, WithDino(Died(locs, p, false), here, Heal(d, MaxHp(d))))
      case Strike(p) => (Some(Attack(p)), WithDino(locs, here, AddToBlacklist(d, DinoAt(locs, p).id)))
      case Chase(m) => (m, locs)
  }

  /**
   * The loop of playTurn over actionFactories: the first action a behaviour
   * returns, each behaviour asked on the map the earlier ones left.
   */
  function ChainOutcome(locs: seq<Loc>, here: nat, chain: seq<SpeciesTable.Behaviour>, pick: nat): (r: (Option<Action>, seq<Loc>))
    requires ValidLocs(locs) && HasDino(locs, here)
    ensures ValidLocs(r.1) && |r.1| == |locs| && HasDino(r.1, here)
    ensures DinoAt(r.1, here).species == DinoAt(locs, here).species
    decreases |chain|
  {
    if chain == [] then (None, locs)
    else
      var s := BehaviourOutcome(locs, here, chain[0], pick);
      if s.0.Some? then s else ChainOutcome(s.1, here, chain[1..], pick)
  }

  /** Behaviour b is not the first in the chain to answer. */
  predicate SilentBefore(locs: seq<Loc>, here: nat, chain: seq<SpeciesTable.Behaviour>, pick: nat, k: nat)
    requires ValidLocs(locs) && HasDino(locs, here) && k <= |chain|
  {
    forall j :: 0 <= j < k ==> BehaviourOutcome(locs, here, chain[j], pick).0.None?
  }

  /** The first step of the chain loop, for a behaviour other than PreyingBehaviour. */
  lemma ChainHead(locs: seq<Loc>, here: nat, chain: seq<SpeciesTable.Behaviour>, pick: nat)
    requires ValidLocs(locs) && HasDino(locs, here) && chain != [] && !chain[0].Preying?
    ensures var s := BehaviourOutcome(locs, here, chain[0], pick);
      s.1 == locs && ChainOutcome(locs, here, chain, pick) == (if s.0.Some? then s else ChainOutcome(locs, here, chain[1..], pick))
  {
  }

  /** A chain whose first behaviour is silent is silent up to k + 1 exactly when its tail is silent up to k. */
  lemma SilentShift(locs: seq<Loc>, here: nat, chain: seq<SpeciesTable.Behaviour>, pick: nat)
    requires ValidLocs(locs) && HasDino(locs, here) && chain != []
    requires BehaviourOutcome(locs, here, chain[0], pick).0.None?
    ensures forall k :: 0 <= k < |chain| ==>
      (SilentBefore(locs, here, chain, pick, k + 1) <==> SilentBefore(locs, here, chain[1..], pick, k))
  {
    assert forall j :: 0 < j < |chain| ==> chain[j] == chain[1..][j - 1];
  }

  /**
   * Without PreyingBehaviour the chain leaves the map alone and returns the
   * action of the first behaviour that has one; null exactly when none has.
   */
  lemma {:induction false} ChainWithoutPreying(locs: seq<Loc>, here: nat, chain: seq<SpeciesTable.Behaviour>, pick: nat)
    requires ValidLocs(locs) && HasDino(locs, here)
    requires SpeciesTable.Preying !in chain
    ensures ChainOutcome(locs, here, chain, pick).1 == locs
    ensures ChainOutcome(locs, here, chain, pick).0.None? <==> SilentBefore(locs, here, chain, pick, |chain|)
    ensures ChainOutcome(locs, here, chain, pick).0.Some? ==> exists k :: (0 <= k < |chain|
      && SilentBefore(locs, here, chain, pick, k)
      && ChainOutcome(locs, here, chain, pick).0 == BehaviourOutcome(locs, here, chain[k], pick).0)
    decreases |chain|
  {
    if chain != [] {
      ChainHead(locs, here, chain, pick);
      var s := BehaviourOutcome(locs, here, chain[0], pick);
      if s.0.Some? {
        assert SilentBefore(locs, here, chain, pick, 0);
        assert !SilentBefore(locs, here, chain, pick, |chain|);
      } else {
        assert SpeciesTable.Preying !in chain[1..];
        ChainWithoutPreying(locs, here, chain[1..], pick);
        var r := ChainOutcome(locs, here, chain[1..], pick);
        SilentShift(locs, here, chain, pick);
        if r.0.Some? {
          var k :| 0 <= k < |chain| - 1 && SilentBefore(locs, here, chain[1..], pick, k)
            && r.0 == BehaviourOutcome(locs, here, chain[1..][k], pick).0;
          assert chain[k + 1] == chain[1..][k];
        }
      }
    }
  }

  /**
   * An Allosaur that devours its prey is fully healed by it, so the
   * HungryBehaviour after PreyingBehaviour in its chain returns null and the
   * dinosaur goes on to wander.
   */
  lemma DevourSatisfiesHunger(locs: seq<Loc>, here: nat, pick: nat)
    requires ValidLocs(locs) && HasDino(locs, here)
    requires DinoAt(locs, here).species == Allosaur && 0 <= DinoAt(locs, here).hp <= MaxHp(DinoAt(locs, here))
    requires Preying(locs, here, DinoAt(locs, here)).Devour?
    ensures var s := BehaviourOutcome(locs, here, SpeciesTable.Preying, pick);
      s.0.None? && !IsHungry(DinoAt(s.1, here))
      && BehaviourOutcome(s.1, here, SpeciesTable.Hungry, pick).0.None?
  {
    SpeciesTable.AllosaurDescriptor();
    var d := DinoAt(locs, here);
    assert Heal(d, MaxHp(d)).hp == MaxHp(d);
  }

  /**
   * An awake dinosaur of a species that does not hunt and that can step onto
   * some neighbour never ends its chain empty-handed: WanderBehaviour, last in
   * every chain, has a move for it.
   */
  lemma NonHunterAlwaysActs(locs: seq<Loc>, here: nat, pick: nat)
    requires ValidLocs(locs) && HasDino(locs, here)
    requires !SpeciesTable.IsHuntable(DinoAt(locs, here).species)
    requires exists j :: (0 <= j < |locs[here].exits|
      && Enterable(locs, locs[here].exits[j].dest, DinoAt(locs, here).caps))
    ensures ChainOutcome(locs, here, SpeciesTable.Of(DinoAt(locs, here).species).chain, pick).0.Some?
  {
    var chain := SpeciesTable.Of(DinoAt(locs, here).species).chain;
    SpeciesTable.ChainShape(DinoAt(locs, here).species);
    ChainWithoutPreying(locs, here, chain, pick);
    var w := BehaviourOutcome(locs, here, chain[|chain| - 1], pick);
    assert w.0.Some?;
    assert !SilentBefore(locs, here, chain, pick, |chain|);
  }

  /** The dinosaur's state after the vitals part of its turn. */
  function Vitals(locs: seq<Loc>, here: nat): (v: Dinosaurs.Vitals)
    requires HasDino(locs, here)
    ensures var d := DinoAt(locs, here);
      v.dino.species == d.species && v.dino.id == d.id && v.dino.age == d.age + 1
      && v.dino.hp == d.hp - 1 && v.dino.water == d.water - 1
  {
    var rg := OnRechargeGround(locs, here);
    Lifecycle(SpeciesPrelude(DinoAt(locs, here), rg), rg)
  }

  /** The map once the dinosaur at here has been updated by its vitals and has laid its egg, if due. */
  function AfterVitals(locs: seq<Loc>, here: nat, eggId: int, eggFemale: bool): (r: seq<Loc>)
    requires ValidLocs(locs) && HasDino(locs, here)
    ensures ValidLocs(r) && |r| == |locs| && HasDino(r, here)
    ensures DinoAt(r, here).species == DinoAt(locs, here).species
  {
    var v := Vitals(locs, here);
    var l1 := WithDino(locs, here, v.dino);
    if v.laysEgg then
      WithDino(WithItem(l1, here, NewEgg(DinoAt(locs, here).species, eggId, eggFemale)), here,
               v.dino.(caps := v.dino.caps - {Pregnant}))
    else l1
  }

  /** The turn of the dinosaur at here from the start of playTurn to the action it returns. */
  function TurnOutcome(locs: seq<Loc>, here: nat, eggId: int, eggFemale: bool, pick: nat): (r: (Action, seq<Loc>))
    requires ValidLocs(locs) && HasDino(locs, here)
    ensures ValidLocs(r.1) && |r.1| == |locs|
  {
    var l := AfterVitals(locs, here, eggId, eggFemale);
    match Vitals(locs, here).status
    case Dies => (DoNothing, Died(l, here, true))
    case Unconscious => (DoNothing, l)
    case Awake =>
      var c := ChainOutcome(l, here, SpeciesTable.Of(DinoAt(locs, here).species).chain, pick);
      (if c.0.Some? then c.0.value else DoNothing, c.1)
  }

  /**
   * A dinosaur that is unconscious after its vitals does nothing; one that
   * has been unconscious too long leaves the map and its corpse (after the egg
   * it may have laid) on its location; a pregnant one due to give birth lays
   * the egg on its location.
   */
  lemma TurnVitals(locs: seq<Loc>, here: nat, eggId: int, eggFemale: bool, pick: nat)
    requires ValidLocs(locs) && HasDino(locs, here)
    ensures var v, r := Vitals(locs, here), TurnOutcome(locs, here, eggId, eggFemale, pick);
      var egg := if v.laysEgg then [NewEgg(DinoAt(locs, here).species, eggId, eggFemale)] else [];
      (!v.status.Awake? ==> r.0 == DoNothing)
      && (v.status.Dies? ==> (r.1[here].actor.None?
          && r.1[here].items == locs[here].items + egg + [CorpseOf(v.dino)]
          && forall j :: 0 <= j < |locs| && j != here ==> r.1[j] == locs[j]))
      && (v.status.Unconscious? ==> (HasDino(r.1, here) && r.1[here].items == locs[here].items + egg
          && DinoAt(r.1, here) == v.dino
          && forall j :: 0 <= j < |locs| && j != here ==> r.1[j] == locs[j]))
  {
    var v := Vitals(locs, here);
    assert v.laysEgg ==> v.dino.(caps := v.dino.caps - {Pregnant}) == v.dino;
  }

  /**
   * The turn of a dinosaur that does not hunt changes only its own
   * location, and its action is the first one its chain offers.
   */
  lemma NonHunterTurnIsLocal(locs: seq<Loc>, here: nat, eggId: int, eggFemale: bool, pick: nat)
    requires ValidLocs(locs) && HasDino(locs, here)
    requires !SpeciesTable.IsHuntable(DinoAt(locs, here).species)
    ensures var r := TurnOutcome(locs, here, eggId, eggFemale, pick);
      forall j :: 0 <= j < |locs| && j != here ==> r.1[j] == locs[j]
  {
    var d := DinoAt(locs, here);
    if Vitals(locs, here).status.Awake? {
      SpeciesTable.ChainShape(d.species);
      ChainWithoutPreying(AfterVitals(locs, here, eggId, eggFemale), here, SpeciesTable.Of(d.species).chain, pick);
    }
  }

  /** A behaviour's getAction, run on the board. */
  method RunBehaviour(board: Board, here: nat, b: SpeciesTable.Behaviour, pick: nat) returns (a: Option<Action>)
    requires ValidLocs(board.locs) && HasDino(board.locs, here)
    modifies board
    ensures (a, board.locs) == BehaviourOutcome(old(board.locs), here, b, pick)
  {
    var locs := board.locs;
    var d := DinoAt(locs, here);
    match b
    case RechargeSkill(skill, groundId) => a := Behaviours.RechargeSkill(locs, here, d, skill, groundId);
    case Mating => a := Behaviours.Mating(locs, here, d);
    case Thirsty => a := Behaviours.Thirsty(locs, here, d);
    case Hungry => a := Behaviours.Hungry(locs, here, d);
    case Wander => a := WanderDraw(locs, here, d.caps, pick);
    case Preying =>
      match Preying(locs, here, d)
      case NoHunt => a := None;
      case Devour(p) =>
        board.Die(p, false);
        board.SetDino(here, Heal(d, MaxHp(d)));
        a := None;
      case Strike(p) =>
        board.SetDino(here, AddToBlacklist(d, DinoAt(locs, p).id));
        a := Some(Attack(p));
      case Chase(m) => a := m;
  }

  /** The vitals part of playTurn, laying the egg when due. */
  method RunVitals(board: Board, ids: IdGenerator, here: nat, eggFemale: bool) returns (v: Dinosaurs.Vitals)
    requires ValidLocs(board.locs) && HasDino(board.locs, here)
    modifies board, ids
    ensures v == Vitals(old(board.locs), here)
    ensures ids.last == old(ids.last) + (if v.laysEgg then 1 else 0)
    ensures board.locs == AfterVitals(old(board.locs), here, old(ids.last) + 1, eggFemale)
  {
    var d := DinoAt(board.locs, here);
    var rg := OnRechargeGround(board.locs, here);
    v := Lifecycle(SpeciesPrelude(d, rg), rg);
    board.SetDino(here, v.dino);
    if v.laysEgg {
      var egg := ids.NewEgg(d.species, eggFemale);
      board.LayEgg(here, egg);
    }
  }

  /** The loop of playTurn over the behaviour chain: the first behaviour with an action wins. */
  method RunChain(board: Board, here: nat, chain: seq<SpeciesTable.Behaviour>, pick: nat) returns (a: Option<Action>)
    requires ValidLocs(board.locs) && HasDino(board.locs, here)
    modifies board
    ensures (a, board.locs) == ChainOutcome(old(board.locs), here, chain, pick)
  {
    var i := 0;
    while i < |chain|
      invariant 0 <= i <= |chain|
      invariant ValidLocs(board.locs) && HasDino(board.locs, here)
      invariant ChainOutcome(old(board.locs), here, chain, pick) == ChainOutcome(board.locs, here, chain[i..], pick)
      decreases |chain| - i
    {
      assert chain[i..][1..] == chain[i + 1..];
      a := RunBehaviour(board, here, chain[i], pick);
      if a.Some? {
        return;
      }
      i := i + 1;
    }
    a := None;
  }

  /**
   * Dinosaur.playTurn (with the species' prelude before it) for the dinosaur
   * at here. The gender of a laid egg's baby and the wandering draw are given;
   * the egg's baby takes the next dinosaur id.
   */
  method PlayTurn(board: Board, ids: IdGenerator, here: nat, eggFemale: bool, pick: nat) returns (a: Action)
    requires ValidLocs(board.locs) && HasDino(board.locs, here)
    modifies board, ids
    ensures ids.last == old(ids.last) + (if Vitals(old(board.locs), here).laysEgg then 1 else 0)
    ensures (a, board.locs) == TurnOutcome(old(board.locs), here, old(ids.last) + 1, eggFemale, pick)
  {
    var sp := DinoAt(board.locs, here).species;
    var v := RunVitals(board, ids, here, eggFemale);
    if v.status.Dies? {
      board.Die(here, true);
      a := DoNothing;
    } else if v.status.Unconscious? {
      a := DoNothing;
    } else {
      var r := RunChain(board, here, SpeciesTable.Of(sp).chain, pick);
      a := if r.Some? then r.value else DoNothing;
    }
  }
}
