/**
 * A dinosaur as a value: the fields of Dinosaur and its subclasses, the engine's
 * hit-point operations, the species factories, the Allosaur blacklist, the
 * Pterodactyl flight counter and the start of playTurn up to the behaviour chain.
 */
module Dinosaurs {
  import opened Tags
  import opened Wrappers
  import opened Items
  import opened Text
  import SpeciesTable
  import Consumables
  import Collections

  datatype Dino = Dino(
    species: Species,
    id: int,
    name: string,
    display: char,
    hp: int,
    water: int,
    age: int,
    turnsPregnant: int,
    turnsUnconscious: int,
    caps: set<ActorCap>,
    blacklist: map<int, int>,  // Allosaur only: prey id -> turns since it was last attacked
    flyingTurns: int)          // Pterodactyl only

  function MaxHp(d: Dino): int { SpeciesTable.Of(d.species).maxHp }

  function MaxWater(d: Dino): int { SpeciesTable.Of(d.species).maxWater }

  function Min(a: int, b: int): int { if a <= b then a else b }

  // ----- the engine's Actor operations, as this model assumes them -----

  /** Actor.hurt: hit points go down by the amount. */
  function Hurt(d: Dino, points: int): (r: Dino)
    ensures r.(hp := d.hp) == d
    ensures r.hp < d.hp <==> points > 0
    ensures d.hp - r.hp == points
  {
    d.(hp := d.hp - points)
  }

  /** Actor.heal: hit points go up by the amount, capped at the maximum. */
  function Heal(d: Dino, points: int): (r: Dino)
    ensures r.(hp := d.hp) == d
    ensures d.hp + points <= MaxHp(d) ==> r.hp == d.hp + points
    ensures d.hp + points > MaxHp(d) ==> r.hp == MaxHp(d)
  {
    d.(hp := Min(d.hp + points, MaxHp(d)))
  }

  /** Healing a dinosaur within its maximum by what it was just hurt gives it back exactly, and a heal by the maximum fills it. */
  lemma HealAfterHurt(d: Dino, points: int)
    requires points >= 0 && d.hp <= MaxHp(d)
    ensures Heal(Hurt(d, points), points) == d
    ensures d.hp >= 0 ==> Heal(d, MaxHp(d)).hp == MaxHp(d)
  {
  }

  /** dehydrate: water goes down by the amount, with no lower bound. */
  function Dehydrate(d: Dino, points: int): (r: Dino)
    ensures r.(water := d.water) == d
    ensures r.water < d.water <==> points > 0
    ensures d.water - r.water == points
  {
    d.(water := d.water - points)
  }

  /** quenchThirst: water goes up by the amount, capped at the maximum. */
  function QuenchThirst(d: Dino, points: int): (r: Dino)
    ensures r.(water := d.water) == d
    ensures d.water + points <= MaxWater(d) ==> r.water == d.water + points
    ensures d.water + points > MaxWater(d) ==> r.water == MaxWater(d)
  {
    d.(water := Min(d.water + points, MaxWater(d)))
  }

  /**
   * quenchThirst never exceeds the maximum, never lowers water below the
   * maximum or the old level, leaves everything else alone, and two drinks
   * are one drink of the sum.
   */
  lemma QuenchThirstSpec(d: Dino, p: int, q: int)
    requires p >= 0 && q >= 0
    ensures QuenchThirst(d, p).water == Min(d.water + p, MaxWater(d))
    ensures d.water <= MaxWater(d) ==> d.water <= QuenchThirst(d, p).water <= MaxWater(d)
    ensures QuenchThirst(d, p).(water := d.water) == d
    ensures QuenchThirst(QuenchThirst(d, p), q) == QuenchThirst(d, p + q)
    ensures Dehydrate(d, p).water == d.water - p && Dehydrate(d, p).(water := d.water) == d
  {
  }

  /** A water bottle's tuple (0, maxWaterLevel) fills any non-negative water level exactly to the maximum. */
  lemma WaterBottleFills(d: Dino)
    requires d.water >= 0
    ensures Consumables.Resolve(WaterBottle, d.species).points == Some(Consumables.Points(0, MaxWater(d)))
    ensures QuenchThirst(d, Consumables.Resolve(WaterBottle, d.species).points.value.water).water == MaxWater(d)
  {
  }

  /** Dinosaur.isConscious: the engine's hit points > 0, and water > 0. */
  predicate IsConscious(d: Dino) { d.hp > 0 && d.water > 0 }

  predicate IsThirsty(d: Dino) { d.water < 40 }

  predicate IsAdult(d: Dino) { SpeciesTable.IsAdult(d.species, d.age) }

  predicate IsHungry(d: Dino) { SpeciesTable.IsHungry(d.species, d.hp) }

  /**
   * isFertile: conscious, adult, able to breed and not pregnant; a Pterodactyl
   * must also stand on flight-recharging ground (`onRechargeGround`).
   */
  predicate IsFertile(d: Dino, onRechargeGround: bool)
  {
    IsConscious(d) && IsAdult(d) && SpeciesTable.CanBreed(d.species, d.hp) && Pregnant !in d.caps
    && (d.species == Pterodactyl ==> onRechargeGround)
  }

  lemma FertilitySpec(d: Dino, rf: bool)
    ensures IsFertile(d, rf) ==> d.hp > 0 && d.water > 0 && d.age >= SpeciesTable.Of(d.species).adultAge
    ensures IsFertile(d, rf) ==> d.hp >= SpeciesTable.Of(d.species).breedFrom && Pregnant !in d.caps
    ensures d.species != Pterodactyl ==> (IsFertile(d, true) <==> IsFertile(d, false))
    ensures d.species == Pterodactyl ==> !IsFertile(d, false)
    ensures Pregnant in d.caps ==> !IsFertile(d, rf)
    ensures IsThirsty(d) <==> d.water < 40
  {
  }

  /** toString: "name[id]". */
  function Describe(d: Dino): string { d.name + "[" + IntToString(d.id) + "]" }

  function Upper(c: char): char { if 'a' <= c <= 'z' then (c as int - 32) as char else c }

  function Lower(c: char): char { if 'A' <= c <= 'Z' then (c as int + 32) as char else c }

  // ----- getNewDino -----

  /**
   * The validating static factory getNewDino(growthStage, gender) of each species,
   * given the id the constructor draws from the counter.
   */
  function GetNewDino(sp: Species, growthStage: string, gender: char, id: int): (r: Result<Dino>)
    ensures r.Err? <==> (gender != 'M' && gender != 'F') || (growthStage != "baby" && growthStage != "adult")
    ensures r.Err? ==> r.error == IllegalArgument
    ensures r.Ok? ==> r.value.species == sp && r.value.id == id
    ensures r.Ok? ==> (Female in r.value.caps <==> gender == 'F')
    ensures r.Ok? ==> r.value.caps - {Female} == SpeciesTable.Of(sp).caps
    ensures r.Ok? ==> r.value.turnsPregnant == 0 && r.value.turnsUnconscious == 0
    ensures r.Ok? ==> r.value.blacklist == map[] && r.value.flyingTurns == 0
    ensures r.Ok? && growthStage == "baby" ==>
      r.value.hp == SpeciesTable.Of(sp).babyHp && r.value.water == SpeciesTable.Of(sp).babyWater && r.value.age == 0
      && r.value.name == "Baby " + SpeciesTable.Of(sp).name && r.value.display == Lower(SpeciesTable.Of(sp).displayChar)
    ensures r.Ok? && growthStage == "adult" ==>
      r.value.hp == SpeciesTable.Of(sp).adultHp && r.value.water == SpeciesTable.Of(sp).adultWater
      && r.value.age == SpeciesTable.Of(sp).adultAge
      && r.value.name == SpeciesTable.Of(sp).name && r.value.display == SpeciesTable.Of(sp).displayChar
  {
    var desc := SpeciesTable.Of(sp);
    if gender != 'M' && gender != 'F' then Err(IllegalArgument)
    else if growthStage != "baby" && growthStage != "adult" then Err(IllegalArgument)
    else
      var caps := desc.caps + (if gender == 'F' then {Female} else {});
      if growthStage == "baby" then
        Ok(Dino(sp, id, "Baby " + desc.name, Lower(desc.displayChar), desc.babyHp, desc.babyWater, 0, 0, 0, caps, map[], 0))
      else
        Ok(Dino(sp, id, desc.name, desc.displayChar, desc.adultHp, desc.adultWater, desc.adultAge, 0, 0, caps, map[], 0))
  }

  /**
   * What a fresh dinosaur is: a baby is not adult, an adult is, and both are
   * conscious, not pregnant and within their maxima.
   */
  lemma NewDinoIsWellFormed(sp: Species, gender: char, id: int)
    requires gender == 'M' || gender == 'F'
    ensures var b := GetNewDino(sp, "baby", gender, id);
      b.Ok? && !IsAdult(b.value) && IsConscious(b.value) && Pregnant !in b.value.caps
      && b.value.hp <= MaxHp(b.value) && b.value.water <= MaxWater(b.value)
    ensures var a := GetNewDino(sp, "adult", gender, id);
      a.Ok? && IsAdult(a.value) && IsConscious(a.value) && Pregnant !in a.value.caps
      && a.value.hp <= MaxHp(a.value) && a.value.water <= MaxWater(a.value)
    ensures GetNewDino(Stegosaur, "adult", gender, id).Ok? && IsHungry(GetNewDino(Stegosaur, "adult", gender, id).value)
  {
  }

  /** The static dinoCounter: each constructed dinosaur takes the next id. */
  class IdGenerator {
    var last: int

    constructor ()
      ensures last == 0
    {
      last := 0;
    }

    /** `++dinoCounter`. */
    method Next() returns (id: int)
      modifies this
      ensures id == old(last) + 1 && last == id
    {
      last := last + 1;
      id := last;
    }

    /**
     * getNewDino: the id is drawn only once the arguments are valid, because
     * the constructor runs after the checks.
     */
    method NewDino(sp: Species, growthStage: string, gender: char) returns (r: Result<Dino>)
      modifies this
      ensures r.Ok? ==> last == old(last) + 1 && r == GetNewDino(sp, growthStage, gender, last)
      ensures r.Err? ==> last == old(last) && r == GetNewDino(sp, growthStage, gender, last)
    {
      if (gender != 'M' && gender != 'F') || (growthStage != "baby" && growthStage != "adult") {
        r := GetNewDino(sp, growthStage, gender, last);
      } else {
        var id := Next();
        r := GetNewDino(sp, growthStage, gender, id);
      }
    }

    /** getEgg: an egg of the species holding a freshly created baby of the given gender. */
    method NewEgg(sp: Species, female: bool) returns (e: Item)
      modifies this
      ensures last == old(last) + 1
      ensures e == Items.NewEgg(sp, last, female)
    {
      var id := Next();
      e := Items.NewEgg(sp, id, female);
    }
  }

  /** The baby dinosaur an egg hatches into. */
  function Hatchling(e: Item): (d: Dino)
    requires e.Egg?
    ensures GetNewDino(e.species, "baby", if e.babyFemale then 'F' else 'M', e.babyId) == Ok(d)
  {
    GetNewDino(e.species, "baby", if e.babyFemale then 'F' else 'M', e.babyId).value
  }

  // ----- the Allosaur blacklist -----

  /** addToBlacklist: the prey's count is set to 0, overwriting any earlier count. */
  function AddToBlacklist(d: Dino, preyId: int): (r: Dino)
    ensures preyId in r.blacklist && r.blacklist[preyId] == 0
    ensures r.blacklist.Keys == d.blacklist.Keys + {preyId}
    ensures forall k :: k in d.blacklist && k != preyId ==> r.blacklist[k] == d.blacklist[k]
    ensures r.(blacklist := d.blacklist) == d
  {
    d.(blacklist := d.blacklist[preyId := 0])
  }

  lemma LeastExists(s: set<int>)
    requires s != {}
    ensures exists m :: m in s && forall y :: y in s ==> m <= y
  {
    var x := Collections.Pick(s);
    if s != {x} {
      LeastExists(s - {x});
      var m :| m in s - {x} && forall y :: y in s - {x} ==> m <= y;
      var least := if x < m then x else m;
      forall y | y in s
        ensures least <= y
      {
        if y != x {
          assert y in s - {x};
        }
      }
      assert least in s;
    } else {
      assert forall y :: y in s ==> x <= y;
    }
  }

  /** The least element of a non-empty set of integers. */
  function Least(s: set<int>): (m: int)
    requires s != {}
    ensures m in s && forall y :: y in s ==> m <= y
  {
    LeastExists(s);
    var m :| m in s && forall y :: y in s ==> m <= y; m
  }

  /** The prey whose count has reached 20. */
  function TwentyKeys(bl: map<int, int>): set<int>
  {
    set k | k in bl && bl[k] == 20
  }

  /** The entry `values().remove(20)` drops, if any: here the value-20 entry with the least prey id. */
  function Victim(bl: map<int, int>): (v: Option<int>)
    ensures v.Some? ==> v.value in bl && bl[v.value] == 20
    ensures v.None? <==> TwentyKeys(bl) == {}
  {
    if TwentyKeys(bl) == {} then None else Some(Least(TwentyKeys(bl)))
  }

  /**
   * The blacklist part of Allosaur.playTurn: one entry whose count is 20 is
   * dropped, then every remaining count goes up by 1.
   */
  function AgedBlacklist(bl: map<int, int>): (r: map<int, int>)
    ensures r.Keys == (if Victim(bl).Some? then bl.Keys - {Victim(bl).value} else bl.Keys)
    ensures forall k :: k in r ==> r[k] == bl[k] + 1
  {
    var b := if Victim(bl).Some? then bl - {Victim(bl).value} else bl;
    map k | k in b :: b[k] + 1
  }

  /** The search for a count of 20 in Allosaur.playTurn, keeping the least such prey id. */
  method FindVictim(bl: map<int, int>) returns (victim: Option<int>)
    ensures victim == Victim(bl)
  {
    victim := None;
    var rest := bl.Keys;
    while rest != {}
      invariant rest <= bl.Keys
      invariant victim.None? ==> forall j :: j in bl && j !in rest ==> bl[j] != 20
      invariant victim.Some? ==> victim.value in bl && bl[victim.value] == 20
      invariant victim.Some? ==> forall j :: j in bl && j !in rest && bl[j] == 20 ==> victim.value <= j
      decreases |rest|
    {
      ghost var w := Collections.Pick(rest);
      var k :| k in rest;
      if bl[k] == 20 && (victim.None? || k < victim.value) {
        victim := Some(k);
      }
      rest := rest - {k};
    }
    if victim.Some? {
      assert victim.value in TwentyKeys(bl);
    } else {
      assert forall j :: j !in TwentyKeys(bl);
    }
  }

  /** The loop of Allosaur.playTurn that adds 1 to every blacklist count in place. */
  method IncrementAll(b: map<int, int>) returns (r: map<int, int>)
    ensures r.Keys == b.Keys
    ensures forall k :: k in r ==> r[k] == b[k] + 1
  {
    r := b;
    var todo := b.Keys;
    while todo != {}
      invariant todo <= b.Keys && r.Keys == b.Keys
      invariant forall k :: k in r ==> r[k] == (if k in todo then b[k] else b[k] + 1)
      decreases |todo|
    {
      ghost var w := Collections.Pick(todo);
      var k :| k in todo;
      r := r[k := r[k] + 1];
      todo := todo - {k};
    }
  }

  /** Allosaur.playTurn's blacklist update: drop the entry at 20, then age the rest. */
  method AgeBlacklist(bl: map<int, int>) returns (r: map<int, int>)
    ensures r == AgedBlacklist(bl)
  {
    var victim := FindVictim(bl);
    var b := if victim.Some? then bl - {victim.value} else bl;
    r := IncrementAll(b);
    assert r.Keys == AgedBlacklist(bl).Keys;
    assert forall k :: k in r ==> r[k] == AgedBlacklist(bl)[k];
  }

  /** The blacklist as it always is: counts within 0..20 and no two prey with the same count. */
  predicate BlacklistValid(bl: map<int, int>)
  {
    (forall k :: k in bl ==> 0 <= bl[k] <= 20)
    && (forall k1, k2 :: k1 in bl && k2 in bl && k1 != k2 ==> bl[k1] != bl[k2])
  }

  /** In a valid blacklist the only entry at 20, if there is one, is the one dropped. */
  lemma AtMostOneTwenty(bl: map<int, int>)
    requires BlacklistValid(bl)
    ensures forall k :: k in bl && bl[k] == 20 ==> Victim(bl) == Some(k)
  {
    forall k | k in bl && bl[k] == 20
      ensures Victim(bl) == Some(k)
    {
      assert k in TwentyKeys(bl);
    }
  }

  /**
   * With at most one prey attacked per turn the blacklist stays valid, so at most
   * one entry is ever at 20 and which entry `values().remove(20)` picks does not
   * matter; after ageing every count is at least 1, so a fresh 0 is distinct.
   */
  lemma BlacklistStaysValid(bl: map<int, int>, preyId: int)
    requires BlacklistValid(bl)
    ensures forall k :: k in bl && bl[k] == 20 ==> Victim(bl) == Some(k)
    ensures forall k :: k in AgedBlacklist(bl) ==> 1 <= AgedBlacklist(bl)[k] <= 20
    ensures BlacklistValid(AgedBlacklist(bl))
    ensures BlacklistValid(AgedBlacklist(bl)[preyId := 0])
  {
    AtMostOneTwenty(bl);
  }

  /**
   * The blacklist after a run of Allosaur turns: each turn ages it, then the
   * prey struck that turn, if any, is (re)entered at 0.
   */
  function AfterTurns(bl: map<int, int>, strikes: seq<Option<int>>): map<int, int>
    decreases |strikes|
  {
    if strikes == [] then bl
    else
      var aged := AgedBlacklist(AfterTurns(bl, strikes[..|strikes| - 1]));
      match strikes[|strikes| - 1]
      case None => aged
      case Some(q) => aged[q := 0]
  }

  /**
   * The cooldown: a prey entered at 0 and not struck again is still listed,
   * with the number of turns since, for the next 20 turns, and is dropped by
   * the ageing of the 21st.
   */
  lemma {:induction false} BlacklistCooldown(bl: map<int, int>, preyId: int, strikes: seq<Option<int>>)
    requires BlacklistValid(bl) && preyId in bl && bl[preyId] == 0
    requires |strikes| <= 20 && forall i :: 0 <= i < |strikes| ==> strikes[i] != Some(preyId)
    ensures BlacklistValid(AfterTurns(bl, strikes))
    ensures preyId in AfterTurns(bl, strikes) && AfterTurns(bl, strikes)[preyId] == |strikes|
    ensures |strikes| == 20 ==> preyId !in AgedBlacklist(AfterTurns(bl, strikes))
    decreases |strikes|
  {
    if strikes != [] {
      var prefix := strikes[..|strikes| - 1];
      assert forall i :: 0 <= i < |prefix| ==> prefix[i] == strikes[i];
      BlacklistCooldown(bl, preyId, prefix);
      var b := AfterTurns(bl, prefix);
      BlacklistStaysValid(b, if strikes[|strikes| - 1].Some? then strikes[|strikes| - 1].value else preyId);
      assert Victim(b) != Some(preyId);
      assert preyId in AgedBlacklist(b);
    }
    if |strikes| == 20 {
      AtMostOneTwenty(AfterTurns(bl, strikes));
    }
  }

  // ----- Pterodactyl flight -----

  /**
   * setFlyingTurns followed by playTurn's re-adding of FLY: 30 turns on
   * flight-recharging ground, otherwise one turn less while positive, and FLY
   * held exactly while turns remain.
   */
  function FlightUpdate(d: Dino, onRechargeGround: bool): (r: Dino)
    ensures r.flyingTurns == (if onRechargeGround then 30 else if d.flyingTurns > 0 then d.flyingTurns - 1 else d.flyingTurns)
    ensures Fly in r.caps <==> r.flyingTurns > 0
    ensures r.caps - {Fly} == d.caps - {Fly}
    ensures d.flyingTurns >= 0 ==> r.flyingTurns >= 0
    ensures r.(flyingTurns := d.flyingTurns, caps := d.caps) == d
  {
    var ft := if d.flyingTurns > 0 && !onRechargeGround then d.flyingTurns - 1 else d.flyingTurns;
    var ft' := if onRechargeGround then 30 else ft;
    var caps := if !onRechargeGround && ft' <= 0 then d.caps - {Fly} else d.caps;
    d.(flyingTurns := ft', caps := if ft' > 0 then caps + {Fly} else caps)
  }

  /** Off recharging ground a Pterodactyl with n flying turns can fly for exactly n more turns. */
  lemma {:induction false} FlightRunsOut(d: Dino, n: nat)
    requires d.flyingTurns >= 0
    ensures FlightTimes(d, n).flyingTurns == (if n <= d.flyingTurns then d.flyingTurns - n else 0)
    ensures n > 0 ==> (Fly in FlightTimes(d, n).caps <==> n < d.flyingTurns)
  {
    if n > 0 {
      FlightRunsOut(d, n - 1);
    }
  }

  function FlightTimes(d: Dino, n: nat): (r: Dino)
    decreases n
  {
    if n == 0 then d else FlightUpdate(FlightTimes(d, n - 1), false)
  }

  /** executePreEatingAction: a Pterodactyl lands (loses FLY); other species do nothing. */
  function PreEating(d: Dino): (r: Dino)
    ensures d.species == Pterodactyl ==> r == d.(caps := d.caps - {Fly})
    ensures d.species != Pterodactyl ==> r == d
  {
    if d.species == Pterodactyl then d.(caps := d.caps - {Fly}) else d
  }

  // ----- Allosaur attacks -----

  /** The weapon an actor attacks with. */
  datatype Weapon = Weapon(damage: int, verb: string)

  /**
   * Allosaur.getIntrinsicWeapon: an adult heals 20 and hits for 20, a baby heals
   * 10 and hits for 10.
   */
  function IntrinsicWeapon(d: Dino): (r: (Dino, Weapon))
    requires d.species == Allosaur
    ensures var amount := if IsAdult(d) then 20 else 10;
      r.1 == Weapon(amount, "attacks") && r.0 == Heal(d, amount)
  {
    if IsAdult(d) then (Heal(d, 20), Weapon(20, "attacks")) else (Heal(d, 10), Weapon(10, "attacks"))
  }

  /** getCorpse: "Dead <name>" with the species' maximum age and healing points. */
  function CorpseOf(d: Dino): (c: Item)
    ensures c == NewCorpse("Dead " + d.name, SpeciesTable.Of(d.species).corpseMaxAge, SpeciesTable.Of(d.species).corpseHealing)
    ensures c.Corpse? && c.age == 0 && c.name == "Dead " + d.name + " corpse"
  {
    NewCorpse("Dead " + d.name, SpeciesTable.Of(d.species).corpseMaxAge, SpeciesTable.Of(d.species).corpseHealing)
  }

  // ----- the start of playTurn -----

  /** The species-specific prelude: the Allosaur ages its blacklist, the Pterodactyl updates its flight. */
  function SpeciesPrelude(d: Dino, onRechargeGround: bool): (r: Dino)
    ensures d.species == Allosaur ==> r == d.(blacklist := AgedBlacklist(d.blacklist))
    ensures d.species == Pterodactyl ==> r == FlightUpdate(d, onRechargeGround)
    ensures d.species in {Stegosaur, Brachiosaur} ==> r == d
  {
    match d.species
    case Allosaur => d.(blacklist := AgedBlacklist(d.blacklist))
    case Pterodactyl => FlightUpdate(d, onRechargeGround)
    case _ => d
  }

  datatype Status = Awake | Unconscious | Dies

  /** The dinosaur after the vitals part of its turn, whether it lays an egg, and its state. */
  datatype Vitals = Vitals(dino: Dino, laysEgg: bool, status: Status)

  /**
   * Dinosaur.playTurn up to the behaviour loop: age, growth, pregnancy,
   * hit-point and water loss, and the consciousness check.
   */
  function Lifecycle(d: Dino, onRechargeGround: bool): (v: Vitals)
    ensures v.dino.age == d.age + 1
    ensures v.dino.hp == d.hp - 1 && v.dino.water == d.water - 1
    ensures v.dino.species == d.species && v.dino.id == d.id
    ensures v.dino.blacklist == d.blacklist && v.dino.flyingTurns == d.flyingTurns
    ensures v.laysEgg ==> Pregnant in d.caps
    ensures v.laysEgg <==>
      Pregnant in d.caps && SpeciesTable.IsGivingBirth(d.species, d.turnsPregnant + 1, onRechargeGround)
    ensures v.dino.turnsPregnant ==
      (if Pregnant !in d.caps then d.turnsPregnant else if v.laysEgg then 0 else d.turnsPregnant + 1)
    ensures v.dino.caps == (if v.laysEgg then d.caps - {Pregnant} else d.caps)
    ensures v.status.Awake? <==> IsConscious(v.dino)
    ensures v.status.Awake? ==> v.dino.turnsUnconscious == 0
    ensures !v.status.Awake? ==> v.dino.turnsUnconscious == d.turnsUnconscious + 1
    ensures v.status.Dies? <==>
      !IsConscious(v.dino) && d.turnsUnconscious + 1 >= SpeciesTable.Of(d.species).unconsciousLimit
    ensures IsAdult(v.dino) ==>
      v.dino.name == SpeciesTable.Of(d.species).name && v.dino.display == Upper(d.display)
    ensures !IsAdult(v.dino) ==> v.dino.name == d.name && v.dino.display == d.display
  {
    var d1 := d.(age := d.age + 1);
    var d2 := if IsAdult(d1) then d1.(name := SpeciesTable.Of(d.species).name, display := Upper(d1.display)) else d1;
    var pregnant := Pregnant in d2.caps;
    var tp := if pregnant then d2.turnsPregnant + 1 else d2.turnsPregnant;
    var lays := pregnant && SpeciesTable.IsGivingBirth(d.species, tp, onRechargeGround);
    var d3 := d2.(turnsPregnant := if lays then 0 else tp, caps := if lays then d2.caps - {Pregnant} else d2.caps);
    var d4 := Dehydrate(Hurt(d3, 1), 1);
    if !IsConscious(d4) then
      var d5 := d4.(turnsUnconscious := d4.turnsUnconscious + 1);
      Vitals(d5, lays, if !SpeciesTable.IsAlive(d.species, d5.turnsUnconscious) then Dies else Unconscious)
    else
      Vitals(d4.(turnsUnconscious := 0), lays, Awake)
  }

  /** n turns in which the dinosaur neither eats nor drinks nor dies. */
  function Starve(d: Dino, n: nat): (r: Dino)
    decreases n
  {
    if n == 0 then d else Lifecycle(Starve(d, n - 1), false).dino
  }

  /**
   * Without food or water, once unconscious a dinosaur stays unconscious, the
   * counter rises by one each turn, and it dies on exactly the turn the counter
   * reaches the species threshold.
   */
  lemma {:induction false} DiesAtThreshold(d: Dino, n: nat)
    requires !IsConscious(d) && d.turnsUnconscious == 0
    ensures Starve(d, n).species == d.species && !IsConscious(Starve(d, n))
    ensures Starve(d, n).turnsUnconscious == n
    ensures Starve(d, n).hp == d.hp - n && Starve(d, n).water == d.water - n
    ensures var s := Lifecycle(Starve(d, n), false).status;
      !s.Awake? && (s.Dies? <==> n + 1 >= SpeciesTable.Of(d.species).unconsciousLimit)
  {
    if n > 0 {
      DiesAtThreshold(d, n - 1);
    }
  }

  /** A pregnant dinosaur lays its egg after exactly `gestation` turns (on recharging ground for a Pterodactyl). */
  lemma {:induction false} LaysEggWhenDue(d: Dino, n: nat)
    requires Pregnant in d.caps && d.turnsPregnant == 0
    requires n < SpeciesTable.Of(d.species).gestation
    ensures Pregnancy(d, n).species == d.species
    ensures Pregnant in Pregnancy(d, n).caps && Pregnancy(d, n).turnsPregnant == n
    ensures n + 1 == SpeciesTable.Of(d.species).gestation ==> Lifecycle(Pregnancy(d, n), true).laysEgg
    ensures n + 1 < SpeciesTable.Of(d.species).gestation ==> !Lifecycle(Pregnancy(d, n), true).laysEgg
  {
    if n > 0 {
      LaysEggWhenDue(d, n - 1);
    }
  }

  /** n turns of pregnancy spent on flight-recharging ground. */
  function Pregnancy(d: Dino, n: nat): (r: Dino)
    decreases n
  {
    if n == 0 then d else Lifecycle(Pregnancy(d, n - 1), true).dino
  }

  // ----- the Feed actions a dinosaur offers -----

  /** A FeedAction on offer: the inventory slot and the tuple fixed at construction. */
  datatype FeedOffer = FeedOffer(slot: nat, food: int, water: int)

  /**
   * Dinosaur.getAllowableActions for the player: each consumable in the inventory
   * whose tuple is non-null becomes a FeedAction. The check visits the item once
   * and the FeedAction constructor visits it again, so a corpse offered to a
   * Pterodactyl loses 20 healing points per call.
   */
  function FeedOffers(sp: Species, inventory: seq<Item>, from: nat): (r: (seq<FeedOffer>, seq<Item>))
    requires from <= |inventory|
    ensures |r.1| == |inventory| && r.1[..from] == inventory[..from]
    ensures forall o :: o in r.0 ==> from <= o.slot < |inventory|
    decreases |inventory| - from
  {
    if from == |inventory| then ([], inventory)
    else
      var it := inventory[from];
      if !IsConsumable(it) then FeedOffers(sp, inventory, from + 1)
      else
        var first := Consumables.Resolve(it, sp);
        if first.points.None? then FeedOffers(sp, inventory[from := first.after], from + 1)
        else
          var second := Consumables.Resolve(first.after, sp);
          var rest := FeedOffers(sp, inventory[from := second.after], from + 1);
          ([FeedOffer(from, second.points.value.food, second.points.value.water)] + rest.0, rest.1)
  }

  /** An item is offered exactly when it is a consumable the species can eat. */
  lemma {:induction false} FeedOffersSpec(sp: Species, inventory: seq<Item>, from: nat, slot: nat)
    requires from <= slot < |inventory|
    ensures (exists o :: o in FeedOffers(sp, inventory, from).0 && o.slot == slot) <==>
      IsConsumable(inventory[slot]) && Consumables.Applies(inventory[slot], sp)
    decreases |inventory| - from
  {
    var it := inventory[from];
    if from < slot {
      var inv' := if IsConsumable(it) then
        (var first := Consumables.Resolve(it, sp);
         if first.points.None? then inventory[from := first.after]
         else inventory[from := Consumables.Resolve(first.after, sp).after])
        else inventory;
      assert inv'[slot] == inventory[slot];
      FeedOffersSpec(sp, inv', from + 1, slot);
    } else {
      if IsConsumable(it) {
        Consumables.ResolveDefinedExactly(it, sp);
        var first := Consumables.Resolve(it, sp);
        if first.points.Some? {
          var o := FeedOffer(from, Consumables.Resolve(first.after, sp).points.value.food,
                                   Consumables.Resolve(first.after, sp).points.value.water);
          assert o in FeedOffers(sp, inventory, from).0;
        }
      }
    }
  }
}
