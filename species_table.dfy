/**
 * The per-species descriptor: the constants and threshold predicates that each
 * Dinosaur subclass (Stegosaur, Brachiosaur, Allosaur, Pterodactyl) hard-codes.
 */
module SpeciesTable {
  import opened Tags

  /** One step of a dinosaur's behaviour chain (its actionFactories array). */
  datatype Behaviour =
    | RechargeSkill(skill: ActorCap, groundId: GroundCap)
    | Mating
    | Thirsty
    | Preying
    | Hungry
    | Wander

  /** The item classes a dinosaur's getValidFoods can name. */
  datatype ItemClass = FruitClass | EggClass | CorpseClass | FishClass
                     | WaterBottleClass | VegetarianMealKitClass | CarnivoreMealKitClass | LaserGunClass

  datatype Descriptor = Descriptor(
    name: string,
    displayChar: char,      // upper case; a baby shows it in lower case
    maxHp: int,
    maxWater: int,
    adultAge: int,
    babyHp: int,
    babyWater: int,
    adultHp: int,
    adultWater: int,
    hungryBelow: int,       // isHungry: hit points < hungryBelow
    breedFrom: int,         // canBreed: hit points >= breedFrom
    unconsciousLimit: int,  // isAlive: turnsBeingUnconscious < unconsciousLimit
    gestation: int,         // isGivingBirth: turnsBeingPregnant >= gestation
    corpseMaxAge: int,
    corpseHealing: int,
    caps: set<ActorCap>,    // capabilities added by the private constructor
    chain: seq<Behaviour>,  // actionFactories, highest priority first
    validFoods: set<ItemClass>)

  function Of(sp: Species): Descriptor
  {
    match sp
    case Stegosaur =>
      Descriptor("Stegosaur", 'S', 100, 100, 30, 10, 30, 50, 60, 90, 50, 20, 10, 40, 50,
                 {Short, Prey}, [Mating, Thirsty, Hungry, Wander], {FruitClass})
    case Brachiosaur =>
      Descriptor("Brachiosaur", 'B', 160, 200, 50, 10, 40, 100, 60, 140, 70, 15, 30, 40, 100,
                 {Tall, CrushGround}, [Mating, Thirsty, Hungry, Wander], {})
    case Allosaur =>
      Descriptor("Allosaur", 'A', 100, 100, 50, 20, 30, 80, 60, 90, 50, 15, 20, 20, 50,
                 {}, [Mating, Thirsty, Preying, Hungry, Wander], {EggClass, CorpseClass})
    case Pterodactyl =>
      Descriptor("Pterodactyl", 'P', 100, 100, 30, 10, 30, 50, 60, 90, 50, 20, 10, 40, 30,
                 {Tiny, Prey}, [RechargeSkill(Fly, RechargeFlight), Mating, Thirsty, Hungry, Wander],
                 {CorpseClass, EggClass})
  }

  /** Only Allosaur implements Huntable. */
  predicate IsHuntable(sp: Species) { sp == Allosaur }

  predicate IsAdult(sp: Species, age: int) { age >= Of(sp).adultAge }

  predicate IsHungry(sp: Species, hp: int) { hp < Of(sp).hungryBelow }

  predicate CanBreed(sp: Species, hp: int) { hp >= Of(sp).breedFrom }

  predicate IsAlive(sp: Species, turnsUnconscious: int) { turnsUnconscious < Of(sp).unconsciousLimit }

  /** isGivingBirth; a Pterodactyl must also stand on flight-recharging ground. */
  predicate IsGivingBirth(sp: Species, turnsPregnant: int, onRechargeGround: bool)
  {
    turnsPregnant >= Of(sp).gestation && (sp == Pterodactyl ==> onRechargeGround)
  }

  lemma StegosaurDescriptor()
    ensures forall a :: IsAdult(Stegosaur, a) <==> a >= 30
    ensures forall h :: IsHungry(Stegosaur, h) <==> h < 90
    ensures forall h :: CanBreed(Stegosaur, h) <==> h >= 50
    ensures forall u :: IsAlive(Stegosaur, u) <==> u < 20
    ensures forall p, g :: IsGivingBirth(Stegosaur, p, g) <==> p >= 10
    ensures Of(Stegosaur).caps == {Short, Prey} && Of(Stegosaur).validFoods == {FruitClass}
    ensures Of(Stegosaur).corpseMaxAge == 40 && Of(Stegosaur).corpseHealing == 50
    // a fresh adult (50 hit points) is already hungry
    ensures IsHungry(Stegosaur, Of(Stegosaur).adultHp)
  {
  }

  lemma BrachiosaurDescriptor()
    ensures forall a :: IsAdult(Brachiosaur, a) <==> a >= 50
    ensures forall h :: IsHungry(Brachiosaur, h) <==> h < 140
    ensures forall h :: CanBreed(Brachiosaur, h) <==> h >= 70
    ensures forall u :: IsAlive(Brachiosaur, u) <==> u < 15
    ensures forall p, g :: IsGivingBirth(Brachiosaur, p, g) <==> p >= 30
    ensures Of(Brachiosaur).maxHp == 160 && Of(Brachiosaur).maxWater == 200
    ensures Of(Brachiosaur).caps == {Tall, CrushGround}
    ensures Preying !in Of(Brachiosaur).chain
    ensures Of(Brachiosaur).corpseMaxAge == 40 && Of(Brachiosaur).corpseHealing == 100
  {
  }

  lemma AllosaurDescriptor()
    ensures forall a :: IsAdult(Allosaur, a) <==> a >= 50
    ensures forall h :: IsHungry(Allosaur, h) <==> h < 90
    ensures forall h :: CanBreed(Allosaur, h) <==> h >= 50
    ensures forall u :: IsAlive(Allosaur, u) <==> u < 15
    ensures forall p, g :: IsGivingBirth(Allosaur, p, g) <==> p >= 20
    ensures Of(Allosaur).chain == [Mating, Thirsty, Preying, Hungry, Wander]
    ensures Of(Allosaur).validFoods == {EggClass, CorpseClass}
    ensures Of(Allosaur).corpseMaxAge == 20 && Of(Allosaur).corpseHealing == 50
  {
  }

  lemma PterodactylDescriptor()
    ensures forall a :: IsAdult(Pterodactyl, a) <==> a >= 30
    ensures forall h :: IsHungry(Pterodactyl, h) <==> h < 90
    ensures forall u :: IsAlive(Pterodactyl, u) <==> u < 20
    ensures forall p, g :: IsGivingBirth(Pterodactyl, p, g) <==> p >= 10 && g
    ensures Of(Pterodactyl).caps == {Tiny, Prey}
    ensures Of(Pterodactyl).chain[0] == RechargeSkill(Fly, RechargeFlight)
  {
  }

  /** Every species' chain ends with Wander, and only Huntable species prey. */
  lemma ChainShape(sp: Species)
    ensures |Of(sp).chain| >= 4 && Of(sp).chain[|Of(sp).chain| - 1] == Wander
    ensures Preying in Of(sp).chain <==> IsHuntable(sp)
  {
  }
}
