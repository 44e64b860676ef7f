# Designosaurs, modelled in Dafny

Designosaurs is a turn-based dinosaur park. Four species (Stegosaur, Brachiosaur,
Allosaur, Pterodactyl) live on a grid of locations. Each turn a dinosaur ages,
gets hungrier and thirstier, and may lay an egg, fall unconscious or die. It
then asks its behaviours, highest priority first, for an action: mate, drink,
hunt, eat or wander. The player feeds the dinosaurs and earns eco points. The
player spends eco points at a vending machine. A challenge game is won by
reaching a number of eco points within a number of turns.

This project models the per-turn logic of the game and proves what that logic
promises.

## How the model is built

- **The world is a table of locations.**
  - It is a `seq<Loc>`, and a location is named by its index.
  - Each `Loc` holds its coordinates, a `Ground`, an optional actor (the player
    or a `Dino` value), its items, and its exits.
  - Each exit has a name, a hot key and a destination index.
  - Several game maps joined by `connectMaps` are one table.
  - An actor is identified by the location it stands on.
- **Entities whose fields the game updates in place are classes.**
  - `Actions.Board` holds the location table. Its methods (mate, lay an egg,
    drink, eat, feed, die, hatch, tick an item) reassign the table. Each method
    states its new state through a pure function of the old table.
  - `Players.Player` holds the eco-point balance and the inventory.
  - `Dinosaurs.IdGenerator` is the static `dinoCounter`.
  - `Locations.LocationIterator` is `GameLocationIterator`: a FIFO queue and a
    visited set.
  - `GameWorlds.World` holds the turn counter and the challenge limits.
  - `Shooting.ShootAction` holds the target fixed when the action is created.
- **Dinosaurs, grounds and items are values.**
  - `Dino`, `Ground` and `Item` are datatypes.
  - The per-species constants and thresholds are one descriptor table
    (`SpeciesTable.Of`).
  - The visitor double dispatch of `ConsumableItem.visit` is one resolver function
    (`Consumables.Resolve`).
- **A behaviour is a function from the table to an action.**
  - Each behaviour's contract says which location it picks in the
    nearest-first `Locations.Search` order, and why.
  - `Turns` runs the behaviour chain on the board.
  - PreyingBehaviour changes the world while deciding: it devours small prey, or
    blacklists the prey it attacks.
- **Randomness is a parameter.** The following draws are inputs, not random
  calls:
  - the wandering pick;
  - the lake's fish draw;
  - the rain roll and the rainfall;
  - the three draws of `updateLocation`;
  - the gender of a laid egg's baby.
  - The rounds of `GameWorld.run` are bounded by the number of weather draws supplied.
- **Where the code and its documentation count differently, the model follows the code.**
  - `Dinosaurs.BlacklistCooldown`: a struck prey is skipped on the 20 turns after the strike and can be hunted again on the 21st, as the comment at src/game/dinosaurs/Allosaur.java:201-203 says. A reading of the rule as "excluded for 19 turns, eligible on the 20th" is one turn short.
  - `Behaviours.PreyLocation`: the prey loop at src/game/dinosaurs/PreyingBehaviour.java:43-46 has no break, so the chosen prey is the last with prey in search order, the farthest, not the nearest.
- **Java's exceptions and null answers are values.**
  - Exceptions are `Err` (`Wrappers.Result`), carrying the exception kind.
  - Null answers are `None` (`Wrappers.Option`).

## Model

| member | source | states |
|---|---|---|
| Locations.Bfs | src/game/GameLocation.java:77-93 | the locations the iterator still has to yield stay in range; there is one exactly when the queue is non-empty, and the first is the head of the queue |
| Locations.StepQueue | src/game/GameLocation.java:82-88 | after one call of next the queue is the old queue without its head, followed by distinct destinations of the head that were unvisited, admit the observer and are now marked; the head is marked too |
| Locations.StepProgress | src/game/GameLocation.java:77-93 | every call of next either marks a new location or shortens the queue, so the iteration ends |
| Locations.SearchStartsHere | src/game/GameLocation.java:52-57 | the search from a location yields that location first |
| Locations.SearchOnce | src/game/GameLocation.java:82-88 | no location is yielded twice, because destinations are marked visited when they are enqueued |
| Locations.BfsDistinct | src/game/GameLocation.java:82-88 | from a queue of distinct locations whose tail is already marked, every yielded location is distinct, and each was either queued or not yet visited |
| Locations.SearchTree | src/game/GameLocation.java:83-88 | every yielded location after the start is an exit destination of a location yielded before it, one hop further from the start |
| Locations.SearchTrace | src/game/GameLocation.java:83-88 | the yielded locations form a breadth-first tree rooted at the start: each has a recorded parent earlier in the order, to which it is adjacent |
| Locations.BfsTree | src/game/GameLocation.java:81-88 | locations queued off an already yielded history are yielded as a tree hanging off that history, one level deeper than their parent |
| Locations.BfsClosed | src/game/GameLocation.java:81-88 | once the queue runs dry, the locations yielded are closed under the exits the observer may take, provided every marked location was yielded or queued and every exit of a yielded location was marked |
| Locations.SearchReachesAll | src/game/GameLocation.java:77-93 | the search misses nothing reachable: every exit destination of a yielded location that admits the observer is yielded too |
| Locations.SearchAdmits | src/game/GameLocation.java:85-86 | when an actor stands at the start, every later yielded location has a ground that admits that actor |
| Locations.BfsAdmits | src/game/GameLocation.java:85-86 | if every queued location admits the observer, so does every location yielded from that queue |
| Locations.SearchDepthsSorted | src/game/GameLocation.java:81-87 | the hop depths of the yielded locations start at 0 and never decrease, since the queue is FIFO |
| Locations.BfsDepthsSorted | src/game/GameLocation.java:81-87 | from a queue whose depths are sorted and at most one apart, the yielded depths are sorted and never below the head's |
| Locations.LocationIterator.constructor | src/game/GameLocation.java:118-120 | the fresh iterator's queue holds the start alone, nothing is visited, the observer is the actor standing at the start, and what remains is the whole search |
| Locations.LocationIterator.HasNext | src/game/GameLocation.java:66-68 | true exactly when something remains to be yielded |
| Locations.LocationIterator.Next | src/game/GameLocation.java:77-93 | an empty queue returns None and changes nothing; otherwise the head is returned and dequeued, and each unvisited destination the observer may enter is enqueued and marked; what remains shrinks by exactly the returned location |
| Locations.CountNeighbour | src/game/GameLocation.java:152-156 | the count never exceeds the number of exits |
| Locations.UpdatedGround | src/game/GameLocation.java:136-144 | the ground after updateLocation is the old ground, a new Bush or Dirt |
| Locations.CountNeighbourSpec | src/game/GameLocation.java:152-156 | the count is at most the number of exits; it is 0 exactly when no exit's ground has the capability, and all of them exactly when every exit's ground has it |
| Locations.CountNeighbourAppend | src/game/GameLocation.java:152-156 | counting over two exit lists joined adds their counts |
| Locations.UpdatedGroundCases | src/game/GameLocation.java:136-144 | the ground stays, becomes a Bush (only on fertile ground with no blocking neighbour, by the neighbour rule or the 1% draw) or becomes Dirt (only where no bush may sprout, a ground-crushing actor stands, the ground is crushable and the coin says so); the crush branch is never taken when the sprout test holds |
| Distances.BetweenIsMaximum | src/game/ComputeDistance.java:22 | the distance is at least each coordinate difference and equals one of them |
| Distances.Symmetric | src/game/ComputeDistance.java:22 | the distance does not depend on the order of the two locations |
| Distances.ZeroIffSame | src/game/ComputeDistance.java:22 | the distance is 0 exactly when both coordinates agree |
| Distances.Triangle | src/game/ComputeDistance.java:22 | the distance satisfies the triangle inequality |
| SpeciesTable.StegosaurDescriptor | src/game/dinosaurs/Stegosaur.java:139-185 | adult from age 30, can breed from 50 hp, alive while unconscious under 20 turns, gives birth after 10 pregnant turns; SHORT and PREY; eats only Fruit; corpse (40, 50); a fresh adult is already hungry |
| SpeciesTable.BrachiosaurDescriptor | src/game/dinosaurs/Brachiosaur.java:143-189 | adult from 50, hungry below 140 hp, can breed from 70, alive under 15, birth after 30; maxima 160 hp and 200 water; TALL and CRUSH_GROUND; no predation in its chain; corpse (40, 100) |
| SpeciesTable.AllosaurDescriptor | src/game/dinosaurs/Allosaur.java:231-277 | adult from 50, hungry below 90, can breed from 50, alive under 15, birth after 20; chain Mating, Thirsty, Preying, Hungry, Wander; eats Egg and Corpse; corpse (20, 50) |
| SpeciesTable.PterodactylDescriptor | src/game/dinosaurs/Pterodactyl.java:87-279 | adult from 30, hungry below 90, alive under 20, gives birth after 10 turns only on RECHARGE_FLIGHT ground; TINY and PREY; its chain starts with RechargeSkill(FLY, RECHARGE_FLIGHT) |
| SpeciesTable.ChainShape | src/game/dinosaurs/Dinosaur.java:163-168 | every species' chain has at least four steps and ends with Wander, and a chain holds Preying exactly for the Huntable species |
| Dinosaurs.Hurt | src/game/dinosaurs/Dinosaur.java:143 | hurt changes only the hit points: they drop by exactly the amount, so they go down exactly when the amount is positive |
| Dinosaurs.Heal | src/game/dinosaurs/FeedAction.java:73-74 | heal changes only the hit points: they rise by the amount while that stays within the maximum, and are set to the maximum otherwise |
| Dinosaurs.HealAfterHurt | src/game/dinosaurs/PreyingBehaviour.java:60-64 | healing a dinosaur within its maximum by what it was just hurt restores it exactly, and a heal by the maximum fills any dinosaur whose hit points are not negative |
| Dinosaurs.Dehydrate | src/game/dinosaurs/Dinosaur.java:308-310 | dehydrate changes only the water level: it drops by exactly the amount, with no lower bound |
| Dinosaurs.QuenchThirst | src/game/dinosaurs/Dinosaur.java:319-322 | quenchThirst changes only the water level: it rises by the amount while that stays within the maximum, and is set to the maximum otherwise |
| Dinosaurs.QuenchThirstSpec | src/game/dinosaurs/Dinosaur.java:308-322 | quenchThirst sets water to min(water + p, max) and changes nothing else; two drinks add up; dehydrate subtracts with no lower bound |
| Dinosaurs.WaterBottleFills | src/game/items/WaterBottle.java:56-58 | the bottle's tuple (0, max water) fills any non-negative water level exactly to the maximum |
| Dinosaurs.FertilitySpec | src/game/dinosaurs/Dinosaur.java:348-350 | a fertile dinosaur is conscious, adult, able to breed and not pregnant; ground matters only to a Pterodactyl, which must stand on recharging ground; thirsty exactly below 40 water |
| Dinosaurs.GetNewDino | src/game/dinosaurs/Allosaur.java:104-121 | an invalid gender or growth stage is an IllegalArgumentException; otherwise the species's baby or adult hit points, water, age, name and display, FEMALE exactly for 'F', the species' capabilities, zeroed counters, the given id |
| Dinosaurs.NewDinoIsWellFormed | src/game/dinosaurs/Stegosaur.java:105-113 | a new baby is not adult and a new adult is; both are conscious, not pregnant and within their maxima; a new adult Stegosaur is hungry |
| Dinosaurs.IdGenerator.constructor | src/game/dinosaurs/Dinosaur.java:82 | the counter starts at 0 |
| Dinosaurs.IdGenerator.Next | src/game/dinosaurs/Dinosaur.java:82 | each id is the previous counter plus one, and the counter moves to it |
| Dinosaurs.IdGenerator.NewDino | src/game/dinosaurs/Brachiosaur.java:94-108 | a rejected request leaves the counter alone; an accepted one draws exactly one new id for the dinosaur |
| Dinosaurs.IdGenerator.NewEgg | src/game/items/Egg.java:58-87 | an egg holds a fresh baby that took the next id |
| Dinosaurs.Hatchling | src/game/items/Egg.java:128-132 | the dinosaur that hatches is the baby of the egg's species, gender and id |
| Dinosaurs.AddToBlacklist | src/game/dinosaurs/Allosaur.java:155-157 | the prey's count becomes 0, overwriting any earlier count; every other entry and the rest of the dinosaur keep their values |
| Dinosaurs.Victim | src/game/dinosaurs/Allosaur.java:214-219 | names an entry whose count is 20, and exists exactly when there is one |
| Dinosaurs.AgedBlacklist | src/game/dinosaurs/Allosaur.java:214-219 | at most one entry at 20 is dropped, and every remaining count goes up by one |
| Dinosaurs.FindVictim | src/game/dinosaurs/Allosaur.java:214-219 | the search over the entries finds exactly the victim |
| Dinosaurs.IncrementAll | src/game/dinosaurs/Allosaur.java:214-219 | the loop adds 1 to every count and keeps the keys |
| Dinosaurs.AgeBlacklist | src/game/dinosaurs/Allosaur.java:214-219 | the blacklist update of playTurn gives exactly the aged blacklist |
| Dinosaurs.AtMostOneTwenty | src/game/dinosaurs/Allosaur.java:214-219 | in a valid blacklist any entry at 20 is the one dropped |
| Dinosaurs.BlacklistCooldown | src/game/dinosaurs/Allosaur.java:201-219 | a prey entered at 0 and not struck again stays listed, with the number of turns since, for the next 20 turns, and the ageing of the 21st turn drops it; the blacklist stays valid on the way |
| Dinosaurs.BlacklistStaysValid | src/game/dinosaurs/Allosaur.java:155-219 | ageing keeps a valid blacklist valid with counts in 1..20, and blacklisting one new prey at 0 keeps it valid, so which entry at 20 is dropped never matters |
| Dinosaurs.FlightUpdate | src/game/dinosaurs/Pterodactyl.java:177-197 | 30 flying turns on recharging ground, otherwise one less while positive; FLY held exactly while turns remain; the counter never goes negative from a non-negative start; nothing else changes |
| Dinosaurs.FlightRunsOut | src/game/dinosaurs/Pterodactyl.java:190-197 | off recharging ground a Pterodactyl with n flying turns flies for exactly n more turns |
| Dinosaurs.PreEating | src/game/dinosaurs/Pterodactyl.java:203-205 | a Pterodactyl loses FLY before eating; other species do nothing |
| Dinosaurs.IntrinsicWeapon | src/game/dinosaurs/Allosaur.java:190-199 | an adult heals 20 and hits for 20, a baby heals 10 and hits for 10 |
| Dinosaurs.CorpseOf | src/game/dinosaurs/Allosaur.java:295-297 | the corpse is "Dead name corpse" at age 0, with the species' maximum age and healing |
| Dinosaurs.SpeciesPrelude | src/game/dinosaurs/Allosaur.java:214-219 | the Allosaur ages its blacklist and the Pterodactyl updates its flight before the common turn; the others are unchanged |
| Dinosaurs.Lifecycle | src/game/dinosaurs/Dinosaur.java:118-153 | age +1 with adult renaming; the pregnancy counter advances only while pregnant and an egg is laid (PREGNANT dropped, counter reset) exactly when birth is due; hp and water -1; awake exactly when conscious (counter reset), else the unconscious counter +1, dying exactly at the species threshold |
| Dinosaurs.DiesAtThreshold | src/game/dinosaurs/Dinosaur.java:146-153 | left without food or water, an unconscious dinosaur stays unconscious, its counter rises by one a turn, and it dies on exactly the turn the counter reaches the species threshold |
| Dinosaurs.LaysEggWhenDue | src/game/dinosaurs/Dinosaur.java:134-140 | a pregnant dinosaur lays its egg on exactly the turn its pregnancy counter reaches the gestation |
| Dinosaurs.FeedOffers | src/game/dinosaurs/Dinosaur.java:185-189 | offers only slots of the inventory, and leaves the inventory's length and the slots before the scan alone |
| Dinosaurs.FeedOffersSpec | src/game/dinosaurs/Dinosaur.java:185-189 | an inventory slot is offered as a FeedAction exactly when it holds a consumable the species can eat |
| Items.NewEgg | src/game/items/Egg.java:50 | a new egg starts at age 0 and holds the baby's species and id |
| Items.NewCorpse | src/game/items/Corpse.java:40-45 | a corpse's name gets a " corpse" suffix and it starts at age 0 with the given limits |
| Items.Tick | src/game/items/Egg.java:116-120 | a fruit is removed exactly when it reaches age 15, a corpse exactly when it reaches its maximum age or has no healing left, and an egg hatches exactly when it is due and nobody stands on its location; a kept Fruit, Egg or Corpse is one tick older and keeps its kind; other items stay as they are |
| Items.FruitRotsAtFifteen | src/game/items/Fruit.java:54-58 | a fresh fruit survives 14 ticks and is removed by the 15th |
| Items.OccupiedEggNeverHatches | src/game/items/Egg.java:116-120 | an egg on an occupied location never hatches, however long it waits |
| Items.EggWaitsUntilDue | src/game/items/Egg.java:116-120 | a fresh egg on a free location stays an egg until its turn to hatch, and hatches then |
| Consumables.Default | src/game/items/ConsumableItem.java:36-74 | the default visits answer null and change nothing |
| Consumables.ResolveDefinedExactly | src/game/items/ConsumableItem.java:36-74 | a visit answers a tuple exactly for the pairs the item classes define, and null for every other pair |
| Consumables.ResolveSideEffect | src/game/items/Corpse.java:62-65 | the only visit that changes its item is a Pterodactyl at a corpse, which takes 10 healing points and answers (10, 0) |
| Consumables.CorpseVisitedRepeatedly | src/game/items/Corpse.java:62-65 | each Pterodactyl visit lowers the corpse's healing points by another 10 |
| Consumables.VisitTimes | src/game/items/Corpse.java:62-65 | repeated visits leave a consumable a consumable |
| Consumables.ResolveTable | src/game/items/Fruit.java:34-45 | the table entry by entry: Fruit (20, 0) for the herbivores; Fish (5, 0) for the Pterodactyl; WaterBottle (0, max water) for all; the meal kits (max hp, 0) for their diets; Egg (10, 0) for the carnivores; Corpse (healing, 0) for the Allosaur and (10, 0) for the Pterodactyl; null elsewhere |
| Grounds.NewLake | src/game/grounds/Lake.java:27-31 | a new lake has 25 sips and five fish |
| Grounds.GroundCaps | src/game/grounds/Bush.java:23-24 | Bush carries CRUSHABLE and SHORT_PLANT, Tree RECHARGE_FLIGHT and BLOCKS_SHORT_PLANT_GROWTH, Dirt FERTILE; Wall and VendingMachine admit no actor; a Lake admits exactly the flyers |
| Grounds.Matching | src/game/grounds/SearchableGround.java:75-86 | the items of one class never outnumber the list |
| Grounds.RemoveItems | src/game/grounds/SearchableGround.java:75-86 | the in-place removal loop removes and reports exactly what the removal specification does |
| Grounds.RemoveFirstCount | src/game/grounds/SearchableGround.java:75-86 | removeItems reports min(quantity, matching items), nothing when quantity is not positive, and the list shrinks by exactly that count |
| Grounds.RemoveFirstKeepsOrder | src/game/grounds/SearchableGround.java:78-84 | the removed items are the earliest of the class; the class's other items and all other items stay in their order |
| Grounds.CeilDiv | src/game/grounds/Bush.java:42-46 | the result is the least integer at or above the quotient |
| Grounds.FoodPoints | src/game/grounds/Lake.java:55-65 | scout mode changes no ground; non-searchable grounds answer null; a lake always answers (0 for non-flyers) and keeps its sips |
| Grounds.WaterPoints | src/game/grounds/Lake.java:76-80 | only a lake answers, 30 to a flyer and 0 otherwise, and a commit uses exactly one sip |
| Grounds.CommitFoodPoints | src/game/grounds/SearchableGround.java:75-86 | commit mode through the removal loop gives exactly the commit answer and ground |
| Grounds.FruitScout | src/game/grounds/Bush.java:44-46 | scout mode answers per-fruit points times the fruit count, or null with no fruit, and changes nothing |
| Grounds.FruitCommit | src/game/grounds/Tree.java:50-54 | commit mode removes min(ceil(deficit / per-fruit points), fruit count) fruits, answers their points or null, keeps the other items, and never takes more fruit than the deficit needs |
| Grounds.LakeFoodNeverNull | src/game/grounds/Lake.java:55-65 | a lake answers 0, not null, to an actor that cannot fly, in both modes, and keeps its fish |
| Grounds.LakeFishing | src/game/grounds/Lake.java:55-65 | a flyer scouting a lake sees five points per fish; a commit takes at most one fish and answers five points per fish taken |
| Grounds.AddSips | src/game/grounds/Lake.java:99-103 | a negative amount is an IllegalArgumentException and changes nothing; otherwise the sips grow by the amount |
| Grounds.DecrementSips | src/game/grounds/Lake.java:109-111 | one sip less, with no lower bound, fish kept |
| Grounds.SipsRoundTrip | src/game/grounds/Lake.java:89-111 | drinking a sip and then adding amount + 1 gains exactly amount sips; hasSips holds exactly from one sip |
| Grounds.TreeGrow | src/game/grounds/Tree.java:75-79 | a tick ages a tree by one and shows 't' at age 10 and 'T' at age 20 |
| Grounds.GrowTimes | src/game/grounds/Tree.java:75-79 | repeated ticks leave a tree a tree |
| Grounds.TreeDisplay | src/game/grounds/Tree.java:75-79 | a new tree shows '+' for 9 ticks, 't' from tick 10 and 'T' from tick 20 |
| Behaviours.Follow | src/game/dinosaurs/FollowBehaviour.java:41-50 | the move goes through the first exit, in exit order, whose destination is enterable and strictly closer to the objective; there is none exactly when no exit qualifies, and none at distance 0 |
| Behaviours.Candidates | src/game/dinosaurs/WanderBehaviour.java:39-44 | every candidate is a move "around" through an exit to an enterable destination, and there is none exactly when no exit's destination is enterable |
| Behaviours.Wander | src/game/dinosaurs/WanderBehaviour.java:39-48 | null exactly when no exit is enterable; otherwise the picked candidate, an enterable neighbour |
| Behaviours.RechargeSkill | src/game/dinosaurs/RechargeSkillBehaviour.java:58-67 | null for a dinosaur with the skill, or standing on the ground, or with no such ground in the search; otherwise exactly Follow toward the first location in search order whose ground has the capability |
| Behaviours.OppositeGenderFacts | src/game/dinosaurs/MatingBehaviour.java:77-83 | being of opposite gender is symmetric and irreflexive: it holds exactly when one of the two is female and the other is not |
| Behaviours.Mating | src/game/dinosaurs/MatingBehaviour.java:33-52 | the first compatible partner in search order; MateAction when it is a neighbour, otherwise Follow toward it; null without a partner or when not fertile |
| Behaviours.WaterSource | src/game/dinosaurs/DrinkAction.java:45-51 | the first exit destination that is a water body with sips, present exactly when the location is next to water |
| Behaviours.Thirsty | src/game/dinosaurs/ThirstyBehaviour.java:36-51 | null unless thirsty; a thirsty dinosaur next to water drinks from the DrinkAction's source; otherwise exactly Follow toward the first location in search order next to water; null with none in the search |
| Behaviours.Hungry | src/game/dinosaurs/HungryBehaviour.java:32-54 | null unless hungry; food on the ground here is eaten first, food in the ground here next; otherwise exactly Follow toward the first location in search order with food; null with no food in the search |
| Behaviours.PreyLocation | src/game/dinosaurs/PreyingBehaviour.java:43-46 | the last location in search order with prey, never the hunter's own; none exactly when no location has prey |
| Behaviours.FindPrey | src/game/dinosaurs/PreyingBehaviour.java:43-46 | the iterator loop without a break finds exactly the last prey location |
| Behaviours.Preying | src/game/dinosaurs/PreyingBehaviour.java:36-73 | nothing for a non-Huntable or sated hunter or without prey; adjacent tiny non-flying prey is devoured, other adjacent prey struck, farther prey chased with Follow |
| Turns.WanderDraw | src/game/dinosaurs/WanderBehaviour.java:46 | a random draw reduced to the candidates picks a candidate, and null exactly when no exit is enterable |
| Turns.BehaviourOutcome | src/game/dinosaurs/PreyingBehaviour.java:60-72 | only Preying changes the map, keeping the hunter in place; devoured prey leaves no corpse and the hunter heals fully; struck prey is blacklisted at 0 |
| Turns.ChainOutcome | src/game/dinosaurs/Dinosaur.java:163-168 | the chain keeps the map well formed and the dinosaur in place |
| Turns.ChainWithoutPreying | src/game/dinosaurs/Dinosaur.java:163-168 | without Preying the chain leaves the map alone and returns the first behaviour's action, null exactly when every behaviour answered null |
| Turns.DevourSatisfiesHunger | src/game/dinosaurs/PreyingBehaviour.java:60-64 | an Allosaur that devours its prey is no longer hungry, so HungryBehaviour after it answers null |
| Turns.NonHunterAlwaysActs | src/game/dinosaurs/WanderBehaviour.java:39-48 | a dinosaur that does not hunt and has an enterable neighbour always gets an action from its chain |
| Turns.Vitals | src/game/dinosaurs/Dinosaur.java:118-153 | the vitals keep the dinosaur's species and id, add one to its age and take one hit point and one water point |
| Turns.AfterVitals | src/game/dinosaurs/LayEggAction.java:46-48 | the vitals keep the map well formed and the dinosaur in place |
| Turns.TurnOutcome | src/game/dinosaurs/Dinosaur.java:118-169 | a turn keeps the map well formed |
| Turns.TurnVitals | src/game/dinosaurs/Dinosaur.java:146-153 | an unconscious dinosaur does nothing; one that dies leaves the map with its corpse after any egg on its location; one that lives on stays with only the egg added; no other location changes |
| Turns.NonHunterTurnIsLocal | src/game/dinosaurs/Dinosaur.java:118-169 | the turn of a dinosaur that does not hunt changes only its own location |
| Turns.RunBehaviour | src/game/dinosaurs/PreyingBehaviour.java:36-73 | running a behaviour on the board gives its action and the map its outcome describes |
| Turns.RunVitals | src/game/dinosaurs/Dinosaur.java:118-153 | the vitals on the board match the lifecycle, and exactly one id is drawn when an egg is laid |
| Turns.RunChain | src/game/dinosaurs/Dinosaur.java:163-168 | the loop over the behaviours stops at the first action and leaves the map the chain outcome describes |
| Turns.PlayTurn | src/game/dinosaurs/Dinosaur.java:118-169 | the whole turn on the board gives the turn outcome's action and map, drawing one id per egg laid |
| Actions.WithDino | src/game/dinosaurs/MateAction.java:49-52 | only the dinosaur at that location changes, to the new value |
| Actions.WithItem | src/game/dinosaurs/LayEggAction.java:46 | the item joins the end of that location's items, and nothing else changes |
| Actions.WithoutItem | src/game/items/Egg.java:128-132 | exactly the item in that slot leaves that location, the others keep their order, and nothing else changes |
| Actions.WithGround | src/game/dinosaurs/DrinkAction.java:66 | only that location's ground changes |
| Actions.WithoutActor | src/game/dinosaurs/DieAction.java:53 | only that location loses its actor |
| Actions.Died | src/game/dinosaurs/DieAction.java:47-53 | the dinosaur leaves the map, its corpse added to its location exactly when dropCorpse; nothing else changes |
| Actions.EatenSlot | src/game/dinosaurs/EatItemOnGroundAction.java:60-80 | the loop stops at the first item that is edible or not consumable, having passed over only inedible consumables, and runs out exactly when every item is an inedible consumable |
| Actions.EatFailsOnNonConsumable | src/game/dinosaurs/EatItemOnGroundAction.java:60-80 | a non-consumable met before any edible item stops the loop there (the failing cast) |
| Actions.EatsFirstEdible | src/game/dinosaurs/EatItemOnGroundAction.java:60-80 | the first edible item after inedible consumables only is the one eaten |
| Actions.ItemsAfterEating | src/game/dinosaurs/EatItemOnGroundAction.java:77-78 | a TINY eater leaves the item, as visited; any other removes exactly that item |
| Actions.EatItemEffect | src/game/dinosaurs/EatItemOnGroundAction.java:60-84 | with no slot nothing changes and (0, 0) is reported; a non-consumable fails the cast; an edible item is eaten after the pre-eating hook, with heal and quenchThirst by its tuple; only the eater's location changes |
| Actions.EatFromGroundAnswers | src/game/dinosaurs/EatFromSearchableGroundAction.java:84-94 | a lake answers both queries using one sip; a bush or tree answers no water; so the water-only message can never be shown |
| Actions.Board.constructor | src/game/DinosaurMap.java:32-39 | the board holds the given locations |
| Actions.Board.SetGround | src/game/GameLocation.java:136-144 | setGround changes exactly one ground |
| Actions.Board.SetDino | src/game/dinosaurs/Dinosaur.java:118-153 | a dinosaur updated in place changes exactly its own location |
| Actions.Board.Mate | src/game/dinosaurs/MateAction.java:49-65 | a female d1 becomes pregnant, else d2 does; exactly one changes, only by PREGNANT; the message is "### d1 and d2 has mated ###" |
| Actions.Board.LayEgg | src/game/dinosaurs/LayEggAction.java:46-48 | the egg joins the parent's location and the parent is no longer pregnant, nothing else about it changing |
| Actions.Board.Drink | src/game/dinosaurs/DrinkAction.java:63-68 | without a source the call fails and nothing changes; otherwise the source loses one sip and the drinker gains 80 (TALL) or 30 water, capped |
| Actions.Board.EatItemOnGround | src/game/dinosaurs/EatItemOnGroundAction.java:60-84 | the loop over the items gives exactly the eating effect and points |
| Actions.Board.EatFromSearchableGround | src/game/dinosaurs/EatFromSearchableGroundAction.java:57-69 | a non-searchable ground fails the cast and nothing changes; otherwise food and water are each asked once in commit mode and only the non-null answers are applied |
| Actions.Board.Feed | src/game/dinosaurs/FeedAction.java:71-74 | the player earns 10 eco points and gives up exactly the fed item; the dinosaur heals and drinks by the tuple fixed at construction |
| Actions.Board.Die | src/game/dinosaurs/DieAction.java:47-53 | the dinosaur leaves the map, with its corpse when dropCorpse |
| Actions.Board.Hatch | src/game/items/Egg.java:128-132 | the player earns the hatching reward, the baby stands on the location and the egg is gone |
| Actions.Board.TickItem | src/game/items/Corpse.java:75-79 | a kept item is replaced by its aged self, a rotten one removed, a due egg hatched for its reward; nothing else about the player changes |
| Players.Spent | src/game/Player.java:63-65 | the balance after spending is never negative: the difference when covered, 0 otherwise |
| Players.Player.constructor | src/game/Player.java:33-36 | a new player has 0 eco points and an empty inventory |
| Players.Player.EarnEcoPoints | src/game/Player.java:54-56 | the balance grows by exactly the amount |
| Players.Player.SpendEcoPoints | src/game/Player.java:63-65 | the balance becomes max(balance - amount, 0) |
| Players.Player.AddItemToInventory | src/game/BuyAction.java:57 | the item joins the end of the inventory |
| Players.Player.RemoveItemFromInventory | src/game/dinosaurs/FeedAction.java:71-72 | exactly the item in that slot leaves the inventory |
| Players.Player.Corpse | src/game/Player.java:76-78 | the player's corpse has maximum age 0 and healing 0 |
| Players.Player.CanAfford | src/game/Player.java:45-47 | the balance covers the price exactly when spending it takes the whole price, without the clamp at 0 |
| Players.BuyMenu | src/game/BuyAction.java:69-71 | the menu reads "Buy ", the item's name, " with ", the price in decimal and " eco points.", and the decimal text reads back as the price |
| Text.IntToString | src/game/BuyAction.java:70 | %d writes an optional minus sign and digits, a minus exactly for negative numbers, and reading the text back gives the number |
| Players.Player.Buy | src/game/BuyAction.java:52-60 | an unaffordable price is a RuntimeException and changes nothing; otherwise the balance drops by exactly the price and the item is added |
| Players.AllProducts | src/game/grounds/VendingMachine.java:38-46 | all nine products, each in its own slot |
| Players.ProductOf | src/game/grounds/VendingMachine.java:100-112 | a name maps to the product of that name, and to nothing when no product has it |
| Players.NameToItem | src/game/grounds/VendingMachine.java:100-112 | an unknown name gives null; every item sold except the laser gun is a consumable |
| Players.NameToItemKinds | src/game/grounds/VendingMachine.java:100-112 | every product name gives an item; egg names give a fresh egg of their species; Fruit a fresh fruit |
| Players.Offers | src/game/grounds/VendingMachine.java:59-70 | a non-player is offered nothing; the player exactly the products whose price the balance covers, at that price |
| Players.OffersGrow | src/game/grounds/VendingMachine.java:62-66 | a larger balance is offered everything a smaller one is |
| Maps.LinkAll | src/game/DinosaurMap.java:54-55 | each location of a run gets one new exit to its partner and nothing else changes |
| Maps.LinkBoth | src/game/DinosaurMap.java:54-57 | both runs gain exactly their exits to each other, and nothing else changes |
| Maps.ConnectNorthSouth | src/game/DinosaurMap.java:54-57 | m1's bottom row gains "South" ("2") exits to m2's top row, which gain "North" ("8") exits back; only exits change |
| Maps.ConnectEastWest | src/game/DinosaurMap.java:61-64 | m1's rightmost column gains "East" ("6") exits to m2's leftmost column, which gain "West" ("4") exits back; only exits change |
| Maps.ConnectMaps | src/game/DinosaurMap.java:50-67 | widths differing on 'x' or heights on 'y' are a RuntimeException and any other axis an IllegalArgumentException, each before any exit is added; otherwise the edge is linked both ways |
| Maps.UpdateLocation | src/game/GameLocation.java:136-144 | the location's ground becomes what the update rules and draws give |
| Maps.Flatten | src/game/DinosaurMap.java:33-34 | the sweep order holds exactly the map's locations |
| Maps.Sweep | src/game/DinosaurMap.java:32-39 | a sweep changes only grounds, and leaves locations outside the order alone |
| Maps.SweepAppend | src/game/DinosaurMap.java:32-39 | sweeping two runs one after the other is sweeping their concatenation |
| Maps.SweepOnce | src/game/DinosaurMap.java:32-39 | over distinct locations each is updated exactly once, on the map the earlier updates left |
| Maps.FlattenDistinct | src/game/DinosaurMap.java:32-39 | locations with distinct coordinates appear once each in the sweep order |
| Maps.UpdateColumn | src/game/DinosaurMap.java:34-37 | the inner loop sweeps one column |
| Maps.UpdateInitialGround | src/game/DinosaurMap.java:32-39 | the nested loops sweep the map in x-major order |
| Maps.UpdateInitialGroundOnce | src/game/DinosaurMap.java:32-39 | every location of a well-formed map, and none outside it, is updated exactly once |
| GameWorlds.Rain | src/game/GameWorld.java:106-113 | rain falls only on turns divisible by 10 when the roll succeeds, bringing the rainfall to lakes and 10 water to dinosaurs; otherwise (0, 0) |
| GameWorlds.RainAtMostOncePerTen | src/game/GameWorld.java:106-113 | of two turns fewer than ten apart, at least one brings no rain |
| GameWorlds.RainedLoc | src/game/GameWorld.java:130-134 | a water body takes the sips through addSips; a dinosaur quenches its thirst by the drops; the player, other grounds, items and exits are unchanged |
| GameWorlds.Rained | src/game/GameWorld.java:126-136 | every location is rained on, and the table stays well formed |
| GameWorlds.DryRoundChangesNothing | src/game/GameWorld.java:126-136 | a round without rain changes nothing when no dinosaur holds more water than its maximum |
| GameWorlds.RainKeepsWaterWithinMax | src/game/GameWorld.java:126-136 | rain keeps every dinosaur within its water maximum without lowering its water, and lakes gain exactly the sips |
| GameWorlds.Rounds | src/game/GameWorld.java:102-140 | the rounds keep the table's size and well-formedness |
| GameWorlds.DryRoundsChangeNothing | src/game/GameWorld.java:102-140 | rounds without rain leave the world as it was |
| GameWorlds.RoundsKeepWaterWithinMax | src/game/GameWorld.java:102-140 | every dinosaur stays within its water maximum across rounds |
| GameWorlds.RainTick | src/game/GameWorld.java:126-136 | the tick loop over all locations gives exactly the rained table |
| GameWorlds.World.constructor | src/game/GameWorld.java:52-57 | a new world has the given limits, turn 0 and no player |
| GameWorlds.World.AddPlayer | src/game/GameWorld.java:66-69 | the player is remembered and the turn count kept |
| GameWorlds.World.EndGameMessage | src/game/GameWorld.java:170-178 | no message of its own exactly in sandbox mode; in challenge mode "won" exactly when the player can afford the winning points, "lost" otherwise |
| GameWorlds.World.StillRunningFacts | src/game/GameWorld.java:153-159 | without the player the game is over; sandbox runs exactly while the player is there; a challenge stops at the winning points or the turn limit, is won if it stops early with the player present, and would be lost while still running |
| GameWorlds.World.Round | src/game/GameWorld.java:106-139 | one round rains on the world by that turn's draw and adds exactly one turn |
| GameWorlds.World.Run | src/game/GameWorld.java:93-143 | no player is an IllegalStateException and nothing changes; otherwise the turns grow by the rounds played, the world is the rounds' outcome, play stops early only when the game is over, a challenge never passes its turn limit, and the end message is returned |
| Shooting.Aim | src/game/ShootAction.java:101-114 | the target is the first location of the order, all before it in range and holding no one to shoot, that is in range and holds another actor; none exactly when no location qualifies |
| Shooting.AimStopsAtRange | src/game/ShootAction.java:107-108 | the search stops at the first location out of range: nothing after it is targeted, however close |
| Shooting.TargetFacts | src/game/ShootAction.java:101-114 | the target is another actor, closer than 20, in the shooter's search; none exactly when no location qualifies |
| Shooting.AcquireTarget | src/game/ShootAction.java:101-114 | the iterator loop with its break and early return finds exactly the target |
| Shooting.ShootAction.constructor | src/game/ShootAction.java:42-45 | the target is acquired once, at construction |
| Shooting.ShootAction.MissMessage | src/game/ShootAction.java:61-62 | with no target execute only reports shooting the air, and with one it does not |
| Shooting.ShootAction.MenuDescription | src/game/ShootAction.java:86-92 | the menu names the air without a target and the target otherwise |

## Left out

- The engine (Actor, GameMap, Location, Exit, Display, Menu, MoveActorAction) is not part of this model. Its visible uses are stated as assumptions:
  - hurt subtracts;
  - heal adds, capped at the maximum hit points;
  - an actor is conscious while its hit points are positive;
  - a location can be entered when nobody stands there and its ground admits the actor;
  - addItem appends.
- The engine's actor loop, `processActorTurn`, the map's own tick and the drawing of the map are not modelled. `GameWorlds.World.Run` models only the turn counter, the termination test and the rain. Each dinosaur's turn is `Turns.PlayTurn`, which is not wired into the world loop.
- GameWorlds.World.Run: the loop really runs until the game is over. Here it also stops after the supplied weather draws. Each round's random draws are parameters (`Weather`), so only as many rounds as draws can be described.
- GameWorlds.Rain: the rainfall is `Math.floor(rainfall * 20)` of a random double. It is the `rainfall` parameter, a non-negative whole number.
- GameWorlds.World.EndGameMessage: in sandbox mode the engine's own end message is returned. It is `None` here, because the engine is not part of this model.
- Objects are values placed in the location table. Aliasing between the objects is therefore not modelled. For example, an object that is both in an inventory and on the map is two copies here.
- Null checks (`Objects.requireNonNull` and the constructors' checks) are left out. A Dafny value cannot be null.
- Dinosaurs.Victim: `blacklist.values().remove(20)` depends on HashMap order. The model removes the entry at 20 with the least prey id. `Dinosaurs.BlacklistStaysValid` shows that a valid blacklist has only one such entry.
- Players.Offers: the offers are a set, because the product map is a HashMap with no defined order.
- Players.Offers: each call of `allowableActions` builds every product, so it draws four fresh dinosaur ids. This is not modelled.
- Maps.ConnectMaps: the two maps must share no location. Connecting a map to itself is not modelled.
- Actions.Board.Die: the loop that drops the dying actor's inventory is empty. Dinosaurs in this game carry no inventory.
- AttackAction, SearchItemAction and the damage part of `ShootAction.execute` are left out. They decide by random coins and use floating point (`(int)(max * 0.8)`). Only the target choice and the miss branch of ShootAction are modelled.
- The random production of Bush, Tree and Lake ticks is left out: fruit growth, fruit drop and fish breeding. So are the probabilities of `updateLocation`, whose draws are the `Draws` parameter.
- The `getNewDino(String)` overloads that pick a random gender are left out. The gender is a parameter.
- `Player.playTurn` (menu and input), QuitAction, Application.java and all console output are left out. They are user interface and setup. The only strings modelled are the messages that the contracts state.
- Java `int` overflow of the turn counter, the eco points and the dinosaur ids is not modelled. Integers are unbounded.
