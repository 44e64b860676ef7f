/** The capability tags of actors and grounds and the four species. */
module Tags {

  /** ActorCapability: tags added to and removed from an actor at run time. */
  datatype ActorCap = Fly | Tiny | CrushGround | Pregnant | Female | Prey | Tall | Short

  /** GroundCapability: tags a ground carries. */
  datatype GroundCap = BlocksShortPlantGrowth | ShortPlant | Crushable | Fertile | RechargeFlight

  /** The concrete Dinosaur subclasses. */
  datatype Species = Stegosaur | Brachiosaur | Allosaur | Pterodactyl
}
