/** The colony's shared knowledge: the configuration read from the knowledge
    file (never changed by the simulation) and the two entries the simulation
    maintains, the known-food list and the target population. */
module Shared {
  import opened Common

  /** The configuration entries the engine reads, by their knowledge keys. */
  datatype Config = Config(
    dropByEat: real,              // Scouters / Drop by eat
    minScouters: int,             // Scouters / Min
    harvestMin: real,             // Harvesting / Min
    harvestMax: real,             // Harvesting / Max
    eat: real,                    // Harvesting / Eat
    collect: real,                // Harvesting / Collect
    gatherDiagonal: bool,         // Gathering / Diagonal Moves
    gatherSightline: int,         // Gathering / Sightline
    gatherLightCompute: bool,     // Gathering / Light Compute
    scoutDiagonal: bool,          // Scouting / Diagonal Moves
    scoutSightline: int,          // Scouting / Sightline
    scoutLightCompute: bool,      // Scouting / Light Compute
    exploreProbability: real,     // Scouting / Global Explore Probability
    searchLocallyOnFood: bool,    // Scouting / Search Locally on Food
    blobSizeFactor: real,         // Computing / Blob Size Factor
    coveringFactor: real,         // Computing / Covering Factor
    knownFoodsFactor: real,       // Computing / Known Foods Factor
    globalFactor: real,           // Computing / Global Factor
    globalDecrease: real,         // Global Decrease
    remainingBlobOnFood: real)    // Remaining Blob on Food
  {
    /** The harvesting quantities are amounts: none negative, Min below Max. */
    predicate HarvestOk()
    {
      0.0 <= harvestMin <= harvestMax && 0.0 <= eat && 0.0 <= collect
    }
  }

  /** knowledge['food'] and knowledge['max_scouters'], shared by reference
      between the manager and every agent. */
  class Knowledge {
    var food: seq<Cell>
    var maxScouters: int

    constructor (maxScouters: int)
      ensures food == [] && this.maxScouters == maxScouters
    {
      food := [];
      this.maxScouters := maxScouters;
    }
  }
}
