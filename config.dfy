/** The run configuration of the generator (`Configuration` in src/lib.rs). */
module Config {

  /** Tunables of one generation run. `maze_chance` is an `f32` in the source; it is a real here. */
  datatype Configuration = Configuration(
    minRoomDimension: nat,
    maxRoomDimension: nat,
    minPadding: nat,
    doorwayOffset: nat,
    maxFailCount: nat,
    reintroducedCorridorDensity: (nat, nat),
    corridorCost: nat,
    straightCost: nat,
    standardCost: nat,
    minMazeDimension: nat,
    mazeChance: real)

  /** `Configuration::is_valid`: the checks every stage may rely on. */
  predicate IsValid(c: Configuration) {
    && c.minRoomDimension >= 5
    && c.minRoomDimension <= c.maxRoomDimension
    && c.minPadding >= 3
    && c.doorwayOffset >= 1
    && c.reintroducedCorridorDensity.0 <= c.reintroducedCorridorDensity.1
    && c.reintroducedCorridorDensity.1 >= 1
    && c.corridorCost >= 1
    && c.straightCost >= 1
    && c.standardCost >= 1
    && c.minMazeDimension >= 5
    && 0.0 <= c.mazeChance
    && c.mazeChance <= 1.0
  }

  /** `Configuration::default`, which the source's own test checks to be valid. */
  function Default(): (c: Configuration)
    ensures IsValid(c)
    ensures c.doorwayOffset == 2 && c.reintroducedCorridorDensity == (1, 2)
    ensures MinCost(c) == c.corridorCost == 1
  {
    Configuration(
      minRoomDimension := 5,
      maxRoomDimension := 20,
      minPadding := 3,
      doorwayOffset := 2,
      maxFailCount := 10,
      reintroducedCorridorDensity := (1, 2),
      corridorCost := 1,
      straightCost := 2,
      standardCost := 3,
      minMazeDimension := 5,
      mazeChance := 0.1)
  }

  /** `corridor_cost.min(straight_cost).min(standard_cost)`, the heuristic's rate in A*. */
  function MinCost(c: Configuration): (m: nat)
    ensures m <= c.corridorCost && m <= c.straightCost && m <= c.standardCost
    ensures m == c.corridorCost || m == c.straightCost || m == c.standardCost
  {
    var a := if c.corridorCost <= c.straightCost then c.corridorCost else c.straightCost;
    if a <= c.standardCost then a else c.standardCost
  }

  /** A valid configuration gives every A* step a positive cost, so the heuristic rate is positive. */
  lemma ValidCostsArePositive(c: Configuration)
    requires IsValid(c)
    ensures MinCost(c) >= 1
  {
  }

  /** A valid configuration makes the reintroduction draw `1..=den` a non-empty range whose
      values a numerator can accept or reject. */
  lemma ValidDensityRange(c: Configuration)
    requires IsValid(c)
    ensures 1 <= c.reintroducedCorridorDensity.1
    ensures c.reintroducedCorridorDensity.0 <= c.reintroducedCorridorDensity.1
  {
  }

  /** Each bound of `IsValid` is needed: breaking any one of them in the default configuration
      makes it invalid. */
  lemma EveryBoundMatters()
    ensures !IsValid(Default().(minRoomDimension := 4))
    ensures !IsValid(Default().(maxRoomDimension := 4))
    ensures !IsValid(Default().(minPadding := 2))
    ensures !IsValid(Default().(doorwayOffset := 0))
    ensures !IsValid(Default().(reintroducedCorridorDensity := (3, 2)))
    ensures !IsValid(Default().(reintroducedCorridorDensity := (0, 0)))
    ensures !IsValid(Default().(corridorCost := 0))
    ensures !IsValid(Default().(straightCost := 0))
    ensures !IsValid(Default().(standardCost := 0))
    ensures !IsValid(Default().(minMazeDimension := 4))
    ensures !IsValid(Default().(mazeChance := -0.1))
    ensures !IsValid(Default().(mazeChance := 1.5))
  {
  }
}
