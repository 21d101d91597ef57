/**
 * Terrain kinds and grid cells (src/biosim/cell_topography.py).
 *
 * Jungle, Savanna and Desert are accessible; Mountain and Ocean are not. A cell holds
 * the animals physically present in it and its fodder. The per-cell biology that the
 * island orchestrates (feeding, breeding, migration, death, fodder regrowth) is not part
 * of this model: those operations are methods whose bodies are left abstract, so no
 * caller can rely on anything about their effect besides their frame.
 */
module Topography {

  datatype Terrain = Ocean | Mountain | Jungle | Savanna | Desert

  /** The `accessible` flag each terrain class sets in its constructor. */
  predicate Accessible(t: Terrain) {
    t == Jungle || t == Savanna || t == Desert
  }

  /** Terrains whose cells produce fodder and feed herbivores (the class-name checks of the island). */
  predicate IsPrimaryProducer(t: Terrain) {
    t == Jungle || t == Savanna
  }

  datatype Species = Herbivore | Carnivore

  /** An individual as the island layer sees it: its age and its weight. */
  datatype Animal = Animal(age: nat, weight: real)

  /** The appetite cap F of each species' parameter table. */
  function Appetite(s: Species): (f: real)
    ensures f > 0.0
  {
    match s
    case Herbivore => 10.0
    case Carnivore => 50.0
  }

  /** The value of a cell as the island's queries read it. */
  datatype CellView = CellView(terrain: Terrain, herbivores: seq<Animal>, carnivores: seq<Animal>, fodder: real)
  {
    function Residents(s: Species): seq<Animal> {
      match s
      case Herbivore => herbivores
      case Carnivore => carnivores
    }
  }

  /** Total weight of a list of animals. */
  function Biomass(animals: seq<Animal>): real {
    if animals == [] then 0.0 else Biomass(animals[..|animals| - 1]) + animals[|animals| - 1].weight
  }

  /**
   * Desirability of a cell for a species: available food divided by the appetite of the
   * residents of that species plus one newcomer (fodder for herbivores, herbivore biomass
   * for carnivores).
   */
  function Desirability(c: CellView, s: Species): real {
    var food := if s == Herbivore then c.fodder else Biomass(c.herbivores);
    food / ((|c.Residents(s)| + 1) as real * Appetite(s))
  }

  /** A per-cell operation of the annual cycle. */
  datatype Step =
    | IncreaseFodder
    | FeedHerbivores
    | FeedCarnivores
    | Breed
    | Migrate(carnivoreEk: map<(int, int), real>, herbivoreEk: map<(int, int), real>)
    | NaturalDeath

  /** A call into the cell at `location`, or one of the class-level calls on all animals. */
  datatype Event = CellStep(location: (int, int), step: Step) | MigrationReset | AgeUp | Metabolism

  /** The calls made so far, in the order they were made; only the proof reads it. */
  class CallLog {
    ghost var events: seq<Event>

    constructor ()
      ensures events == []
    {
      events := [];
    }
  }

  class Cell {
    const terrain: Terrain
    var herbivores: seq<Animal>
    var carnivores: seq<Animal>
    var fodder: real
    /** The key of `raster_model` this cell is stored under; only the proof reads it. */
    ghost const location: (int, int)

    constructor (terrain: Terrain, ghost location: (int, int))
      ensures this.terrain == terrain && this.location == location
      ensures herbivores == [] && carnivores == [] && fodder == 0.0
    {
      this.terrain := terrain;
      this.location := location;
      herbivores, carnivores, fodder := [], [], 0.0;
    }

    predicate IsAccessible() {
      Accessible(terrain)
    }

    function View(): CellView
      reads this
    {
      CellView(terrain, herbivores, carnivores, fodder)
    }

    /** Puts an animal of the given species at the end of that species' list. */
    method AddAnimal(s: Species, a: Animal)
      modifies this
      ensures herbivores == if s == Herbivore then old(herbivores) + [a] else old(herbivores)
      ensures carnivores == if s == Carnivore then old(carnivores) + [a] else old(carnivores)
      ensures fodder == old(fodder)
    {
      if s == Herbivore {
        herbivores := herbivores + [a];
      } else {
        carnivores := carnivores + [a];
      }
    }

    // The per-cell biology below is abstract: its effect on the residents is not modelled.
    // Each operation records in `log` its own call, made on this cell at its `location`.

    method IncreaseFodder(log: CallLog)
      modifies this, log
      ensures log.events == old(log.events) + [CellStep(location, Step.IncreaseFodder)]
    {
      log.events := log.events + [CellStep(location, Step.IncreaseFodder)];
    }

    method FeedHerbivores(log: CallLog)
      modifies this, log
      ensures log.events == old(log.events) + [CellStep(location, Step.FeedHerbivores)]
    {
      log.events := log.events + [CellStep(location, Step.FeedHerbivores)];
    }

    method FeedCarnivores(log: CallLog)
      modifies this, log
      ensures log.events == old(log.events) + [CellStep(location, Step.FeedCarnivores)]
    {
      log.events := log.events + [CellStep(location, Step.FeedCarnivores)];
    }

    method BreedAll(log: CallLog)
      modifies this, log
      ensures log.events == old(log.events) + [CellStep(location, Breed)]
    {
      log.events := log.events + [CellStep(location, Breed)];
    }

    method NaturalDeathAll(log: CallLog)
      modifies this, log
      ensures log.events == old(log.events) + [CellStep(location, NaturalDeath)]
    {
      log.events := log.events + [CellStep(location, NaturalDeath)];
    }

    /** Moves residents to neighbouring cells of `raster`, guided by the two desirability maps. */
    method MigrateAll(raster: map<(int, int), Cell>, location: (int, int),
                      carnivoreEk: map<(int, int), real>, herbivoreEk: map<(int, int), real>, log: CallLog)
      requires location == this.location
      modifies raster.Values, log
      ensures log.events == old(log.events) + [CellStep(location, Migrate(carnivoreEk, herbivoreEk))]
    {
      log.events := log.events + [CellStep(location, Migrate(carnivoreEk, herbivoreEk))];
    }
  }
}
