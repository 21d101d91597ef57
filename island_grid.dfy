/**
 * The `Island` class of src/biosim/island.py: the map of coordinates to cells, the
 * stocking of cells, the fixed order of the annual cycle and the aggregate queries.
 *
 * The per-cell biology is abstract (see module Topography). What the island itself
 * decides is which cells each phase visits and in which order. Every cell operation
 * records its own call in the island's `log`; the island adds the class-level steps
 * of the animals (resetting the migration flags, ageing, metabolism).
 */
module IslandGrid {
  import opened Results
  import opened Topography
  import opened RasterText
  import opened Stocking
  import opened Census
  import IslandMap

  /** Fodder regrowth and herbivore feeding visit Jungle and Savanna; every other step visits all accessible cells. */
  predicate Applies(step: Step, t: Terrain) {
    if step.IncreaseFodder? || step.FeedHerbivores? then IsPrimaryProducer(t) else Accessible(t)
  }

  /** The calls a pass over the cells in `order` makes for `step`. */
  function PerCell(order: seq<Coord>, terrain: map<Coord, Terrain>, step: Step): seq<Event> {
    if order == [] then []
    else
      var c := order[|order| - 1];
      PerCell(order[..|order| - 1], terrain, step) + if c in terrain && Applies(step, terrain[c]) then [CellStep(c, step)] else []
  }

  /** A count as the biomass queries report it: negated when they count downwards. */
  function Signed(n: nat, decrement: bool): int {
    if decrement then -(n as int) else n
  }

  /** The desirability of every accessible cell of `v` for a species. */
  function DesirabilityMap(v: map<Coord, CellView>, s: Species): map<Coord, real> {
    map c | c in v && Accessible(v[c].terrain) :: Desirability(v[c], s)
  }

  /** The events `t` followed by the calls of one year, given the cells as they are when migration starts. */
  function AfterYear(t: seq<Event>, order: seq<Coord>, terrain: map<Coord, Terrain>, beforeMigration: map<Coord, CellView>): seq<Event>
  {
    t + PerCell(order, terrain, IncreaseFodder)
    + PerCell(order, terrain, FeedHerbivores) + PerCell(order, terrain, FeedCarnivores)
    + PerCell(order, terrain, Breed)
    + PerCell(order, terrain, Migrate(DesirabilityMap(beforeMigration, Carnivore), DesirabilityMap(beforeMigration, Herbivore)))
    + [MigrationReset] + [AgeUp] + [Metabolism]
    + PerCell(order, terrain, NaturalDeath)
  }

  /** A pass calls `step` on a cell exactly when the cell is listed and the step applies to its terrain. */
  lemma {:induction false} PerCellMembership(order: seq<Coord>, terrain: map<Coord, Terrain>, step: Step, e: Event)
    requires forall c :: c in order ==> c in terrain
    ensures e in PerCell(order, terrain, step) <==>
      e.CellStep? && e.step == step && e.location in order && Applies(step, terrain[e.location])
  {
    if order != [] {
      var n := |order| - 1;
      PerCellMembership(order[..n], terrain, step, e);
      assert order == order[..n] + [order[n]];
    }
  }

  /** With no coordinate listed twice, a pass calls `step` at most once per cell. */
  lemma {:induction false} PerCellOnce(order: seq<Coord>, terrain: map<Coord, Terrain>, step: Step, c: Coord)
    requires forall i, j :: 0 <= i < j < |order| ==> order[i] != order[j]
    requires forall d :: d in order ==> d in terrain
    ensures multiset(PerCell(order, terrain, step))[CellStep(c, step)] ==
      if c in order && Applies(step, terrain[c]) then 1 else 0
  {
    if order != [] {
      var n := |order| - 1;
      var front, d := order[..n], order[n];
      DistinctFront(order, front, c);
      PerCellOnce(front, terrain, step, c);
      var last := if d in terrain && Applies(step, terrain[d]) then [CellStep(d, step)] else [];
      CountAppend(PerCell(front, terrain, step), last, CellStep(c, step));
    }
  }

  /** Dropping the last coordinate keeps the others distinct, and the last one is not among them. */
  lemma DistinctFront(order: seq<Coord>, front: seq<Coord>, c: Coord)
    requires order != [] && forall i, j :: 0 <= i < j < |order| ==> order[i] != order[j]
    requires front == order[..|order| - 1]
    ensures forall i, j :: 0 <= i < j < |front| ==> front[i] != front[j]
    ensures order[|order| - 1] !in front
    ensures c in order <==> c in front || c == order[|order| - 1]
  {
    assert order == front + [order[|order| - 1]];
  }

  /** Counting an element of a concatenation adds its counts in both parts. */
  lemma CountAppend(a: seq<Event>, b: seq<Event>, e: Event)
    ensures multiset(a + b)[e] == multiset(a)[e] + multiset(b)[e]
  {
  }


  /** Every migration call of a year receives the same two desirability maps, those of the cells when migration starts. */
  lemma MigrationSeesOneSnapshot(order: seq<Coord>, terrain: map<Coord, Terrain>, beforeMigration: map<Coord, CellView>, e: Event)
    requires forall c :: c in order ==> c in terrain
    requires e in AfterYear([], order, terrain, beforeMigration) && e.CellStep? && e.step.Migrate?
    ensures e.step.carnivoreEk == DesirabilityMap(beforeMigration, Carnivore)
    ensures e.step.herbivoreEk == DesirabilityMap(beforeMigration, Herbivore)
    ensures e.location in order && Accessible(terrain[e.location])
  {
    var m := Migrate(DesirabilityMap(beforeMigration, Carnivore), DesirabilityMap(beforeMigration, Herbivore));
    PerCellMembership(order, terrain, IncreaseFodder, e);
    PerCellMembership(order, terrain, FeedHerbivores, e);
    PerCellMembership(order, terrain, FeedCarnivores, e);
    PerCellMembership(order, terrain, Breed, e);
    PerCellMembership(order, terrain, m, e);
    PerCellMembership(order, terrain, NaturalDeath, e);
  }

  class Island {
    /** The keys of `raster_model` in insertion order. */
    const order: seq<Coord>
    const raster: map<Coord, Cell>
    /** The position of each key in `order`: one position per key, so no key is listed twice. */
    ghost const indexOf: map<Coord, nat>
    var currentYear: int
    /** The calls the annual cycle has made into the cells, in order. */
    const log: CallLog

    /**
     * The iteration order lists exactly the keys, each once, and every cell knows its
     * own key, so no two coordinates share a cell.
     */
    ghost predicate Valid() {
      && (forall i :: 0 <= i < |order| ==> order[i] in raster)
      && (forall i :: 0 <= i < |order| ==> order[i] in indexOf && indexOf[order[i]] == i)
      && (forall c :: c in raster ==> c in order)
      && (forall c :: c in raster ==> raster[c].location == c)
    }

    function Terrains(): map<Coord, Terrain> {
      map c | c in raster :: raster[c].terrain
    }

    ghost function View(): map<Coord, CellView>
      reads raster.Values
    {
      map c | c in raster :: raster[c].View()
    }

    /** A view of the cells shows each cell's own terrain. */
    lemma ViewTerrains(v: map<Coord, CellView>)
      requires v == View()
      ensures v.Keys == raster.Keys
      ensures forall c :: c in v ==> v[c].terrain == Terrains()[c]
    {
    }

    /** The cells in the order the queries visit them. */
    ghost function Cells(): seq<CellView>
      requires Valid()
      reads raster.Values
    {
      Lineup(order, View())
    }

    /** The `i`-th cell the queries visit is the cell of the `i`-th coordinate. */
    lemma CellAt(i: nat)
      requires Valid() && i < |order|
      ensures Cells()[i] == raster[order[i]].View()
    {
    }

    /** Every pass of the annual cycle calls `step` exactly once on each cell it applies to, and never on another. */
    lemma PassCallsEachCellOnce(step: Step, c: Coord)
      requires Valid()
      ensures multiset(PerCell(order, Terrains(), step))[CellStep(c, step)] ==
        if c in raster && Applies(step, raster[c].terrain) then 1 else 0
    {
      forall i, j | 0 <= i < j < |order|
        ensures order[i] != order[j]
      {
        assert indexOf[order[i]] == i && indexOf[order[j]] == j;
      }
      PerCellOnce(order, Terrains(), step, c);
    }

    /** One fresh, empty cell per key of a parsed map. */
    constructor (g: Grid)
      requires forall k :: k in g.terrain <==> k in g.order
      requires forall i, j :: 0 <= i < j < |g.order| ==> g.order[i] != g.order[j]
      ensures Valid() && order == g.order && Terrains() == g.terrain
      ensures forall c :: c in raster ==> fresh(raster[c])
      ensures forall c :: c in raster ==> raster[c].herbivores == [] && raster[c].carnivores == []
      ensures currentYear == 0 && fresh(log) && log.events == []
    {
      var cells;
      ghost var index;
      cells, index := NewCells(g);
      order := g.order;
      raster := cells;
      indexOf := index;
      currentYear := 0;
      log := new CallLog();
    }

    // -------------------------------------------------------------------------
    // Stocking

    /**
     * `populate_island`: handles the requests in order, each one validated whole before
     * any of its animals is added; `draw(i, j)` is the birth weight drawn for entry `j`
     * of request `i` when that entry gives no weight.
     */
    method PopulateIsland(requests: seq<Request>, draw: (nat, nat) -> real) returns (r: Outcome<StockError>)
      requires Valid()
      modifies raster.Values
      ensures (r, View()) == Stock(requests, old(View()), draw)
    {
      var i := 0;
      while i < |requests|
        invariant 0 <= i <= |requests|
        invariant Stock(requests[..i], old(View()), draw) == (Pass, View())
      {
        var outcome := StockRequest(requests[i], i, draw);
        StockStep(requests, i, old(View()), draw);
        if outcome.Fail? {
          FailureSticks(requests, i + 1, old(View()), draw);
          return outcome;
        }
        i := i + 1;
      }
      assert requests[..i] == requests;
      r := Pass;
    }

    /** One request of `populate_island`: its entries are checked, then its location, then the animals are added. */
    method StockRequest(q: Request, i: nat, draw: (nat, nat) -> real) returns (r: Outcome<StockError>)
      requires Valid()
      modifies raster.Values
      ensures (r, View()) == StockOne(q, i, old(View()), draw)
    {
      var checked := CheckPopulation(q.pop);
      if checked.Fail? {
        return checked;
      }
      if q.loc !in raster {
        return Fail(UnknownLocation);
      }
      var cell := raster[q.loc];
      if !cell.IsAccessible() {
        return Fail(Inaccessible);
      }
      AddPopulation(cell, q.pop, i, draw);
      forall c | c in raster && c != q.loc
        ensures raster[c].View() == old(View())[c]
      {
        assert raster[c].location != cell.location;
      }
      assert View() == old(View())[q.loc := Stocked(old(View())[q.loc], q.pop, i, draw)];
      r := Pass;
    }

    // -------------------------------------------------------------------------
    // The annual cycle

    /** Calls `step` on every cell it applies to, in iteration order. */
    method ForEachCell(step: Step)
      requires Valid()
      modifies log, raster.Values
      ensures log.events == old(log.events) + PerCell(order, Terrains(), step)
    {
      var i := 0;
      while i < |order|
        invariant 0 <= i <= |order|
        invariant log.events == old(log.events) + PerCell(order[..i], Terrains(), step)
      {
        var c := order[i];
        assert order[..i + 1][..i] == order[..i];
        var cell := raster[c];
        if Applies(step, cell.terrain) {
          Visit(c, cell, step);
        }
        i := i + 1;
      }
      assert order[..i] == order;
    }

    /** The call into the cell at `c` that `step` stands for. */
    method Visit(c: Coord, cell: Cell, step: Step)
      requires Valid() && c in raster && cell == raster[c]
      modifies log, raster.Values
      ensures log.events == old(log.events) + [CellStep(c, step)]
    {
      match step {
        case IncreaseFodder => cell.IncreaseFodder(log);
        case FeedHerbivores => cell.FeedHerbivores(log);
        case FeedCarnivores => cell.FeedCarnivores(log);
        case Breed => cell.BreedAll(log);
        case Migrate(carnivoreEk, herbivoreEk) => cell.MigrateAll(raster, c, carnivoreEk, herbivoreEk, log);
        case NaturalDeath => cell.NaturalDeathAll(log);
      }
    }

    /** `_increase_fodder_all_cells`: Jungle and Savanna cells regrow their fodder. */
    method IncreaseFodderAllCells()
      requires Valid()
      modifies log, raster.Values
      ensures log.events == old(log.events) + PerCell(order, Terrains(), IncreaseFodder)
    {
      ForEachCell(IncreaseFodder);
    }

    /** `_feed_all_animals`: herbivores eat in Jungle and Savanna cells, then carnivores in every accessible cell. */
    method FeedAllAnimals()
      requires Valid()
      modifies log, raster.Values
      ensures log.events == old(log.events) + PerCell(order, Terrains(), FeedHerbivores) + PerCell(order, Terrains(), FeedCarnivores)
    {
      ForEachCell(FeedHerbivores);
      ForEachCell(FeedCarnivores);
    }

    /** `_breed_in_all_cells` */
    method BreedInAllCells()
      requires Valid()
      modifies log, raster.Values
      ensures log.events == old(log.events) + PerCell(order, Terrains(), Breed)
    {
      ForEachCell(Breed);
    }

    /** `_annual_death_all_cells` */
    method AnnualDeathAllCells()
      requires Valid()
      modifies log, raster.Values
      ensures log.events == old(log.events) + PerCell(order, Terrains(), NaturalDeath)
    {
      ForEachCell(NaturalDeath);
    }

    /** `_generate_ek_for_board`: the desirability of every accessible cell, and of no other, for each species. */
    method GenerateEkForBoard() returns (carnivoreEk: map<Coord, real>, herbivoreEk: map<Coord, real>)
      requires Valid()
      ensures carnivoreEk.Keys == herbivoreEk.Keys == set c | c in raster && raster[c].IsAccessible()
      ensures forall c :: c in carnivoreEk ==> carnivoreEk[c] == Desirability(raster[c].View(), Carnivore)
      ensures forall c :: c in herbivoreEk ==> herbivoreEk[c] == Desirability(raster[c].View(), Herbivore)
    {
      carnivoreEk, herbivoreEk := map[], map[];
      var i := 0;
      while i < |order|
        invariant 0 <= i <= |order|
        invariant carnivoreEk.Keys == herbivoreEk.Keys == set c | c in order[..i] && raster[c].IsAccessible()
        invariant forall c :: c in carnivoreEk ==> carnivoreEk[c] == Desirability(raster[c].View(), Carnivore)
        invariant forall c :: c in herbivoreEk ==> herbivoreEk[c] == Desirability(raster[c].View(), Herbivore)
      {
        var c := order[i];
        assert order[..i + 1] == order[..i] + [c];
        var cell := raster[c];
        if cell.IsAccessible() {
          carnivoreEk := carnivoreEk[c := Desirability(cell.View(), Carnivore)];
          herbivoreEk := herbivoreEk[c := Desirability(cell.View(), Herbivore)];
        }
        i := i + 1;
      }
      assert order[..i] == order;
    }

    /**
     * `_migrate_all_cells`: both desirability maps are computed once, before any cell
     * migrates, and every accessible cell's migration receives those same maps; then
     * the animals' migration flags are reset.
     */
    method MigrateAllCells()
      requires Valid()
      modifies log, raster.Values
      ensures log.events == old(log.events)
        + PerCell(order, Terrains(), Migrate(DesirabilityMap(old(View()), Carnivore), DesirabilityMap(old(View()), Herbivore)))
        + [MigrationReset]
    {
      var carnivoreEk, herbivoreEk := GenerateEkForBoard();
      assert carnivoreEk == DesirabilityMap(View(), Carnivore);
      assert herbivoreEk == DesirabilityMap(View(), Herbivore);
      ForEachCell(Migrate(carnivoreEk, herbivoreEk));
      log.events := log.events + [MigrationReset];
    }

    /**
     * `annual_cycle`: fodder, feeding, breeding, migration, ageing, metabolism and
     * death, always in this order; `beforeMigration` is the state of the cells when
     * the desirability maps are computed.
     */
    method AnnualCycle() returns (ghost beforeMigration: map<Coord, CellView>)
      requires Valid()
      modifies log, raster.Values
      ensures beforeMigration.Keys == raster.Keys
      ensures forall c :: c in beforeMigration ==> beforeMigration[c].terrain == Terrains()[c]
      ensures log.events == AfterYear(old(log.events), order, Terrains(), beforeMigration)
    {
      IncreaseFodderAllCells();
      FeedAllAnimals();
      BreedInAllCells();
      beforeMigration := View();
      ViewTerrains(beforeMigration);
      MigrateAllCells();
      log.events := log.events + [AgeUp];
      log.events := log.events + [Metabolism];
      AnnualDeathAllCells();
    }

    // -------------------------------------------------------------------------
    // Aggregate queries

    /** `total_number_per_species`: the animals of each species in accessible cells. */
    method TotalNumberPerSpecies() returns (herbivores: nat, carnivores: nat)
      requires Valid()
      ensures herbivores == Population(Cells(), Herbivore)
      ensures carnivores == Population(Cells(), Carnivore)
    {
      herbivores, carnivores := 0, 0;
      ghost var cs := Cells();
      var i := 0;
      while i < |order|
        invariant i <= |order| == |cs|
        invariant Counted(herbivores, carnivores, cs, i)
      {
        var cell := raster[order[i]];
        CellAt(i);
        CountedStep(cs, i, herbivores, carnivores);
        if cell.IsAccessible() {
          carnivores := carnivores + |cell.carnivores|;
          herbivores := herbivores + |cell.herbivores|;
        }
        i := i + 1;
      }
      assert cs[..i] == cs;
    }

    /**
     * The loop the two biomass-by-age queries share: for each animal of species `s` in
     * an accessible cell, counts it in its age group (upwards, or downwards when
     * `decrement` holds) and adds its weight to the biomass of that group.
     */
    method TallyAgeGroups(s: Species, decrement: bool) returns (numbers: seq<int>, biomass: seq<real>)
      requires Valid()
      ensures |numbers| == 5 && |biomass| == 5
      ensures forall g :: 0 <= g < 5 ==> numbers[g] == Signed(GroupCount(Cells(), s, g), decrement)
      ensures forall g :: 0 <= g < 5 ==> biomass[g] == GroupBiomass(Cells(), s, g)
    {
      numbers, biomass := [0, 0, 0, 0, 0], [0.0, 0.0, 0.0, 0.0, 0.0];
      ghost var cs := Cells();
      TallyStart(cs, s, decrement);
      var i := 0;
      while i < |order|
        invariant i <= |order| == |cs|
        invariant Tallied(numbers, biomass, cs, i, s, decrement)
      {
        var cell := raster[order[i]];
        ghost var numbers0, biomass0 := numbers, biomass;
        if cell.IsAccessible() {
          var animals := if s == Herbivore then cell.herbivores else cell.carnivores;
          numbers, biomass := TallyAnimals(animals, decrement, numbers, biomass);
        }
        TallyStep(cs, i, s, decrement, numbers0, biomass0, numbers, biomass);
        i := i + 1;
      }
      assert cs[..i] == cs;
    }

    /**
     * `herbivore_biomass_age_groups`: the herbivores and their biomass in each age group;
     * the five counts add up to the herbivore total.
     */
    method HerbivoreBiomassAgeGroups() returns (numbers: seq<int>, biomass: seq<real>)
      requires Valid()
      ensures |numbers| == 5 && |biomass| == 5
      ensures forall g :: 0 <= g < 5 ==> numbers[g] == GroupCount(Cells(), Herbivore, g) >= 0
      ensures forall g :: 0 <= g < 5 ==> biomass[g] == GroupBiomass(Cells(), Herbivore, g)
      ensures numbers[0] + numbers[1] + numbers[2] + numbers[3] + numbers[4] == Population(Cells(), Herbivore)
    {
      numbers, biomass := TallyAgeGroups(Herbivore, false);
      GroupsCoverPopulation(Cells(), Herbivore);
    }

    /**
     * `carnivore_biomass_age_groups`: counts are decremented, so each is at most 0 and
     * together they are minus the carnivore total; the biomass is positive as usual.
     */
    method CarnivoreBiomassAgeGroups() returns (numbers: seq<int>, biomass: seq<real>)
      requires Valid()
      ensures |numbers| == 5 && |biomass| == 5
      ensures forall g :: 0 <= g < 5 ==> numbers[g] == -(GroupCount(Cells(), Carnivore, g) as int) <= 0
      ensures forall g :: 0 <= g < 5 ==> biomass[g] == GroupBiomass(Cells(), Carnivore, g)
      ensures numbers[0] + numbers[1] + numbers[2] + numbers[3] + numbers[4] == -(Population(Cells(), Carnivore) as int)
    {
      numbers, biomass := TallyAgeGroups(Carnivore, true);
      GroupsCoverPopulation(Cells(), Carnivore);
    }

    /**
     * `population_biomass_age_groups`: the counts of both queries and the mean weight of
     * each group, which is biomass over count when the count is non-zero and 0 otherwise;
     * the carnivore means carry the sign of the negated counts.
     */
    method PopulationBiomassAgeGroups() returns (herbivoreNumbers: seq<int>, carnivoreNumbers: seq<int>,
                                                 herbivoreMeans: seq<real>, carnivoreMeans: seq<real>)
      requires Valid()
      ensures |herbivoreNumbers| == |carnivoreNumbers| == |herbivoreMeans| == |carnivoreMeans| == 5
      ensures forall g :: 0 <= g < 5 ==> herbivoreNumbers[g] == GroupCount(Cells(), Herbivore, g)
      ensures forall g :: 0 <= g < 5 ==> carnivoreNumbers[g] == -(GroupCount(Cells(), Carnivore, g) as int)
      ensures forall g :: 0 <= g < 5 ==>
        herbivoreMeans[g] == MeanWeight(GroupBiomass(Cells(), Herbivore, g), GroupCount(Cells(), Herbivore, g))
      ensures forall g :: 0 <= g < 5 ==>
        carnivoreMeans[g] == -MeanWeight(GroupBiomass(Cells(), Carnivore, g), GroupCount(Cells(), Carnivore, g))
    {
      var herbivoreBiomass, carnivoreBiomass;
      herbivoreNumbers, herbivoreBiomass := HerbivoreBiomassAgeGroups();
      carnivoreNumbers, carnivoreBiomass := CarnivoreBiomassAgeGroups();
      ghost var cs := Cells();
      herbivoreMeans := HerbivoreMeans(herbivoreBiomass, herbivoreNumbers);
      carnivoreMeans := CarnivoreMeans(carnivoreBiomass, carnivoreNumbers);
      assert Cells() == cs;
      CarnivoreMeansNegated(carnivoreBiomass, carnivoreNumbers, carnivoreMeans);
    }

    /** `biomass_food_chain`: the fodder, herbivore weight and carnivore weight of the accessible cells. */
    method BiomassFoodChain() returns (fodder: real, herbivores: real, carnivores: real)
      requires Valid()
      ensures fodder == FodderTotal(Cells())
      ensures herbivores == BiomassTotal(Cells(), Herbivore)
      ensures carnivores == BiomassTotal(Cells(), Carnivore)
    {
      fodder, herbivores, carnivores := 0.0, 0.0, 0.0;
      ghost var cs := Cells();
      var i := 0;
      while i < |order|
        invariant i <= |order| == |cs|
        invariant Weighed(fodder, herbivores, carnivores, cs, i)
      {
        var cell := raster[order[i]];
        CellAt(i);
        WeighedStep(cs, i, fodder, herbivores, carnivores);
        if cell.IsAccessible() {
          fodder := fodder + cell.fodder;
          herbivores := herbivores + Biomass(cell.herbivores);
          carnivores := carnivores + Biomass(cell.carnivores);
        }
        i := i + 1;
      }
      assert cs[..i] == cs;
    }
  }

  /** The loop of `Island.__init__`'s map building that creates the cells: one fresh, empty cell per key of `g`. */
  method NewCells(g: Grid) returns (cells: map<Coord, Cell>, ghost index: map<Coord, nat>)
    requires forall i, j :: 0 <= i < j < |g.order| ==> g.order[i] != g.order[j]
    requires forall k :: k in g.order ==> k in g.terrain
    ensures forall c :: c in cells <==> c in g.order
    ensures forall c :: c in cells ==> fresh(cells[c]) && cells[c].terrain == g.terrain[c]
    ensures forall c :: c in cells ==> cells[c].herbivores == [] && cells[c].carnivores == []
    ensures forall c :: c in cells ==> cells[c].location == c
    ensures forall i :: 0 <= i < |g.order| ==> g.order[i] in index && index[g.order[i]] == i
  {
    cells, index := map[], map[];
    var i := 0;
    while i < |g.order|
      invariant 0 <= i <= |g.order|
      invariant forall c :: c in cells <==> c in g.order[..i]
      invariant forall c :: c in cells ==> fresh(cells[c]) && cells[c].terrain == g.terrain[c]
      invariant forall c :: c in cells ==> cells[c].herbivores == [] && cells[c].carnivores == []
      invariant forall c :: c in cells ==> cells[c].location == c
      invariant forall k :: 0 <= k < i ==> g.order[k] in index && index[g.order[k]] == k
    {
      var c := g.order[i];
      assert g.order[..i + 1] == g.order[..i] + [c];
      var cell := new Cell(g.terrain[c], c);
      cells := cells[c := cell];
      index := index[c := i];
      i := i + 1;
    }
    assert g.order[..i] == g.order;
  }

  /** The inner loop of `populate_island`: adds the animals of a validated request to one cell, in order. */
  method AddPopulation(cell: Cell, pop: seq<Entry>, i: nat, draw: (nat, nat) -> real)
    requires forall j :: 0 <= j < |pop| ==> ValidEntry(pop[j])
    modifies cell
    ensures cell.View() == Stocked(old(cell.View()), pop, i, draw)
  {
    ghost var start := cell.View();
    var j := 0;
    while j < |pop|
      invariant Placed(cell.View(), start, pop, j, i, draw)
    {
      var e := pop[j];
      PlacedStep(cell.View(), start, pop, j, i, draw);
      if e.species == "Herbivore" {
        cell.AddAnimal(Herbivore, Newborn(e, draw(i, j)));
      } else if e.species == "Carnivore" {
        cell.AddAnimal(Carnivore, Newborn(e, draw(i, j)));
      }
      j := j + 1;
    }
    assert pop[..j] == pop;
  }

  /** `v` is the cell `start` after the first `j` entries of request number `i`. */
  ghost predicate Placed(v: CellView, start: CellView, pop: seq<Entry>, j: nat, i: nat, draw: (nat, nat) -> real) {
    && j <= |pop|
    && (forall k :: 0 <= k < |pop| ==> ValidEntry(pop[k]))
    && v == Stocked(start, pop[..j], i, draw)
  }

  /** Adding the animal of one more entry extends what has been placed. */
  lemma PlacedStep(v: CellView, start: CellView, pop: seq<Entry>, j: nat, i: nat, draw: (nat, nat) -> real)
    requires Placed(v, start, pop, j, i, draw) && j < |pop|
    ensures Placed(Joined(v, pop[j], draw(i, j)), start, pop, j + 1, i, draw)
  {
    StockedStep(start, pop, j, i, draw);
  }

  /** `herbivores` and `carnivores` are the populations of the first `i` cells of `cs`. */
  ghost predicate Counted(herbivores: nat, carnivores: nat, cs: seq<CellView>, i: nat) {
    && i <= |cs|
    && herbivores == Population(cs[..i], Herbivore)
    && carnivores == Population(cs[..i], Carnivore)
  }

  /** Counting the animals of one more cell, or skipping it when it is not accessible, extends the count. */
  lemma CountedStep(cs: seq<CellView>, i: nat, herbivores: nat, carnivores: nat)
    requires i < |cs| && Counted(herbivores, carnivores, cs, i)
    ensures Counted(herbivores + (if Accessible(cs[i].terrain) then |cs[i].herbivores| else 0),
                    carnivores + (if Accessible(cs[i].terrain) then |cs[i].carnivores| else 0), cs, i + 1)
  {
    TotalsStep(cs, i, Herbivore);
    TotalsStep(cs, i, Carnivore);
  }

  /** The three weights are those of the first `i` cells of `cs`. */
  ghost predicate Weighed(fodder: real, herbivores: real, carnivores: real, cs: seq<CellView>, i: nat) {
    && i <= |cs|
    && fodder == FodderTotal(cs[..i])
    && herbivores == BiomassTotal(cs[..i], Herbivore)
    && carnivores == BiomassTotal(cs[..i], Carnivore)
  }

  /** Weighing one more cell, or skipping it when it is not accessible, extends the weights. */
  lemma WeighedStep(cs: seq<CellView>, i: nat, fodder: real, herbivores: real, carnivores: real)
    requires i < |cs| && Weighed(fodder, herbivores, carnivores, cs, i)
    ensures Weighed(fodder + (if Accessible(cs[i].terrain) then cs[i].fodder else 0.0),
                    herbivores + (if Accessible(cs[i].terrain) then Biomass(cs[i].herbivores) else 0.0),
                    carnivores + (if Accessible(cs[i].terrain) then Biomass(cs[i].carnivores) else 0.0), cs, i + 1)
  {
    TotalsStep(cs, i, Herbivore);
    TotalsStep(cs, i, Carnivore);
  }

  /** `numbers` and `biomass` hold the age-group counts and weights of species `s` over the first `i` cells of `cs`. */
  ghost predicate Tallied(numbers: seq<int>, biomass: seq<real>, cs: seq<CellView>, i: nat, s: Species, decrement: bool) {
    && i <= |cs| && |numbers| == 5 && |biomass| == 5
    && (forall g :: 0 <= g < 5 ==> numbers[g] == Signed(GroupCount(cs[..i], s, g), decrement))
    && (forall g :: 0 <= g < 5 ==> biomass[g] == GroupBiomass(cs[..i], s, g))
  }

  /** Before any cell is visited every group is empty. */
  lemma TallyStart(cs: seq<CellView>, s: Species, decrement: bool)
    ensures Tallied([0, 0, 0, 0, 0], [0.0, 0.0, 0.0, 0.0, 0.0], cs, 0, s, decrement)
  {
    assert cs[..0] == [];
  }

  /** Counting the animals of one more cell, or skipping it when it is not accessible, extends the tally. */
  lemma TallyStep(cs: seq<CellView>, i: nat, s: Species, decrement: bool,
                  numbers0: seq<int>, biomass0: seq<real>, numbers: seq<int>, biomass: seq<real>)
    requires i < |cs| && Tallied(numbers0, biomass0, cs, i, s, decrement)
    requires |numbers| == 5 && |biomass| == 5
    requires Accessible(cs[i].terrain) ==> forall g :: 0 <= g < 5 ==>
      numbers[g] == numbers0[g] + Signed(InGroup(cs[i].Residents(s), g), decrement) &&
      biomass[g] == biomass0[g] + GroupWeight(cs[i].Residents(s), g)
    requires !Accessible(cs[i].terrain) ==> numbers == numbers0 && biomass == biomass0
    ensures Tallied(numbers, biomass, cs, i + 1, s, decrement)
  {
    assert cs[..i + 1] == cs[..i] + [cs[i]];
    GroupTotalsStep(cs[..i], cs[i], s);
  }

  /** The inner loop of the biomass-by-age queries: counts the animals of one cell into their age groups. */
  method TallyAnimals(animals: seq<Animal>, decrement: bool, numbers0: seq<int>, biomass0: seq<real>)
    returns (numbers: seq<int>, biomass: seq<real>)
    requires |numbers0| == 5 && |biomass0| == 5
    ensures |numbers| == 5 && |biomass| == 5
    ensures forall g :: 0 <= g < 5 ==> numbers[g] == numbers0[g] + Signed(InGroup(animals, g), decrement)
    ensures forall g :: 0 <= g < 5 ==> biomass[g] == biomass0[g] + GroupWeight(animals, g)
  {
    numbers, biomass := numbers0, biomass0;
    var j := 0;
    while j < |animals|
      invariant 0 <= j <= |animals|
      invariant |numbers| == 5 && |biomass| == 5
      invariant forall g :: 0 <= g < 5 ==> numbers[g] == numbers0[g] + Signed(InGroup(animals[..j], g), decrement)
      invariant forall g :: 0 <= g < 5 ==> biomass[g] == biomass0[g] + GroupWeight(animals[..j], g)
    {
      var a := animals[j];
      GroupsStep(animals, j);
      var g := AgeGroup(a.age);
      numbers := numbers[g := if decrement then numbers[g] - 1 else numbers[g] + 1];
      biomass := biomass[g := biomass[g] + a.weight];
      j := j + 1;
    }
    assert animals[..j] == animals;
  }

  /** The herbivore loop of `population_biomass_age_groups`: biomass over count for every group with animals. */
  method HerbivoreMeans(biomass: seq<real>, numbers: seq<int>) returns (means: seq<real>)
    requires |biomass| == |numbers|
    ensures |means| == |numbers|
    ensures forall k :: 0 <= k < |means| ==> means[k] == MeanWeight(biomass[k], numbers[k])
  {
    means := [];
    for g := 0 to |numbers|
      invariant |means| == g
      invariant forall k :: 0 <= k < g ==> means[k] == MeanWeight(biomass[k], numbers[k])
    {
      if numbers[g] > 0 {
        means := means + [biomass[g] / numbers[g] as real];
      } else {
        means := means + [0.0];
      }
    }
  }

  /** The carnivore loop of `population_biomass_age_groups`: only a negative count divides. */
  method CarnivoreMeans(biomass: seq<real>, numbers: seq<int>) returns (means: seq<real>)
    requires |biomass| == |numbers|
    ensures |means| == |numbers|
    ensures forall k :: 0 <= k < |means| ==> means[k] == CarnivoreMean(biomass[k], numbers[k])
  {
    means := [];
    for g := 0 to |numbers|
      invariant |means| == g
      invariant forall k :: 0 <= k < g ==> means[k] == CarnivoreMean(biomass[k], numbers[k])
    {
      if numbers[g] < 0 {
        means := means + [biomass[g] / numbers[g] as real];
      } else {
        means := means + [0.0];
      }
    }
  }

  /**
   * `Island.__init__`: builds the map from the text and gives every key an empty cell,
   * or fails with the error `create_map` raises.
   */
  method NewIsland(islandMap: string) returns (r: Result<Island, MapError>)
    ensures r.Failure? <==> CreateMapSpec(islandMap, Current).Failure?
    ensures r.Failure? ==> CreateMapSpec(islandMap, Current) == Failure(r.error)
    ensures r.Success? ==> r.value.Valid() && r.value.currentYear == 0
    ensures r.Success? ==> r.value.order == CreateMapSpec(islandMap, Current).value.order
    ensures r.Success? ==> r.value.Terrains() == CreateMapSpec(islandMap, Current).value.terrain
    ensures r.Success? ==> forall c :: c in r.value.raster ==> fresh(r.value.raster[c])
    ensures r.Success? ==> forall c :: c in r.value.raster ==> r.value.raster[c].herbivores == [] && r.value.raster[c].carnivores == []
    ensures r.Success? ==> fresh(r.value.log) && r.value.log.events == []
  {
    var parsed := IslandMap.CreateMap(islandMap);
    match parsed {
      case Failure(e) => return Failure(e);
      case Success(g) =>
        RasterOfValid(StripSpaces(islandMap));
        var island := new Island(g);
        return Success(island);
    }
  }
}
