/**
 * The aggregate queries of src/biosim/island.py, stated as folds over the cells in
 * the map's iteration order. Only accessible cells are counted.
 */
module Census {
  import opened Topography
  import opened RasterText

  /** The cells of `v` in the order `order` lists them. */
  function Lineup(order: seq<Coord>, v: map<Coord, CellView>): (cs: seq<CellView>)
    requires forall c :: c in order ==> c in v
    ensures |cs| == |order| && forall i :: 0 <= i < |order| ==> cs[i] == v[order[i]]
  {
    if order == [] then []
    else Lineup(order[..|order| - 1], v) + [v[order[|order| - 1]]]
  }

  /** Listing one more coordinate appends its cell. */
  lemma LineupStep(order: seq<Coord>, v: map<Coord, CellView>, i: nat)
    requires forall c :: c in order ==> c in v
    requires i < |order|
    ensures Lineup(order[..i + 1], v) == Lineup(order[..i], v) + [v[order[i]]]
  {
    assert order[..i + 1][..i] == order[..i];
  }

  /** The number of animals of a species on the island (`total_number_per_species`). */
  function Population(cs: seq<CellView>, s: Species): nat {
    if cs == [] then 0
    else
      var c := cs[|cs| - 1];
      Population(cs[..|cs| - 1], s) + if Accessible(c.terrain) then |c.Residents(s)| else 0
  }

  /** The fodder on the island. */
  function FodderTotal(cs: seq<CellView>): real {
    if cs == [] then 0.0
    else
      var c := cs[|cs| - 1];
      FodderTotal(cs[..|cs| - 1]) + if Accessible(c.terrain) then c.fodder else 0.0
  }

  /** The weight of all animals of a species on the island. */
  function BiomassTotal(cs: seq<CellView>, s: Species): real {
    if cs == [] then 0.0
    else
      var c := cs[|cs| - 1];
      BiomassTotal(cs[..|cs| - 1], s) + if Accessible(c.terrain) then Biomass(c.Residents(s)) else 0.0
  }

  // ---------------------------------------------------------------------------
  // Age groups

  /** The youngest age of each of the five groups 0-1, 2-4, 5-9, 10-14 and 15 or more. */
  function GroupStart(g: nat): nat
    requires g < 5
  {
    [0, 2, 5, 10, 15][g]
  }

  /** The age group of an age: the chain of comparisons of the biomass queries. */
  function AgeGroup(age: nat): (g: nat)
    ensures g < 5
    ensures GroupStart(g) <= age
    ensures g < 4 ==> age < GroupStart(g + 1)
  {
    if age <= 1 then 0
    else if 1 < age < 5 then 1
    else if 5 <= age < 10 then 2
    else if 10 <= age < 15 then 3
    else 4
  }

  /** The number of animals in age group `g`. */
  function InGroup(animals: seq<Animal>, g: nat): nat {
    if animals == [] then 0
    else
      var a := animals[|animals| - 1];
      InGroup(animals[..|animals| - 1], g) + if AgeGroup(a.age) == g then 1 else 0
  }

  /** The weight of the animals in age group `g`. */
  function GroupWeight(animals: seq<Animal>, g: nat): real {
    if animals == [] then 0.0
    else
      var a := animals[|animals| - 1];
      GroupWeight(animals[..|animals| - 1], g) + if AgeGroup(a.age) == g then a.weight else 0.0
  }

  /** The number of animals of a species in age group `g` on the island. */
  function GroupCount(cs: seq<CellView>, s: Species, g: nat): nat {
    if cs == [] then 0
    else
      var c := cs[|cs| - 1];
      GroupCount(cs[..|cs| - 1], s, g) + if Accessible(c.terrain) then InGroup(c.Residents(s), g) else 0
  }

  /** The weight of the animals of a species in age group `g` on the island. */
  function GroupBiomass(cs: seq<CellView>, s: Species, g: nat): real {
    if cs == [] then 0.0
    else
      var c := cs[|cs| - 1];
      GroupBiomass(cs[..|cs| - 1], s, g) + if Accessible(c.terrain) then GroupWeight(c.Residents(s), g) else 0.0
  }

  /** The mean weight of a group: biomass over a positive count, 0 for an empty group (the herbivore query's rule). */
  function MeanWeight(biomass: real, count: int): real {
    if count > 0 then biomass / count as real else 0.0
  }

  /** The carnivore query's mean weight of a group: its counts are negative, so only a negative count divides. */
  function CarnivoreMean(biomass: real, count: int): real {
    if count < 0 then biomass / count as real else 0.0
  }

  // ---------------------------------------------------------------------------
  // Properties

  /** Every animal is in exactly one age group: the five group counts of a list add up to its length. */
  lemma {:induction false} GroupsPartitionAnimals(animals: seq<Animal>)
    ensures InGroup(animals, 0) + InGroup(animals, 1) + InGroup(animals, 2) + InGroup(animals, 3) + InGroup(animals, 4)
            == |animals|
    ensures GroupWeight(animals, 0) + GroupWeight(animals, 1) + GroupWeight(animals, 2) + GroupWeight(animals, 3)
            + GroupWeight(animals, 4) == Biomass(animals)
  {
    if animals != [] {
      GroupsPartitionAnimals(animals[..|animals| - 1]);
    }
  }

  /** The five age-group counts of a species add up to its population on the island. */
  lemma {:induction false} GroupsCoverPopulation(cs: seq<CellView>, s: Species)
    ensures GroupCount(cs, s, 0) + GroupCount(cs, s, 1) + GroupCount(cs, s, 2) + GroupCount(cs, s, 3)
            + GroupCount(cs, s, 4) == Population(cs, s)
  {
    if cs != [] {
      GroupsCoverPopulation(cs[..|cs| - 1], s);
      GroupsPartitionAnimals(cs[|cs| - 1].Residents(s));
    }
  }

  /** The five age-group biomasses of a species add up to the biomass the food-chain query reports. */
  lemma {:induction false} GroupsCoverBiomass(cs: seq<CellView>, s: Species)
    ensures GroupBiomass(cs, s, 0) + GroupBiomass(cs, s, 1) + GroupBiomass(cs, s, 2) + GroupBiomass(cs, s, 3)
            + GroupBiomass(cs, s, 4) == BiomassTotal(cs, s)
  {
    if cs != [] {
      GroupsCoverBiomass(cs[..|cs| - 1], s);
      GroupsPartitionAnimals(cs[|cs| - 1].Residents(s));
    }
  }

  /** Counting one more cell adds its share to each island total of species `s`. */
  lemma TotalsStep(cs: seq<CellView>, i: nat, s: Species)
    requires i < |cs|
    ensures Population(cs[..i + 1], s) == Population(cs[..i], s) + if Accessible(cs[i].terrain) then |cs[i].Residents(s)| else 0
    ensures FodderTotal(cs[..i + 1]) == FodderTotal(cs[..i]) + if Accessible(cs[i].terrain) then cs[i].fodder else 0.0
    ensures BiomassTotal(cs[..i + 1], s) == BiomassTotal(cs[..i], s) + if Accessible(cs[i].terrain) then Biomass(cs[i].Residents(s)) else 0.0
  {
    assert cs[..i + 1][..i] == cs[..i];
  }

  /** Appending a cell adds its animals of species `s` to their age groups. */
  lemma GroupTotalsStep(cs: seq<CellView>, c: CellView, s: Species)
    ensures forall g :: GroupCount(cs + [c], s, g) == GroupCount(cs, s, g) + if Accessible(c.terrain) then InGroup(c.Residents(s), g) else 0
    ensures forall g :: GroupBiomass(cs + [c], s, g) == GroupBiomass(cs, s, g) + if Accessible(c.terrain) then GroupWeight(c.Residents(s), g) else 0.0
  {
    assert (cs + [c])[..|cs|] == cs;
  }

  /** Counting one more animal adds it to its own age group only. */
  lemma GroupsStep(animals: seq<Animal>, j: nat)
    requires j < |animals|
    ensures forall g :: InGroup(animals[..j + 1], g) == InGroup(animals[..j], g) + if AgeGroup(animals[j].age) == g then 1 else 0
    ensures forall g :: GroupWeight(animals[..j + 1], g) == GroupWeight(animals[..j], g) + if AgeGroup(animals[j].age) == g then animals[j].weight else 0.0
  {
    assert animals[..j + 1][..j] == animals[..j];
  }

  /** A group's count is never larger than the species' population. */
  lemma GroupCountBounded(cs: seq<CellView>, s: Species, g: nat)
    requires g < 5
    ensures GroupCount(cs, s, g) <= Population(cs, s)
  {
    GroupsCoverPopulation(cs, s);
  }

  /**
   * With its counts negated, the carnivore query's mean of a group is minus the average
   * weight of that group, and 0 for an empty group.
   */
  lemma CarnivoreMeanNegated(biomass: real, n: nat)
    ensures CarnivoreMean(biomass, -(n as int)) == -MeanWeight(biomass, n)
  {
    if n > 0 {
      var q := biomass / n as real;
      assert q * n as real == biomass;
      assert (-q) * (-(n as int)) as real == biomass;
    }
  }

  /** The carnivore means of a list of negated counts are minus the average weights. */
  lemma CarnivoreMeansNegated(biomass: seq<real>, numbers: seq<int>, means: seq<real>)
    requires |biomass| == |numbers| == |means|
    requires forall k :: 0 <= k < |numbers| ==> numbers[k] <= 0
    requires forall k :: 0 <= k < |means| ==> means[k] == CarnivoreMean(biomass[k], numbers[k])
    ensures forall k :: 0 <= k < |means| ==> means[k] == -MeanWeight(biomass[k], -numbers[k])
  {
    forall k | 0 <= k < |means|
      ensures means[k] == -MeanWeight(biomass[k], -numbers[k])
    {
      CarnivoreMeanNegated(biomass[k], -numbers[k]);
    }
  }
}
