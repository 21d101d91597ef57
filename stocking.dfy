/**
 * What `Island.populate_island` and `_check_new_population_age_and_weight` of
 * src/biosim/island.py do to the cells, stated on cell values.
 *
 * Requests are handled one after the other. For each request every entry is
 * validated first (age, then weight, entry by entry), then the location must be a
 * key of the map, then its cell must be accessible; only then are the entries added,
 * herbivores to the herbivore list and carnivores to the carnivore list, in order.
 * An error stops the call, but the requests before it stay applied.
 */
module Stocking {
  import opened Results
  import opened Topography
  import opened RasterText

  /** The value given as an age: an `int`, or a value of any other Python type (a float, say). */
  datatype AgeValue = IntAge(n: int) | NonIntAge

  /** One animal to place; `weight == None` asks for a birth weight drawn at random. */
  datatype Entry = Entry(species: string, age: AgeValue, weight: Option<real>)

  datatype Request = Request(loc: Coord, pop: seq<Entry>)

  datatype StockError = BadAge | BadWeight | UnknownLocation | Inaccessible

  /** The error an entry raises, if any: the age is checked before the weight. */
  function EntryError(e: Entry): Option<StockError> {
    if !(e.age.IntAge? && e.age.n >= 0) then Some(BadAge)
    else if e.weight.Some? && e.weight.value <= 0.0 then Some(BadWeight)
    else None
  }

  predicate ValidEntry(e: Entry) {
    EntryError(e).None?
  }

  /** `_check_new_population_age_and_weight`: passes exactly when every entry is valid, else fails on the first bad one. */
  function CheckPopulation(pop: seq<Entry>): (r: Outcome<StockError>)
    ensures r.Pass? <==> forall j :: 0 <= j < |pop| ==> ValidEntry(pop[j])
    ensures r.Fail? ==> exists j :: 0 <= j < |pop| && EntryError(pop[j]) == Some(r.error) &&
                                   forall k :: 0 <= k < j ==> ValidEntry(pop[k])
  {
    if pop == [] then Pass
    else if !ValidEntry(pop[0]) then Fail(EntryError(pop[0]).value)
    else
      var rest := CheckPopulation(pop[1..]);
      assert forall j :: 1 <= j < |pop| ==> pop[j] == pop[1..][j - 1];
      rest
  }

  /** The name the source compares an entry's species with. */
  function SpeciesName(s: Species): string {
    match s
    case Herbivore => "Herbivore"
    case Carnivore => "Carnivore"
  }

  /** The animal a valid entry creates; `drawn` stands for the random birth weight. */
  function Newborn(e: Entry, drawn: real): Animal
    requires ValidEntry(e)
  {
    Animal(e.age.n, if e.weight.Some? then e.weight.value else drawn)
  }

  /**
   * The animals of species `s` that the entries of request number `i` create, in order;
   * `draw(i, j)` is the birth weight drawn for entry `j` of that request.
   */
  function Arrivals(pop: seq<Entry>, s: Species, i: nat, draw: (nat, nat) -> real): seq<Animal>
    requires forall j :: 0 <= j < |pop| ==> ValidEntry(pop[j])
  {
    if pop == [] then []
    else
      var n := |pop| - 1;
      Arrivals(pop[..n], s, i, draw) + if pop[n].species == SpeciesName(s) then [Newborn(pop[n], draw(i, n))] else []
  }

  /** The number of entries naming a species. */
  function CountNamed(pop: seq<Entry>, name: string): nat {
    if pop == [] then 0
    else CountNamed(pop[..|pop| - 1], name) + if pop[|pop| - 1].species == name then 1 else 0
  }

  /** A cell after the entries of a request have been added to it. */
  function Stocked(c: CellView, pop: seq<Entry>, i: nat, draw: (nat, nat) -> real): CellView
    requires forall j :: 0 <= j < |pop| ==> ValidEntry(pop[j])
  {
    c.(herbivores := c.herbivores + Arrivals(pop, Herbivore, i, draw),
       carnivores := c.carnivores + Arrivals(pop, Carnivore, i, draw))
  }

  /** A cell after one valid entry: its animal joins the list its species names, or nothing happens. */
  function Joined(c: CellView, e: Entry, drawn: real): CellView
    requires ValidEntry(e)
  {
    if e.species == "Herbivore" then c.(herbivores := c.herbivores + [Newborn(e, drawn)])
    else if e.species == "Carnivore" then c.(carnivores := c.carnivores + [Newborn(e, drawn)])
    else c
  }

  /** The entries of a request are added one at a time, in order. */
  lemma StockedStep(c: CellView, pop: seq<Entry>, j: nat, i: nat, draw: (nat, nat) -> real)
    requires j < |pop| && forall k :: 0 <= k < |pop| ==> ValidEntry(pop[k])
    ensures Stocked(c, pop[..j + 1], i, draw) == Joined(Stocked(c, pop[..j], i, draw), pop[j], draw(i, j))
  {
    assert pop[..j + 1][..j] == pop[..j];
    assert "Herbivore"[0] != "Carnivore"[0];
  }

  /** Handling request number `i` on the cells `v`: its outcome and the cells afterwards. */
  function StockOne(q: Request, i: nat, v: map<Coord, CellView>, draw: (nat, nat) -> real)
    : (Outcome<StockError>, map<Coord, CellView>)
  {
    match CheckPopulation(q.pop)
    case Fail(e) => (Fail(e), v)
    case Pass =>
      if q.loc !in v then (Fail(UnknownLocation), v)
      else if !Accessible(v[q.loc].terrain) then (Fail(Inaccessible), v)
      else (Pass, v[q.loc := Stocked(v[q.loc], q.pop, i, draw)])
  }

  /** Handling the requests in order, stopping at the first error. */
  function Stock(reqs: seq<Request>, v: map<Coord, CellView>, draw: (nat, nat) -> real)
    : (Outcome<StockError>, map<Coord, CellView>)
  {
    if reqs == [] then (Pass, v)
    else
      var n := |reqs| - 1;
      var before := Stock(reqs[..n], v, draw);
      if before.0.Fail? then before else StockOne(reqs[n], n, before.1, draw)
  }

  // ---------------------------------------------------------------------------
  // Properties

  /** A request adds exactly one animal per entry that names the species. */
  lemma {:induction false} ArrivalsCount(pop: seq<Entry>, s: Species, i: nat, draw: (nat, nat) -> real)
    requires forall j :: 0 <= j < |pop| ==> ValidEntry(pop[j])
    ensures |Arrivals(pop, s, i, draw)| == CountNamed(pop, SpeciesName(s))
  {
    if pop != [] {
      ArrivalsCount(pop[..|pop| - 1], s, i, draw);
    }
  }

  /** Every animal a request adds has the age of an entry and its given weight, or the drawn one. */
  lemma {:induction false} ArrivalsFromEntries(pop: seq<Entry>, s: Species, i: nat, draw: (nat, nat) -> real)
    requires forall j :: 0 <= j < |pop| ==> ValidEntry(pop[j])
    ensures forall a :: a in Arrivals(pop, s, i, draw) ==>
      exists j :: 0 <= j < |pop| && pop[j].species == SpeciesName(s) && a == Newborn(pop[j], draw(i, j))
  {
    if pop != [] {
      var n := |pop| - 1;
      ArrivalsFromEntries(pop[..n], s, i, draw);
      forall a | a in Arrivals(pop, s, i, draw)
        ensures exists j :: 0 <= j < |pop| && pop[j].species == SpeciesName(s) && a == Newborn(pop[j], draw(i, j))
      {
        if a in Arrivals(pop[..n], s, i, draw) {
          var j :| 0 <= j < n && pop[..n][j].species == SpeciesName(s) && a == Newborn(pop[..n][j], draw(i, j));
          assert pop[..n][j] == pop[j];
        } else {
          assert pop[n].species == SpeciesName(s) && a == Newborn(pop[n], draw(i, n));
        }
      }
    }
  }

  /**
   * One request: it fails exactly when an entry is invalid, the location is unknown or
   * its cell is inaccessible, and then no cell changes. Otherwise the target cell's lists
   * grow by exactly the herbivore and carnivore entries, and no other cell changes.
   */
  lemma StockOneEffect(q: Request, i: nat, v: map<Coord, CellView>, draw: (nat, nat) -> real)
    ensures var (o, w) := StockOne(q, i, v, draw);
      && (o.Pass? <==> (forall j :: 0 <= j < |q.pop| ==> ValidEntry(q.pop[j])) && q.loc in v && Accessible(v[q.loc].terrain))
      && (o.Fail? ==> w == v)
      && w.Keys == v.Keys
      && (forall c :: c in v && c != q.loc ==> w[c] == v[c])
      && (o.Pass? ==>
            && w[q.loc].terrain == v[q.loc].terrain && w[q.loc].fodder == v[q.loc].fodder
            && w[q.loc].herbivores[..|v[q.loc].herbivores|] == v[q.loc].herbivores
            && w[q.loc].carnivores[..|v[q.loc].carnivores|] == v[q.loc].carnivores
            && |w[q.loc].herbivores| == |v[q.loc].herbivores| + CountNamed(q.pop, "Herbivore")
            && |w[q.loc].carnivores| == |v[q.loc].carnivores| + CountNamed(q.pop, "Carnivore"))
  {
    if CheckPopulation(q.pop).Pass? && q.loc in v && Accessible(v[q.loc].terrain) {
      ArrivalsCount(q.pop, Herbivore, i, draw);
      ArrivalsCount(q.pop, Carnivore, i, draw);
    }
  }

  /** An entry with a bad age or weight makes its request fail with that error, before anything is added. */
  lemma BadEntryRejected(q: Request, i: nat, v: map<Coord, CellView>, draw: (nat, nat) -> real, j: nat)
    requires j < |q.pop| && !ValidEntry(q.pop[j])
    requires forall k :: 0 <= k < j ==> ValidEntry(q.pop[k])
    ensures StockOne(q, i, v, draw) == (Fail(EntryError(q.pop[j]).value), v)
  {
    var r := CheckPopulation(q.pop);
    var k :| 0 <= k < |q.pop| && EntryError(q.pop[k]) == Some(r.error) && forall m :: 0 <= m < k ==> ValidEntry(q.pop[m]);
    assert k == j;
  }

  /** Handling one more request: nothing happens after a failure, otherwise the request is handled. */
  lemma StockStep(reqs: seq<Request>, i: nat, v: map<Coord, CellView>, draw: (nat, nat) -> real)
    requires i < |reqs|
    ensures Stock(reqs[..i + 1], v, draw) ==
      if Stock(reqs[..i], v, draw).0.Fail? then Stock(reqs[..i], v, draw)
      else StockOne(reqs[i], i, Stock(reqs[..i], v, draw).1, draw)
  {
    assert reqs[..i + 1][..i] == reqs[..i];
  }

  /** Once a request has failed, the later ones are never looked at. */
  lemma {:induction false} FailureSticks(reqs: seq<Request>, k: nat, v: map<Coord, CellView>, draw: (nat, nat) -> real)
    requires k <= |reqs| && Stock(reqs[..k], v, draw).0.Fail?
    ensures Stock(reqs, v, draw) == Stock(reqs[..k], v, draw)
    decreases |reqs| - k
  {
    if k < |reqs| {
      StockStep(reqs, k, v, draw);
      FailureSticks(reqs, k + 1, v, draw);
    } else {
      assert reqs[..k] == reqs;
    }
  }

  /**
   * When the call fails, it failed on some request `k`: the requests before `k` all
   * passed and stay applied, and request `k` changed nothing.
   */
  lemma {:induction false} FailureKeepsEarlierRequests(reqs: seq<Request>, v: map<Coord, CellView>, draw: (nat, nat) -> real)
    requires Stock(reqs, v, draw).0.Fail?
    ensures exists k ::
              && 0 <= k < |reqs|
              && Stock(reqs[..k], v, draw).0.Pass?
              && StockOne(reqs[k], k, Stock(reqs[..k], v, draw).1, draw) == Stock(reqs, v, draw)
              && Stock(reqs, v, draw).1 == Stock(reqs[..k], v, draw).1
  {
    var n := |reqs| - 1;
    var before := Stock(reqs[..n], v, draw);
    if before.0.Pass? {
      StockOneEffect(reqs[n], n, before.1, draw);
    } else {
      FailureKeepsEarlierRequests(reqs[..n], v, draw);
      var k :| 0 <= k < n && Stock(reqs[..n][..k], v, draw).0.Pass? &&
        StockOne(reqs[..n][k], k, Stock(reqs[..n][..k], v, draw).1, draw) == Stock(reqs[..n], v, draw) &&
        Stock(reqs[..n], v, draw).1 == Stock(reqs[..n][..k], v, draw).1;
      assert reqs[..n][..k] == reqs[..k] && reqs[..n][k] == reqs[k];
    }
  }

  /** Stocking never adds or removes a cell and never changes a cell's terrain or fodder. */
  lemma {:induction false} StockKeepsCells(reqs: seq<Request>, v: map<Coord, CellView>, draw: (nat, nat) -> real)
    ensures Stock(reqs, v, draw).1.Keys == v.Keys
    ensures forall c :: c in v ==> Stock(reqs, v, draw).1[c].terrain == v[c].terrain
    ensures forall c :: c in v ==> Stock(reqs, v, draw).1[c].fodder == v[c].fodder
  {
    if reqs != [] {
      var n := |reqs| - 1;
      StockKeepsCells(reqs[..n], v, draw);
      StockOneEffect(reqs[n], n, Stock(reqs[..n], v, draw).1, draw);
    }
  }
}
