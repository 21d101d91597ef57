# BioSim island layer in Dafny

This project models the island layer of BioSim, a simulation of herbivores and
carnivores on the island of Rossumøya. Two revisions of the island are covered.

- `src/biosim/island.py` is the current revision. It:
  - reads a multi-line map text into a dictionary from `(row, column)` to a terrain cell;
  - rejects a map whose newline-terminated rows differ in length;
  - rejects a map whose frame is not Ocean;
  - places animals in cells;
  - runs the fixed order of the annual cycle;
  - answers the aggregate queries: population per species, age-group counts and biomass, and the food chain.
- `src/biosim/Island.py` is the older revision. It has the same map reader without the row-length check. Its constructor keeps nothing of the parsed map.

The modules are:

- `Results`: `Option`, `Result` and `Outcome`, the error paths of the source.
- `Topography`: the five terrains, their accessibility, an animal's age and weight, the appetite cap of each species, desirability, and the `Cell` class. The cell's per-species lists and fodder are updated in place.
- `RasterText`: the map text format both revisions share. It covers:
  - space removal;
  - where each symbol lands;
  - the first character that stops the scan;
  - the dictionary in insertion order (`Grid`);
  - Python's lexicographic `max` of the keys;
  - the border check;
  - `CreateMapSpec`, what `create_map` returns or raises.
- `IslandMap`: the current `create_map` loop, proved equal to `CreateMapSpec`.
- `MapLines`: a text seen as rows joined by newlines. Its main theorems say what both revisions make of such rows: `JoinedRows` for a text without a final newline, `NewlineEndedRows` for one with it. `MapLinesExamples` applies it to the maps of the island's tests.
- `LegacyIsland`: the older revision's loop and constructor, compared with the current one.
- `Stocking`: `populate_island` and its entry validation, stated on cell values.
- `Census`: the aggregate queries as folds over the cells in the dictionary's order.
- `IslandGrid`: the `Island` class. It holds the cells, their iteration order and a call log. Every cell knows the key it is stored under, and every cell operation records its own call, with that key, in the log; so the log lists the calls the annual cycle makes into cells, in order, and which cell received each.

Python's four `ValueError`s of map building are distinct errors here: `IllegalSymbol`, `NonUniformRows`, `EmptyMap` (`max` of no keys) and `NonOceanBorder`. When several apply, the first in scan order wins.

The birth weight drawn for an animal given without a weight is a parameter, `draw(request, entry)`.

## Model

| member | source | states |
|---|---|---|
| Topography.Appetite | src/biosim/animals.py:84-116 | The appetite cap F of each species is positive, so a desirability never divides by zero. |
| Topography.Cell.constructor | src/biosim/cell_topography.py:8-12 | A new cell has the given terrain, no animals and no fodder, and knows the key it is stored under. |
| Topography.Cell.IncreaseFodder | src/biosim/island.py:161 | The call on this cell, at the key it is stored under, is recorded at the end of the log. |
| Topography.Cell.FeedHerbivores | src/biosim/island.py:149 | The call on this cell, at the key it is stored under, is recorded at the end of the log. |
| Topography.Cell.FeedCarnivores | src/biosim/island.py:152 | The call on this cell, at the key it is stored under, is recorded at the end of the log. |
| Topography.Cell.BreedAll | src/biosim/island.py:177 | The call on this cell, at the key it is stored under, is recorded at the end of the log. |
| Topography.Cell.NaturalDeathAll | src/biosim/island.py:169 | The call on this cell, at the key it is stored under, is recorded at the end of the log. |
| Topography.Cell.MigrateAll | src/biosim/island.py:123-124 | The location passed must be the cell's own key; the call on this cell, with both desirability maps, is recorded at the end of the log. |
| Topography.Cell.AddAnimal | src/biosim/island.py:88-96 | The animal joins the end of its own species' list; the other list and the fodder stay as they were. |
| RasterText.StripSpaces | src/biosim/island.py:28 | No space is left, and every other character keeps its number of occurrences. |
| RasterText.StripSpacesConcat | src/biosim/island.py:28 | Removing spaces distributes over concatenation. |
| RasterText.StripSpacesIdentity | src/biosim/island.py:28 | A text without spaces is left unchanged. |
| RasterText.SymbolTerrain | src/biosim/island.py:34-43 | A character creates a cell exactly when it is one of O, M, J, S, D, and the cell is Ocean exactly for O. |
| RasterText.RowCountsNewlines | src/biosim/island.py:44-49 | The row a character lands in is the number of newlines before it. |
| RasterText.ColSinceNewline | src/biosim/island.py:29-49 | The column is the number of characters since the last newline. |
| RasterText.FirstFault | src/biosim/island.py:32-52 | The scan stops at a faulty index with no faulty index before it, or it finds no fault at all. |
| RasterText.FirstFaultIs | src/biosim/island.py:32-52 | A faulty index with no fault before it is where the scan stops. |
| RasterText.ReadOne | src/biosim/island.py:32-52 | One character moves the row, column, previous row length and dictionary as the loop body does: a symbol adds its key, a newline starts a row. |
| RasterText.RasterOfValid | src/biosim/island.py:30-49 | The dictionary's insertion order lists each key once, in strictly increasing lexicographic order, before the next position. |
| RasterText.RasterOfSymbols | src/biosim/island.py:33-43 | Every symbol of the text is a key at its (row, column) holding its terrain. |
| RasterText.RasterOfKeys | src/biosim/island.py:33-49 | Every key comes from some symbol of the text. |
| RasterText.LexMax | src/biosim/island.py:64 | `max` of the keys is a key that is at least every key in Python's tuple order. |
| RasterText.CheckBordersOcean | src/biosim/island.py:56-73 | The check passes only on a non-empty map whose cells in row 0, the greatest key's row, column 0 and the greatest key's column are all Ocean. |
| IslandMap.CreateMap | src/biosim/island.py:20-54 | The loop returns or raises exactly what `CreateMapSpec` prescribes for the current revision. |
| MapLines.FaultOfPrefix | src/biosim/island.py:32-52 | Whether a character stops the scan depends only on the text up to it. |
| MapLines.ReadNewline | src/biosim/island.py:44-49 | A newline advances the row, restarts the column, records the finished row's length and adds no key. |
| MapLines.NewlineFault | src/biosim/island.py:44-46 | A newline stops the current scan exactly when it ends a row other than the first whose length differs from the row before; it never stops the older scan. |
| MapLines.NoFaultExtends | src/biosim/island.py:32-52 | A text is fault-free exactly when its first part is and nothing after that part is faulty. |
| MapLines.ReadRow | src/biosim/island.py:33-43 | A row of symbols keeps the row number and the previous row length, and moves the column by its length. |
| MapLines.RasterOfRow | src/biosim/island.py:33-43 | A row read from the start of a line adds exactly its cells, in their columns. |
| MapLines.RowFaults | src/biosim/island.py:50-52 | Symbols never stop the scan. |
| MapLines.ScanRows | src/biosim/island.py:29-49 | After joined rows, the scan is in the last row, after its last column, and remembers the length of the row before. |
| MapLines.RasterOfNextRow | src/biosim/island.py:33-49 | A newline followed by a row adds that row's cells under the next row number. |
| MapLines.RasterOfRows | src/biosim/island.py:30-49 | The dictionary of joined rows holds row r, column c of every row. |
| MapLines.RasterOfRowsStep | src/biosim/island.py:30-49 | Joining one more row adds its cells to the dictionary. |
| MapLines.FaultsOfRows | src/biosim/island.py:44-52 | Joined rows are read without a fault exactly when the revision is the older one or every newline-terminated row after the first has the length of the row before. |
| MapLines.RowCellsAt | src/biosim/island.py:33-43 | The keys of one row are its columns, and each holds its symbol's terrain. |
| MapLines.RowsMapCells | src/biosim/island.py:33-49 | The keys of all rows are exactly the (row, column) pairs in range, each holding its symbol's terrain. |
| MapLines.CornerIsMax | src/biosim/island.py:64 | The greatest key is the last cell of the last row. |
| MapLines.BorderOfRows | src/biosim/island.py:64-73 | The border check passes on joined rows exactly when their frame, taken from the last cell, is Ocean. |
| MapLines.JoinHasNoSpace | src/biosim/island.py:28 | Joined symbol rows hold no space, so removing spaces leaves them as they are. |
| MapLines.JoinedRows | src/biosim/island.py:20-54 | For rows whose last row is not empty, joined without a final newline. Current revision: ragged compared rows fail with `NonUniformRows`. Otherwise, in either revision, the map is accepted exactly when its frame is Ocean. An accepted map holds rows[r][c] at (r, c). |
| MapLines.FaultsOfEndedRows | src/biosim/island.py:44-52 | Joined rows followed by a newline are read without a fault exactly when the revision is the older one or every row after the first, the last included, has the length of the row before. |
| MapLines.NewlineEndedRows | src/biosim/island.py:20-54 | For rows whose last row is not empty, followed by a final newline. Current revision: a row after the first, the last included, whose length differs from the row before fails with `NonUniformRows`. Otherwise, in either revision, the map is accepted exactly when its frame is Ocean. An accepted map holds rows[r][c] at (r, c). |
| MapLines.RowsAreLegal | src/biosim/island.py:50-52 | Every character of joined symbol rows is legal. |
| MapLinesExamples.SmallestIsland | tests/test_island.py:98-100 | The all-Ocean 2x2 map is accepted by both revisions. |
| MapLinesExamples.JungleIsland | tests/test_island.py:103-105 | One Jungle cell inside an Ocean frame is accepted by both revisions. |
| MapLinesExamples.FourTerrainIsland | tests/test_island.py:108-110 | A map with every land type inside an Ocean frame is accepted by both revisions. |
| MapLinesExamples.LandInCorner | tests/test_island.py:113-117 | A J, S, M or D in the top-left corner fails with `NonOceanBorder` in both revisions. |
| MapLinesExamples.LongMiddleRow | tests/test_island.py:126-129 | A too-long middle row fails with `NonUniformRows` in the current revision. The older revision rejects it only through the border, because the Jungle at (1, 2) lies in the last column. |
| MapLinesExamples.ShortLastRow | tests/test_island.py:132-135 | A short last row is not compared. Both revisions reject the map only because the greatest key (3, 1) puts the Jungle at (1, 1) on the border. |
| MapLinesExamples.EndingNewline | src/biosim/island.py:44-49 | A well-formed map followed by a newline is still accepted by both revisions. |
| MapLinesExamples.LastRowCompared | src/biosim/island.py:44-46 | With a final newline the short last row is compared: the current revision raises `NonUniformRows`, the older one accepts the map. |
| MapLinesExamples.LastRowNotCompared | src/biosim/island.py:44-49 | An all-Ocean map whose last row is shorter is accepted by the current revision, since no newline ends that row. |
| LegacyIsland.CreateMap | src/biosim/Island.py:13-42 | The older loop returns or raises exactly what `CreateMapSpec` prescribes for the older revision. |
| LegacyIsland.NewIsland | src/biosim/Island.py:10-11 | Construction fails exactly when `create_map` raises, with the same error; otherwise the island keeps no map. |
| LegacyIsland.NoFirstFault | src/biosim/Island.py:23-40 | The scan finds no fault exactly when no index is faulty. |
| LegacyIsland.AcceptedByBoth | src/biosim/Island.py:13-42 | A map the current revision accepts is accepted by the older one, with the same dictionary. |
| LegacyIsland.LegacyHasNoRowCheck | src/biosim/Island.py:35-37 | The older revision never reports non-uniform rows. |
| LegacyIsland.LegacyIllegalSymbol | src/biosim/Island.py:38-40 | The older revision fails with `IllegalSymbol` exactly when the text holds a character other than a space, a symbol or a newline. |
| LegacyIsland.IllegalSymbolRejected | src/biosim/island.py:50-52 | Such a character makes both revisions fail. The current one reports the illegal symbol, or an earlier ragged row. |
| LegacyIsland.UnknownSymbol | tests/test_island.py:120-123 | A map containing R is rejected by both revisions, by the older one as an illegal symbol. |
| Stocking.CheckPopulation | src/biosim/island.py:102-114 | It passes exactly when every entry has a non-negative int age and no weight or a positive one. Otherwise it fails with the error of some bad entry, and every entry before that one is valid. |
| Stocking.StockedStep | src/biosim/island.py:88-96 | The entries of a request are added one at a time, in order. |
| Stocking.ArrivalsCount | src/biosim/island.py:88-96 | A request adds exactly one animal per entry naming the species. |
| Stocking.ArrivalsFromEntries | src/biosim/island.py:88-96 | Every animal added has an entry's age and its given weight, or the drawn one. |
| Stocking.StockOneEffect | src/biosim/island.py:83-100 | A request fails exactly on a bad entry, an unknown location or an inaccessible cell, and then changes nothing. Otherwise only the target cell's lists grow, by exactly the herbivore and carnivore entries. |
| Stocking.BadEntryRejected | src/biosim/island.py:109-114 | The first bad entry's error is the request's outcome, before anything is added. |
| Stocking.StockStep | src/biosim/island.py:82-100 | One more request does nothing after a failure and is otherwise handled on the current cells. |
| Stocking.FailureSticks | src/biosim/island.py:82-100 | Once a request has failed, later requests are never looked at. |
| Stocking.FailureKeepsEarlierRequests | src/biosim/island.py:82-100 | A failing call failed on some request whose predecessors all passed and stay applied, and that request changed nothing. |
| Stocking.StockKeepsCells | src/biosim/island.py:82-100 | Stocking keeps the set of cells, their terrains and their fodder. |
| Census.Lineup | src/biosim/island.py:234 | The cells are visited in the dictionary's insertion order, one per key. |
| Census.LineupStep | src/biosim/island.py:234 | Visiting one more key appends its cell. |
| Census.AgeGroup | src/biosim/island.py:253-267 | The comparison chain puts every age in exactly one of the five groups 0-1, 2-4, 5-9, 10-14 and 15 or more. |
| Census.GroupsPartitionAnimals | src/biosim/island.py:252-267 | The five group counts of a list add up to its length, and the five group weights to its biomass. |
| Census.GroupsCoverPopulation | src/biosim/island.py:240-268 | The age-group counts of a species add up to its total from `total_number_per_species`. |
| Census.GroupsCoverBiomass | src/biosim/island.py:327-345 | The age-group biomasses of a species add up to its biomass in `biomass_food_chain`. |
| Census.TotalsStep | src/biosim/island.py:234-237 | One more cell adds its animals, fodder and biomass, and only when it is accessible. |
| Census.GroupTotalsStep | src/biosim/island.py:250-267 | One more cell adds its animals to their age groups, and only when it is accessible. |
| Census.GroupsStep | src/biosim/island.py:252-267 | One more animal adds to its own age group only. |
| Census.GroupCountBounded | src/biosim/island.py:240-268 | No group count exceeds the population. |
| Census.CarnivoreMeanNegated | src/biosim/island.py:319-323 | On a negated count, the carnivore mean is minus the average weight, and 0 for an empty group. |
| Census.CarnivoreMeansNegated | src/biosim/island.py:319-323 | The same holds for every group of a list of non-positive counts. |
| IslandGrid.PerCellMembership | src/biosim/island.py:154-177 | A pass calls a step on a cell exactly when the cell is listed and the step applies to its terrain: Jungle and Savanna for fodder and herbivore feeding, every accessible cell otherwise. |
| IslandGrid.PerCellOnce | src/biosim/island.py:154-177 | With keys listed once, a pass calls a step at most once per cell. |
| IslandGrid.MigrationSeesOneSnapshot | src/biosim/island.py:116-125 | Every migration call of a year goes to an accessible cell and receives the same two desirability maps, those of the cells before migration began. |
| IslandGrid.Island.PassCallsEachCellOnce | src/biosim/island.py:154-177 | A pass calls a step exactly once on each cell it applies to and never on another, since a dictionary lists each key once. |
| IslandGrid.Island.constructor | src/biosim/island.py:15-18 | Given a map whose order lists each key once, the island holds one fresh, empty cell per key, in that order; the log is empty and the year is 0. |
| IslandGrid.NewCells | src/biosim/island.py:17 | One fresh, empty cell per listed key, holding its terrain, with different cells for different keys. |
| IslandGrid.Island.PopulateIsland | src/biosim/island.py:75-100 | The outcome and the new cells are those `Stock` gives for the requests on the old cells. |
| IslandGrid.Island.StockRequest | src/biosim/island.py:83-100 | One request's outcome and new cells are those `StockOne` gives. |
| IslandGrid.Island.ForEachCell | src/biosim/island.py:154-177 | The pass makes exactly the calls `PerCell` lists, in iteration order, each on the cell stored under its key. |
| IslandGrid.Island.Visit | src/biosim/island.py:149-177 | The cell stored under key `c` receives the call a step stands for, once, and only that call, made on that cell, is added to the log. |
| IslandGrid.Island.IncreaseFodderAllCells | src/biosim/island.py:154-161 | Fodder regrows in Jungle and Savanna cells, in iteration order. |
| IslandGrid.Island.FeedAllAnimals | src/biosim/island.py:142-152 | Herbivores eat in Jungle and Savanna cells, and then carnivores eat in every accessible cell. |
| IslandGrid.Island.BreedInAllCells | src/biosim/island.py:171-177 | Every accessible cell breeds, in iteration order. |
| IslandGrid.Island.AnnualDeathAllCells | src/biosim/island.py:163-169 | Every accessible cell applies natural death, in iteration order. |
| IslandGrid.Island.GenerateEkForBoard | src/biosim/island.py:127-140 | Both maps have exactly the accessible cells as keys, each holding that cell's desirability for the species. |
| IslandGrid.Island.MigrateAllCells | src/biosim/island.py:116-125 | Every accessible cell migrates with the maps of the cells as they were before the first migration, then the flags are reset. |
| IslandGrid.Island.AnnualCycle | src/biosim/island.py:179-189 | The year runs fodder, feeding, breeding, migration, ageing, metabolism and death, in this order; the migration maps come from the cells as they are after breeding, keyed by the island's keys with their terrains. |
| IslandGrid.Island.TotalNumberPerSpecies | src/biosim/island.py:226-238 | The counts are the populations of the accessible cells. |
| IslandGrid.Island.TallyAgeGroups | src/biosim/island.py:248-298 | The loop yields each group's count, negated when counting down, and each group's biomass. |
| IslandGrid.Island.HerbivoreBiomassAgeGroups | src/biosim/island.py:240-268 | The herbivore counts are non-negative and add up to the herbivore total; the biomass is per group. |
| IslandGrid.Island.CarnivoreBiomassAgeGroups | src/biosim/island.py:270-298 | The carnivore counts are at most 0 and add up to minus the carnivore total; the biomass is per group. |
| IslandGrid.Island.PopulationBiomassAgeGroups | src/biosim/island.py:300-325 | Both queries' counts, with each group's mean weight: the herbivore mean divides by positive counts, the carnivore mean by negative ones, and an empty group gives 0. |
| IslandGrid.Island.BiomassFoodChain | src/biosim/island.py:327-345 | Fodder, herbivore and carnivore biomass are the totals over the accessible cells. |
| IslandGrid.AddPopulation | src/biosim/island.py:88-96 | A validated request's animals are added to the cell in order, each to its species' list. |
| IslandGrid.TallyAnimals | src/biosim/island.py:252-267 | One cell's animals are counted, upwards or downwards, into their groups and add their weights. |
| IslandGrid.HerbivoreMeans | src/biosim/island.py:314-318 | Each mean is biomass over count for a positive count and 0 otherwise. |
| IslandGrid.CarnivoreMeans | src/biosim/island.py:319-323 | Each mean is biomass over count for a negative count and 0 otherwise. |
| IslandGrid.NewIsland | src/biosim/island.py:15-18 | Construction fails exactly when `create_map` raises, with the same error. Otherwise the island holds that map's keys, order and terrains in fresh, empty cells, the year is 0 and the log is empty. |

## Left out

- The per-cell biology is not modelled: fodder regrowth, feeding, breeding, migration and natural death. Its code in `cell_topography.py` and `animals.py` is stubs or stochastic.
- Topography.Cell.IncreaseFodder, FeedHerbivores, FeedCarnivores, BreedAll, NaturalDeathAll and MigrateAll: each contract states only that the call is recorded in the log. What the call does to the residents and the fodder is left open within the method's frame. So the model states which cells each phase calls, and in which order, not what the calls do.
- `Animals.reset_migration_attempt`, `Animals.age_up` and `Animals.annual_metabolism` are class-level calls the island makes (src/biosim/island.py:125 and 187-188). `animals.py` defines only `age_up`, which loops over a class-level list of instances that no constructor fills; the other two are not defined there. The island adds each of them to the log as a single event.
- Random birth weights are not modelled. An entry without a weight gets the value of the parameter `draw`.
- Floating point is not modelled: weights, fodder and desirability are `real`.
- `Cell.biomass_herbivores`, `Cell.biomass_carnivores`, `herbivore_list`, `carnivore_list` and `is_accessible`: src/biosim/island.py uses them (lines 87, 122, 200, 252 and 340-341), but no file of the source defines them; `cell_topography.py` sets `accessible` and `animals` instead. The model uses `Topography.Biomass`, the sum of the animals' weights, for the two biomass calls; the cell's `herbivores` and `carnivores` sequences for the two lists; and `Topography.Accessible` of the cell's terrain for `is_accessible`. `Census.GroupsCoverBiomass` and `IslandGrid.Island.BiomassFoodChain` hold under this definition of biomass.
- `ek_for_cell` is not in the source. `Desirability` is the species' food divided by (residents + 1) × F: fodder for herbivores, herbivore biomass for carnivores. F is 10 for herbivores and 50 for carnivores.
  - Both F values are read from `animals.py`, where the carnivore parameter table sits in a second class that is also named `Herbivores`.
  - `Carnivores` is imported by the island but not defined there.
- `Topography.Cell.constructor`: the model starts fodder at 0.0, where the source leaves it `None`.
- `per_cell_count_pandas_dataframe` and `arrays_for_heatmap` are not modelled. They build pandas and numpy tables for plotting.
- `populate_island` is modelled as written:
  - validation and placement run per request;
  - a failing request leaves earlier requests applied;
  - a species name other than `Herbivore` or `Carnivore` adds nothing.
- `LegacyIsland.NewIsland` models the older constructor. A Dafny constructor cannot fail, so construction is a method returning a `Result`. The bare `Island` class of that revision stores no field.
- `MapLinesExamples.JungleIsland`: this example does not restate which cell holds the Jungle. `MapLines.RowsMapCells` and `MapLines.JoinedRows` state the cell contents of every accepted map.
- The test maps are stated for texts of terrain symbols and newlines only. Texts with spaces are covered by the general members of `RasterText` and `MapLines`.
- MapLines.JoinedRows and MapLines.NewlineEndedRows: neither covers the empty text or a text that ends in two or more newlines. For those, `CreateMapSpec` and `IslandMap.CreateMap` still state what `create_map` does.
