/**
 * `Island.create_map` of src/biosim/island.py: the scan of the map text, with the
 * row-length check of the current revision, followed by the border check.
 */
module IslandMap {
  import opened Results
  import opened Topography
  import opened RasterText

  /**
   * Scans the text without spaces once. `x` is the current row, `y` the column of the
   * character just read, `previousYMax` the length of the last newline-terminated row.
   */
  method CreateMap(islandMap: string) returns (r: Result<Grid, MapError>)
    ensures r == CreateMapSpec(islandMap, Current)
  {
    var t := StripSpaces(islandMap);
    var x, y := 0, -1;
    var previousYMax: Option<int> := None;
    var raster := Grid([], map[]);
    var i := 0;
    while i < |t|
      invariant 0 <= i <= |t|
      invariant x == Row(t[..i]) && y + 1 == Col(t[..i])
      invariant previousYMax == if x == 0 then None else Some(PrevRowLength(t[..i]))
      invariant raster == RasterOf(t[..i])
      invariant forall j :: 0 <= j < i ==> !FaultAt(t, j, Current)
    {
      var code := t[i];
      ReadOne(t, i);
      y := y + 1;
      match SymbolTerrain(code) {
        case Some(terrain) =>
          assert Pos(t, i) == (x, y);
          raster := Grid(raster.order + [(x, y)], raster.terrain[(x, y) := terrain]);
          assert raster == RasterOf(t[..i + 1]);
        case None =>
          if code == '\n' {
            if x != 0 && previousYMax != Some(y) {
              assert RaggedAt(t, i) && !IllegalAt(t, i);
              FirstFaultIs(t, Current, i);
              return Failure(NonUniformRows);
            }
            assert raster == RasterOf(t[..i + 1]);
            previousYMax := Some(y);
            y := -1;
            x := x + 1;
          }
      }
      if !IsLegal(code) {
        FirstFaultIs(t, Current, i);
        return Failure(IllegalSymbol);
      }
      assert !FaultAt(t, i, Current);
      i := i + 1;
    }
    assert t[..i] == t;
    var border := CheckBordersOcean(raster.terrain);
    match border {
      case Pass => return Success(raster);
      case Fail(e) => return Failure(e);
    }
  }
}
