/**
 * The older revision of the island, src/biosim/Island.py: `create_map` without the
 * row-length check, the same border check, and a constructor that parses the map into a
 * local variable and keeps nothing of it.
 */
module LegacyIsland {
  import opened Results
  import opened RasterText

  /**
   * Scans the text without spaces once, like the current revision but without remembering
   * row lengths: a newline only moves to the next row.
   */
  method CreateMap(islandMap: string) returns (r: Result<Grid, MapError>)
    ensures r == CreateMapSpec(islandMap, Legacy)
  {
    var t := StripSpaces(islandMap);
    var x, y := 0, -1;
    var raster := Grid([], map[]);
    var i := 0;
    while i < |t|
      invariant 0 <= i <= |t|
      invariant x == Row(t[..i]) && y + 1 == Col(t[..i])
      invariant raster == RasterOf(t[..i])
      invariant forall j :: 0 <= j < i ==> !FaultAt(t, j, Legacy)
    {
      var code := t[i];
      ReadOne(t, i);
      y := y + 1;
      match SymbolTerrain(code) {
        case Some(terrain) =>
          assert Pos(t, i) == (x, y);
          raster := Grid(raster.order + [(x, y)], raster.terrain[(x, y) := terrain]);
        case None =>
          if code == '\n' {
            y := -1;
            x := x + 1;
          }
      }
      if !IsLegal(code) {
        FirstFaultIs(t, Legacy, i);
        return Failure(IllegalSymbol);
      }
      i := i + 1;
    }
    assert t[..i] == t;
    var border := CheckBordersOcean(raster.terrain);
    match border {
      case Pass => return Success(raster);
      case Fail(e) => return Failure(e);
    }
  }

  /** `Island` of the older revision: its constructor stores no field, so an instance has no map. */
  class Island {
    constructor ()
    {
    }
  }

  /** Constructing an island of the older revision: raises what `create_map` raises and otherwise drops the parsed map. */
  method NewIsland(islandMap: string) returns (r: Result<Island, MapError>)
    ensures r.Failure? <==> CreateMapSpec(islandMap, Legacy).Failure?
    ensures r.Failure? ==> CreateMapSpec(islandMap, Legacy) == Failure(r.error)
  {
    var parsed := CreateMap(islandMap);
    match parsed {
      case Failure(e) => return Failure(e);
      case Success(_) =>
        var island := new Island();
        return Success(island);
    }
  }

  // ---------------------------------------------------------------------------
  // The two revisions compared

  /** The scan finds no fault exactly when no index is faulty. */
  lemma NoFirstFault(t: string, rev: Revision)
    ensures FirstFault(t, rev, 0).None? <==> forall i :: 0 <= i < |t| ==> !FaultAt(t, i, rev)
  {
    var f := FirstFault(t, rev, 0);
    if f.Some? {
      assert FaultAt(t, f.value, rev);
    }
  }

  /** A map the current revision accepts is accepted by the older one, with the same dictionary. */
  lemma AcceptedByBoth(s: string)
    requires CreateMapSpec(s, Current).Success?
    ensures CreateMapSpec(s, Legacy) == CreateMapSpec(s, Current)
  {
    var t := StripSpaces(s);
    NoFirstFault(t, Current);
    NoFirstFault(t, Legacy);
    forall i | 0 <= i < |t|
      ensures !FaultAt(t, i, Legacy)
    {
      assert !FaultAt(t, i, Current);
    }
  }

  /** The older revision never reports non-uniform rows. */
  lemma LegacyHasNoRowCheck(s: string)
    ensures CreateMapSpec(s, Legacy) != Failure(NonUniformRows)
  {
    var t := StripSpaces(s);
    var f := FirstFault(t, Legacy, 0);
    if f.Some? {
      assert IllegalAt(t, f.value);
    }
  }

  /**
   * The older revision rejects a map for an illegal character exactly when the text holds a
   * character other than a space that is neither a terrain symbol nor a newline.
   */
  lemma LegacyIllegalSymbol(s: string)
    ensures CreateMapSpec(s, Legacy) == Failure(IllegalSymbol) <==> exists c :: c in s && c != ' ' && !IsLegal(c)
  {
    var t := StripSpaces(s);
    NoFirstFault(t, Legacy);
    if exists c :: c in s && c != ' ' && !IsLegal(c) {
      var c :| c in s && c != ' ' && !IsLegal(c);
      assert multiset(t)[c] == multiset(s)[c];
      var i :| 0 <= i < |t| && t[i] == c;
      assert FaultAt(t, i, Legacy);
    }
    if CreateMapSpec(s, Legacy) == Failure(IllegalSymbol) {
      var i := FirstFault(t, Legacy, 0).value;
      assert multiset(t)[t[i]] == multiset(s)[t[i]];
      assert t[i] in s;
    }
  }

  /** Both revisions reject a text holding an illegal character; the current one may stop earlier at a ragged row. */
  lemma IllegalSymbolRejected(s: string, rev: Revision)
    requires exists c :: c in s && c != ' ' && !IsLegal(c)
    ensures CreateMapSpec(s, rev).Failure?
    ensures rev == Legacy ==> CreateMapSpec(s, rev).error == IllegalSymbol
    ensures CreateMapSpec(s, rev).error in {IllegalSymbol, NonUniformRows}
  {
    LegacyIllegalSymbol(s);
    var t := StripSpaces(s);
    NoFirstFault(t, rev);
    var c :| c in s && c != ' ' && !IsLegal(c);
    assert multiset(t)[c] == multiset(s)[c];
    var i :| 0 <= i < |t| && t[i] == c;
    assert FaultAt(t, i, rev);
  }

  /** A map with an unknown symbol is rejected by both revisions, by the older one as an illegal symbol. */
  lemma UnknownSymbol(t: string, rev: Revision)
    requires t == "OOO\nORO\nOOO"
    ensures CreateMapSpec(t, rev).Failure?
    ensures CreateMapSpec(t, Legacy) == Failure(IllegalSymbol)
  {
    assert t[5] == 'R' && !IsLegal('R');
    IllegalSymbolRejected(t, rev);
    IllegalSymbolRejected(t, Legacy);
  }
}
