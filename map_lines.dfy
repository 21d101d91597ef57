/**
 * The map text read as rows: what both revisions of `create_map` (src/biosim/island.py and
 * src/biosim/Island.py) make of a text that is a list of rows joined by newlines.
 *
 * Row `r`, column `c` of such a text becomes key (r, c). The current revision compares the
 * length of every newline-terminated row after the first with the row before it; the last
 * row, which no newline ends, is never compared. Both revisions then accept the map exactly
 * when every cell on its frame is Ocean, the frame being taken from the lexicographically
 * greatest key, which is the last cell of the last row.
 */
module MapLines {
  import opened Results
  import opened Topography
  import opened RasterText

  /** A row of a map: terrain symbols only. */
  predicate SymbolRow(r: string) {
    forall j :: 0 <= j < |r| ==> SymbolTerrain(r[j]).Some?
  }

  predicate SymbolRows(rows: seq<string>) {
    forall k :: 0 <= k < |rows| ==> SymbolRow(rows[k])
  }

  /** The rows joined by newlines, with no newline after the last one. */
  function Join(rows: seq<string>): string
    requires |rows| >= 1
  {
    if |rows| == 1 then rows[0] else Join(rows[..|rows| - 1]) + "\n" + rows[|rows| - 1]
  }

  /** The cells of row `x`. */
  function RowCells(x: int, r: string): map<Coord, Terrain>
    requires SymbolRow(r)
  {
    if r == [] then map[]
    else RowCells(x, r[..|r| - 1])[(x, |r| - 1) := SymbolTerrain(r[|r| - 1]).value]
  }

  /** The cells of all rows: row `r`, column `c` holds the terrain of `rows[r][c]`. */
  function RowsMap(rows: seq<string>): map<Coord, Terrain>
    requires SymbolRows(rows)
  {
    if rows == [] then map[]
    else RowsMap(rows[..|rows| - 1]) + RowCells(|rows| - 1, rows[|rows| - 1])
  }

  /** The rows the current revision compares: each newline-terminated row after the first has the length of the one before. */
  predicate UniformRows(rows: seq<string>) {
    forall k :: 1 <= k < |rows| - 1 ==> |rows[k]| == |rows[k - 1]|
  }

  /** The last cell of the last row: the greatest key. */
  function Corner(rows: seq<string>): Coord
    requires |rows| >= 1
  {
    (|rows| - 1, |rows[|rows| - 1]| - 1)
  }

  /** Every cell in row 0, the last row, column 0 or the column of the greatest key is Ocean. */
  predicate OceanFrame(rows: seq<string>)
    requires |rows| >= 1
  {
    forall r, c :: 0 <= r < |rows| && 0 <= c < |rows[r]| && OnBorder((r, c), Corner(rows)) ==> rows[r][c] == 'O'
  }

  /** No character of `t` stops the scan. */
  predicate NoFault(t: string, rev: Revision) {
    forall i :: 0 <= i < |t| ==> !FaultAt(t, i, rev)
  }

  // ---------------------------------------------------------------------------
  // Reading a text piece by piece

  /** A fault depends only on the text up to and including the faulty character. */
  lemma FaultOfPrefix(p: string, q: string, i: nat, rev: Revision)
    requires i < |p|
    ensures FaultAt(p + q, i, rev) == FaultAt(p, i, rev)
  {
    assert (p + q)[..i] == p[..i];
  }

  /** Reading a newline: the row advances, the column restarts, the finished row's length is remembered. */
  lemma ReadNewline(p: string)
    ensures Row(p + "\n") == Row(p) + 1 && Col(p + "\n") == 0 && PrevRowLength(p + "\n") == Col(p)
    ensures RasterOf(p + "\n") == RasterOf(p)
  {
    assert (p + "\n")[..|p|] == p;
  }

  /** A newline is faulty, in the current revision only, when it ends a row other than the first whose length differs from the row before. */
  lemma NewlineFault(p: string, rev: Revision)
    ensures NoFault(p + "\n", rev) <==> NoFault(p, rev) && !(rev == Current && Row(p) != 0 && Col(p) != PrevRowLength(p))
  {
    var t := p + "\n";
    assert t[..|p|] == p;
    assert FaultAt(t, |p|, rev) <==> rev == Current && Row(p) != 0 && Col(p) != PrevRowLength(p);
    NoFaultExtends(p, "\n", rev);
  }

  /** A text has no fault exactly when its first part has none and nothing after it is faulty. */
  lemma NoFaultExtends(p: string, q: string, rev: Revision)
    ensures NoFault(p + q, rev) <==> NoFault(p, rev) && forall i :: |p| <= i < |p + q| ==> !FaultAt(p + q, i, rev)
  {
    if NoFault(p + q, rev) {
      forall i | 0 <= i < |p|
        ensures !FaultAt(p, i, rev)
      {
        FaultOfPrefix(p, q, i, rev);
      }
    }
    if NoFault(p, rev) && forall i :: |p| <= i < |p + q| ==> !FaultAt(p + q, i, rev) {
      forall i | 0 <= i < |p + q|
        ensures !FaultAt(p + q, i, rev)
      {
        if i < |p| {
          FaultOfPrefix(p, q, i, rev);
        }
      }
    }
  }

  /** Reading a row of symbols: the row stays, the column grows by the row's length. */
  lemma {:induction false} ReadRow(p: string, r: string)
    requires SymbolRow(r)
    ensures Row(p + r) == Row(p) && Col(p + r) == Col(p) + |r| && PrevRowLength(p + r) == PrevRowLength(p)
  {
    if r == [] {
      assert p + r == p;
    } else {
      var n := |r| - 1;
      ReadRow(p, r[..n]);
      assert (p + r)[|p + r| - 1] == r[n] != '\n';
      assert (p + r)[..|p + r| - 1] == p + r[..n];
    }
  }

  /** Reading a row of symbols from the start of a line: each symbol lands in the current row, in its own column. */
  lemma {:induction false} RasterOfRow(p: string, r: string)
    requires SymbolRow(r) && Col(p) == 0
    ensures RasterOf(p + r).terrain == RasterOf(p).terrain + RowCells(Row(p), r)
  {
    if r == [] {
      assert p + r == p;
    } else {
      var n := |r| - 1;
      var q := p + r[..n];
      RasterOfRow(p, r[..n]);
      ReadRow(p, r[..n]);
      assert (p + r)[..|p + r| - 1] == q;
      var v := SymbolTerrain(r[n]).value;
      assert RasterOf(p + r).terrain == RasterOf(q).terrain[(Row(p), n) := v];
      UnionUpdate(RasterOf(p).terrain, RowCells(Row(p), r[..n]), (Row(p), n), v);
    }
  }

  /** A row of symbols holds no fault. */
  lemma {:induction false} RowFaults(p: string, r: string, rev: Revision)
    requires SymbolRow(r)
    ensures NoFault(p + r, rev) <==> NoFault(p, rev)
  {
    if r == [] {
      assert p + r == p;
    } else {
      var n := |r| - 1;
      var q := p + r[..n];
      RowFaults(p, r[..n], rev);
      assert p + r == q + [r[n]];
      NoFaultExtends(q, [r[n]], rev);
      assert (p + r)[|q|] == r[n];
    }
  }

  lemma UnionUpdate(a: map<Coord, Terrain>, b: map<Coord, Terrain>, k: Coord, v: Terrain)
    ensures (a + b)[k := v] == a + b[k := v]
  {
  }

  /** Where the scan of joined rows ends: in the last row, after its last column. */
  lemma {:induction false} ScanRows(rows: seq<string>)
    requires |rows| >= 1 && SymbolRows(rows)
    ensures Row(Join(rows)) == |rows| - 1
    ensures Col(Join(rows)) == |rows[|rows| - 1]|
    ensures |rows| >= 2 ==> PrevRowLength(Join(rows)) == |rows[|rows| - 2]|
  {
    var n := |rows| - 1;
    if n == 0 {
      ReadRow([], rows[0]);
      assert [] + rows[0] == rows[0];
    } else {
      var front := rows[..n];
      assert forall k :: 0 <= k < |front| ==> front[k] == rows[k];
      ScanRows(front);
      ScanNextRow(Join(front), rows[n]);
    }
  }

  /** Reading a newline and then a row of symbols: the next row, ended at that row's length. */
  lemma ScanNextRow(p: string, r: string)
    requires SymbolRow(r)
    ensures Row((p + "\n") + r) == Row(p) + 1
    ensures Col((p + "\n") + r) == |r|
    ensures PrevRowLength((p + "\n") + r) == Col(p)
  {
    ReadNewline(p);
    ReadRow(p + "\n", r);
  }

  /** Reading a newline and then a row of symbols adds that row's cells under the next row number. */
  lemma RasterOfNextRow(p: string, r: string)
    requires SymbolRow(r)
    ensures RasterOf((p + "\n") + r).terrain == RasterOf(p).terrain + RowCells(Row(p) + 1, r)
  {
    ReadNewline(p);
    RasterOfRow(p + "\n", r);
  }

  /** The dictionary built from joined rows holds row `r`, column `c` of every row. */
  lemma {:induction false} RasterOfRows(rows: seq<string>)
    requires |rows| >= 1 && SymbolRows(rows)
    ensures RasterOf(Join(rows)).terrain == RowsMap(rows)
  {
    var n := |rows| - 1;
    if n == 0 {
      RasterOfRow([], rows[0]);
      assert Join(rows) == [] + rows[0];
      assert rows[..0] == [];
    } else {
      var front := rows[..n];
      assert forall k :: 0 <= k < |front| ==> front[k] == rows[k];
      RasterOfRows(front);
      RasterOfRowsStep(rows);
    }
  }

  /** Joining one more row adds its cells to the dictionary. */
  lemma RasterOfRowsStep(rows: seq<string>)
    requires |rows| >= 2 && SymbolRows(rows) && SymbolRows(rows[..|rows| - 1])
    requires RasterOf(Join(rows[..|rows| - 1])).terrain == RowsMap(rows[..|rows| - 1])
    ensures RasterOf(Join(rows)).terrain == RowsMap(rows)
  {
    var n := |rows| - 1;
    var p := Join(rows[..n]);
    ScanRows(rows[..n]);
    RasterOfNextRow(p, rows[n]);
    assert Join(rows) == (p + "\n") + rows[n];
  }

  /** The scan of joined rows finds no fault exactly when the revision is the legacy one or the compared rows agree in length. */
  lemma {:induction false} FaultsOfRows(rows: seq<string>, rev: Revision)
    requires |rows| >= 1 && SymbolRows(rows)
    ensures NoFault(Join(rows), rev) <==> rev == Legacy || UniformRows(rows)
  {
    var n := |rows| - 1;
    if n == 0 {
      RowFaults([], rows[0], rev);
      assert [] + rows[0] == rows[0];
    } else {
      var front := rows[..n];
      assert forall k :: 0 <= k < |front| ==> front[k] == rows[k];
      FaultsOfRows(front, rev);
      var p := Join(front);
      ScanRows(front);
      NewlineFault(p, rev);
      RowFaults(p + "\n", rows[n], rev);
      assert Join(rows) == (p + "\n") + rows[n];
      if rev == Current {
        if UniformRows(rows) {
          assert UniformRows(front);
        } else if UniformRows(front) {
          assert |rows[n - 1]| != |rows[n - 2]|;
        }
      }
    }
  }

  // ---------------------------------------------------------------------------
  // The cells of joined rows

  /** Row `r`, column `c` is a key exactly when the row has a column `c`, and it holds that symbol's terrain. */
  lemma {:induction false} RowCellsAt(x: int, r: string)
    requires SymbolRow(r)
    ensures forall k :: k in RowCells(x, r) <==> k.0 == x && 0 <= k.1 < |r|
    ensures forall y :: 0 <= y < |r| ==> RowCells(x, r)[(x, y)] == SymbolTerrain(r[y]).value
  {
    if r != [] {
      RowCellsAt(x, r[..|r| - 1]);
    }
  }

  lemma {:induction false} RowsMapCells(rows: seq<string>)
    requires SymbolRows(rows)
    ensures forall k :: k in RowsMap(rows) <==> 0 <= k.0 < |rows| && 0 <= k.1 < |rows[k.0]|
    ensures forall r, c :: 0 <= r < |rows| && 0 <= c < |rows[r]| ==> RowsMap(rows)[(r, c)] == SymbolTerrain(rows[r][c]).value
  {
    if rows != [] {
      var n := |rows| - 1;
      RowsMapCells(rows[..n]);
      RowCellsAt(n, rows[n]);
    }
  }

  /** The last cell of the last row is the greatest key. */
  lemma CornerIsMax(rows: seq<string>)
    requires |rows| >= 1 && SymbolRows(rows) && |rows[|rows| - 1]| >= 1
    ensures RowsMap(rows) != map[] && LexMax(RowsMap(rows).Keys) == Corner(rows)
  {
    RowsMapCells(rows);
    LexMaxIs(RowsMap(rows).Keys, Corner(rows));
  }

  /** The border check passes on joined rows exactly when their frame is Ocean. */
  lemma BorderOfRows(rows: seq<string>)
    requires |rows| >= 1 && SymbolRows(rows) && |rows[|rows| - 1]| >= 1
    ensures BorderCheck(RowsMap(rows)) == if OceanFrame(rows) then Pass else Fail(NonOceanBorder)
  {
    CornerIsMax(rows);
    RowsMapCells(rows);
    var m := RowsMap(rows);
    if OceanFrame(rows) {
      forall k | k in m && OnBorder(k, Corner(rows))
        ensures m[k] == Ocean
      {
        assert rows[k.0][k.1] == 'O';
      }
    } else {
      var r, c :| 0 <= r < |rows| && 0 <= c < |rows[r]| && OnBorder((r, c), Corner(rows)) && rows[r][c] != 'O';
      assert (r, c) in m && m[(r, c)] != Ocean;
    }
  }

  lemma {:induction false} JoinHasNoSpace(rows: seq<string>)
    requires |rows| >= 1 && SymbolRows(rows)
    ensures ' ' !in Join(rows)
  {
    if |rows| > 1 {
      JoinHasNoSpace(rows[..|rows| - 1]);
    }
    var last := rows[|rows| - 1];
    assert SymbolRow(last);
    assert ' ' !in last;
  }

  /**
   * What either revision of `create_map` does with rows of terrain symbols whose last row is
   * not empty: the current one rejects a newline-terminated row whose length differs from
   * the row before it; otherwise the map is accepted exactly when its frame is Ocean, and
   * then row `r`, column `c` holds the terrain of `rows[r][c]`.
   */
  lemma JoinedRows(rows: seq<string>, rev: Revision)
    requires |rows| >= 1 && SymbolRows(rows) && |rows[|rows| - 1]| >= 1
    ensures rev == Current && !UniformRows(rows) ==> CreateMapSpec(Join(rows), rev) == Failure(NonUniformRows)
    ensures rev == Legacy || UniformRows(rows) ==>
      CreateMapSpec(Join(rows), rev) == if OceanFrame(rows) then Success(RasterOf(Join(rows))) else Failure(NonOceanBorder)
    ensures CreateMapSpec(Join(rows), rev).Success? ==> CreateMapSpec(Join(rows), rev).value.terrain == RowsMap(rows)
  {
    var t := Join(rows);
    JoinHasNoSpace(rows);
    StripSpacesIdentity(t);
    ScanRows(rows);
    RasterOfRows(rows);
    FaultsOfRows(rows, rev);
    BorderOfRows(rows);
    var first := FirstFault(t, rev, 0);
    if first.Some? {
      var i := first.value;
      assert !IllegalAt(t, i) by {
        RowsAreLegal(rows, i);
      }
    }
  }

  /** Every row after the first, the last one included, has the length of the row before. */
  predicate AllRowsUniform(rows: seq<string>) {
    forall k :: 1 <= k < |rows| ==> |rows[k]| == |rows[k - 1]|
  }

  /**
   * Joined rows followed by a newline are read without a fault exactly when the revision is
   * the legacy one or every row after the first, the last one included, has the length of
   * the row before: the final newline makes the current revision compare the last row too.
   */
  lemma FaultsOfEndedRows(rows: seq<string>, rev: Revision)
    requires |rows| >= 1 && SymbolRows(rows)
    ensures NoFault(Join(rows) + "\n", rev) <==> rev == Legacy || AllRowsUniform(rows)
  {
    FaultsOfRows(rows, rev);
    ScanRows(rows);
    NewlineFault(Join(rows), rev);
    CompareAllRows(rows);
  }

  /** Comparing every row is comparing the newline-terminated ones and then the last one. */
  lemma CompareAllRows(rows: seq<string>)
    requires |rows| >= 1
    ensures AllRowsUniform(rows) <==>
      UniformRows(rows) && (|rows| == 1 || |rows[|rows| - 1]| == |rows[|rows| - 2]|)
  {
  }

  /**
   * What either revision of `create_map` does with a text whose every row, the last one
   * included, ends with a newline: the current one rejects any row after the first whose
   * length differs from the row before it; otherwise the map is accepted exactly when its
   * frame is Ocean, and then row `r`, column `c` holds the terrain of `rows[r][c]`.
   */
  lemma NewlineEndedRows(rows: seq<string>, rev: Revision)
    requires |rows| >= 1 && SymbolRows(rows) && |rows[|rows| - 1]| >= 1
    ensures rev == Current && !AllRowsUniform(rows) ==> CreateMapSpec(Join(rows) + "\n", rev) == Failure(NonUniformRows)
    ensures rev == Legacy || AllRowsUniform(rows) ==>
      CreateMapSpec(Join(rows) + "\n", rev) == if OceanFrame(rows) then Success(RasterOf(Join(rows))) else Failure(NonOceanBorder)
    ensures CreateMapSpec(Join(rows) + "\n", rev).Success? ==> CreateMapSpec(Join(rows) + "\n", rev).value.terrain == RowsMap(rows)
  {
    var p := Join(rows);
    var t := p + "\n";
    JoinHasNoSpace(rows);
    assert ' ' !in t;
    StripSpacesIdentity(t);
    ReadNewline(p);
    RasterOfRows(rows);
    FaultsOfEndedRows(rows, rev);
    BorderOfRows(rows);
    var first := FirstFault(t, rev, 0);
    if first.Some? {
      var i := first.value;
      assert !IllegalAt(t, i) by {
        if i < |p| {
          RowsAreLegal(rows, i);
          assert t[i] == p[i];
        }
      }
    }
  }

  /** Every character of joined symbol rows is a symbol or a newline. */
  lemma {:induction false} RowsAreLegal(rows: seq<string>, i: nat)
    requires |rows| >= 1 && SymbolRows(rows) && i < |Join(rows)|
    ensures IsLegal(Join(rows)[i])
  {
    var n := |rows| - 1;
    if n > 0 {
      var p := Join(rows[..n]);
      if i < |p| {
        RowsAreLegal(rows[..n], i);
        assert Join(rows)[i] == p[i];
      } else if i > |p| {
        assert Join(rows)[i] == rows[n][i - |p| - 1];
      }
    }
  }
}
/** Maps from the island's documentation and tests, read through the rows theorem. */
module MapLinesExamples {
  import opened Results
  import opened RasterText
  import opened MapLines

  /** The smallest island, all Ocean, is accepted by both revisions. */
  lemma SmallestIsland(t: string, rev: Revision)
    requires t == "OO\nOO"
    ensures CreateMapSpec(t, rev).Success?
  {
    var rows := ["OO", "OO"];
    assert t == Join(rows);
    assert OceanFrame(rows) && UniformRows(rows) && SymbolRows(rows);
    JoinedRows(rows, rev);
  }

  /** One Jungle cell inside an Ocean frame is accepted by both revisions. */
  lemma JungleIsland(t: string, rev: Revision)
    requires t == "OOO\nOJO\nOOO"
    ensures CreateMapSpec(t, rev).Success?
  {
    var rows := ["OOO", "OJO", "OOO"];
    assert t == Join(rows);
    assert OceanFrame(rows) && UniformRows(rows) && SymbolRows(rows);
    JoinedRows(rows, rev);
  }

  /** Four land types inside an Ocean frame are accepted by both revisions. */
  lemma FourTerrainIsland(t: string, rev: Revision)
    requires t == "OOOO\nOJSO\nOMDO\nOOOO"
    ensures CreateMapSpec(t, rev).Success?
  {
    var rows := ["OOOO", "OJSO", "OMDO", "OOOO"];
    assert rows[..3][..2] == rows[..2] && rows[..2][..1] == rows[..1];
    assert Join(rows[..2]) == "OOOO\nOJSO";
    assert Join(rows[..3]) == "OOOO\nOJSO\nOMDO";
    assert t == Join(rows);
    assert OceanFrame(rows);
    assert UniformRows(rows);
    assert SymbolRows(rows);
    JoinedRows(rows, rev);
  }

  /** A land symbol in the top-left corner breaks the Ocean frame in both revisions. */
  lemma LandInCorner(t: string, b: char, rev: Revision)
    requires b in "JSMD" && t == [b] + "OO\nOJO\nOOO"
    ensures CreateMapSpec(t, rev) == Failure(NonOceanBorder)
  {
    var rows := [[b] + "OO", "OJO", "OOO"];
    assert rows[..2][..1] == rows[..1];
    assert Join(rows[..2]) == [b] + "OO\nOJO";
    assert t == Join(rows);
    assert UniformRows(rows) && SymbolRows(rows);
    assert OnBorder((0, 0), Corner(rows)) && rows[0][0] != 'O';
    JoinedRows(rows, rev);
  }

  /**
   * A middle row one cell too long: the current revision rejects it as non-uniform; the legacy
   * one has no row check, and only its border check rejects it, because the Jungle at (1, 2)
   * lies in column 2, the column of the greatest key (2, 2).
   */
  lemma LongMiddleRow(t: string)
    requires t == "OOO\nOJJO\nOOO"
    ensures CreateMapSpec(t, Current) == Failure(NonUniformRows)
    ensures CreateMapSpec(t, Legacy) == Failure(NonOceanBorder)
  {
    var rows := ["OOO", "OJJO", "OOO"];
    assert t == Join(rows);
    assert SymbolRows(rows);
    assert |rows[1]| != |rows[0]|;
    JoinedRows(rows, Current);
    assert OnBorder((1, 2), Corner(rows)) && rows[1][2] != 'O';
    JoinedRows(rows, Legacy);
  }

  /**
   * A short last row: neither revision compares it, and both reject the map only because the
   * greatest key is (3, 1), which puts the Jungle at (1, 1) on the border.
   */
  lemma ShortLastRow(t: string, rev: Revision)
    requires t == "OOO\nOJO\nOOO\nOO"
    ensures CreateMapSpec(t, rev) == Failure(NonOceanBorder)
  {
    var rows := ["OOO", "OJO", "OOO", "OO"];
    assert rows[..3][..2] == rows[..2] && rows[..2][..1] == rows[..1];
    assert Join(rows[..2]) == "OOO\nOJO";
    assert Join(rows[..3]) == "OOO\nOJO\nOOO";
    assert t == Join(rows);
    assert UniformRows(rows);
    assert SymbolRows(rows);
    assert OnBorder((1, 1), Corner(rows)) && rows[1][1] != 'O';
    JoinedRows(rows, rev);
  }

  /** The last row is never compared: an all-Ocean map whose last row is shorter is accepted by the current revision. */
  lemma LastRowNotCompared(t: string)
    requires t == "OOO\nOOO\nOO"
    ensures CreateMapSpec(t, Current).Success?
  {
    var rows := ["OOO", "OOO", "OO"];
    assert t == Join(rows);
    assert OceanFrame(rows) && UniformRows(rows) && SymbolRows(rows);
    JoinedRows(rows, Current);
  }
  /** A final newline changes nothing for a well-formed map: it is still accepted by both revisions. */
  lemma EndingNewline(t: string, rev: Revision)
    requires t == "OOO\nOJO\nOOO\n"
    ensures CreateMapSpec(t, rev).Success?
  {
    var rows := ["OOO", "OJO", "OOO"];
    assert t == Join(rows) + "\n";
    assert OceanFrame(rows) && AllRowsUniform(rows) && SymbolRows(rows);
    NewlineEndedRows(rows, rev);
  }

  /** With a final newline the short last row is compared: the current revision rejects the map, the older one accepts it. */
  lemma LastRowCompared(t: string)
    requires t == "OOO\nOOO\nOO\n"
    ensures CreateMapSpec(t, Current) == Failure(NonUniformRows)
    ensures CreateMapSpec(t, Legacy).Success?
  {
    var rows := ["OOO", "OOO", "OO"];
    assert t == Join(rows) + "\n";
    assert OceanFrame(rows) && !AllRowsUniform(rows) && SymbolRows(rows);
    NewlineEndedRows(rows, Current);
    NewlineEndedRows(rows, Legacy);
  }

}
