/**
 * The text format of an island map, shared by both revisions of the island
 * (src/biosim/island.py and src/biosim/Island.py).
 *
 * After every space is removed, the text is read character by character. A
 * terrain symbol lands at (row, column), where the row is the number of newlines
 * read so far and the column the number of characters read since the last newline;
 * a newline creates no cell. The parsed map is a Python dictionary, so it remembers
 * the order in which its keys were inserted: `Grid` keeps that order beside the map.
 */
module RasterText {
  import opened Results
  import opened Topography

  type Coord = (int, int)

  /** The four ways building a map fails; each is a ValueError in the source. */
  datatype MapError =
    | IllegalSymbol    // a character other than O, M, J, S, D or newline
    | NonUniformRows   // a newline-terminated row whose length differs from the previous one
    | EmptyMap         // no cell at all: `max` of an empty key set raises
    | NonOceanBorder   // a cell other than Ocean on the outer border

  /** Which revision of the parser: `Current` compares row lengths, `Legacy` does not. */
  datatype Revision = Current | Legacy

  /** A dictionary from coordinates to terrain together with its insertion order. */
  datatype Grid = Grid(order: seq<Coord>, terrain: map<Coord, Terrain>)
  {
    /** The insertion order lists every key exactly once, in strictly increasing lexicographic order. */
    ghost predicate Valid() {
      && (forall i, j :: 0 <= i < j < |order| ==> LexLess(order[i], order[j]))
      && (forall k :: k in terrain <==> k in order)
    }
  }

  predicate LexLess(a: Coord, b: Coord) {
    a.0 < b.0 || (a.0 == b.0 && a.1 < b.1)
  }

  /** Python's ordering of pairs: lexicographic. */
  predicate LexLe(a: Coord, b: Coord) {
    a.0 < b.0 || (a.0 == b.0 && a.1 <= b.1)
  }

  // ---------------------------------------------------------------------------
  // Characters

  /** `str.replace(" ", "")`: drops every space and keeps everything else in order. */
  function StripSpaces(s: string): (t: string)
    ensures ' ' !in t
    ensures forall c :: c != ' ' ==> multiset(t)[c] == multiset(s)[c]
  {
    if s == [] then []
    else
      assert s == [s[0]] + s[1..];
      (if s[0] == ' ' then [] else [s[0]]) + StripSpaces(s[1..])
  }

  lemma {:induction false} StripSpacesConcat(a: string, b: string)
    ensures StripSpaces(a + b) == StripSpaces(a) + StripSpaces(b)
  {
    if a == [] {
      assert a + b == b;
    } else {
      assert (a + b)[0] == a[0];
      assert (a + b)[1..] == a[1..] + b;
      StripSpacesConcat(a[1..], b);
    }
  }

  lemma {:induction false} StripSpacesIdentity(s: string)
    requires ' ' !in s
    ensures StripSpaces(s) == s
  {
    if s != [] {
      StripSpacesIdentity(s[1..]);
    }
  }

  /** The terrain a map symbol stands for; `None` for every other character. */
  function SymbolTerrain(c: char): (r: Option<Terrain>)
    ensures r.Some? <==> c in "OMJSD"
    ensures r == Some(Ocean) <==> c == 'O'
  {
    match c
    case 'O' => Some(Ocean)
    case 'M' => Some(Mountain)
    case 'J' => Some(Jungle)
    case 'S' => Some(Savanna)
    case 'D' => Some(Desert)
    case _ => None
  }

  predicate IsLegal(c: char) {
    SymbolTerrain(c).Some? || c == '\n'
  }

  // ---------------------------------------------------------------------------
  // Where a character lands: functions of the text read before it

  /** The row the next character lands in. */
  function Row(p: string): nat {
    if p == [] then 0 else Row(p[..|p| - 1]) + (if p[|p| - 1] == '\n' then 1 else 0)
  }

  /** The column the next character lands in. */
  function Col(p: string): nat {
    if p == [] then 0 else if p[|p| - 1] == '\n' then 0 else Col(p[..|p| - 1]) + 1
  }

  /** The row is the number of newlines read so far. */
  lemma {:induction false} RowCountsNewlines(p: string)
    ensures Row(p) == multiset(p)['\n']
  {
    if p != [] {
      RowCountsNewlines(p[..|p| - 1]);
      assert p == p[..|p| - 1] + [p[|p| - 1]];
    }
  }

  /** The column is the number of characters read since the last newline. */
  lemma {:induction false} ColSinceNewline(p: string)
    ensures Col(p) <= |p|
    ensures '\n' !in p[|p| - Col(p)..]
    ensures Col(p) < |p| ==> p[|p| - Col(p) - 1] == '\n'
  {
    if p != [] && p[|p| - 1] != '\n' {
      var q := p[..|p| - 1];
      ColSinceNewline(q);
      assert p[|p| - Col(p)..] == q[|q| - Col(q)..] + [p[|p| - 1]];
    }
  }

  /** The length of the row that the last newline of `p` terminated (0 when there is none). */
  function PrevRowLength(p: string): nat {
    if p == [] then 0
    else if p[|p| - 1] == '\n' then Col(p[..|p| - 1])
    else PrevRowLength(p[..|p| - 1])
  }

  /** The key a symbol at index `i` of `t` receives. */
  function Pos(t: string, i: nat): Coord
    requires i <= |t|
  {
    (Row(t[..i]), Col(t[..i]))
  }

  // ---------------------------------------------------------------------------
  // Faults found while scanning

  predicate IllegalAt(t: string, i: nat)
    requires i < |t|
  {
    !IsLegal(t[i])
  }

  /** A newline ending a row other than the first whose length differs from the row before it. */
  predicate RaggedAt(t: string, i: nat)
    requires i < |t|
  {
    t[i] == '\n' && Row(t[..i]) != 0 && Col(t[..i]) != PrevRowLength(t[..i])
  }

  predicate FaultAt(t: string, i: nat, rev: Revision)
    requires i < |t|
  {
    IllegalAt(t, i) || (rev == Current && RaggedAt(t, i))
  }

  /** The first index at or after `from` where the scan stops with an error. */
  function FirstFault(t: string, rev: Revision, from: nat): (r: Option<nat>)
    requires from <= |t|
    ensures r.Some? ==> from <= r.value < |t| && FaultAt(t, r.value, rev)
    ensures r.Some? ==> forall j :: from <= j < r.value ==> !FaultAt(t, j, rev)
    ensures r.None? ==> forall j :: from <= j < |t| ==> !FaultAt(t, j, rev)
    decreases |t| - from
  {
    if from == |t| then None
    else if FaultAt(t, from, rev) then Some(from)
    else FirstFault(t, rev, from + 1)
  }

  /** The first fault is the one at `i` when nothing before `i` is faulty. */
  lemma FirstFaultIs(t: string, rev: Revision, i: nat)
    requires i < |t| && FaultAt(t, i, rev)
    requires forall j :: 0 <= j < i ==> !FaultAt(t, j, rev)
    ensures FirstFault(t, rev, 0) == Some(i)
  {
  }

  // ---------------------------------------------------------------------------
  // The dictionary the scan builds

  /** The dictionary built from `t` when every character of `t` is legal. */
  function RasterOf(t: string): Grid {
    if t == [] then Grid([], map[])
    else
      var p := t[..|t| - 1];
      var g := RasterOf(p);
      match SymbolTerrain(t[|t| - 1])
      case Some(tr) => Grid(g.order + [(Row(p), Col(p))], g.terrain[(Row(p), Col(p)) := tr])
      case None => g
  }

  /** How reading one more character moves the scan state. */
  lemma ReadOne(t: string, i: nat)
    requires i < |t|
    ensures t[..i + 1][..i] == t[..i] && t[..i + 1][i] == t[i]
    ensures Row(t[..i + 1]) == Row(t[..i]) + (if t[i] == '\n' then 1 else 0)
    ensures Col(t[..i + 1]) == (if t[i] == '\n' then 0 else Col(t[..i]) + 1)
    ensures PrevRowLength(t[..i + 1]) == (if t[i] == '\n' then Col(t[..i]) else PrevRowLength(t[..i]))
    ensures SymbolTerrain(t[i]).Some? ==>
      RasterOf(t[..i + 1]) == Grid(RasterOf(t[..i]).order + [Pos(t, i)],
                                   RasterOf(t[..i]).terrain[Pos(t, i) := SymbolTerrain(t[i]).value])
    ensures SymbolTerrain(t[i]).None? ==> RasterOf(t[..i + 1]) == RasterOf(t[..i])
  {
    assert t[..i + 1][..i] == t[..i];
  }

  /** Every key of the dictionary lies lexicographically before the position of the next character. */
  lemma {:induction false} RasterOfValid(t: string)
    ensures RasterOf(t).Valid()
    ensures forall k :: k in RasterOf(t).terrain ==> LexLess(k, (Row(t), Col(t)))
  {
    if t != [] {
      var p := t[..|t| - 1];
      RasterOfValid(p);
      var g := RasterOf(p);
      if SymbolTerrain(t[|t| - 1]).Some? {
        var n := (Row(p), Col(p));
        assert forall k :: k in g.order ==> LexLess(k, n);
      }
    }
  }

  /** A position computed in a prefix of `t` is the same position in `t`. */
  lemma {:induction false} PosOfPrefix(t: string, i: nat, n: nat)
    requires i <= n <= |t|
    ensures Pos(t[..n], i) == Pos(t, i)
  {
    assert t[..n][..i] == t[..i];
  }

  /** Each symbol of `t` at index `i` gives the key `Pos(t, i)`, holding that symbol's terrain. */
  lemma {:induction false} RasterOfSymbols(t: string)
    ensures forall i :: 0 <= i < |t| && SymbolTerrain(t[i]).Some? ==>
      Pos(t, i) in RasterOf(t).terrain && RasterOf(t).terrain[Pos(t, i)] == SymbolTerrain(t[i]).value
  {
    if t != [] {
      var n := |t| - 1;
      var p := t[..n];
      RasterOfSymbols(p);
      RasterOfValid(p);
      var g := RasterOf(p);
      var next := (Row(p), Col(p));
      assert Pos(t, n) == next;
      forall i | 0 <= i < |t| && SymbolTerrain(t[i]).Some?
        ensures Pos(t, i) in RasterOf(t).terrain && RasterOf(t).terrain[Pos(t, i)] == SymbolTerrain(t[i]).value
      {
        if i < n {
          PosOfPrefix(t, i, n);
          assert p[i] == t[i];
          assert Pos(p, i) in g.terrain;
          assert Pos(t, i) != next;
        }
      }
    }
  }

  /** Every key comes from a symbol of `t`: newlines and other characters create no key. */
  lemma {:induction false} RasterOfKeys(t: string)
    ensures forall k :: k in RasterOf(t).terrain ==>
      exists i :: 0 <= i < |t| && SymbolTerrain(t[i]).Some? && Pos(t, i) == k
  {
    if t != [] {
      var n := |t| - 1;
      var p := t[..n];
      RasterOfKeys(p);
      var g := RasterOf(p);
      assert Pos(t, n) == (Row(p), Col(p));
      forall k | k in RasterOf(t).terrain
        ensures exists i :: 0 <= i < |t| && SymbolTerrain(t[i]).Some? && Pos(t, i) == k
      {
        if k !in g.terrain {
          assert SymbolTerrain(t[n]).Some? && Pos(t, n) == k;
        } else {
          var i :| 0 <= i < n && SymbolTerrain(p[i]).Some? && Pos(p, i) == k;
          PosOfPrefix(t, i, n);
          assert t[i] == p[i];
        }
      }
    }
  }

  // ---------------------------------------------------------------------------
  // The border check

  /** The lexicographically greatest key, as Python's `max` picks it. */
  ghost function LexMax(keys: set<Coord>): (m: Coord)
    requires keys != {}
    ensures m in keys && forall k :: k in keys ==> LexLe(k, m)
  {
    MaxExists(keys);
    var m :| m in keys && forall k :: k in keys ==> LexLe(k, m);
    m
  }

  lemma {:induction false} MaxExists(keys: set<Coord>)
    requires keys != {}
    ensures exists m :: m in keys && forall k :: k in keys ==> LexLe(k, m)
  {
    var x :| x in keys;
    if keys != {x} {
      MaxExists(keys - {x});
      var m :| m in keys - {x} && forall k :: k in keys - {x} ==> LexLe(k, m);
      if LexLe(x, m) {
        assert forall k :: k in keys ==> LexLe(k, m);
      } else {
        assert LexLe(m, x);
        forall k | k in keys
          ensures LexLe(k, x)
        {
          if k != x {
            assert LexLe(k, m);
          }
        }
      }
    }
  }

  /** A key that is at least every key is the greatest one. */
  lemma LexMaxIs(keys: set<Coord>, m: Coord)
    requires m in keys && forall k :: k in keys ==> LexLe(k, m)
    ensures LexMax(keys) == m
  {
  }

  /** Row 0, the last row, column 0 or the last column, taking `corner` as the greatest key. */
  predicate OnBorder(k: Coord, corner: Coord) {
    k.0 == 0 || k.0 == corner.0 || k.1 == 0 || k.1 == corner.1
  }

  /** What checking the border of `m` yields: only Ocean on the lines through the greatest key and the origin. */
  ghost function BorderCheck(m: map<Coord, Terrain>): Outcome<MapError> {
    if m == map[] then Fail(EmptyMap)
    else
      var corner := LexMax(m.Keys);
      if forall k | k in m && OnBorder(k, corner) :: m[k] == Ocean then Pass
      else Fail(NonOceanBorder)
  }

  /**
   * `check_borders_ocean`: finds the greatest key with `max`, then inspects every cell and
   * fails on the first non-Ocean cell in row 0, the last row, column 0 or the last column.
   * It only reads the map.
   */
  method CheckBordersOcean(m: map<Coord, Terrain>) returns (r: Outcome<MapError>)
    ensures r == BorderCheck(m)
    ensures r == Pass ==> m != map[] && forall k :: k in m && OnBorder(k, LexMax(m.Keys)) ==> m[k] == Ocean
  {
    if m == map[] {
      return Fail(EmptyMap);
    }
    var rest := m.Keys;
    var corner :| corner in rest;
    rest := rest - {corner};
    while rest != {}
      invariant rest <= m.Keys && corner in m
      invariant forall k :: k in m && k !in rest ==> LexLe(k, corner)
      decreases rest
    {
      var k :| k in rest;
      if LexLess(corner, k) {
        corner := k;
      }
      rest := rest - {k};
    }
    assert corner == LexMax(m.Keys);
    rest := m.Keys;
    while rest != {}
      invariant rest <= m.Keys
      invariant forall k :: k in m && k !in rest && OnBorder(k, corner) ==> m[k] == Ocean
      decreases rest
    {
      var k :| k in rest;
      if OnBorder(k, corner) && m[k] != Ocean {
        return Fail(NonOceanBorder);
      }
      rest := rest - {k};
    }
    return Pass;
  }

  // ---------------------------------------------------------------------------
  // The whole construction

  /**
   * What `create_map` returns or raises for `s`: the error of the first faulty character in
   * scan order; otherwise the dictionary of all symbols, provided the border check passes.
   */
  ghost function CreateMapSpec(s: string, rev: Revision): Result<Grid, MapError> {
    var t := StripSpaces(s);
    match FirstFault(t, rev, 0)
    case Some(i) => Failure(if IllegalAt(t, i) then IllegalSymbol else NonUniformRows)
    case None =>
      var g := RasterOf(t);
      match BorderCheck(g.terrain)
      case Pass => Success(g)
      case Fail(e) => Failure(e)
  }
}
