/** Tile classification: from a connectivity record (graph_transform) or from the
    occupancy of a cell's neighbours in a boolean map (check and map_transform) to the
    name of a tile asset. An unknown pattern is classified as the empty name. */
module Tiles {
  import opened Grid

  /** The names of the six two-edge tiles: two straights and four curves. */
  const TwoEdgeTiles: set<string> :=
    {"straight/E", "straight/S", "curve_left/S", "curve_left/W", "curve_left/N", "curve_left/E"}

  /** The names of the four three-edge tiles. */
  const ThreeEdgeTiles: set<string> := {"3way_left/S", "3way_left/W", "3way_left/N", "3way_left/E"}

  /** The first matching pattern wins; the "4way/E" test repeats the "3way_left/E" one.
      Every record gets the background tile, a two-edge or three-edge tile, or the
      unknown name. */
  function GraphTile(f: Flags): (r: string)
    ensures r in TwoEdgeTiles + ThreeEdgeTiles + {"grass", ""}
  {
    if f == Flags(false, false, false, false) then "grass"
    else if f == Flags(false, true, false, true) then "straight/E"
    else if f == Flags(true, false, true, false) then "straight/S"
    else if f == Flags(true, true, false, false) then "curve_left/S"
    else if f == Flags(false, true, true, false) then "curve_left/W"
    else if f == Flags(false, false, true, true) then "curve_left/N"
    else if f == Flags(true, false, false, true) then "curve_left/E"
    else if f == Flags(true, true, true, false) then "3way_left/S"
    else if f == Flags(false, true, true, true) then "3way_left/W"
    else if f == Flags(true, false, true, true) then "3way_left/N"
    else if f == Flags(true, true, false, true) then "3way_left/E"
    else if f == Flags(true, true, false, true) then "4way/E"
    else ""
  }

  /** The background tile is given exactly to the all-false record. */
  lemma GraphTileGrass(f: Flags)
    ensures GraphTile(f) == "grass" <==> f == NoFlags
  {
  }

  /** A record with two set flags gets a straight or a curve, and only such records do. */
  lemma GraphTileTwoEdges(f: Flags)
    ensures GraphTile(f) in TwoEdgeTiles <==> FlagCount(f) == 2
  {
  }

  /** A record with three set flags gets a 3-way junction, and only such records do. */
  lemma GraphTileThreeEdges(f: Flags)
    ensures GraphTile(f) in ThreeEdgeTiles <==> FlagCount(f) == 3
  {
  }

  /** The unknown-pattern result comes exactly from one-flag records and the
      all-true record. */
  lemma GraphTileUnknown(f: Flags)
    ensures GraphTile(f) == "" <==> FlagCount(f) == 1 || FlagCount(f) == 4
  {
  }

  /** The "4way/E" branch is dead: no record reaches it, (T, T, F, T) is a 3-way
      tile and the all-true record is unknown. */
  lemma FourWayUnreachable(f: Flags)
    ensures GraphTile(f) != "4way/E"
    ensures GraphTile(Flags(true, true, false, true)) == "3way_left/E"
    ensures GraphTile(Flags(true, true, true, true)) == ""
  {
  }

  /** No two records share a known tile name: the table is unambiguous. */
  lemma GraphTileInjective(f: Flags, g: Flags)
    requires GraphTile(f) == GraphTile(g) && GraphTile(f) != ""
    ensures f == g
  {
  }

  /** Classifies the cells of row y of a connectivity grid; the other rows are kept. */
  method GraphTransformRow(conn: seq<seq<Flags>>, width: nat, height: nat, y: nat, tiles: seq<seq<string>>)
    returns (tiles': seq<seq<string>>)
    requires Covers(conn, width, height) && IsGrid(tiles, width, height) && y < height
    ensures IsGrid(tiles', width, height)
    ensures forall j :: 0 <= j < height && j != y ==> tiles'[j] == tiles[j]
    ensures forall i :: 0 <= i < width ==> tiles'[y][i] == GraphTile(conn[y][i])
  {
    tiles' := tiles;
    var x := 0;
    while x < width
      invariant 0 <= x <= width
      invariant IsGrid(tiles', width, height)
      invariant forall j :: 0 <= j < height && j != y ==> tiles'[j] == tiles[j]
      invariant forall i :: 0 <= i < x ==> tiles'[y][i] == GraphTile(conn[y][i])
    {
      tiles' := tiles'[y := tiles'[y][x := GraphTile(conn[y][x])]];
      x := x + 1;
    }
  }

  /** Classifies every cell of a connectivity grid. */
  method GraphTransform(conn: seq<seq<Flags>>, width: nat, height: nat) returns (tiles: seq<seq<string>>)
    requires Covers(conn, width, height)
    ensures IsGrid(tiles, width, height)
    ensures forall y, x :: 0 <= y < height && 0 <= x < width ==> tiles[y][x] == GraphTile(conn[y][x])
  {
    tiles := Fill(width, height, "grass");
    var y := 0;
    while y < height
      invariant 0 <= y <= height
      invariant IsGrid(tiles, width, height)
      invariant forall j, i :: 0 <= j < y && 0 <= i < width ==> tiles[j][i] == GraphTile(conn[j][i])
    {
      tiles := GraphTransformRow(conn, width, height, y, tiles);
      y := y + 1;
    }
  }

  /** Compares the four neighbour values of (x, y) in a boolean map, a neighbour off
      the grid reading 0, with the expected values n, e, s, w. */
  function Check(m: seq<seq<bool>>, width: nat, height: nat, x: int, y: int,
                 n: int, e: int, s: int, w: int): (r: bool)
    requires Covers(m, width, height) && InBounds(Cell(x, y), width, height)
    ensures r ==> 0 <= n <= 1 && 0 <= e <= 1 && 0 <= s <= 1 && 0 <= w <= 1
  {
    var ee := if x + 1 < width then BoolToNat(m[y][x + 1]) else 0;
    var ww := if x - 1 >= 0 then BoolToNat(m[y][x - 1]) else 0;
    var ss := if y + 1 < height then BoolToNat(m[y + 1][x]) else 0;
    var nn := if y - 1 >= 0 then BoolToNat(m[y - 1][x]) else 0;
    ee == e && ww == w && nn == n && ss == s
  }

  /** Which of the four neighbours of c are set in the map, read through the
      bounds-checked lookup. */
  function Occupancy(m: seq<seq<bool>>, width: nat, height: nat, c: Cell): Flags
    requires Covers(m, width, height)
  {
    Flags(IsSet(m, width, height, c.x, c.y - 1), IsSet(m, width, height, c.x + 1, c.y),
          IsSet(m, width, height, c.x, c.y + 1), IsSet(m, width, height, c.x - 1, c.y))
  }

  /** For 0/1 expectations, a neighbour check succeeds exactly when the occupancy of
      the neighbours is the expected record. */
  lemma CheckIsOccupancy(m: seq<seq<bool>>, width: nat, height: nat, x: int, y: int,
                         n: int, e: int, s: int, w: int)
    requires Covers(m, width, height) && InBounds(Cell(x, y), width, height)
    requires n in {0, 1} && e in {0, 1} && s in {0, 1} && w in {0, 1}
    ensures Check(m, width, height, x, y, n, e, s, w) <==>
            Occupancy(m, width, height, Cell(x, y)) == Flags(n == 1, e == 1, s == 1, w == 1)
  {
  }

  /** The tile map_transform gives cell (x, y): background for an unset cell, otherwise
      the first neighbour pattern that matches, or the unknown name. A set cell never
      gets the background tile. */
  function MapTile(m: seq<seq<bool>>, width: nat, height: nat, x: int, y: int): (r: string)
    requires Covers(m, width, height) && InBounds(Cell(x, y), width, height)
    ensures r == "grass" <==> !m[y][x]
  {
    if !m[y][x] then "grass"
    else if Check(m, width, height, x, y, 0, 1, 0, 1) then "straight/E"
    else if Check(m, width, height, x, y, 1, 0, 1, 0) then "straight/S"
    else if Check(m, width, height, x, y, 1, 1, 0, 0) then "curve_left/S"
    else if Check(m, width, height, x, y, 0, 1, 1, 0) then "curve_left/W"
    else if Check(m, width, height, x, y, 0, 0, 1, 1) then "curve_left/N"
    else if Check(m, width, height, x, y, 1, 0, 0, 1) then "curve_left/E"
    else if Check(m, width, height, x, y, 1, 1, 1, 0) then "3way_left/S"
    else if Check(m, width, height, x, y, 0, 1, 1, 1) then "3way_left/W"
    else if Check(m, width, height, x, y, 1, 0, 1, 1) then "3way_left/N"
    else if Check(m, width, height, x, y, 1, 1, 0, 1) then "3way_left/E"
    else if Check(m, width, height, x, y, 1, 1, 0, 1) then "4way/E"
    else ""
  }

  /** The older classifier agrees with the record-based one on the occupancy of the
      neighbours, except that a set cell with no set neighbour is unknown rather than
      background. */
  lemma MapTileIsGraphTile(m: seq<seq<bool>>, width: nat, height: nat, x: int, y: int)
    requires Covers(m, width, height) && InBounds(Cell(x, y), width, height)
    ensures var occ := Occupancy(m, width, height, Cell(x, y));
            MapTile(m, width, height, x, y) ==
              if !m[y][x] then "grass" else if occ == NoFlags then "" else GraphTile(occ)
  {
    if m[y][x] {
      CheckIsOccupancy(m, width, height, x, y, 0, 1, 0, 1);
      CheckIsOccupancy(m, width, height, x, y, 1, 0, 1, 0);
      CheckIsOccupancy(m, width, height, x, y, 1, 1, 0, 0);
      CheckIsOccupancy(m, width, height, x, y, 0, 1, 1, 0);
      CheckIsOccupancy(m, width, height, x, y, 0, 0, 1, 1);
      CheckIsOccupancy(m, width, height, x, y, 1, 0, 0, 1);
      CheckIsOccupancy(m, width, height, x, y, 1, 1, 1, 0);
      CheckIsOccupancy(m, width, height, x, y, 0, 1, 1, 1);
      CheckIsOccupancy(m, width, height, x, y, 1, 0, 1, 1);
      CheckIsOccupancy(m, width, height, x, y, 1, 1, 0, 1);
    }
  }

  /** The "4way/E" branch of the older classifier is dead as well. */
  lemma MapTileNotFourWay(m: seq<seq<bool>>, width: nat, height: nat, x: int, y: int)
    requires Covers(m, width, height) && InBounds(Cell(x, y), width, height)
    ensures MapTile(m, width, height, x, y) != "4way/E"
  {
    MapTileIsGraphTile(m, width, height, x, y);
    FourWayUnreachable(Occupancy(m, width, height, Cell(x, y)));
  }

  /** Classifies every set cell of a boolean map; unset cells stay background. */
  method MapTransform(m: seq<seq<bool>>, width: nat, height: nat) returns (tiles: seq<seq<string>>)
    requires Covers(m, width, height)
    ensures IsGrid(tiles, width, height)
    ensures forall y, x :: 0 <= y < height && 0 <= x < width ==> tiles[y][x] == MapTile(m, width, height, x, y)
  {
    tiles := Fill(width, height, "grass");
    var y := 0;
    while y < height
      invariant 0 <= y <= height
      invariant IsGrid(tiles, width, height)
      invariant forall j, i :: 0 <= j < y && 0 <= i < width ==> tiles[j][i] == MapTile(m, width, height, i, j)
      invariant forall j, i :: y <= j < height && 0 <= i < width ==> tiles[j][i] == "grass"
    {
      var x := 0;
      while x < width
        invariant 0 <= x <= width
        invariant IsGrid(tiles, width, height)
        invariant forall j, i :: 0 <= j < y && 0 <= i < width ==> tiles[j][i] == MapTile(m, width, height, i, j)
        invariant forall i :: 0 <= i < x ==> tiles[y][i] == MapTile(m, width, height, i, y)
        invariant forall j, i :: y <= j < height && 0 <= i < width && (j > y || i >= x) ==> tiles[j][i] == "grass"
      {
        if m[y][x] {
          tiles := tiles[y := tiles[y][x := MapTile(m, width, height, x, y)]];
        }
        x := x + 1;
      }
      y := y + 1;
    }
  }
}
