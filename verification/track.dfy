/** What the pieces give together: the tile layer of a chosen loop
    (graph_transform after edge_path_to_grid), and the older tile layer of the
    random-walk generator's map (map_transform after gen_cycle). */
module Track {
  import opened Grid
  import opened Connectivity
  import opened Tiles

  /** The tile layer of a map: classify the connectivity grid of the chosen loop.
      On a closed track of at least four cells no tile is unknown, the background tile
      is exactly the off-track cells, and every track cell is a straight or a curve. */
  method TrackTiles(edges: seq<Cell>, width: nat, height: nat) returns (tiles: seq<seq<string>>)
    requires ValidCycle(edges, width, height)
    ensures IsGrid(tiles, width, height)
    ensures forall y, x :: 0 <= y < height && 0 <= x < width ==> tiles[y][x] != ""
    ensures forall y, x :: 0 <= y < height && 0 <= x < width ==> (tiles[y][x] == "grass" <==> Cell(x, y) !in edges)
    ensures forall y, x :: 0 <= y < height && 0 <= x < width && Cell(x, y) in edges ==> tiles[y][x] in TwoEdgeTiles
  {
    var conn := EdgePathToGrid(edges, width, height);
    tiles := GraphTransform(conn, width, height);
    forall y, x | 0 <= y < height && 0 <= x < width
      ensures tiles[y][x] != ""
      ensures tiles[y][x] == "grass" <==> Cell(x, y) !in edges
      ensures Cell(x, y) in edges ==> tiles[y][x] in TwoEdgeTiles
    {
      var f := conn[y][x];
      GraphTileTwoEdges(f);
      GraphTileGrass(f);
      GraphTileUnknown(f);
      if Cell(x, y) in edges {
        var i :| 0 <= i < |edges| && edges[i] == Cell(x, y);
        CycleCellFlags(edges, width, height, i);
      }
    }
  }

  /** Two adjacent cells also form a cyclic sequence, but each of them then has one
      set flag, and both tiles are unknown. */
  lemma TwoCellLoopUnknownTiles(a: Cell, b: Cell)
    requires Adjacent(a, b)
    ensures GraphTile(CellFlags([a, b], a)) == ""
    ensures GraphTile(CellFlags([a, b], b)) == ""
  {
    assert [a, b][..2] == [a, b];
    assert a != b;
    assert CellFlags([a, b], a) == FlagsToward(a, b, b);
    assert CellFlags([a, b], b) == FlagsToward(b, a, a);
    assert FlagCount(FlagsToward(a, b, b)) == 1;
    assert FlagCount(FlagsToward(b, a, a)) == 1;
    GraphTileUnknown(FlagsToward(a, b, b));
    GraphTileUnknown(FlagsToward(b, a, a));
  }

  /** On a chordless loop, a loop cell adjacent to the i-th is its cyclic predecessor
      or successor. */
  lemma ChordlessNeighbour(loop: seq<Cell>, i: nat, j: nat)
    requires Chordless(loop)
    requires i < |loop| && j < |loop| && Adjacent(loop[i], loop[j])
    ensures loop[j] == Pred(loop, i) || loop[j] == Succ(loop, i)
  {
    var n := |loop|;
    if i < j {
      assert j == i + 1 || (i == 0 && j == n - 1);
    } else {
      assert j < i;
      assert Adjacent(loop[j], loop[i]);
      assert i == j + 1 || (j == 0 && i == n - 1);
    }
  }

  /** On a map marking exactly a chordless loop, a neighbour of the i-th loop cell is
      set exactly when it is the cell's cyclic predecessor or successor. */
  lemma ChordlessNeighbourSet(m: seq<seq<bool>>, width: nat, height: nat, loop: seq<Cell>, i: nat, d: Cell)
    requires Chordless(loop) && MarksExactly(m, width, height, Elems(loop))
    requires i < |loop| && Adjacent(loop[i], d)
    ensures IsSet(m, width, height, d.x, d.y) <==> d in [Pred(loop, i), Succ(loop, i)]
  {
    IsSetIsMembership(m, width, height, Elems(loop), d.x, d.y);
    assert Cell(d.x, d.y) == d;
    if d in loop {
      var j :| 0 <= j < |loop| && loop[j] == d;
      ChordlessNeighbour(loop, i, j);
    }
    assert Pred(loop, i) in loop && Succ(loop, i) in loop;
  }

  /** On a map marking exactly a chordless loop, the neighbour occupancy of each loop
      cell is the connectivity record that edge_path_to_grid gives it. */
  lemma ChordlessOccupancy(m: seq<seq<bool>>, width: nat, height: nat, loop: seq<Cell>, i: nat)
    requires ValidCycle(loop, width, height) && Chordless(loop)
    requires MarksExactly(m, width, height, Elems(loop))
    requires i < |loop|
    ensures Occupancy(m, width, height, loop[i]) == CellFlags(loop, loop[i])
  {
    var c := loop[i];
    CellFlagsOnPath(loop, i);
    ChordlessNeighbourSet(m, width, height, loop, i, North(c));
    ChordlessNeighbourSet(m, width, height, loop, i, East(c));
    ChordlessNeighbourSet(m, width, height, loop, i, South(c));
    ChordlessNeighbourSet(m, width, height, loop, i, West(c));
  }

  /** map_transform on a map marking exactly a chordless loop (what the random-walk
      generator returns once closed) agrees with graph_transform on the loop's
      connectivity grid: every loop cell is a straight or a curve, every other cell
      background, and no tile is unknown. */
  lemma ChordlessCycleMapTiles(m: seq<seq<bool>>, width: nat, height: nat, loop: seq<Cell>, x: int, y: int)
    requires ValidCycle(loop, width, height) && Chordless(loop)
    requires MarksExactly(m, width, height, Elems(loop))
    requires InBounds(Cell(x, y), width, height)
    ensures MapTile(m, width, height, x, y) == GraphTile(CellFlags(loop, Cell(x, y)))
    ensures Cell(x, y) in loop ==> MapTile(m, width, height, x, y) in TwoEdgeTiles
    ensures Cell(x, y) !in loop ==> MapTile(m, width, height, x, y) == "grass"
  {
    var c := Cell(x, y);
    MapTileIsGraphTile(m, width, height, x, y);
    if c in loop {
      var i :| 0 <= i < |loop| && loop[i] == c;
      ChordlessOccupancy(m, width, height, loop, i);
      CycleCellFlags(loop, width, height, i);
      GraphTileTwoEdges(CellFlags(loop, c));
    } else {
      assert CellFlags(loop, c) == NoFlags;
    }
  }
}
