/** From a cycle of grid cells to a grid of N/E/S/W connectivity records:
    the all-false grid, the fully connected grid and the path-to-grid mapping. */
module Connectivity {
  import opened Grid

  /** A height-by-width grid of all-false records. */
  method Empty(width: nat, height: nat) returns (g: seq<seq<Flags>>)
    ensures IsGrid(g, width, height)
    ensures forall y, x :: 0 <= y < height && 0 <= x < width ==> g[y][x] == NoFlags
  {
    g := Fill(width, height, NoFlags);
  }

  /** The record of a cell joined to every neighbour that lies inside the grid. */
  function ConnectAll(c: Cell, width: nat, height: nat): Flags {
    Flags(InBounds(North(c), width, height), InBounds(East(c), width, height),
          InBounds(South(c), width, height), InBounds(West(c), width, height))
  }

  /** The row length the fully connected grid gets: a first cell, width - 2 middle
      cells (none when width < 2) and a last cell. */
  function FullRowLength(width: nat): nat {
    if width >= 2 then width else 2
  }

  /** The fully connected grid: each row is a west-end record, width - 2 middle records
      and an east-end record. For width >= 2 every cell is joined to exactly its in-grid
      neighbours; for narrower grids each row still has two cells. */
  method Full(width: nat, height: nat) returns (g: seq<seq<Flags>>)
    ensures IsGrid(g, FullRowLength(width), height)
    ensures forall y, x :: 0 <= y < height && 0 <= x < FullRowLength(width) ==>
              g[y][x] == Flags(y != 0, x != FullRowLength(width) - 1, y != height - 1, x != 0)
    ensures width >= 2 ==>
              forall y, x :: 0 <= y < height && 0 <= x < width ==> g[y][x] == ConnectAll(Cell(x, y), width, height)
  {
    g := [];
    var i := 0;
    while i < height
      invariant 0 <= i <= height
      invariant IsGrid(g, FullRowLength(width), i)
      invariant forall y, x :: 0 <= y < i && 0 <= x < FullRowLength(width) ==>
                  g[y][x] == Flags(y != 0, x != FullRowLength(width) - 1, y != height - 1, x != 0)
    {
      var first := Flags(i != 0, true, i != height - 1, false);
      var middle := Flags(i != 0, true, i != height - 1, true);
      var last := Flags(i != 0, false, i != height - 1, true);
      var row := [first] + seq(if width >= 2 then width - 2 else 0, _ => middle) + [last];
      g := g + [row];
      i := i + 1;
    }
  }

  /** The cyclic predecessor of position i: position 0 wraps round to the last cell. */
  function Pred(edges: seq<Cell>, i: nat): Cell
    requires i < |edges|
  {
    if i == 0 then edges[|edges| - 1] else edges[i - 1]
  }

  /** The cyclic successor of position i, (i + 1) mod the length: the last
      position wraps round to the first cell. */
  function Succ(edges: seq<Cell>, i: nat): Cell
    requires i < |edges|
  {
    if i + 1 == |edges| then edges[0] else edges[i + 1]
  }

  /** The record written for the i-th cell of the path: a flag is set when the cell in
      that direction is the cell's cyclic predecessor or successor. */
  function PathFlags(edges: seq<Cell>, i: nat): Flags
    requires i < |edges|
  {
    FlagsToward(edges[i], Pred(edges, i), Succ(edges, i))
  }

  /** The position of the last occurrence of c in s, or -1 when c does not occur. */
  function LastIndex(s: seq<Cell>, c: Cell): (r: int)
    ensures -1 <= r < |s|
    ensures r >= 0 ==> s[r] == c && forall j :: r < j < |s| ==> s[j] != c
    ensures r < 0 <==> c !in s
  {
    if |s| == 0 then -1
    else if s[|s| - 1] == c then |s| - 1
    else LastIndex(s[..|s| - 1], c)
  }

  /** The record cell c holds once the first k path positions have been written:
      the record of the last of them that is c (later writes win), else all false. */
  function FlagsAfter(edges: seq<Cell>, k: nat, c: Cell): Flags
    requires k <= |edges|
  {
    var j := LastIndex(edges[..k], c);
    if j < 0 then NoFlags else PathFlags(edges, j)
  }

  /** The record cell c holds in the finished grid. */
  function CellFlags(edges: seq<Cell>, c: Cell): Flags {
    FlagsAfter(edges, |edges|, c)
  }

  /** Writes each path cell's record into an all-false grid, in path order. */
  method EdgePathToGrid(edges: seq<Cell>, width: nat, height: nat) returns (g: seq<seq<Flags>>)
    requires forall i :: 0 <= i < |edges| ==> InBounds(edges[i], width, height)
    ensures IsGrid(g, width, height)
    ensures forall y, x :: 0 <= y < height && 0 <= x < width ==> g[y][x] == CellFlags(edges, Cell(x, y))
    ensures forall y, x :: 0 <= y < height && 0 <= x < width && Cell(x, y) !in edges ==> g[y][x] == NoFlags
  {
    g := Empty(width, height);
    var i := 0;
    while i < |edges|
      invariant 0 <= i <= |edges|
      invariant IsGrid(g, width, height)
      invariant forall y, x :: 0 <= y < height && 0 <= x < width ==> g[y][x] == FlagsAfter(edges, i, Cell(x, y))
    {
      var c := edges[i];
      assert edges[..i + 1][..i] == edges[..i];
      g := g[c.y := g[c.y][c.x := PathFlags(edges, i)]];
      i := i + 1;
    }
    assert edges[..|edges|] == edges;
  }

  /** A closed track: at least four distinct in-grid cells, each 4-adjacent to the next
      and the last to the first. */
  ghost predicate ValidCycle(edges: seq<Cell>, width: nat, height: nat) {
    |edges| >= 4 &&
    (forall i :: 0 <= i < |edges| ==> InBounds(edges[i], width, height)) &&
    (forall i, j :: 0 <= i < j < |edges| ==> edges[i] != edges[j]) &&
    (forall i :: 0 <= i < |edges| ==> Adjacent(edges[i], Succ(edges, i)))
  }

  /** No two cells of the loop touch unless they follow each other on it. */
  ghost predicate Chordless(edges: seq<Cell>) {
    forall i, j :: 0 <= i < j < |edges| && Adjacent(edges[i], edges[j]) ==>
      j == i + 1 || (i == 0 && j == |edges| - 1)
  }

  /** On a loop of distinct cells the last write to a path cell is its own. */
  lemma CellFlagsOnPath(edges: seq<Cell>, i: nat)
    requires i < |edges|
    requires forall a, b :: 0 <= a < b < |edges| ==> edges[a] != edges[b]
    ensures CellFlags(edges, edges[i]) == PathFlags(edges, i)
  {
    assert edges[..|edges|] == edges;
  }

  /** The predecessor is adjacent too: it is the successor of the previous position. */
  lemma PredAdjacent(edges: seq<Cell>, i: nat)
    requires i < |edges|
    requires forall k :: 0 <= k < |edges| ==> Adjacent(edges[k], Succ(edges, k))
    ensures Adjacent(edges[i], Pred(edges, i))
  {
    var p := if i == 0 then |edges| - 1 else i - 1;
    assert Succ(edges, p) == edges[i];
    assert Adjacent(edges[p], edges[i]);
  }

  /** Two different positions of a path of distinct cells hold different cells. */
  lemma DistinctAt(edges: seq<Cell>, a: nat, b: nat)
    requires a < |edges| && b < |edges| && a != b
    requires forall i, j :: 0 <= i < j < |edges| ==> edges[i] != edges[j]
    ensures edges[a] != edges[b]
  {
    if b < a {
      assert edges[b] != edges[a];
    }
  }

  /** On a valid cycle every path cell has exactly two set flags, and they point
      exactly at its cyclic predecessor and successor. */
  lemma CycleCellFlags(edges: seq<Cell>, width: nat, height: nat, i: nat)
    requires ValidCycle(edges, width, height)
    requires i < |edges|
    ensures FlagCount(CellFlags(edges, edges[i])) == 2
    ensures Toward(edges[i], CellFlags(edges, edges[i])) == {Pred(edges, i), Succ(edges, i)}
  {
    CellFlagsOnPath(edges, i);
    PredAdjacent(edges, i);
    var n := |edges|;
    var p := if i == 0 then n - 1 else i - 1;
    var q := if i + 1 == n then 0 else i + 1;
    DistinctAt(edges, p, q);
    assert Pred(edges, i) == edges[p] && Succ(edges, i) == edges[q];
    FlagsTowardTwo(edges[i], Pred(edges, i), Succ(edges, i));
  }
}
