/** Grid cells, the N/E/S/W connectivity record, the four-neighbourhood and
    the bounds-checked lookup that the track generator shares. */
module Grid {

  /** A grid cell; x counts columns (0 <= x < width), y counts rows. */
  datatype Cell = Cell(x: int, y: int)

  /** One connectivity record: is there a track edge towards north (y - 1),
      east (x + 1), south (y + 1) and west (x - 1)? */
  datatype Flags = Flags(n: bool, e: bool, s: bool, w: bool)

  const NoFlags := Flags(false, false, false, false)

  predicate InBounds(c: Cell, width: nat, height: nat) {
    0 <= c.x < width && 0 <= c.y < height
  }

  /** 4-adjacency: the two cells are one step apart along exactly one axis. */
  predicate Adjacent(a: Cell, b: Cell) {
    (a.y == b.y && (a.x == b.x + 1 || b.x == a.x + 1)) ||
    (a.x == b.x && (a.y == b.y + 1 || b.y == a.y + 1))
  }

  /** The cells north, east, south and west of c. */
  function North(c: Cell): Cell { Cell(c.x, c.y - 1) }
  function East(c: Cell): Cell { Cell(c.x + 1, c.y) }
  function South(c: Cell): Cell { Cell(c.x, c.y + 1) }
  function West(c: Cell): Cell { Cell(c.x - 1, c.y) }

  /** The four candidate moves from (x, y), in the order east, west, south, north.
      They are exactly the cells adjacent to (x, y), and they are pairwise distinct. */
  function Neighs(x: int, y: int): (r: seq<Cell>)
    ensures |r| == 4
    ensures forall i :: 0 <= i < |r| ==> Adjacent(Cell(x, y), r[i])
    ensures forall d :: Adjacent(Cell(x, y), d) <==> d in r
    ensures forall i, j :: 0 <= i < j < |r| ==> r[i] != r[j]
  {
    [Cell(x + 1, y), Cell(x - 1, y), Cell(x, y + 1), Cell(x, y - 1)]
  }

  /** A height-by-width grid stored row by row: g[y][x]. */
  ghost predicate IsGrid<T>(g: seq<seq<T>>, width: nat, height: nat) {
    |g| == height && forall y :: 0 <= y < |g| ==> |g[y]| == width
  }

  /** A height-by-width grid with v in every cell, built row by row. */
  method Fill<T>(width: nat, height: nat, v: T) returns (g: seq<seq<T>>)
    ensures IsGrid(g, width, height)
    ensures forall y, x :: 0 <= y < height && 0 <= x < width ==> g[y][x] == v
  {
    g := [];
    var i := 0;
    while i < height
      invariant 0 <= i <= height
      invariant IsGrid(g, width, i)
      invariant forall y, x :: 0 <= y < i && 0 <= x < width ==> g[y][x] == v
    {
      g := g + [seq(width, _ => v)];
      i := i + 1;
    }
  }

  /** g holds a value at every in-bounds cell (what the readers of a grid index). */
  ghost predicate Covers<T>(g: seq<seq<T>>, width: nat, height: nat) {
    |g| >= height && forall y :: 0 <= y < height ==> |g[y]| >= width
  }

  /** g is true exactly on the cells of s (all of which lie in the grid). */
  ghost predicate MarksExactly(g: seq<seq<bool>>, width: nat, height: nat, s: set<Cell>) {
    Covers(g, width, height) &&
    (forall c :: c in s ==> InBounds(c, width, height)) &&
    (forall y, x :: 0 <= y < height && 0 <= x < width ==> (g[y][x] <==> Cell(x, y) in s))
  }

  /** The cells of a sequence, as a set. */
  ghost function Elems(s: seq<Cell>): set<Cell> {
    set c | c in s
  }

  lemma ElemsAppend(s: seq<Cell>, c: Cell)
    ensures Elems(s + [c]) == Elems(s) + {c}
  {
    assert forall d :: d in s + [c] <==> d in s || d == c;
  }

  /** g with cell c set to v. */
  function Put<T>(g: seq<seq<T>>, c: Cell, v: T): (r: seq<seq<T>>)
    requires 0 <= c.y < |g| && 0 <= c.x < |g[c.y]|
    ensures |r| == |g| && forall y :: 0 <= y < |g| ==> |r[y]| == |g[y]|
    ensures forall y, x :: 0 <= y < |g| && 0 <= x < |g[y]| ==> r[y][x] == if Cell(x, y) == c then v else g[y][x]
  {
    g[c.y := g[c.y][c.x := v]]
  }

  /** Setting an in-grid cell adds it to the marked set; clearing it removes it. */
  lemma PutMarks(g: seq<seq<bool>>, width: nat, height: nat, s: set<Cell>, c: Cell, v: bool)
    requires IsGrid(g, width, height) && MarksExactly(g, width, height, s) && InBounds(c, width, height)
    ensures IsGrid(Put(g, c, v), width, height)
    ensures MarksExactly(Put(g, c, v), width, height, if v then s + {c} else s - {c})
  {
  }

  /** Bounds-checked lookup: any cell outside [0, width) x [0, height) reads as unset. */
  function IsSet(l: seq<seq<bool>>, width: nat, height: nat, x: int, y: int): (r: bool)
    requires Covers(l, width, height)
    ensures r ==> InBounds(Cell(x, y), width, height)
    ensures InBounds(Cell(x, y), width, height) ==> r == l[y][x]
  {
    if x < 0 || y < 0 || x >= width || y >= height then false else l[y][x]
  }

  /** On a grid that marks exactly the cells of a set, the bounds-checked lookup
      is membership in that set, for every pair of integers. */
  lemma IsSetIsMembership(l: seq<seq<bool>>, width: nat, height: nat, s: set<Cell>, x: int, y: int)
    requires MarksExactly(l, width, height, s)
    ensures IsSet(l, width, height, x, y) <==> Cell(x, y) in s
  {
    if !InBounds(Cell(x, y), width, height) {
      assert Cell(x, y) !in s;
    }
  }

  function BoolToNat(b: bool): nat { if b then 1 else 0 }

  /** How many of the four flags are set. */
  function FlagCount(f: Flags): nat {
    BoolToNat(f.n) + BoolToNat(f.e) + BoolToNat(f.s) + BoolToNat(f.w)
  }

  /** How many of the four neighbours of c are in visited. */
  function VisitedNeighbours(c: Cell, visited: set<Cell>): nat {
    var ns := Neighs(c.x, c.y);
    BoolToNat(ns[0] in visited) + BoolToNat(ns[1] in visited) + BoolToNat(ns[2] in visited) + BoolToNat(ns[3] in visited)
  }

  /** Two distinct visited neighbours make the count at least two, and a count of at
      least two has a second visited neighbour besides any given one. */
  lemma VisitedNeighboursTwo(c: Cell, visited: set<Cell>, a: Cell)
    requires Adjacent(c, a) && a in visited
    ensures VisitedNeighbours(c, visited) >= 2 <==>
            exists d :: Adjacent(c, d) && d in visited && d != a
  {
    var ns := Neighs(c.x, c.y);
    assert a in ns;
    if VisitedNeighbours(c, visited) >= 2 {
      var i :| 0 <= i < 4 && ns[i] in visited && ns[i] != a;
      assert Adjacent(c, ns[i]);
    }
  }

  /** The cells that the set flags of a record at c point to. */
  function Toward(c: Cell, f: Flags): set<Cell> {
    (if f.n then {North(c)} else {}) + (if f.e then {East(c)} else {}) +
    (if f.s then {South(c)} else {}) + (if f.w then {West(c)} else {})
  }

  /** The record at c whose flags point at a or b: a flag is set when the cell in
      that direction is one of the two. */
  function FlagsToward(c: Cell, a: Cell, b: Cell): Flags {
    Flags(North(c) in [a, b], East(c) in [a, b], South(c) in [a, b], West(c) in [a, b])
  }

  /** Two distinct neighbours of c give a record with exactly two flags, pointing at them. */
  lemma FlagsTowardTwo(c: Cell, a: Cell, b: Cell)
    requires Adjacent(c, a) && Adjacent(c, b) && a != b
    ensures FlagCount(FlagsToward(c, a, b)) == 2
    ensures Toward(c, FlagsToward(c, a, b)) == {a, b}
  {
    assert a == North(c) || a == East(c) || a == South(c) || a == West(c);
    assert b == North(c) || b == East(c) || b == South(c) || b == West(c);
  }

  /** Stepping changes the parity of x + y, so adjacent cells have opposite parities. */
  lemma AdjacentParity(a: Cell, b: Cell)
    requires Adjacent(a, b)
    ensures (a.x + a.y) % 2 != (b.x + b.y) % 2
  {
  }
}
