/** The random-walk cycle generator: walk from a start cell, one random neighbour per
    step, never leaving the grid and never stepping straight back, until the current
    cell touches a second visited cell; then clear the tail of the walk that lies
    before the loop. The random source is replaced by the start cell and a sequence
    of choices, one per iteration; running out of choices ends the walk unclosed. */
module CycleGen {
  import opened Grid
  import opened Connectivity

  function Last(track: seq<Cell>): Cell
    requires |track| > 0
  {
    track[|track| - 1]
  }

  /** A walk so far: in-grid, self-avoiding, each cell adjacent to the next, and no
      cell before the current one touches an earlier cell other than its predecessor. */
  ghost predicate IsWalk(track: seq<Cell>, width: nat, height: nat) {
    |track| > 0 &&
    (forall i :: 0 <= i < |track| ==> InBounds(track[i], width, height)) &&
    (forall i, j :: 0 <= i < j < |track| ==> track[i] != track[j]) &&
    (forall i :: 0 <= i < |track| - 1 ==> Adjacent(track[i], track[i + 1])) &&
    (forall i, j :: 0 <= i && i + 1 < j < |track| - 1 ==> !Adjacent(track[i], track[j]))
  }

  /** The current cell touches a cell of the track other than its predecessor. */
  ghost predicate Closes(track: seq<Cell>) {
    |track| > 0 && exists j :: 0 <= j < |track| - 2 && Adjacent(track[j], Last(track))
  }

  /** The walk loop: while the current cell has fewer than two visited neighbours,
      take the next choice; a move off the grid or back to the previous cell is
      skipped, any other move is appended. Yields the track and whether it closed. The
      track grows by at most one cell per choice. */
  function Walk(width: nat, height: nat, track: seq<Cell>, visited: set<Cell>, choices: seq<nat>): (r: (seq<Cell>, bool))
    requires |track| > 0
    ensures |track| <= |r.0| <= |track| + |choices|
    decreases |choices|
  {
    var prev := Last(track);
    if VisitedNeighbours(prev, visited) >= 2 then (track, true)
    else if |choices| == 0 then (track, false)
    else
      var c := Neighs(prev.x, prev.y)[choices[0] % 4];
      if !InBounds(c, width, height) || (|track| > 1 && c == track[|track| - 2]) then
        Walk(width, height, track, visited, choices[1..])
      else
        Walk(width, height, track + [c], visited + {c}, choices[1..])
  }

  /** One iteration of the walk loop: choice k is consumed, and the chosen neighbour
      is appended unless it is off the grid or the previous cell. */
  lemma WalkStep(width: nat, height: nat, track: seq<Cell>, visited: set<Cell>, choices: seq<nat>, k: nat)
    requires |track| > 0 && k < |choices|
    requires VisitedNeighbours(Last(track), visited) < 2
    ensures var c := Neighs(Last(track).x, Last(track).y)[choices[k] % 4];
            Walk(width, height, track, visited, choices[k..]) ==
              if !InBounds(c, width, height) || (|track| > 1 && c == track[|track| - 2])
              then Walk(width, height, track, visited, choices[k + 1..])
              else Walk(width, height, track + [c], visited + {c}, choices[k + 1..])
  {
    assert choices[k..][0] == choices[k] && choices[k..][1..] == choices[k + 1..];
  }

  /** The walk loop ends when the current cell has two visited neighbours (closed) or
      when the choices run out (not closed). */
  lemma WalkStops(width: nat, height: nat, track: seq<Cell>, visited: set<Cell>, choices: seq<nat>, k: nat)
    requires |track| > 0 && k <= |choices|
    requires VisitedNeighbours(Last(track), visited) >= 2 || k == |choices|
    ensures Walk(width, height, track, visited, choices[k..]) == (track, VisitedNeighbours(Last(track), visited) >= 2)
  {
    assert k == |choices| ==> choices[k..] == [];
  }

  /** One accepted move keeps the walk a walk: the new cell is unvisited, and the cell
      left behind touches no visited cell except its predecessor. */
  lemma StepKeepsWalk(track: seq<Cell>, visited: set<Cell>, c: Cell, width: nat, height: nat)
    requires IsWalk(track, width, height)
    requires visited == Elems(track)
    requires VisitedNeighbours(Last(track), visited) < 2
    requires InBounds(c, width, height) && Adjacent(Last(track), c)
    requires |track| > 1 ==> c != track[|track| - 2]
    ensures IsWalk(track + [c], width, height)
    ensures visited + {c} == Elems(track + [c])
  {
    var n := |track|;
    var t := track + [c];
    ElemsAppend(track, c);
    if n > 1 {
      var a := track[n - 2];
      assert Adjacent(Last(track), a);
      VisitedNeighboursTwo(Last(track), visited, a);
      assert c !in track;
      forall i | 0 <= i < n - 2
        ensures !Adjacent(track[i], Last(track))
      {
        assert track[i] in visited && track[i] != a;
      }
    }
    assert c !in track;
    forall i, j | 0 <= i && i + 1 < j < |t| - 1
      ensures !Adjacent(t[i], t[j])
    {
      if j < n - 1 {
        assert t[i] == track[i] && t[j] == track[j];
      } else {
        assert t[j] == Last(track);
      }
    }
  }

  /** A one-cell track has no visited neighbour: no cell is its own neighbour. */
  lemma LoneCell(track: seq<Cell>, visited: set<Cell>)
    requires |track| > 0 && visited == Elems(track)
    ensures |track| == 1 ==> VisitedNeighbours(Last(track), visited) == 0
  {
    if |track| == 1 {
      var p := Last(track);
      var ns := Neighs(p.x, p.y);
      assert visited == {p};
      forall i | 0 <= i < 4 ensures ns[i] != p { assert Adjacent(p, ns[i]); }
    }
  }

  /** On a walk with more than one cell, two visited neighbours of the current cell
      mean the walk closes; a one-cell walk has no visited neighbour. */
  lemma CountClosed(track: seq<Cell>, visited: set<Cell>)
    requires |track| > 0
    requires visited == Elems(track)
    requires forall i, j :: 0 <= i < j < |track| ==> track[i] != track[j]
    requires |track| > 1 ==> Adjacent(track[|track| - 2], Last(track))
    requires VisitedNeighbours(Last(track), visited) >= 2
    ensures Closes(track)
  {
    var p := Last(track);
    LoneCell(track, visited);
    if |track| == 1 {
      assert false;
    }
    var a := track[|track| - 2];
    VisitedNeighboursTwo(p, visited, a);
    var d :| Adjacent(p, d) && d in visited && d != a;
    var j :| 0 <= j < |track| && track[j] == d;
    assert j != |track| - 1;
    assert Adjacent(track[j], Last(track));
  }

  /** The walk stays a walk, extends the track it starts from, and has closed only when
      the current cell touches a track cell other than its predecessor. */
  lemma {:induction false} WalkProps(width: nat, height: nat, track: seq<Cell>, visited: set<Cell>, choices: seq<nat>)
    requires IsWalk(track, width, height)
    requires visited == Elems(track)
    ensures IsWalk(Walk(width, height, track, visited, choices).0, width, height)
    ensures track <= Walk(width, height, track, visited, choices).0
    ensures Walk(width, height, track, visited, choices).1 ==> Closes(Walk(width, height, track, visited, choices).0)
    decreases |choices|
  {
    var prev := Last(track);
    if VisitedNeighbours(prev, visited) >= 2 {
      CountClosed(track, visited);
    } else if |choices| == 0 {
    } else {
      var c := Neighs(prev.x, prev.y)[choices[0] % 4];
      if !InBounds(c, width, height) || (|track| > 1 && c == track[|track| - 2]) {
        assert Walk(width, height, track, visited, choices) == Walk(width, height, track, visited, choices[1..]);
        WalkProps(width, height, track, visited, choices[1..]);
      } else {
        assert Walk(width, height, track, visited, choices) == Walk(width, height, track + [c], visited + {c}, choices[1..]);
        StepKeepsWalk(track, visited, c, width, height);
        WalkProps(width, height, track + [c], visited + {c}, choices[1..]);
        assert track <= track + [c];
      }
    }
  }

  /** The last two cells of the track (the whole track when it is shorter). */
  function LastTwo(track: seq<Cell>): seq<Cell> {
    if |track| >= 2 then track[|track| - 2..] else track
  }

  /** The position of the first occurrence of c in s. */
  function IndexOf(s: seq<Cell>, c: Cell): (r: nat)
    requires c in s
    ensures r < |s| && s[r] == c
    ensures forall j :: 0 <= j < r ==> s[j] != c
  {
    if s[0] == c then 0 else 1 + IndexOf(s[1..], c)
  }

  function Max(a: nat, b: nat): nat { if a >= b then a else b }

  /** The i-th of the four neighbours of the current cell triggers pruning: it is
      visited and is not one of the last two cells. */
  predicate Prunes(track: seq<Cell>, i: nat)
    requires |track| > 0 && i < 4
  {
    var c := Neighs(Last(track).x, Last(track).y)[i];
    c in track && c !in LastTwo(track)
  }

  /** Where the kept loop starts once the first k neighbours of the current cell are
      processed: each pruning neighbour clears the track before its own position, so
      the loop starts at the largest such position (0 when none prunes). */
  function PruneStart(track: seq<Cell>, k: nat): (r: nat)
    requires |track| > 0 && k <= 4
    ensures r < |track|
  {
    if k == 0 then 0
    else
      var b := PruneStart(track, k - 1);
      if Prunes(track, k - 1) then Max(b, IndexOf(track, Neighs(Last(track).x, Last(track).y)[k - 1])) else b
  }

  /** PruneStart is the largest position of a pruning neighbour among the first k,
      and 0 when there is none. */
  lemma {:induction false} PruneStartIsMax(track: seq<Cell>, k: nat)
    requires |track| > 0 && k <= 4
    ensures forall i :: 0 <= i < k && Prunes(track, i) ==>
              IndexOf(track, Neighs(Last(track).x, Last(track).y)[i]) <= PruneStart(track, k)
    ensures PruneStart(track, k) == 0 ||
            exists i :: 0 <= i < k && Prunes(track, i) &&
              PruneStart(track, k) == IndexOf(track, Neighs(Last(track).x, Last(track).y)[i])
  {
    if k > 0 {
      PruneStartIsMax(track, k - 1);
    }
  }

  /** A cell at least two positions before the current one that touches it is one of
      the pruning neighbours. */
  lemma PrunesAt(track: seq<Cell>, width: nat, height: nat, j: nat)
    requires IsWalk(track, width, height)
    requires j < |track| - 2 && Adjacent(track[j], Last(track))
    ensures exists i :: 0 <= i < 4 && Prunes(track, i) &&
              IndexOf(track, Neighs(Last(track).x, Last(track).y)[i]) == j
  {
    var n := |track|;
    var p := Last(track);
    var ns := Neighs(p.x, p.y);
    assert Adjacent(p, track[j]);
    var i :| 0 <= i < 4 && ns[i] == track[j];
    assert LastTwo(track) == [track[n - 2], track[n - 1]];
    assert track[j] != track[n - 2] && track[j] != track[n - 1];
    assert Prunes(track, i);
  }

  /** Every cell at least two positions before the current one that touches it lies
      at or before the start of the kept loop. */
  lemma PruneStartAtLeast(track: seq<Cell>, width: nat, height: nat, j: nat)
    requires IsWalk(track, width, height)
    requires j < |track| - 2 && Adjacent(track[j], Last(track))
    ensures j <= PruneStart(track, 4)
  {
    PrunesAt(track, width, height, j);
    PruneStartIsMax(track, 4);
  }

  /** A nonzero start of the kept loop is the position of a pruning neighbour: a cell
      adjacent to the current one and at least two positions before it. */
  lemma PruneStartPicks(track: seq<Cell>)
    requires |track| >= 3
    ensures PruneStart(track, 4) != 0 ==>
              PruneStart(track, 4) <= |track| - 3 && Adjacent(track[PruneStart(track, 4)], Last(track))
  {
    var p := Last(track);
    var ns := Neighs(p.x, p.y);
    var b := PruneStart(track, 4);
    PruneStartIsMax(track, 4);
    if b != 0 {
      var i :| 0 <= i < 4 && Prunes(track, i) && b == IndexOf(track, ns[i]);
      IndexBeforeLastTwo(track, ns[i]);
      assert Adjacent(p, ns[i]);
    }
  }

  /** A cell of the track that is not one of its last two lies at least three
      positions before the end. */
  lemma IndexBeforeLastTwo(track: seq<Cell>, c: Cell)
    requires |track| >= 3 && c in track && c !in LastTwo(track)
    ensures IndexOf(track, c) <= |track| - 3 && track[IndexOf(track, c)] == c
  {
    var n := |track|;
    assert LastTwo(track) == [track[n - 2], track[n - 1]];
  }

  /** On a closed walk the kept loop starts at a cell adjacent to the current one, at
      least two positions before it, and no later cell (except the predecessor)
      touches the current cell. */
  lemma PruneStartCloses(track: seq<Cell>, width: nat, height: nat)
    requires IsWalk(track, width, height) && Closes(track)
    ensures PruneStart(track, 4) <= |track| - 3
    ensures Adjacent(track[PruneStart(track, 4)], Last(track))
    ensures forall j :: PruneStart(track, 4) < j < |track| - 2 ==> !Adjacent(track[j], Last(track))
  {
    var j0 :| 0 <= j0 < |track| - 2 && Adjacent(track[j0], Last(track));
    PruneStartAtLeast(track, width, height, j0);
    PruneStartPicks(track);
    forall j | 0 <= j < |track| - 2 && Adjacent(track[j], Last(track))
      ensures j <= PruneStart(track, 4)
    {
      PruneStartAtLeast(track, width, height, j);
    }
  }

  /** The conditions under which the tail track[b..] of a walk closes into a loop:
      it has at least three cells, its first cell touches the current one, and no
      cell in between other than the predecessor does. */
  ghost predicate LoopFrom(track: seq<Cell>, b: nat) {
    |track| > 0 && b + 3 <= |track| && Adjacent(track[b], Last(track)) &&
    forall j :: b < j < |track| - 2 ==> !Adjacent(track[j], Last(track))
  }

  /** Such a tail has at least four cells: a triangle of 4-adjacent cells would need
      x + y to change parity three times and come back. */
  lemma LoopFromLength(track: seq<Cell>, width: nat, height: nat, b: nat)
    requires IsWalk(track, width, height) && LoopFrom(track, b)
    ensures |track| - b >= 4
  {
    AdjacentParity(track[b], track[b + 1]);
    AdjacentParity(track[b + 1], track[b + 2]);
    AdjacentParity(track[b], Last(track));
  }

  /** Each cell of such a tail is adjacent to its cyclic successor. */
  lemma LoopFromAdjacent(track: seq<Cell>, width: nat, height: nat, b: nat)
    requires IsWalk(track, width, height) && LoopFrom(track, b)
    ensures forall i :: 0 <= i < |track[b..]| ==> Adjacent(track[b..][i], Succ(track[b..], i))
  {
    var loop := track[b..];
    forall i | 0 <= i < |loop|
      ensures Adjacent(loop[i], Succ(loop, i))
    {
      if i + 1 < |loop| {
        assert loop[i] == track[b + i] && loop[i + 1] == track[b + i + 1];
      } else {
        assert loop[i] == Last(track) && loop[0] == track[b];
      }
    }
  }

  /** Two cells of such a tail touch only when they follow each other on the loop. */
  lemma LoopFromChordless(track: seq<Cell>, width: nat, height: nat, b: nat)
    requires IsWalk(track, width, height) && LoopFrom(track, b)
    ensures Chordless(track[b..])
  {
    var loop := track[b..];
    forall i, j | 0 <= i < j < |loop| && Adjacent(loop[i], loop[j])
      ensures j == i + 1 || (i == 0 && j == |loop| - 1)
    {
      assert loop[i] == track[b + i] && loop[j] == track[b + j];
    }
  }

  /** Such a tail is a closed track. */
  lemma LoopFromIsCycle(track: seq<Cell>, width: nat, height: nat, b: nat)
    requires IsWalk(track, width, height) && LoopFrom(track, b)
    ensures ValidCycle(track[b..], width, height)
  {
    LoopFromLength(track, width, height, b);
    LoopFromAdjacent(track, width, height, b);
    var loop := track[b..];
    assert forall i :: 0 <= i < |loop| ==> loop[i] == track[b + i];
  }

  /** The kept part of a closed walk is a closed track (at least four distinct in-grid
      cells, cyclically adjacent) whose cells touch only their two loop neighbours. */
  lemma KeptLoopIsCycle(track: seq<Cell>, width: nat, height: nat)
    requires IsWalk(track, width, height) && Closes(track)
    ensures ValidCycle(track[PruneStart(track, 4)..], width, height)
    ensures Chordless(track[PruneStart(track, 4)..])
  {
    var b := PruneStart(track, 4);
    PruneStartCloses(track, width, height);
    assert LoopFrom(track, b);
    LoopFromIsCycle(track, width, height, b);
    LoopFromChordless(track, width, height, b);
  }

  /** The coordinate a walk on a single row (or column) moves along, and the one it
      keeps. */
  function Along(c: Cell, row: bool): int { if row then c.x else c.y }
  function Across(c: Cell, row: bool): int { if row then c.y else c.x }

  /** On a grid one cell high (or wide) a walk moves in one direction only: every step
      changes the moving coordinate by the first step's d, which is 1 or -1, so the i-th
      cell lies i cells from the start. */
  lemma {:induction false} LineOffset(track: seq<Cell>, width: nat, height: nat, i: nat)
    requires IsWalk(track, width, height) && (width == 1 || height == 1)
    requires 1 <= i < |track|
    ensures var row := height == 1;
            var d := Along(track[1], row) - Along(track[0], row);
            (d == 1 || d == -1) &&
            Along(track[i], row) - Along(track[i - 1], row) == d &&
            (d == 1 ==> Along(track[i], row) == Along(track[0], row) + i) &&
            (d == -1 ==> Along(track[i], row) == Along(track[0], row) - i)
  {
    var row := height == 1;
    assert Adjacent(track[i - 1], track[i]);
    assert Across(track[i - 1], row) == Across(track[i], row);
    if i > 1 {
      LineOffset(track, width, height, i - 1);
      assert track[i] != track[i - 2];
      assert Across(track[i - 2], row) == Across(track[i], row);
    }
  }

  /** On a grid one cell high or wide a walk never closes: a cell two or more steps
      back lies two or more cells away from the current one. */
  lemma LineWalkOpen(track: seq<Cell>, width: nat, height: nat)
    requires IsWalk(track, width, height) && (width == 1 || height == 1)
    ensures !Closes(track)
  {
    var n := |track|;
    if Closes(track) {
      var j :| 0 <= j < n - 2 && Adjacent(track[j], Last(track));
      LineOffset(track, width, height, n - 1);
      if j > 0 {
        LineOffset(track, width, height, j);
      }
    }
  }

  /** On a grid with a side shorter than two cells the generator's walk never closes,
      whatever the choices: the loop of gen_cycle does not terminate there. */
  lemma NarrowGridNeverCloses(width: nat, height: nat, startX: nat, startY: nat, choices: seq<nat>)
    requires startX < width && startY < height
    requires width < 2 || height < 2
    ensures !Walk(width, height, [Cell(startX, startY)], {Cell(startX, startY)}, choices).1
  {
    var start := Cell(startX, startY);
    assert Elems([start]) == {start};
    WalkProps(width, height, [start], {start}, choices);
    LineWalkOpen(Walk(width, height, [start], {start}, choices).0, width, height);
  }

  /** Dropping the first cell of a tail of a self-avoiding track removes exactly
      that cell from the tail's set of cells. */
  lemma ElemsDrop(track: seq<Cell>, lo: nat)
    requires lo < |track|
    requires forall i, j :: 0 <= i < j < |track| ==> track[i] != track[j]
    ensures Elems(track[lo + 1..]) == Elems(track[lo..]) - {track[lo]}
  {
    assert track[lo..] == [track[lo]] + track[lo + 1..];
  }

  /** The state of the walk phase: the track is a walk from the start cell, the visited
      set is its cells, and the map marks exactly them. */
  ghost predicate WalkState(cycleMap: seq<seq<bool>>, track: seq<Cell>, visited: set<Cell>,
                            start: Cell, width: nat, height: nat) {
    IsWalk(track, width, height) && track[0] == start && visited == Elems(track) &&
    IsGrid(cycleMap, width, height) && MarksExactly(cycleMap, width, height, visited)
  }

  /** An accepted move keeps the walk-phase state once the new cell is appended, added
      to the visited set and set in the map. */
  lemma StepState(cycleMap: seq<seq<bool>>, track: seq<Cell>, visited: set<Cell>,
                  start: Cell, width: nat, height: nat, c: Cell)
    requires WalkState(cycleMap, track, visited, start, width, height)
    requires VisitedNeighbours(Last(track), visited) < 2
    requires InBounds(c, width, height) && Adjacent(Last(track), c)
    requires |track| > 1 ==> c != track[|track| - 2]
    ensures WalkState(Put(cycleMap, c, true), track + [c], visited + {c}, start, width, height)
    ensures 0 <= c.y < |cycleMap| && 0 <= c.x < |cycleMap[c.y]|
  {
    StepKeepsWalk(track, visited, c, width, height);
    PutMarks(cycleMap, width, height, visited, c, true);
  }

  /** One iteration of the walk loop: choice k picks a neighbour of the current cell;
      a move off the grid or back to the previous cell is skipped, any other move is
      appended to the track, added to the visited set and set in the map. */
  method Move(cycleMap: seq<seq<bool>>, track: seq<Cell>, visited: set<Cell>, start: Cell,
              width: nat, height: nat, choices: seq<nat>, k: nat)
    returns (cycleMap': seq<seq<bool>>, track': seq<Cell>, visited': set<Cell>)
    requires WalkState(cycleMap, track, visited, start, width, height)
    requires VisitedNeighbours(Last(track), visited) < 2 && k < |choices|
    ensures WalkState(cycleMap', track', visited', start, width, height)
    ensures Walk(width, height, track', visited', choices[k + 1..]) == Walk(width, height, track, visited, choices[k..])
  {
    cycleMap', track', visited' := cycleMap, track, visited;
    WalkStep(width, height, track, visited, choices, k);
    var prev := Last(track);
    var c := Neighs(prev.x, prev.y)[choices[k] % 4];
    if c.x < 0 || c.y < 0 || c.x >= width || c.y >= height || (|track| > 1 && c == track[|track| - 2]) {
      return;
    }
    StepState(cycleMap, track, visited, start, width, height, c);
    track' := track + [c];
    visited' := visited + {c};
    cycleMap' := Put(cycleMap, c, true);
  }

  /** The walk phase of the generator: mark the start cell, then step while the current
      cell has fewer than two visited neighbours. Before pruning, the map marks exactly
      the visited cells, which are exactly the cells of the track. */
  method RandomWalk(width: nat, height: nat, startX: nat, startY: nat, choices: seq<nat>)
    returns (cycleMap: seq<seq<bool>>, track: seq<Cell>, visited: set<Cell>, closed: bool)
    requires startX < width && startY < height
    ensures (track, closed) == Walk(width, height, [Cell(startX, startY)], {Cell(startX, startY)}, choices)
    ensures IsWalk(track, width, height) && track[0] == Cell(startX, startY)
    ensures visited == Elems(track)
    ensures IsGrid(cycleMap, width, height) && MarksExactly(cycleMap, width, height, visited)
    ensures closed <==> VisitedNeighbours(Last(track), visited) >= 2
  {
    var start := Cell(startX, startY);
    cycleMap := Fill(width, height, false);
    track := [start];
    visited := {start};
    PutMarks(cycleMap, width, height, {}, start, true);
    cycleMap := Put(cycleMap, start, true);
    var k := 0;

    while VisitedNeighbours(Last(track), visited) < 2 && k < |choices|
      decreases |choices| - k
      invariant 0 <= k <= |choices|
      invariant WalkState(cycleMap, track, visited, start, width, height)
      invariant Walk(width, height, track, visited, choices[k..]) == Walk(width, height, [start], {start}, choices)
    {
      cycleMap, track, visited := Move(cycleMap, track, visited, start, width, height, choices, k);
      k := k + 1;
    }
    closed := VisitedNeighbours(Last(track), visited) >= 2;
    WalkStops(width, height, track, visited, choices, k);
  }

  /** The generator: the walk, then (once it has closed) the pruning pass. The
      out-parameters beyond the map are the walked track and whether it closed before
      the choices ran out. When it closed, the map marks exactly the kept loop, a
      closed chordless track; otherwise it marks the whole walk. */
  method GenCycle(width: nat, height: nat, startX: nat, startY: nat, choices: seq<nat>)
    returns (cycleMap: seq<seq<bool>>, track: seq<Cell>, closed: bool)
    requires startX < width && startY < height
    ensures (track, closed) == Walk(width, height, [Cell(startX, startY)], {Cell(startX, startY)}, choices)
    ensures IsGrid(cycleMap, width, height)
    ensures IsWalk(track, width, height) && track[0] == Cell(startX, startY)
    ensures closed ==> ValidCycle(track[PruneStart(track, 4)..], width, height)
    ensures closed ==> Chordless(track[PruneStart(track, 4)..])
    ensures closed ==> MarksExactly(cycleMap, width, height, Elems(track[PruneStart(track, 4)..]))
    ensures !closed ==> MarksExactly(cycleMap, width, height, Elems(track))
  {
    var visited;
    cycleMap, track, visited, closed := RandomWalk(width, height, startX, startY, choices);
    if !closed {
      return;
    }
    CountClosed(track, visited);
    KeptLoopIsCycle(track, width, height);
    cycleMap := PruneTail(cycleMap, track, visited, width, height);
  }

  /** The pruning pass: each neighbour of the current cell that is visited and is not
      one of the last two cells clears every track cell before its own position. The
      map, marking the whole track before, then marks exactly the kept loop. */
  method PruneTail(cycleMap: seq<seq<bool>>, track: seq<Cell>, visited: set<Cell>, width: nat, height: nat)
    returns (pruned: seq<seq<bool>>)
    requires IsWalk(track, width, height)
    requires visited == Elems(track)
    requires IsGrid(cycleMap, width, height) && MarksExactly(cycleMap, width, height, Elems(track))
    ensures IsGrid(pruned, width, height)
    ensures MarksExactly(pruned, width, height, Elems(track[PruneStart(track, 4)..]))
  {
    pruned := cycleMap;
    var last := Last(track);
    var ns := Neighs(last.x, last.y);
    var i := 0;
    assert track[0..] == track;
    while i < 4
      invariant 0 <= i <= 4
      invariant IsGrid(pruned, width, height)
      invariant MarksExactly(pruned, width, height, Elems(track[PruneStart(track, i)..]))
    {
      var c := ns[i];
      assert (c in visited && c !in LastTwo(track)) == Prunes(track, i);
      if c in visited && c !in LastTwo(track) {
        var index := IndexOf(track, c);
        pruned := ClearBefore(pruned, track, width, height, PruneStart(track, i), index);
        assert Max(PruneStart(track, i), index) == PruneStart(track, i + 1);
      } else {
        assert PruneStart(track, i) == PruneStart(track, i + 1);
      }
      i := i + 1;
    }
  }

  /** Clears the track cells before position index: a map marking the track from lo
      on then marks it from the larger of lo and index on. */
  method ClearBefore(g: seq<seq<bool>>, track: seq<Cell>, width: nat, height: nat, lo: nat, index: nat)
    returns (cleared: seq<seq<bool>>)
    requires lo <= |track| && index <= |track|
    requires forall i :: 0 <= i < |track| ==> InBounds(track[i], width, height)
    requires forall i, j :: 0 <= i < j < |track| ==> track[i] != track[j]
    requires IsGrid(g, width, height) && MarksExactly(g, width, height, Elems(track[lo..]))
    ensures IsGrid(cleared, width, height)
    ensures MarksExactly(cleared, width, height, Elems(track[Max(lo, index)..]))
  {
    cleared := g;
    var r := 0;
    while r < index
      invariant 0 <= r <= index
      invariant IsGrid(cleared, width, height)
      invariant MarksExactly(cleared, width, height, Elems(track[Max(lo, r)..]))
    {
      var rev := track[r];
      if r >= lo {
        ElemsDrop(track, r);
      }
      assert rev !in Elems(track[Max(lo, r + 1)..]);
      PutMarks(cleared, width, height, Elems(track[Max(lo, r)..]), rev, false);
      cleared := Put(cleared, rev, false);
      r := r + 1;
    }
  }
}
