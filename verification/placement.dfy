/** Object placement: a bounded rejection sampler that scatters up to n objects over
    the track's tiles, at most fifty attempts per object, keeping a candidate only when
    its squared distance to every object placed before exceeds the square of the
    minimum distance. World coordinates are reals; the random source is replaced by a
    stream of draws, one per attempt. */
module Placement {
  import opened Grid

  /** World units per tile. */
  const TileSize: real := 0.585

  /** Attempts per object before it is dropped. */
  const MaxTries: nat := 50

  datatype Point = Point(x: real, y: real)

  /** The random values of one attempt: two uniform samples for the offsets within
      the tile, then the index of the chosen tile. */
  datatype Draw = Draw(xr: real, yr: real, pick: nat)

  /** The offset samples lie in [0, 1), as a uniform sample does. */
  predicate ValidDraw(d: Draw) {
    0.0 <= d.xr < 1.0 && 0.0 <= d.yr < 1.0
  }

  /** The square that tile t covers in world units. */
  predicate InTile(p: Point, t: Cell) {
    t.x as real * TileSize <= p.x < (t.x + 1) as real * TileSize &&
    t.y as real * TileSize <= p.y < (t.y + 1) as real * TileSize
  }

  /** The candidate of one attempt: the chosen tile's corner plus the scaled offsets.
      It lies in the chosen tile's square. */
  function Candidate(d: Draw, tiles: seq<Cell>): (p: Point)
    requires |tiles| > 0 && ValidDraw(d)
    ensures InTile(p, tiles[d.pick % |tiles|])
  {
    var t := tiles[d.pick % |tiles|];
    Point(t.x as real * TileSize + d.xr * TileSize, t.y as real * TileSize + d.yr * TileSize)
  }

  function Sq(d: real): real { d * d }

  /** The squared distance of two points, as the acceptance test computes it. */
  function DistSq(p: Point, q: Point): real {
    Sq(p.x - q.x) + Sq(p.y - q.y)
  }

  /** The acceptance test: p is farther than the minimum distance from every object
      placed so far. */
  predicate FarFromAll(p: Point, ducks: seq<Point>, minDistSq: real) {
    forall i :: 0 <= i < |ducks| ==> DistSq(p, ducks[i]) > minDistSq
  }

  /** Every draw of the stream is a valid one. */
  predicate AllValid(draws: seq<Draw>) {
    forall k :: 0 <= k < |draws| ==> ValidDraw(draws[k])
  }

  /** The attempts for one object: the candidates of draws[k..end] in turn, the first
      one far enough from the objects placed so far is accepted. Yields the accepted
      object (none or one) and the position in the stream after the last draw used. */
  function Attempt(ducks: seq<Point>, minDistSq: real, tiles: seq<Cell>, draws: seq<Draw>, k: nat, end: nat): (r: (seq<Point>, nat))
    requires |tiles| > 0 && AllValid(draws) && k <= end <= |draws|
    ensures k <= r.1 <= end && |r.0| <= 1
    decreases end - k
  {
    if k == end then ([], k)
    else
      var p := Candidate(draws[k], tiles);
      if FarFromAll(p, ducks, minDistSq) then ([p], k + 1)
      else Attempt(ducks, minDistSq, tiles, draws, k + 1, end)
  }

  /** The sampler from stream position k on, with `ducks` already placed: n more
      objects, each given its attempts in turn. */
  function PlaceFrom(n: nat, ducks: seq<Point>, minDistSq: real, tiles: seq<Cell>, draws: seq<Draw>, k: nat): (r: seq<Point>)
    requires n > 0 ==> |tiles| > 0
    requires AllValid(draws) && k + MaxTries * n <= |draws|
    ensures ducks <= r && |r| <= |ducks| + n
    decreases n
  {
    if n == 0 then ducks
    else
      var a := Attempt(ducks, minDistSq, tiles, draws, k, k + MaxTries);
      PlaceFrom(n - 1, ducks + a.0, minDistSq, tiles, draws, a.1)
  }

  /** What object_placement returns for n objects on the given draws. */
  function Place(n: nat, minDistSq: real, tiles: seq<Cell>, draws: seq<Draw>): seq<Point>
    requires n > 0 ==> |tiles| > 0
    requires AllValid(draws) && |draws| >= MaxTries * n
  {
    PlaceFrom(n, [], minDistSq, tiles, draws, 0)
  }

  /** An object is dropped exactly when every one of its attempts is rejected. */
  lemma {:induction false} AttemptDrops(ducks: seq<Point>, minDistSq: real, tiles: seq<Cell>, draws: seq<Draw>, k: nat, end: nat)
    requires |tiles| > 0 && AllValid(draws) && k <= end <= |draws|
    ensures Attempt(ducks, minDistSq, tiles, draws, k, end).0 == [] <==>
            forall j :: k <= j < end ==> !FarFromAll(Candidate(draws[j], tiles), ducks, minDistSq)
    ensures Attempt(ducks, minDistSq, tiles, draws, k, end).0 == [] ==>
            Attempt(ducks, minDistSq, tiles, draws, k, end).1 == end
    decreases end - k
  {
    if k < end && !FarFromAll(Candidate(draws[k], tiles), ducks, minDistSq) {
      AttemptDrops(ducks, minDistSq, tiles, draws, k + 1, end);
    }
  }

  /** An accepted object is the candidate of the last draw used, it is far enough from
      every object placed so far, and every earlier candidate of its attempts was not. */
  lemma {:induction false} AttemptAccepts(ducks: seq<Point>, minDistSq: real, tiles: seq<Cell>, draws: seq<Draw>, k: nat, end: nat)
    requires |tiles| > 0 && AllValid(draws) && k <= end <= |draws|
    ensures var a := Attempt(ducks, minDistSq, tiles, draws, k, end);
            a.0 != [] ==>
              k < a.1 && a.0 == [Candidate(draws[a.1 - 1], tiles)] &&
              FarFromAll(Candidate(draws[a.1 - 1], tiles), ducks, minDistSq) &&
              forall j :: k <= j < a.1 - 1 ==> !FarFromAll(Candidate(draws[j], tiles), ducks, minDistSq)
    decreases end - k
  {
    if k < end && !FarFromAll(Candidate(draws[k], tiles), ducks, minDistSq) {
      AttemptAccepts(ducks, minDistSq, tiles, draws, k + 1, end);
    }
  }

  /** Each object placed lies in one of the tiles. */
  ghost predicate OnTiles(ducks: seq<Point>, tiles: seq<Cell>) {
    forall i :: 0 <= i < |ducks| ==> exists j :: 0 <= j < |tiles| && InTile(ducks[i], tiles[j])
  }

  /** Each object placed is the candidate of one of the draws. */
  ghost predicate FromDraws(ducks: seq<Point>, tiles: seq<Cell>, draws: seq<Draw>) {
    forall i :: 0 <= i < |ducks| ==>
      exists k :: 0 <= k < |draws| && |tiles| > 0 && ValidDraw(draws[k]) && ducks[i] == Candidate(draws[k], tiles)
  }

  /** Every object is farther than the minimum distance from each object placed
      before it. */
  ghost predicate Separated(ducks: seq<Point>, minDistSq: real) {
    forall i, j :: 0 <= i < j < |ducks| ==> DistSq(ducks[j], ducks[i]) > minDistSq
  }

  /** Appending the candidate of a draw that is far enough from every object placed
      so far keeps the objects on tiles, drawn and separated. */
  lemma AppendKeeps(ducks: seq<Point>, minDistSq: real, tiles: seq<Cell>, draws: seq<Draw>, j: nat)
    requires |tiles| > 0 && AllValid(draws) && j < |draws|
    requires OnTiles(ducks, tiles) && FromDraws(ducks, tiles, draws) && Separated(ducks, minDistSq)
    requires FarFromAll(Candidate(draws[j], tiles), ducks, minDistSq)
    ensures var next := ducks + [Candidate(draws[j], tiles)];
            OnTiles(next, tiles) && FromDraws(next, tiles, draws) && Separated(next, minDistSq)
  {
    var p := Candidate(draws[j], tiles);
    var next := ducks + [p];
    assert InTile(p, tiles[draws[j].pick % |tiles|]);
    assert forall i :: 0 <= i < |ducks| ==> next[i] == ducks[i];
    assert next[|ducks|] == p;
  }

  /** The attempts for one object keep the objects on tiles, drawn and separated. */
  lemma AttemptKeeps(ducks: seq<Point>, minDistSq: real, tiles: seq<Cell>, draws: seq<Draw>, k: nat, end: nat)
    requires |tiles| > 0 && AllValid(draws) && k <= end <= |draws|
    requires OnTiles(ducks, tiles) && FromDraws(ducks, tiles, draws) && Separated(ducks, minDistSq)
    ensures var next := ducks + Attempt(ducks, minDistSq, tiles, draws, k, end).0;
            OnTiles(next, tiles) && FromDraws(next, tiles, draws) && Separated(next, minDistSq)
  {
    var a := Attempt(ducks, minDistSq, tiles, draws, k, end);
    AttemptAccepts(ducks, minDistSq, tiles, draws, k, end);
    if a.0 != [] {
      var j := a.1 - 1;
      AppendKeeps(ducks, minDistSq, tiles, draws, j);
      assert ducks + a.0 == ducks + [Candidate(draws[j], tiles)];
    } else {
      assert ducks + a.0 == ducks;
    }
  }

  /** Placing more objects keeps the objects placed before, and each new object is
      a candidate of a draw, far enough from every earlier object. */
  lemma {:induction false} PlaceFromProps(n: nat, ducks: seq<Point>, minDistSq: real, tiles: seq<Cell>, draws: seq<Draw>, k: nat)
    requires n > 0 ==> |tiles| > 0
    requires AllValid(draws) && k + MaxTries * n <= |draws|
    requires OnTiles(ducks, tiles) && FromDraws(ducks, tiles, draws) && Separated(ducks, minDistSq)
    ensures var r := PlaceFrom(n, ducks, minDistSq, tiles, draws, k);
            OnTiles(r, tiles) && FromDraws(r, tiles, draws) && Separated(r, minDistSq)
    decreases n
  {
    if n > 0 {
      var a := Attempt(ducks, minDistSq, tiles, draws, k, k + MaxTries);
      AttemptKeeps(ducks, minDistSq, tiles, draws, k, k + MaxTries);
      PlaceFromProps(n - 1, ducks + a.0, minDistSq, tiles, draws, a.1);
    }
  }

  /** The first object is always placed: against no earlier object every candidate is
      far enough, so the first draw is accepted. */
  lemma PlaceFirst(n: nat, minDistSq: real, tiles: seq<Cell>, draws: seq<Draw>)
    requires n > 0 && |tiles| > 0
    requires AllValid(draws) && |draws| >= MaxTries * n
    ensures |Place(n, minDistSq, tiles, draws)| > 0
    ensures Place(n, minDistSq, tiles, draws)[0] == Candidate(draws[0], tiles)
  {
    var a := Attempt([], minDistSq, tiles, draws, 0, MaxTries);
    assert a.0 == [Candidate(draws[0], tiles)];
    assert [] + a.0 <= PlaceFrom(n - 1, [] + a.0, minDistSq, tiles, draws, a.1);
  }

  /** What the sampler promises: at most n objects, each the candidate of a draw and
      so on a tile, each farther than the minimum distance from every earlier one, and
      with n > 0 the first object placed from the first draw. */
  lemma PlaceProps(n: nat, minDistSq: real, tiles: seq<Cell>, draws: seq<Draw>)
    requires n > 0 ==> |tiles| > 0
    requires AllValid(draws) && |draws| >= MaxTries * n
    ensures var r := Place(n, minDistSq, tiles, draws);
            |r| <= n && OnTiles(r, tiles) && FromDraws(r, tiles, draws) && Separated(r, minDistSq) &&
            (n > 0 ==> |r| > 0 && r[0] == Candidate(draws[0], tiles))
  {
    PlaceFromProps(n, [], minDistSq, tiles, draws, 0);
    if n > 0 {
      PlaceFirst(n, minDistSq, tiles, draws);
    }
  }

  /** Two coordinates on a grid of at most twelve tiles differ by less than
      12 * 0.585 = 7.02, so their difference squares to less than 7.02 * 7.02. */
  lemma CoordClose(a: real, b: real)
    requires 0.0 <= a < 7.02 && 0.0 <= b < 7.02
    ensures Sq(a - b) < 49.2804
  {
    var d := a - b;
    if d >= 0.0 {
      assert d * d <= d * 7.02;
    } else {
      assert d * d <= -d * 7.02;
    }
  }

  /** Two points on the tiles of a grid of at most 12 x 12 tiles are less than ten
      world units apart: the grid's diagonal is 12 * 0.585 * sqrt(2), about 9.93. */
  lemma PointsClose(p: Point, q: Point, s: Cell, t: Cell, width: nat, height: nat)
    requires width <= 12 && height <= 12
    requires InBounds(s, width, height) && InBounds(t, width, height)
    requires InTile(p, s) && InTile(q, t)
    ensures DistSq(p, q) < 100.0
  {
    assert 0.0 <= p.x < 7.02 && 0.0 <= q.x < 7.02 by {
      assert (s.x + 1) as real <= 12.0 && (t.x + 1) as real <= 12.0;
    }
    assert 0.0 <= p.y < 7.02 && 0.0 <= q.y < 7.02 by {
      assert (s.y + 1) as real <= 12.0 && (t.y + 1) as real <= 12.0;
    }
    CoordClose(p.x, q.x);
    CoordClose(p.y, q.y);
  }

  /** The map generator asks for five objects at least ten units apart on the loop's
      tiles. On a grid of at most 12 x 12 tiles (the default is 5 x 5) every placement
      after the first is rejected, so exactly one object is placed. */
  lemma DefaultCallPlacesOne(tiles: seq<Cell>, width: nat, height: nat, draws: seq<Draw>)
    requires width <= 12 && height <= 12
    requires |tiles| > 0 && forall i :: 0 <= i < |tiles| ==> InBounds(tiles[i], width, height)
    requires AllValid(draws) && |draws| >= MaxTries * 5
    ensures |Place(5, 10.0 * 10.0, tiles, draws)| == 1
  {
    var r := Place(5, 10.0 * 10.0, tiles, draws);
    PlaceProps(5, 10.0 * 10.0, tiles, draws);
    if |r| >= 2 {
      var i :| 0 <= i < |tiles| && InTile(r[0], tiles[i]);
      var j :| 0 <= j < |tiles| && InTile(r[1], tiles[j]);
      PointsClose(r[1], r[0], tiles[j], tiles[i], width, height);
    }
  }

  /** The sampler after one more object: its attempts, as PlaceOne makes them, lead to
      the sampler for the remaining objects. */
  lemma PlaceFromStep(m: nat, ducks: seq<Point>, placed: seq<Point>, minDistSq: real, tiles: seq<Cell>,
                      draws: seq<Draw>, k: nat, next: nat)
    requires m > 0 && |tiles| > 0
    requires AllValid(draws) && k + MaxTries * m <= |draws|
    requires ducks <= placed && (placed[|ducks|..], next) == Attempt(ducks, minDistSq, tiles, draws, k, k + MaxTries)
    ensures next + MaxTries * (m - 1) <= |draws|
    ensures PlaceFrom(m, ducks, minDistSq, tiles, draws, k) == PlaceFrom(m - 1, placed, minDistSq, tiles, draws, next)
  {
    assert placed == ducks + placed[|ducks|..];
  }

  /** The attempts for one object: up to fifty candidates from the stream position k
      on; the first one far enough from every object placed so far is appended. */
  method PlaceOne(ducks: seq<Point>, minDistSq: real, tiles: seq<Cell>, draws: seq<Draw>, k: nat)
    returns (placed: seq<Point>, next: nat)
    requires |tiles| > 0 && AllValid(draws) && k + MaxTries <= |draws|
    ensures ducks <= placed
    ensures (placed[|ducks|..], next) == Attempt(ducks, minDistSq, tiles, draws, k, k + MaxTries)
  {
    placed := ducks;
    next := k;
    var tries := 0;
    var done := false;
    while tries < MaxTries && !done
      invariant 0 <= tries <= MaxTries
      invariant next == k + tries
      invariant !done ==> placed == ducks
      invariant !done ==> Attempt(ducks, minDistSq, tiles, draws, next, k + MaxTries) == Attempt(ducks, minDistSq, tiles, draws, k, k + MaxTries)
      invariant done ==> ducks <= placed && (placed[|ducks|..], next) == Attempt(ducks, minDistSq, tiles, draws, k, k + MaxTries)
    {
      var p := Candidate(draws[next], tiles);
      if FarFromAll(p, placed, minDistSq) {
        placed := placed + [p];
        done := true;
        assert placed[|ducks|..] == [p];
      }
      next := next + 1;
      tries := tries + 1;
    }
    if !done {
      assert placed[|ducks|..] == [];
    }
  }

  /** The sampler: for each object, up to fifty attempts from the draw stream, the
      first candidate far enough from every object placed so far is kept. The result is
      Place; at most n objects, each the candidate of a draw and so on a tile, pairwise
      farther apart than minDist; the first object is always placed, from the first draw. */
  method ObjectPlacement(n: nat, minDist: real, tiles: seq<Cell>, draws: seq<Draw>) returns (ducks: seq<Point>)
    requires n > 0 ==> |tiles| > 0
    requires |draws| >= MaxTries * n
    requires AllValid(draws)
    ensures ducks == Place(n, Sq(minDist), tiles, draws)
    ensures |ducks| <= n
    ensures OnTiles(ducks, tiles)
    ensures FromDraws(ducks, tiles, draws)
    ensures Separated(ducks, Sq(minDist))
    ensures n > 0 ==> |ducks| > 0 && ducks[0] == Candidate(draws[0], tiles)
  {
    ducks := [];
    var minDistSq := Sq(minDist);
    var k: nat := 0;
    var left := n;
    while left > 0
      invariant k + MaxTries * left <= |draws|
      invariant PlaceFrom(left, ducks, minDistSq, tiles, draws, k) == Place(n, minDistSq, tiles, draws)
    {
      ghost var before, k0 := ducks, k;
      ducks, k := PlaceOne(ducks, minDistSq, tiles, draws, k);
      PlaceFromStep(left, before, ducks, minDistSq, tiles, draws, k0, k);
      left := left - 1;
    }
    PlaceProps(n, minDistSq, tiles, draws);
  }
}
