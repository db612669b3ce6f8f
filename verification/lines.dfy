/**
 * `ConwayGrid::set_line` in src/main.rs: painting cells along a mouse-drag path.
 *
 * The points of the path come from a Bresenham rasteriser in another crate;
 * here they are a parameter, constrained only to start at the clamped start
 * point and end at the requested end point.
 */
module Lines {
  import opened Wrappers
  import opened Particles
  import opened Grids

  /** A grid coordinate, signed as the caller's `isize` pair. */
  type Point = (int, int)

  /** `v.max(lo).min(hi)`. */
  function Clamp(v: int, lo: int, hi: int): (r: int)
    requires lo <= hi
    ensures lo <= r <= hi
    ensures lo <= v <= hi ==> r == v
    ensures v < lo ==> r == lo
    ensures v > hi ==> r == hi
  {
    if v < lo then lo else if v > hi then hi else v
  }

  /**
   * The start point after clamping into [0, width] x [0, height]. The upper
   * bound is the dimension itself, one past the last column or row.
   */
  function ClampStart(g: Grid, x0: int, y0: int): (s: Point)
    ensures 0 <= s.0 <= g.width && 0 <= s.1 <= g.height
    ensures g.Valid() ==> (InGrid(g.width, g.height, s) <==> x0 < g.width && y0 < g.height)
  {
    (Clamp(x0, 0, g.width), Clamp(y0, 0, g.height))
  }

  /** The point addresses a cell of a `width` x `height` grid. */
  predicate InGrid(width: nat, height: nat, p: Point) {
    0 <= p.0 < width && 0 <= p.1 < height
  }

  /** The length of the longest prefix of `path` that stays in the grid. */
  function InGridPrefix(width: nat, height: nat, path: seq<Point>): (k: nat)
    ensures k <= |path|
    ensures forall j :: 0 <= j < k ==> InGrid(width, height, path[j])
    ensures k < |path| ==> !InGrid(width, height, path[k])
    decreases |path|
  {
    if |path| == 0 || !InGrid(width, height, path[0]) then 0
    else
      var k := InGridPrefix(width, height, path[1..]);
      assert forall j :: 1 <= j < k + 1 ==> path[j] == path[1..][j - 1];
      1 + k
  }

  /** The cells that the in-grid prefix of `path` addresses. */
  ghost function Reached(g: Grid, path: seq<Point>): set<int> {
    set j | 0 <= j < InGridPrefix(g.width, g.height, path) :: path[j].0 + path[j].1 * g.width
  }

  lemma ReachedCons(g: Grid, path: seq<Point>)
    requires |path| > 0 && InGrid(g.width, g.height, path[0])
    ensures Reached(g, path) == {path[0].0 + path[0].1 * g.width} + Reached(g, path[1..])
  {
    var k := InGridPrefix(g.width, g.height, path[1..]);
    assert InGridPrefix(g.width, g.height, path) == k + 1;
    forall j | 0 <= j < k
      ensures path[1..][j] == path[j + 1]
    {
    }
    var lhs, rhs := Reached(g, path), {path[0].0 + path[0].1 * g.width} + Reached(g, path[1..]);
    forall i | i in lhs ensures i in rhs {
      var j :| 0 <= j < k + 1 && i == path[j].0 + path[j].1 * g.width;
      if j > 0 {
        assert path[j] == path[1..][j - 1];
      }
    }
    forall i | i in rhs ensures i in lhs {
      if i != path[0].0 + path[0].1 * g.width {
        var j :| 0 <= j < k && i == path[1..][j].0 + path[1..][j].1 * g.width;
        assert path[1..][j] == path[j + 1];
      }
    }
  }

  /**
   * The loop of `set_line`: `set_active` on each point's cell in turn, and a
   * `break` at the first point outside the grid. The cells the in-grid prefix
   * reaches take the requested activity (at full heat when activating, one
   * step cooler or more when deactivating); no other cell changes.
   */
  function Walk(g: Grid, path: seq<Point>, active: bool): (r: Grid)
    requires g.Valid()
    ensures r.Valid() && r.width == g.width && r.height == g.height
    ensures forall i :: 0 <= i < |g.particles| && i !in Reached(g, path) ==> r.particles[i] == g.particles[i]
    ensures forall i :: 0 <= i < |g.particles| && i in Reached(g, path) ==>
              && r.particles[i].active == active
              && r.particles[i].alreadyUpdated == g.particles[i].alreadyUpdated
              && (active ==> r.particles[i].heat == MaxHeat)
              && (!active ==> r.particles[i].heat <= NextState(g.particles[i], false).heat)
    decreases |path|
  {
    if |path| == 0 then g
    else match GridIdx(g, path[0].0, path[0].1)
      case None => g
      case Some(i) =>
        ReachedCons(g, path);
        Walk(g.(particles := SetActive(g.particles, i, active)), path[1..], active)
  }

  /**
   * `set_line`: the start is clamped, the rasteriser's points from there to the
   * end are walked. Guards and the heat coupling survive the painting.
   */
  function SetLine(g: Grid, x0: int, y0: int, x1: int, y1: int, active: bool, line: seq<Point>): (r: Grid)
    requires g.Valid()
    requires |line| > 0 && line[0] == ClampStart(g, x0, y0) && line[|line| - 1] == (x1, y1)
    ensures r.Valid() && r.width == g.width && r.height == g.height
    ensures forall i :: 0 <= i < |g.particles| && i !in Reached(g, line) ==> r.particles[i] == g.particles[i]
    ensures forall i :: 0 <= i < |g.particles| && i in Reached(g, line) ==>
              && r.particles[i].active == active
              && r.particles[i].alreadyUpdated == g.particles[i].alreadyUpdated
              && (active ==> r.particles[i].heat == MaxHeat)
              && (!active ==> r.particles[i].heat <= NextState(g.particles[i], false).heat)
    ensures DistinctPrefix(g, line) ==>
              forall i :: 0 <= i < |g.particles| && i in Reached(g, line) ==> r.particles[i] == NextState(g.particles[i], active)
    ensures GuardsClear(g.particles) ==> GuardsClear(r.particles)
    ensures AllCoupled(g.particles) ==> AllCoupled(r.particles)
  {
    WalkExactWhenDistinct(g, line, active);
    Walk(g, line, active)
  }

  /**
   * Nothing after the first point outside the grid is painted, even where the
   * path comes back into the grid.
   */
  lemma {:induction false} WalkStopsAtExit(g: Grid, path: seq<Point>, active: bool, k: nat)
    requires g.Valid() && k < |path| && !InGrid(g.width, g.height, path[k])
    ensures Walk(g, path, active) == Walk(g, path[..k], active)
    decreases k
  {
    if k > 0 && InGrid(g.width, g.height, path[0]) {
      var i := GridIdx(g, path[0].0, path[0].1).value;
      var g' := g.(particles := SetActive(g.particles, i, active));
      assert path[1..][k - 1] == path[k];
      WalkStopsAtExit(g', path[1..], active, k - 1);
      assert path[..k][1..] == path[1..][..k - 1];
    }
  }

  /**
   * The clamp's upper bound is one past the last cell: a start on or beyond
   * the right or bottom edge is clamped to a point outside the grid, and the
   * whole line is dropped.
   */
  lemma SetLineFromFarEdge(g: Grid, x0: int, y0: int, x1: int, y1: int, active: bool, line: seq<Point>)
    requires g.Valid()
    requires |line| > 0 && line[0] == ClampStart(g, x0, y0) && line[|line| - 1] == (x1, y1)
    requires x0 >= g.width || y0 >= g.height
    ensures SetLine(g, x0, y0, x1, y1, active, line) == g
  {
  }

  /** A start inside the grid, or clamped into it from the left or top, is painted. */
  lemma SetLinePaintsStart(g: Grid, x0: int, y0: int, x1: int, y1: int, active: bool, line: seq<Point>)
    requires g.Valid()
    requires |line| > 0 && line[0] == ClampStart(g, x0, y0) && line[|line| - 1] == (x1, y1)
    requires x0 < g.width && y0 < g.height
    ensures var s := ClampStart(g, x0, y0);
            SetLine(g, x0, y0, x1, y1, active, line).particles[s.0 + s.1 * g.width].active == active
  {
    var s := ClampStart(g, x0, y0);
    assert InGridPrefix(g.width, g.height, line) > 0;
    assert s.0 + s.1 * g.width in Reached(g, line);
  }

  /** The in-grid prefix of `path` visits no point twice. */
  ghost predicate DistinctPrefix(g: Grid, path: seq<Point>) {
    forall a, b :: 0 <= a < b < InGridPrefix(g.width, g.height, path) ==> path[a] != path[b]
  }

  /** Dropping the first point of a path keeps its in-grid prefix distinct. */
  lemma DistinctTail(g: Grid, path: seq<Point>)
    requires |path| > 0 && InGrid(g.width, g.height, path[0]) && DistinctPrefix(g, path)
    ensures DistinctPrefix(g, path[1..])
  {
    var rest := path[1..];
    var k := InGridPrefix(g.width, g.height, rest);
    assert InGridPrefix(g.width, g.height, path) == k + 1;
    forall a, b | 0 <= a < b < k
      ensures rest[a] != rest[b]
    {
      assert rest[a] == path[a + 1] && rest[b] == path[b + 1];
    }
  }

  /** With a distinct prefix, the first cell is not reached again later. */
  lemma FirstNotReachedAgain(g: Grid, path: seq<Point>)
    requires g.Valid() && |path| > 0 && InGrid(g.width, g.height, path[0]) && DistinctPrefix(g, path)
    ensures path[0].0 + path[0].1 * g.width !in Reached(g, path[1..])
  {
    var rest := path[1..];
    var k := InGridPrefix(g.width, g.height, rest);
    assert InGridPrefix(g.width, g.height, path) == k + 1;
    var i := path[0].0 + path[0].1 * g.width;
    if i in Reached(g, rest) {
      var j :| 0 <= j < k && i == rest[j].0 + rest[j].1 * g.width;
      GridIdxBijective(g, rest[j].0, rest[j].1, i);
      GridIdxBijective(g, path[0].0, path[0].1, i);
      assert false;
    }
  }

  /**
   * When the in-grid points of the path are distinct, as a rasterised line's
   * are, each reached cell is exactly its `next_state`.
   */
  lemma {:induction false} WalkDistinct(g: Grid, path: seq<Point>, active: bool)
    requires g.Valid() && DistinctPrefix(g, path)
    ensures forall i :: 0 <= i < |g.particles| && i in Reached(g, path) ==>
              Walk(g, path, active).particles[i] == NextState(g.particles[i], active)
    decreases |path|
  {
    if |path| > 0 && InGrid(g.width, g.height, path[0]) {
      var i := GridIdx(g, path[0].0, path[0].1).value;
      var g' := g.(particles := SetActive(g.particles, i, active));
      DistinctTail(g, path);
      WalkDistinct(g', path[1..], active);
      ReachedCons(g, path);
      FirstNotReachedAgain(g, path);
    }
  }

  /** The exact result of `WalkDistinct`, for any path whose in-grid prefix is distinct. */
  lemma WalkExactWhenDistinct(g: Grid, path: seq<Point>, active: bool)
    requires g.Valid()
    ensures DistinctPrefix(g, path) ==>
              forall i :: 0 <= i < |g.particles| && i in Reached(g, path) ==>
                Walk(g, path, active).particles[i] == NextState(g.particles[i], active)
  {
    if DistinctPrefix(g, path) {
      WalkDistinct(g, path, active);
    }
  }
}
