/**
 * `ConwayGrid::update` in src/main.rs: one tick of the falling-sand rule.
 *
 * The source scans the cells in row-major order, top to bottom, and moves an
 * active particle one row down when the cell below is inactive; a guard on
 * the receiving cell stops the particle from being moved again later in the
 * same scan, and every guard is cleared when the scan ends.
 *
 * `Scan` is that sequential pass cell by cell; `Fall` is the simultaneous rule
 * "a particle falls iff the cell below was empty when the tick began". The
 * two agree whenever the tick starts with every guard clear (`TickIsFall`).
 */
module Gravity {
  import opened Particles
  import opened Grids

  // ---------------------------------------------------------------------------
  // The sequential scan, as the source performs it
  // ---------------------------------------------------------------------------

  /**
   * The body of the scan for cell `k`: the guarded move one row down. Only
   * cell `k` and the cell below it can change, no heat changes, and a change
   * is always a grain leaving `k` for an empty cell below it.
   */
  function Step(c: seq<Particle>, width: nat, k: nat): (r: seq<Particle>)
    requires k < |c|
    ensures |r| == |c|
    ensures forall j :: 0 <= j < |c| && j != k && j != k + width ==> r[j] == c[j]
    ensures forall j :: 0 <= j < |c| ==> r[j].heat == c[j].heat
    ensures r != c ==> && k + width < |c| && width > 0
                       && c[k].active && !c[k + width].active
                       && !r[k].active && r[k + width].active && r[k + width].alreadyUpdated
  {
    if c[k].active && k + width < |c| && !c[k + width].alreadyUpdated && !c[k].alreadyUpdated then
      if !c[k + width].active then
        c[k + width := c[k + width].(active := true, alreadyUpdated := true)][k := c[k].(active := false)]
      else c
    else c
  }

  /** The state after the scan has visited cells 0 .. k-1. */
  function Scan(c: seq<Particle>, width: nat, k: nat): (r: seq<Particle>)
    requires width > 0 && k <= |c|
    ensures |r| == |c|
    ensures forall j :: k + width <= j < |c| ==> r[j] == c[j]
    decreases k
  {
    if k == 0 then c else Step(Scan(c, width, k - 1), width, k - 1)
  }

  /** Every guard lowered, nothing else touched: the second loop of `update`. */
  function ClearGuards(c: seq<Particle>): (r: seq<Particle>)
    ensures |r| == |c| && GuardsClear(r)
    ensures forall i :: 0 <= i < |c| ==> r[i].active == c[i].active && r[i].heat == c[i].heat
  {
    seq(|c|, i requires 0 <= i < |c| => c[i].(alreadyUpdated := false))
  }

  /**
   * One whole tick: the full scan followed by the guard reset. The cells keep
   * their number and their heat, every guard ends lowered, and no grain in the
   * bottom row leaves it.
   */
  function Tick(c: seq<Particle>, width: nat): (r: seq<Particle>)
    requires width > 0
    ensures |r| == |c| && GuardsClear(r)
    ensures forall i :: 0 <= i < |c| ==> r[i].heat == c[i].heat
    ensures forall i :: 0 <= i < |c| && i + width >= |c| && c[i].active ==> r[i].active
  {
    ScanKeepsHeatAndFloor(c, width, |c|);
    ClearGuards(Scan(c, width, |c|))
  }

  // ---------------------------------------------------------------------------
  // The simultaneous rule
  // ---------------------------------------------------------------------------

  /** Cell `i` holds a particle that has an empty cell directly below it. */
  predicate Falls(g: seq<Particle>, width: nat, i: int)
    requires 0 <= i < |g|
  {
    g[i].active && i + width < |g| && !g[i + width].active
  }

  /** Cell `j` receives the particle falling from the cell above it. */
  predicate FilledFromAbove(g: seq<Particle>, width: nat, j: int)
    requires 0 <= j < |g|
  {
    width <= j && Falls(g, width, j - width)
  }

  /** Whether cell `j` is active once every falling particle has fallen. */
  predicate Settled(g: seq<Particle>, width: nat, j: int)
    requires 0 <= j < |g|
  {
    (g[j].active && !Falls(g, width, j)) || FilledFromAbove(g, width, j)
  }

  /**
   * The reference tick: all particles with an empty cell below them fall one
   * row at once, judged on the state at the start of the tick.
   */
  function Fall(g: seq<Particle>, width: nat): (r: seq<Particle>)
    ensures |r| == |g|
  {
    seq(|g|, j requires 0 <= j < |g| => g[j].(active := Settled(g, width, j), alreadyUpdated := false))
  }

  // ---------------------------------------------------------------------------
  // The scan computes the simultaneous rule
  // ---------------------------------------------------------------------------

  /**
   * The state of the scan after `k` cells, described from the start state `g`:
   * visited cells hold their final activity, a cell at most one row past the
   * scan holds a particle that has just landed (and its guard), and the rest
   * are untouched.
   */
  ghost predicate ScanState(g: seq<Particle>, width: nat, k: nat, c: seq<Particle>) {
    && |c| == |g|
    && k <= |g|
    && forall j :: 0 <= j < |g| ==>
         && c[j].heat == g[j].heat
         && c[j].alreadyUpdated == (FilledFromAbove(g, width, j) && j < k + width)
         && c[j].active == (if j < k then Settled(g, width, j)
                            else g[j].active || (FilledFromAbove(g, width, j) && j < k + width))
  }

  lemma StepKeepsScanState(g: seq<Particle>, width: nat, k: nat, c: seq<Particle>)
    requires width > 0 && k < |g| && ScanState(g, width, k, c)
    ensures ScanState(g, width, k + 1, Step(c, width, k))
  {
    var c' := Step(c, width, k);
    if Falls(g, width, k) {
      assert !FilledFromAbove(g, width, k);
      assert c' == c[k + width := c[k + width].(active := true, alreadyUpdated := true)][k := c[k].(active := false)];
    } else {
      if k + width < |g| && c[k].active && !c[k].alreadyUpdated {
        assert g[k].active;
        assert c[k + width].active;
      }
      assert c' == c;
    }
    forall j | 0 <= j < |g|
      ensures c'[j].heat == g[j].heat
      ensures c'[j].alreadyUpdated == (FilledFromAbove(g, width, j) && j < k + 1 + width)
      ensures c'[j].active == (if j < k + 1 then Settled(g, width, j)
                              else g[j].active || (FilledFromAbove(g, width, j) && j < k + 1 + width))
    {
      if j == k + width {
        assert FilledFromAbove(g, width, j) == Falls(g, width, k);
      }
    }
  }

  lemma {:induction false} ScanFollowsState(g: seq<Particle>, width: nat, k: nat)
    requires width > 0 && k <= |g| && GuardsClear(g)
    ensures ScanState(g, width, k, Scan(g, width, k))
    decreases k
  {
    if k > 0 {
      ScanFollowsState(g, width, k - 1);
      StepKeepsScanState(g, width, k - 1, Scan(g, width, k - 1));
    }
  }

  /**
   * With every guard clear at the start, the in-place sequential scan gives the
   * same grid as the simultaneous rule.
   */
  lemma TickIsFall(g: seq<Particle>, width: nat)
    requires width > 0 && GuardsClear(g)
    ensures Tick(g, width) == Fall(g, width)
  {
    ScanFollowsState(g, width, |g|);
    var s := Scan(g, width, |g|);
    var t, f := Tick(g, width), Fall(g, width);
    forall j | 0 <= j < |g|
      ensures t[j] == f[j]
    {
      assert t[j].active == s[j].active == Settled(g, width, j);
    }
  }

  // ---------------------------------------------------------------------------
  // Per-particle consequences of the simultaneous rule
  // ---------------------------------------------------------------------------

  /**
   * A particle moves exactly when it has an empty cell below it: it vacates its
   * cell and lands one row down. Any cell that gains a particle gained it from
   * directly above (no particle falls two rows), and a cell that held a
   * particle at the start is empty at the end only because that particle fell
   * (a vacated cell is not refilled within the tick).
   */
  lemma FallMovesOneRow(g: seq<Particle>, width: nat, i: nat)
    requires width > 0 && i < |g|
    ensures var r := Fall(g, width);
            && (Falls(g, width, i) ==> !r[i].active && r[i + width].active)
            && (r[i].active && !g[i].active ==> width <= i && g[i - width].active && !r[i - width].active)
            && (g[i].active && !r[i].active ==> i + width < |g| && !g[i + width].active && r[i + width].active)
            && (g[i].active && i + width >= |g| ==> r[i].active)
  {
  }

  // ---------------------------------------------------------------------------
  // Facts of the sequential scan that hold whatever the guards
  // ---------------------------------------------------------------------------

  /** The active cells of column `col`. */
  ghost function ColumnCells(c: seq<Particle>, width: nat, col: nat): set<nat>
    requires width > 0
  {
    set j: nat | j < |c| && j % width == col && c[j].active
  }

  /** The number of particles in column `col`. */
  ghost function ColumnCount(c: seq<Particle>, width: nat, col: nat): nat
    requires width > 0
  {
    |ColumnCells(c, width, col)|
  }

  lemma ModShift(k: nat, width: nat)
    requires width > 0
    ensures (k + width) % width == k % width
  {
    var q, r := k / width, k % width;
    RowMajorSplit(r, q + 1, width);
    assert k + width == r + (q + 1) * width;
  }

  lemma StepKeepsColumns(c: seq<Particle>, width: nat, k: nat, col: nat)
    requires width > 0 && k < |c|
    ensures ColumnCount(Step(c, width, k), width, col) == ColumnCount(c, width, col)
  {
    var c' := Step(c, width, k);
    if c' != c {
      var below := k + width;
      var s, s' := ColumnCells(c, width, col), ColumnCells(c', width, col);
      ModShift(k, width);
      var expected := if k % width == col then s - {k} + {below} else s;
      forall j | j in s' ensures j in expected {
      }
      forall j | j in expected ensures j in s' {
      }
      assert s' == expected;
    }
  }

  lemma {:induction false} ScanKeepsColumns(c: seq<Particle>, width: nat, k: nat, col: nat)
    requires width > 0 && k <= |c|
    ensures ColumnCount(Scan(c, width, k), width, col) == ColumnCount(c, width, col)
    decreases k
  {
    if k > 0 {
      ScanKeepsColumns(c, width, k - 1, col);
      StepKeepsColumns(Scan(c, width, k - 1), width, k - 1, col);
    }
  }

  /** A tick changes neither heat nor any particle in the bottom row. */
  lemma {:induction false} ScanKeepsHeatAndFloor(c: seq<Particle>, width: nat, k: nat)
    requires width > 0 && k <= |c|
    ensures forall i :: 0 <= i < |c| ==> Scan(c, width, k)[i].heat == c[i].heat
    ensures forall i :: 0 <= i < |c| && i + width >= |c| && c[i].active ==> Scan(c, width, k)[i].active
    decreases k
  {
    if k > 0 {
      ScanKeepsHeatAndFloor(c, width, k - 1);
    }
  }

  /**
   * The heat coupling is not kept by a tick: a particle landing in a cold cell
   * is active with heat 0, since the move writes `active` without `set_active`.
   */
  lemma TickBreaksCoupling()
    ensures var g := [Particle(true, false, MaxHeat), Particle(false, false, 0)];
            && AllCoupled(g)
            && Tick(g, 1) == [Particle(false, false, MaxHeat), Particle(true, false, 0)]
            && !AllCoupled(Tick(g, 1))
  {
    var g := [Particle(true, false, MaxHeat), Particle(false, false, 0)];
    TickIsFall(g, 1);
    assert Falls(g, 1, 0);
    assert FilledFromAbove(g, 1, 1);
  }

  // ---------------------------------------------------------------------------
  // The loops of `update`
  // ---------------------------------------------------------------------------

  /** The body of the first nested loop of `update` for the cell at `idx`. */
  method Visit(c: seq<Particle>, width: nat, idx: nat) returns (cells: seq<Particle>)
    requires idx < |c|
    ensures cells == Step(c, width, idx)
  {
    cells := c;
    if cells[idx].active
       && idx + width < |cells|
       && !cells[idx + width].alreadyUpdated
       && !cells[idx].alreadyUpdated
    {
      if !cells[idx + width].active {
        cells := cells[idx + width := cells[idx + width].(active := true)];
        cells := cells[idx + width := cells[idx + width].(alreadyUpdated := true)];
        cells := cells[idx := cells[idx].(active := false)];
        assert cells == c[idx + width := c[idx + width].(active := true, alreadyUpdated := true)]
                         [idx := c[idx].(active := false)];
      }
    }
  }

  /** One row of the first nested loop of `update`: the guarded moves of row `y`. */
  method ScanRow(g: Grid, y: nat, c: seq<Particle>) returns (cells: seq<Particle>)
    requires g.Valid() && y < g.height
    requires c == Scan(g.particles, g.width, y * g.width)
    ensures y * g.width + g.width <= |g.particles|
    ensures cells == Scan(g.particles, g.width, y * g.width + g.width)
  {
    var width := g.width;
    var rowStart := y * width;
    RowMajorBound(width - 1, y, width, g.height);
    cells := c;
    var x := 0;
    while x < width
      invariant 0 <= x <= width
      invariant cells == Scan(g.particles, width, rowStart + x)
    {
      var idx := x + y * width;
      assert idx == rowStart + x;
      cells := Visit(cells, width, idx);
      x := x + 1;
    }
  }

  /** The first nested loop of `update`: the guarded row-major scan. */
  method ScanPass(g: Grid) returns (cells: seq<Particle>)
    requires g.Valid()
    ensures cells == Scan(g.particles, g.width, |g.particles|)
  {
    var width, height := g.width, g.height;
    cells := g.particles;
    var y := 0;
    var done := 0;
    while y < height
      invariant 0 <= y <= height
      invariant done == y * width && done <= |g.particles|
      invariant cells == Scan(g.particles, width, done)
    {
      cells := ScanRow(g, y, cells);
      done := done + width;
      assert done == (y + 1) * width;
      y := y + 1;
    }
    assert done == height * width;
  }

  /** The second nested loop of `update`: every guard lowered. */
  method ClearPass(scanned: seq<Particle>, width: nat, height: nat) returns (cells: seq<Particle>)
    requires width > 0 && |scanned| == width * height
    ensures cells == ClearGuards(scanned)
  {
    cells := scanned;
    var y := 0;
    while y < height
      invariant 0 <= y <= height
      invariant y * width <= |scanned|
      invariant |cells| == |scanned|
      invariant forall j :: 0 <= j < |cells| ==>
                  cells[j] == if j < y * width then scanned[j].(alreadyUpdated := false) else scanned[j]
    {
      var x := 0;
      while x < width
        invariant 0 <= x <= width
        invariant |cells| == |scanned|
        invariant forall j :: 0 <= j < |cells| ==>
                    cells[j] == if j < y * width + x then scanned[j].(alreadyUpdated := false) else scanned[j]
      {
        var idx := x + y * width;
        RowMajorBound(x, y, width, height);
        cells := cells[idx := cells[idx].(alreadyUpdated := false)];
        x := x + 1;
      }
      assert y * width + width == (y + 1) * width;
      MulMonotone(y + 1, height, width);
      y := y + 1;
    }
  }

  /**
   * `update`: the guarded scan, then the guard reset. Heat, shape and every
   * column's particle count are kept, every guard ends lowered, and with the
   * guards clear on entry the result is the simultaneous rule.
   */
  method Update(g: Grid) returns (r: Grid)
    requires g.Valid()
    ensures r.Valid() && r.width == g.width && r.height == g.height
    ensures r.particles == Tick(g.particles, g.width)
    ensures GuardsClear(r.particles)
    ensures forall i :: 0 <= i < |g.particles| ==> r.particles[i].heat == g.particles[i].heat
    ensures forall i :: 0 <= i < |g.particles| && i + g.width >= |g.particles| && g.particles[i].active ==>
              r.particles[i].active
    ensures forall col: nat :: col < g.width ==>
              ColumnCount(r.particles, g.width, col) == ColumnCount(g.particles, g.width, col)
    ensures GuardsClear(g.particles) ==> r.particles == Fall(g.particles, g.width)
  {
    var scanned := ScanPass(g);
    var cells := ClearPass(scanned, g.width, g.height);
    r := g.(particles := cells);
    forall col: nat | col < g.width
      ensures ColumnCount(r.particles, g.width, col) == ColumnCount(g.particles, g.width, col)
    {
      ScanKeepsColumns(g.particles, g.width, |g.particles|, col);
      assert ColumnCells(r.particles, g.width, col) == ColumnCells(scanned, g.width, col);
    }
    if GuardsClear(g.particles) {
      TickIsFall(g.particles, g.width);
    }
  }
}
