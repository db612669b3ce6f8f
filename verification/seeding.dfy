/**
 * `ConwayGrid::randomize` and `new_random` in src/main.rs.
 *
 * The generator's draws are a parameter: one uniform value in [0, 1) per
 * cell, as `f32_half_open_right` produces from the seeded PCG32 stream. A
 * cell starts active when its draw exceeds `INITIAL_FILL`, which is 10.0, so
 * no draw ever activates a cell and the result is the empty grid.
 */
module Seeding {
  import opened Wrappers
  import opened Particles
  import opened Grids
  import opened Gravity

  /** `INITIAL_FILL`. */
  const InitialFill: real := 10.0

  /** Every cell holds the default particle. */
  predicate AllDefault(cells: seq<Particle>) {
    forall i :: 0 <= i < |cells| ==> cells[i] == Default()
  }

  /** A tick leaves a grid of default cells as it is: nothing can fall. */
  lemma TickOfEmpty(cells: seq<Particle>, width: nat)
    requires width > 0 && AllDefault(cells)
    ensures Tick(cells, width) == cells
  {
    TickIsFall(cells, width);
    var f := Fall(cells, width);
    forall j | 0 <= j < |cells|
      ensures f[j] == cells[j]
    {
      assert !Settled(cells, width, j);
    }
  }

  /**
   * `randomize`: each cell becomes `Particle::new(draw > INITIAL_FILL, false)`,
   * three ticks run, and every cell is cooled. Because no draw in [0, 1)
   * exceeds 10.0, whatever the seed the grid ends empty and cold.
   */
  method Randomize(g: Grid, draws: seq<real>) returns (r: Grid)
    requires g.Valid() && |draws| == |g.particles|
    requires forall i :: 0 <= i < |draws| ==> 0.0 <= draws[i] < 1.0
    ensures r.Valid() && r.width == g.width && r.height == g.height
    ensures AllDefault(r.particles)
  {
    var cells := g.particles;
    var i := 0;
    while i < |cells|
      invariant 0 <= i <= |cells| == |g.particles|
      invariant forall j :: 0 <= j < i ==> cells[j] == New(draws[j] > InitialFill, false)
    {
      var alive := draws[i] > InitialFill;
      cells := cells[i := New(alive, false)];
      i := i + 1;
    }
    assert AllDefault(cells);
    r := g.(particles := cells);
    var n := 0;
    while n < 3
      invariant r.Valid() && r.width == g.width && r.height == g.height
      invariant AllDefault(r.particles)
    {
      TickOfEmpty(r.particles, r.width);
      r := Update(r);
      n := n + 1;
    }
    cells := r.particles;
    i := 0;
    while i < |cells|
      invariant 0 <= i <= |cells| == |r.particles|
      invariant forall j :: 0 <= j < |cells| ==> cells[j] == if j < i then CoolOff(r.particles[j]) else r.particles[j]
    {
      cells := cells[i := CoolOff(cells[i])];
      i := i + 1;
    }
    r := r.(particles := cells);
  }

  /** `new_random`: an empty grid, randomized; the same grid `new_empty` builds. */
  method NewRandom(width: nat, height: nat, draws: seq<real>) returns (r: Option<Grid>)
    requires |draws| == width * height
    requires forall i :: 0 <= i < |draws| ==> 0.0 <= draws[i] < 1.0
    ensures r.Some? <==> width != 0 && height != 0 && width * height <= UsizeMax
                         && width * height * ParticleBytes <= IsizeMax
    ensures r == NewEmpty(width, height)
  {
    var empty := NewEmpty(width, height);
    if empty.None? {
      return None;
    }
    var g := Randomize(empty.value, draws);
    assert g.particles == empty.value.particles;
    r := Some(g);
  }
}
