/** `ConwayGrid` in src/main.rs: construction, addressing and `toggle`. */
module Grids {
  import opened Wrappers
  import opened Particles

  /** The largest `usize` on a 64-bit target; `checked_mul` refuses larger cell counts. */
  const UsizeMax: nat := 0x1_0000_0000_0000_0000 - 1

  /** The largest `isize` on a 64-bit target: the most bytes one `Vec` may hold. */
  const IsizeMax: nat := 0x8000_0000_0000_0000 - 1

  /** The size in bytes of one `Particle`: two `bool`s and a `u8`. */
  const ParticleBytes: nat := 3

  /**
   * The cells in row-major order, cell (x, y) at `x + y * width`. The unused
   * scratch buffer of the source is not part of the model.
   */
  datatype Grid = Grid(particles: seq<Particle>, width: nat, height: nat) {

    /** What `new_empty` establishes and no operation changes. */
    predicate Valid() {
      width > 0 && height > 0 && |particles| == width * height
    }
  }

  /**
   * `new_empty`: a grid of default cells. The source panics on a zero
   * dimension, on a cell count that overflows `usize`, and (inside `vec!`) on
   * a buffer of more than `isize::MAX` bytes; here each is `None`.
   */
  function NewEmpty(width: nat, height: nat): (r: Option<Grid>)
    ensures r.Some? <==> width != 0 && height != 0 && width * height <= UsizeMax
                         && width * height * ParticleBytes <= IsizeMax
    ensures r.Some? ==> r.value.Valid() && r.value.width == width && r.value.height == height
    ensures r.Some? ==> forall i :: 0 <= i < |r.value.particles| ==> r.value.particles[i] == Default()
    ensures r.Some? ==> GuardsClear(r.value.particles) && AllCoupled(r.value.particles)
  {
    if width == 0 || height == 0 || width * height > UsizeMax then None
    else if width * height * ParticleBytes > IsizeMax then None
    else Some(Grid(seq(width * height, _ => Default()), width, height))
  }

  /** Multiplying by a natural number keeps order. */
  lemma {:induction false} MulMonotone(a: nat, b: nat, c: nat)
    requires a <= b
    ensures a * c <= b * c
    decreases c
  {
    if c > 0 {
      MulMonotone(a, b, c - 1);
      assert a * c == a * (c - 1) + a;
      assert b * c == b * (c - 1) + b;
    }
  }

  /** A row-major index of an in-range coordinate lies inside the cells. */
  lemma RowMajorBound(x: nat, y: nat, width: nat, height: nat)
    requires x < width && y < height
    ensures x + y * width < width * height
  {
    MulMonotone(y + 1, height, width);
    assert (y + 1) * width == y * width + width;
  }

  /**
   * `grid_idx`: the cell index of (x, y), or `None` when either coordinate is
   * negative (the conversion to `usize` fails) or past the grid's edge.
   */
  function GridIdx(g: Grid, x: int, y: int): (r: Option<nat>)
    ensures r.Some? <==> 0 <= x < g.width && 0 <= y < g.height
    ensures r.Some? ==> r.value == x + y * g.width
    ensures r.Some? && g.Valid() ==> r.value < |g.particles|
  {
    if x < 0 || y < 0 then None
    else if x < g.width && y < g.height then
      RowMajorBound(x, y, g.width, g.height);
      Some(x + y * g.width)
    else None
  }

  /** The column and row of an index are recovered by remainder and quotient. */
  lemma RowMajorSplit(x: nat, y: nat, width: nat)
    requires x < width
    ensures (x + y * width) % width == x && (x + y * width) / width == y
  {
    var i := x + y * width;
    var q, r := i / width, i % width;
    assert i == q * width + r;
    if q > y {
      MulMonotone(y + 1, q, width);
      assert false;
    }
    if q < y {
      MulMonotone(q + 1, y, width);
      assert false;
    }
  }

  /**
   * `grid_idx` is a bijection between the in-grid coordinates and the cell
   * indices: every index it returns decodes back to its coordinates, and
   * every cell is the index of exactly one coordinate pair.
   */
  lemma GridIdxBijective(g: Grid, x: int, y: int, i: nat)
    requires g.Valid()
    ensures GridIdx(g, x, y) == Some(i) ==> i % g.width == x && i / g.width == y
    ensures i < |g.particles| ==> GridIdx(g, i % g.width, i / g.width) == Some(i)
  {
    if GridIdx(g, x, y) == Some(i) {
      RowMajorSplit(x, y, g.width);
    }
    if i < |g.particles| {
      var q, r := i / g.width, i % g.width;
      assert i == r + q * g.width;
      if q >= g.height {
        MulMonotone(g.height, q, g.width);
        assert false;
      }
    }
  }

  /** `set_active` on one cell: that cell takes its next state, no other changes. */
  function SetActive(cells: seq<Particle>, i: nat, active: bool): (r: seq<Particle>)
    requires i < |cells|
    ensures |r| == |cells|
    ensures r[i] == NextState(cells[i], active)
    ensures forall j :: 0 <= j < |cells| && j != i ==> r[j] == cells[j]
  {
    cells[i := NextState(cells[i], active)]
  }

  /**
   * `toggle`: flips the addressed cell through `set_active` and reports its
   * new activity; off the grid it reports false and changes nothing.
   */
  function Toggle(g: Grid, x: int, y: int): (r: (Grid, bool))
    requires g.Valid()
    ensures r.0.Valid() && r.0.width == g.width && r.0.height == g.height
    ensures GridIdx(g, x, y).None? ==> r.0 == g && !r.1
    ensures GridIdx(g, x, y).Some? ==>
      var i := GridIdx(g, x, y).value;
      && r.1 == !g.particles[i].active
      && r.0.particles[i] == NextState(g.particles[i], r.1)
      && forall j :: 0 <= j < |g.particles| && j != i ==> r.0.particles[j] == g.particles[j]
    ensures GuardsClear(g.particles) ==> GuardsClear(r.0.particles)
    ensures AllCoupled(g.particles) ==> AllCoupled(r.0.particles)
  {
    match GridIdx(g, x, y)
    case Some(i) =>
      var wasAlive := g.particles[i].active;
      (g.(particles := SetActive(g.particles, i, !wasAlive)), !wasAlive)
    case None => (g, false)
  }

  /**
   * Toggling the same coordinate twice restores every cell's activity, and
   * restores the grid exactly when the cell started active at full heat.
   */
  lemma ToggleTwice(g: Grid, x: int, y: int)
    requires g.Valid()
    ensures var (g1, b1) := Toggle(g, x, y);
            var (g2, b2) := Toggle(g1, x, y);
            && (forall i :: 0 <= i < |g.particles| ==> g2.particles[i].active == g.particles[i].active)
            && (GridIdx(g, x, y).Some? ==> b2 == !b1)
            && (GridIdx(g, x, y).None? ==> g2 == g && !b1 && !b2)
            && ((GridIdx(g, x, y).Some? && Coupled(g.particles[GridIdx(g, x, y).value])
                 && g.particles[GridIdx(g, x, y).value].active) ==> g2 == g)
  {
    var (g1, b1) := Toggle(g, x, y);
    var (g2, b2) := Toggle(g1, x, y);
    if GridIdx(g, x, y).Some? {
      var i := GridIdx(g, x, y).value;
      if g.particles[i].active && Coupled(g.particles[i]) {
        assert g2.particles[i] == g.particles[i];
        assert g2.particles == g.particles;
      }
    }
  }
}
