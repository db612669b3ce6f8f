/** The per-cell state of the falling-sand grid: `Particle` in src/main.rs. */
module Particles {

  /** Rust's `u8`: the width of a particle's heat and of one screen byte. */
  type Byte = x: int | 0 <= x < 256

  /** The heat an active particle carries. */
  const MaxHeat: Byte := 255

  /**
   * One cell. `active` means the cell holds sand; `alreadyUpdated` is the guard
   * that stops a particle moving twice within one tick; `heat` drives the
   * fading trail an inactive cell is drawn with.
   */
  datatype Particle = Particle(active: bool, alreadyUpdated: bool, heat: Byte)

  /** `#[derive(Default)]`: every field false or zero. */
  function Default(): (p: Particle)
    ensures !p.active && !p.alreadyUpdated && p.heat == 0
    ensures Coupled(p)
  {
    Particle(false, false, 0)
  }

  /** `Particle::new`: the flags as given, and a cold heat even for an active cell. */
  function New(active: bool, alreadyUpdated: bool): (p: Particle)
    ensures p.active == active && p.alreadyUpdated == alreadyUpdated
    ensures p.heat == 0
    ensures !active && !alreadyUpdated ==> p == Default()
  {
    Particle(active, alreadyUpdated, 0)
  }

  /**
   * The coupling the source documents: an active particle is at full heat.
   * Equivalently, an active particle is one that activating again leaves as
   * it is; an inactive particle is always coupled.
   */
  function Coupled(p: Particle): (b: bool)
    ensures !p.active ==> b
    ensures p.active ==> (b <==> NextState(p, true) == p)
  {
    p.active ==> p.heat == MaxHeat
  }

  /**
   * `next_state`: activating heats the particle to the maximum; deactivating
   * cools it by one, saturating at zero rather than wrapping. The guard is kept.
   */
  function NextState(p: Particle, active: bool): (r: Particle)
    ensures r.active == active
    ensures r.alreadyUpdated == p.alreadyUpdated
    ensures active ==> r.heat == MaxHeat
    ensures !active ==> r.heat == if p.heat == 0 then 0 else p.heat - 1
  {
    if active then p.(active := true, heat := MaxHeat)
    else p.(active := false, heat := if p.heat == 0 then 0 else p.heat - 1)
  }

  /** Activating twice is activating once: heat is pinned at the maximum. */
  lemma ActivateIdempotent(p: Particle)
    ensures NextState(NextState(p, true), true) == NextState(p, true)
  {
  }

  /**
   * Deactivating an inactive particle `n` times lowers its heat by `n`,
   * stopping at zero.
   */
  function Deactivate(p: Particle, n: nat): Particle
    decreases n
  {
    if n == 0 then p else Deactivate(NextState(p, false), n - 1)
  }

  lemma {:induction false} DeactivateCools(p: Particle, n: nat)
    ensures !Deactivate(p, n).active || n == 0
    ensures Deactivate(p, n).alreadyUpdated == p.alreadyUpdated
    ensures Deactivate(p, n).heat == if p.heat <= n then 0 else p.heat - n
    decreases n
  {
    if n > 0 {
      DeactivateCools(NextState(p, false), n - 1);
    }
  }

  /** The decay factor the grid passes to `cool_off`, 0.4, as the fraction 2/5. */
  const CoolNumerator: nat := 2
  const CoolDenominator: nat := 5

  /**
   * `cool_off(0.4)`: an inactive particle's heat becomes the truncation of
   * 0.4 times itself; an active particle is left alone. Truncating the
   * single-precision product gives the same byte as the exact one for every
   * heat 0..255 (see README).
   */
  function CoolOff(p: Particle): (r: Particle)
    ensures p.active ==> r == p
    ensures r.active == p.active && r.alreadyUpdated == p.alreadyUpdated
    ensures !p.active ==> r.heat * CoolDenominator <= p.heat * CoolNumerator < (r.heat + 1) * CoolDenominator
  {
    if p.active then p
    else p.(heat := p.heat * CoolNumerator / CoolDenominator)
  }

  /** Cooling never warms a particle, and a cold particle stays cold. */
  lemma CoolOffCools(p: Particle)
    ensures CoolOff(p).heat <= p.heat
    ensures p.heat == 0 ==> CoolOff(p) == p
    ensures Coupled(p) ==> Coupled(CoolOff(p))
  {
  }

  /** Every cell of a grid satisfies the heat coupling. */
  predicate AllCoupled(cells: seq<Particle>) {
    forall i :: 0 <= i < |cells| ==> Coupled(cells[i])
  }

  /** No guard is raised: the state every tick must end in. */
  predicate GuardsClear(cells: seq<Particle>) {
    forall i :: 0 <= i < |cells| ==> !cells[i].alreadyUpdated
  }
}
