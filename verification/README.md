# Falling-sand grid, modelled in Dafny

A model of the simulation core of "Conway's Game of Sand" (`src/main.rs`):
the `Particle` cell state and the `ConwayGrid` that owns a flat, row-major
vector of particles. Despite the names this is not the Game of Life: one tick
lets every grain of sand whose cell below is empty fall one row.

Modules, one per part of the grid:

- `Wrappers` — `Option`, for `grid_idx`'s absent index and `new_empty`'s panics.
- `Particles` — `Particle`, `new`, `next_state`, `set_active`'s effect,
  `cool_off`, and the heat-coupling and guard predicates.
- `Grids` — `ConwayGrid`'s shape, `new_empty`, `grid_idx`, `set_active` on one
  cell, and `toggle`.
- `Gravity` — `update`. `Scan` is the source's in-place row-major pass,
  one guarded `Step` per cell; `Tick` adds the guard reset. `Fall` is an
  independent reference: every particle whose lower neighbour was empty at the
  start of the tick falls, all at once. `TickIsFall` proves the two agree
  whenever the tick starts with every guard clear, which every operation
  guarantees. The methods `Visit`, `ScanRow`, `ScanPass`, `ClearPass` and `Update` are
  the loop body and nested loops themselves, proved to compute `Tick`.
- `Render` — `draw`, four bytes per cell.
- `Lines` — `set_line`, over a caller-supplied point sequence. The sequence
  stands for the Bresenham rasteriser's output.
- `Seeding` — `randomize` and `new_random`, with the generator's draws as a
  parameter.

Things the model shows about the code as written:

- `randomize` compares each draw in [0, 1) against `INITIAL_FILL = 10.0` with
  `>`. No draw passes, so every cell starts inactive. The three settling ticks
  and the cool-off then change nothing. `Randomize` proves the result is the
  all-default grid for every seed, and `NewRandom` proves `new_random` builds the
  same grid as `new_empty`. Read as a fill level, the constant suggests that
  most cells were meant to start active. The model follows the code.
- `update` writes `.active` directly and never calls `set_active`. A grain that
  lands in a cold cell is therefore active with heat 0. This breaks the comment
  on `heat` ("always 255 if alive"). `TickBreaksCoupling` exhibits it. The
  comment's intent is unclear, since drawing ignores an active cell's heat, so
  the tick is modelled as written.
- `set_line` clamps its start to `[0, width] x [0, height]`. A start on or past
  the right or bottom edge therefore stays off the grid, and the whole line is
  dropped (`SetLineFromFarEdge`). This is modelled as written.

`cool_off` is only ever called with `0.4`. The model uses the exact rational
2/5 and truncates `heat * 2 / 5`. This gives the same byte as the
single-precision computation for every heat from 0 to 255. The `f32` nearest
to 0.4 lies slightly above it, by less than 1e-8. So the rounded product is
never below an exact integer result. It also stays below the next integer
whenever the exact product is fractional, because that fraction is at least
0.2.

## Model

| member | source | states |
|---|---|---|
| Particles.Default | src/main.rs:203-212 | the derived default particle is inactive, unguarded and cold, and satisfies the heat coupling |
| Particles.Coupled | src/main.rs:207-211 | the documented invariant: an active particle is exactly one that activating again leaves unchanged (heat 255); an inactive particle always satisfies it |
| Particles.New | src/main.rs:215-217 | `Particle::new` keeps both flags and starts at heat 0 even when active; `new(false, false)` is the default particle |
| Particles.NextState | src/main.rs:219-232 | activating sets heat to 255; deactivating lowers heat by exactly one, saturating at 0 without wrapping; the guard is kept; so the result always satisfies the heat coupling (`set_active` is this function applied in place) |
| Particles.ActivateIdempotent | src/main.rs:219-228 | activating an already activated particle changes nothing |
| Particles.DeactivateCools | src/main.rs:219-228 | n deactivations leave heat `max(heat - n, 0)`, never wrapping, and keep the guard |
| Particles.CoolOff | src/main.rs:234-240 | an active particle is untouched; an inactive one gets the truncation of 0.4 times its heat, with activity and guard kept |
| Particles.CoolOffCools | src/main.rs:234-240 | cooling never raises heat, leaves a cold particle as it is, and keeps the heat coupling |
| Grids.NewEmpty | src/main.rs:255-264 | a grid exists exactly when both dimensions are non-zero, their product fits in `usize` and the 3-byte cells fit in one `Vec` (at most `isize::MAX` bytes), for a 64-bit target; it has `width*height` default cells, no raised guard and the heat coupling |
| Grids.GridIdx | src/main.rs:376-386 | an index exists exactly when `0 <= x < width` and `0 <= y < height` (negatives fail the conversion); it is `x + y*width` and lies inside the cells |
| Grids.GridIdxBijective | src/main.rs:376-386 | every returned index decodes back to its coordinates (`i % width`, `i / width`), and every cell index is returned for exactly those coordinates |
| Grids.SetActive | src/main.rs:230-232 | `set_active` on cell i replaces it by its `next_state` and leaves every other cell as it was |
| Grids.Toggle | src/main.rs:339-347 | off the grid: false and nothing changes; on it: the cell takes `next_state(!was_alive)`, no other cell changes, the new activity is returned; guards and heat coupling are preserved |
| Grids.ToggleTwice | src/main.rs:339-347 | toggling one coordinate twice restores every cell's activity and returns opposite values; a full-heat active cell is restored exactly |
| Gravity.Step | src/main.rs:294-308 | one visit changes at most cell `idx` and the cell below it and no heat; any change is a grain leaving `idx` for the empty cell below, which is then guarded |
| Gravity.Visit | src/main.rs:294-308 | the loop body's three writes perform exactly the guarded step |
| Gravity.Scan | src/main.rs:291-328 | the guarded pass over cells 0..k-1 keeps the cell count and has not touched any cell more than one row past the last visited cell |
| Gravity.ClearGuards | src/main.rs:331-336 | the reset lowers every guard and keeps activity and heat |
| Gravity.TickIsFall | src/main.rs:289-337 | with all guards clear on entry, the in-place top-to-bottom scan with its guards gives exactly the simultaneous rule: a cell ends active iff it held a grain with an occupied or missing cell below, or received the grain from directly above |
| Gravity.FallMovesOneRow | src/main.rs:294-308 | a grain with an empty cell below ends one row down and its cell ends empty; a newly filled cell was filled from the cell directly above (no grain falls two rows); a grain leaves only by falling into an empty cell, so a vacated cell is not refilled within the tick; bottom-row grains stay |
| Gravity.StepKeepsColumns | src/main.rs:296-308 | one guarded move keeps the number of grains in every column |
| Gravity.ScanKeepsColumns | src/main.rs:291-328 | the whole scan keeps the number of grains in every column |
| Gravity.ScanKeepsHeatAndFloor | src/main.rs:291-328 | the scan changes no cell's heat and never empties a bottom-row cell |
| Gravity.Tick | src/main.rs:289-337 | a whole tick keeps the cell count and every heat, lowers every guard and keeps every bottom-row grain |
| Gravity.TickBreaksCoupling | src/main.rs:303-307 | a grain falling into a cold cell ends active with heat 0, so a tick does not keep the heat coupling |
| Gravity.ScanRow | src/main.rs:292-327 | the inner loop over one row performs the scan's steps for that row's cells |
| Gravity.ScanPass | src/main.rs:291-328 | the nested loops perform the scan over all `width*height` cells in row-major order |
| Gravity.ClearPass | src/main.rs:331-336 | the second nested loop lowers every guard |
| Gravity.Update | src/main.rs:289-337 | `update` keeps the shape, lowers every guard, changes no heat, never empties a bottom-row cell and keeps each column's grain count; with guards clear on entry it equals the simultaneous rule |
| Render.Color | src/main.rs:352-356 | a cell is drawn as four bytes: `[0,255,255,255]` when active, `[0,0,heat,255]` otherwise |
| Render.Draw | src/main.rs:349-359 | with a buffer of four bytes per cell, bytes 4i..4i+3 become `[0,255,255,255]` for an active cell and `[0,0,heat,255]` for an inactive one; the buffer keeps its length |
| Render.DrawShowsExactly | src/main.rs:349-359 | two grids draw the same frame iff every cell agrees on activity and, when inactive, on heat |
| Render.DrawTwoColdCells | src/main.rs:349-359 | two inactive cells with heats 10 and 20 draw as `[0,0,10,255,0,0,20,255]` |
| Lines.ClampStart | src/main.rs:365-366 | the clamped start lies in `[0,width] x [0,height]`, and it is on the grid exactly when the unclamped start is left of the right edge and above the bottom edge |
| Lines.Clamp | src/main.rs:365-366 | `max(lo).min(hi)` stays in `[lo, hi]` and is the identity inside it |
| Lines.InGridPrefix | src/main.rs:367-373 | the loop reaches exactly the points before the first one off the grid |
| Lines.Walk | src/main.rs:367-373 | each cell addressed by the in-grid prefix of the path takes the requested activity (heat 255 when activating, at least one step cooler when deactivating, guard kept); every other cell is unchanged |
| Lines.SetLine | src/main.rs:361-374 | painting from the clamped start changes only reached cells; each reached cell gets the requested activity and keeps its guard, with heat 255 when activating and at least one step cooler when deactivating; when the in-grid points are distinct, as a rasterised line's are, each reached cell is exactly its `next_state`; guards stay clear and the heat coupling is kept |
| Lines.WalkStopsAtExit | src/main.rs:367-373 | after a point off the grid nothing more is painted, even where the path re-enters the grid |
| Lines.SetLineFromFarEdge | src/main.rs:365-372 | a start at or past the right or bottom edge is clamped onto the edge and off the grid, so the grid is unchanged |
| Lines.SetLinePaintsStart | src/main.rs:365-370 | a start left of, above or inside the grid is clamped onto a cell that is painted |
| Lines.WalkDistinct | src/main.rs:367-370 | when the in-grid points are distinct, as a rasterised line's are, each reached cell is exactly its `next_state` |
| Seeding.TickOfEmpty | src/main.rs:280-282 | a tick leaves an all-default grid unchanged |
| Seeding.Randomize | src/main.rs:272-287 | for every sequence of draws in [0, 1), `randomize` leaves every cell default: inactive, unguarded, heat 0 |
| Seeding.NewRandom | src/main.rs:266-270 | `new_random` fails exactly when `new_empty` does and otherwise builds the same grid |

## Left out

- The window, event loop, input handling, pause and step flags, and the pixel surface (src/main.rs:15-184). These are platform I/O, and the window scaling uses floating point.
- `generate_seed` and the PCG32 generator. They need OS entropy and a foreign crate. Their output enters as the `draws` parameter: one value in [0, 1) per cell.
- The Bresenham rasteriser of the `line_drawing` crate, which is foreign code. Its points enter as the `line` parameter. That parameter must start at the clamped start and end at the requested end.
- The `scratch_cells` buffer. It is allocated and never read.
- Logging, and `debug_assert_eq!` in `draw`. The length check is the precondition of `Draw`.
- Only a 64-bit target is modelled: `usize::MAX` is 2^64 - 1 and `isize::MAX` is 2^63 - 1. On a 32-bit target `new_empty` fails at a much smaller cell count.
- Integer widths that cannot matter at this size are not modelled: `idx + width` in `update` could wrap only when `width*height` is within `width` of `usize::MAX`, and `width as isize` in the clamp could wrap only for a width above `isize::MAX`.
- Grids.NewEmpty: an allocation that fits `isize::MAX` bytes but that the allocator still cannot satisfy (the out-of-memory abort) is not modelled. It depends on the machine's memory, not on the code.
- Particles.CoolOff: models only the decay factor 0.4 that the source passes. The `is_finite` assertion cannot fail for that factor.
- Lines.SetLine: for a line whose in-grid points repeat, deactivation is stated only as at least one step cooler, for the reason given for Lines.Walk. A rasterised line has no repeats, and then the result is exact.
- Lines.Walk: when deactivating, it states only that heat drops at least one step. A cell the path visits k times cools by k steps. Lines.WalkDistinct gives the exact result for a path without repeats.
- Gravity.Update: the exact simultaneous rule is stated only for a tick that starts with every guard clear. Without that, only the bookkeeping holds: shape, heat, guards, column counts and the bottom row. Every operation leaves the guards clear.
