/** `ConwayGrid::draw` in src/main.rs: four bytes per cell into a screen buffer. */
module Render {
  import opened Particles

  /** The four bytes one cell is drawn as: cyan when active, a blue trail of its heat otherwise. */
  function Color(p: Particle): (c: seq<Byte>)
    ensures |c| == 4 && Shows(c, 0, p)
  {
    if p.active then [0, 0xff, 0xff, 0xff] else [0, 0, p.heat, 0xff]
  }

  /** Bytes 4i .. 4i+3 of `frame` show particle `p`. */
  predicate Shows(frame: seq<Byte>, i: nat, p: Particle)
    requires 4 * i + 4 <= |frame|
  {
    && frame[4 * i] == 0
    && frame[4 * i + 1] == (if p.active then 0xff else 0)
    && frame[4 * i + 2] == (if p.active then 0xff else p.heat)
    && frame[4 * i + 3] == 0xff
  }

  /** Prepending one cell's colour shifts every later cell by one pixel. */
  lemma ShowsAfterColor(cells: seq<Particle>, rest: seq<Byte>)
    requires |cells| > 0 && |rest| == 4 * (|cells| - 1)
    requires forall i :: 0 <= i < |cells| - 1 ==> Shows(rest, i, cells[1..][i])
    ensures forall i :: 0 <= i < |cells| ==> Shows(Color(cells[0]) + rest, i, cells[i])
  {
    var r := Color(cells[0]) + rest;
    forall i | 0 <= i < |cells|
      ensures Shows(r, i, cells[i])
    {
      if i > 0 {
        assert cells[i] == cells[1..][i - 1];
        assert Shows(rest, i - 1, cells[i]);
        assert r[4 * i .. 4 * i + 4] == rest[4 * (i - 1) .. 4 * (i - 1) + 4];
      }
    }
  }

  /**
   * `draw`: cell `i` is written to bytes 4i .. 4i+3 of the buffer, pairing the
   * cells with the buffer's 4-byte chunks in order. Every byte is overwritten.
   */
  function Draw(cells: seq<Particle>, screen: seq<Byte>): (r: seq<Byte>)
    requires |screen| == 4 * |cells|
    ensures |r| == |screen|
    ensures forall i :: 0 <= i < |cells| ==> Shows(r, i, cells[i])
  {
    if |cells| == 0 then []
    else
      var rest := Draw(cells[1..], screen[4..]);
      ShowsAfterColor(cells, rest);
      Color(cells[0]) + rest
  }

  /** What the screen shows of a cell: its activity, and its heat only when inactive. */
  predicate LooksAlike(p: Particle, q: Particle) {
    p.active == q.active && (!p.active ==> p.heat == q.heat)
  }

  /**
   * Two grids of the same size draw the same frame exactly when every pair of
   * cells looks alike: the guard and the heat under an active particle are
   * invisible, everything else is shown.
   */
  lemma {:induction false} DrawShowsExactly(c1: seq<Particle>, c2: seq<Particle>, screen: seq<Byte>)
    requires |c1| == |c2| && |screen| == 4 * |c1|
    ensures Draw(c1, screen) == Draw(c2, screen) <==>
            forall i :: 0 <= i < |c1| ==> LooksAlike(c1[i], c2[i])
    decreases |c1|
  {
    if |c1| > 0 {
      DrawShowsExactly(c1[1..], c2[1..], screen[4..]);
      var d1, d2 := Draw(c1, screen), Draw(c2, screen);
      if d1 == d2 {
        assert d1[..4] == Color(c1[0]) && d2[..4] == Color(c2[0]);
        assert d1[4..] == Draw(c1[1..], screen[4..]);
        assert d2[4..] == Draw(c2[1..], screen[4..]);
        forall i | 0 <= i < |c1|
          ensures LooksAlike(c1[i], c2[i])
        {
          if i > 0 {
            assert c1[i] == c1[1..][i - 1] && c2[i] == c2[1..][i - 1];
          }
        }
      }
      if forall i :: 0 <= i < |c1| ==> LooksAlike(c1[i], c2[i]) {
        assert LooksAlike(c1[0], c2[0]);
        assert forall i :: 0 <= i < |c1| - 1 ==> c1[1..][i] == c1[i + 1] && c2[1..][i] == c2[i + 1];
      }
    }
  }

  /** An inactive two-cell grid with heats 10 and 20 draws as two dim blue pixels. */
  lemma DrawTwoColdCells(screen: seq<Byte>)
    requires |screen| == 8
    ensures Draw([Particle(false, false, 10), Particle(false, false, 20)], screen)
            == [0, 0, 10, 0xff, 0, 0, 20, 0xff]
  {
  }
}
