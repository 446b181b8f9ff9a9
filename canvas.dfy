/** The drawing surface, as the log of what the world sends to it. The
    world's `init_canvas` repaints everything (sizes the canvas, clears it,
    strokes the grid lines and fills every cell) and `change_cell` fills one
    cell's rectangle; pixel geometry and colours are not modelled, only
    which cell is painted in which state. */
module Canvas {
  import opened Cells
  import opened Grids
  import opened Generation

  datatype Event =
    | /** `change_cell`: paint cell `(x, y)` in the colour of `cell`. */
      Draw(x: nat, y: nat, cell: Cell)
    | /** `init_canvas`: a full repaint of a `width` by `height` world. */
      Redraw(width: nat, height: nat, cells: seq<Cell>)

  /** What the surface shows: its size in cells and every cell's state. */
  datatype Picture = Picture(width: nat, height: nat, shown: seq<Cell>)

  /** The picture a log of events leaves on an initially blank surface. A
      draw outside the surface paints nothing. */
  function Render(log: seq<Event>): Picture
    decreases |log|
  {
    if log == [] then Picture(0, 0, [])
    else
      var p := Render(log[..|log| - 1]);
      match log[|log| - 1]
      case Redraw(w, h, cells) => Picture(w, h, cells)
      case Draw(x, y, c) =>
        if |p.shown| == p.width * p.height && x < p.width && y < p.height
        then p.(shown := Set(p.shown, p.width, p.height, x, y, c))
        else p
  }

  /** The draw events for a change list, one per entry, in order. */
  function Draws(cs: seq<Change>): (es: seq<Event>)
    ensures |es| == |cs|
    ensures forall k :: 0 <= k < |cs| ==> es[k] == Draw(cs[k].x, cs[k].y, cs[k].cell)
  {
    seq(|cs|, k requires 0 <= k < |cs| => Draw(cs[k].x, cs[k].y, cs[k].cell))
  }

  /** Drawing one more entry of a change list appends its draw event. */
  lemma DrawsSnoc(log: seq<Event>, cs: seq<Change>, k: nat)
    requires k < |cs|
    ensures log + Draws(cs[..k + 1]) == log + Draws(cs[..k]) + [Draw(cs[k].x, cs[k].y, cs[k].cell)]
  {
    assert Draws(cs[..k + 1]) == Draws(cs[..k]) + [Draw(cs[k].x, cs[k].y, cs[k].cell)];
  }

  /** Incremental redraw: on a surface showing `cells`, drawing a change
      list leaves it showing the change list applied to `cells`. */
  lemma {:induction false} RenderDraws(log: seq<Event>, cells: seq<Cell>, w: nat, h: nat, cs: seq<Change>)
    requires |cells| == w * h && InRange(cs, w, h)
    requires Render(log) == Picture(w, h, cells)
    ensures Render(log + Draws(cs)) == Picture(w, h, Apply(cells, w, h, cs))
    decreases |cs|
  {
    if cs == [] {
      assert log + Draws(cs) == log;
    } else {
      var n := |cs| - 1;
      var prefix := cs[..n];
      assert InRange(prefix, w, h);
      RenderDraws(log, cells, w, h, prefix);
      var all := log + Draws(cs);
      assert Draws(cs) == Draws(prefix) + [Draw(cs[n].x, cs[n].y, cs[n].cell)];
      assert all[..|all| - 1] == log + Draws(prefix);
      assert all[|all| - 1] == Draw(cs[n].x, cs[n].y, cs[n].cell);
    }
  }

  /** The generation of a lone live cell, without wrap-around, paints
      exactly one cell: the lone one, now Dead. */
  lemma LoneCellOneDraw(g: Grid, x: nat, y: nat)
    requires g.Valid() && !g.wrapAround && x < g.width && y < g.height && LoneCell(g, x, y)
    ensures Draws(Changes(g)) == [Draw(x, y, Dead)]
  {
    LoneCellDies(g, x, y);
  }
}
