/** The `World` of lib.rs: a row-major cell array with its dimensions, the
    cell size in pixels and the boundary policy, updated in place. The
    drawing context is replaced by the ghost log `events` of what the world
    sends to the surface (see module Canvas). */
module Engine {
  import opened Cells
  import opened Grids
  import opened Generation
  import opened Resize
  import opened Canvas

  class World {
    var cells: array<Cell>
    var width: nat
    var height: nat
    /** Size of one cell in pixels; used only for drawing. */
    var cellW: nat
    var cellH: nat
    var wrapAround: bool
    /** Everything sent to the drawing surface so far, oldest first. */
    ghost var events: seq<Event>

    /** The array holds exactly one cell per grid position. */
    ghost predicate Valid()
      reads this
    {
      cells.Length == width * height
    }

    /** The current state as a snapshot. */
    function Model(): Grid
      reads this, cells
    {
      Grid(cells[..], width, height, wrapAround)
    }

    /** The surface shows exactly the current cells. */
    ghost predicate InSync()
      reads this, cells
    {
      Render(events) == Picture(width, height, cells[..])
    }

    /** `new`: a `width` by `height` world of Dead cells, fully drawn once. */
    constructor (width: nat, height: nat, cellW: nat, cellH: nat, wrapAround: bool)
      ensures Valid() && fresh(cells)
      ensures this.width == width && this.height == height && this.wrapAround == wrapAround
      ensures this.cellW == cellW && this.cellH == cellH
      ensures forall i :: 0 <= i < cells.Length ==> cells[i] == Dead
      ensures events == [Redraw(width, height, cells[..])] && InSync()
    {
      cells := new Cell[width * height](_ => Dead);
      this.width, this.height := width, height;
      this.cellW, this.cellH := cellW, cellH;
      this.wrapAround := wrapAround;
      events := [];
      new;
      InitCanvas();
    }

    /** `init_canvas`: a full repaint of the current world. */
    method InitCanvas()
      modifies this`events
      ensures events == old(events) + [Redraw(width, height, cells[..])]
      ensures InSync()
    {
      events := events + [Redraw(width, height, cells[..])];
    }

    /** `set_cell`: overwrite one cell. It sends nothing to the surface. */
    method SetCell(x: nat, y: nat, cell: Cell)
      requires Valid() && x < width && y < height
      modifies cells
      ensures Valid() && Model() == WithCell(old(Model()), x, y, cell)
      ensures events == old(events)
    {
      IdxFacts(width, height, x, y);
      cells[Idx(width, x, y)] := cell;
    }

    /** `change_cell`: overwrite one cell and paint it. */
    method ChangeCell(x: nat, y: nat, cell: Cell)
      requires Valid() && x < width && y < height
      modifies cells, this`events
      ensures Valid() && Model() == WithCell(old(Model()), x, y, cell)
      ensures events == old(events) + [Draw(x, y, cell)]
      ensures old(InSync()) ==> InSync()
    {
      IdxFacts(width, height, x, y);
      cells[Idx(width, x, y)] := cell;
      events := events + [Draw(x, y, cell)];
    }

    /** `toggle_cell`: flip one cell through change_cell. */
    method ToggleCell(x: nat, y: nat)
      requires Valid() && x < width && y < height
      modifies cells, this`events
      ensures Valid()
      ensures Model() == WithCell(old(Model()), x, y, Toggled(CellAt(old(Model()), x, y)))
      ensures events == old(events) + [Draw(x, y, Toggled(CellAt(old(Model()), x, y)))]
      ensures old(InSync()) ==> InSync()
    {
      IdxFacts(width, height, x, y);
      if IsAlive(cells[Idx(width, x, y)]) {
        ChangeCell(x, y, Dead);
      } else {
        ChangeCell(x, y, Alive);
      }
    }

    /** The body of `update`'s scan for cell `(x, y)`: read the cell and
        its neighbour count and append an entry when its state changes. */
    method ScanOne(x: nat, y: nat, changed: seq<Change>) returns (changed': seq<Change>)
      requires Valid() && x < width && y < height
      ensures changed' == changed + Emitted(x, y, CellAt(Model(), x, y), Neighbors(Model(), x, y))
    {
      var neighbours := Neighbors(Model(), x, y);
      IdxFacts(width, height, x, y);
      var cell := cells[Idx(width, x, y)];
      if IsAlive(cell) && (neighbours < 2 || neighbours > 3) {
        changed' := changed + [Change(x, y, Dead)];
      } else if IsDead(cell) && neighbours == 3 {
        changed' := changed + [Change(x, y, Alive)];
      } else {
        changed' := changed;
      }
    }

    /** The scan of column `x` in `update`: the cells from top to bottom. */
    method ScanColumn(x: nat, changed: seq<Change>) returns (changed': seq<Change>)
      requires Valid() && x < width
      ensures changed' == changed + ColumnDiff(cells[..], Step(Model()), width, height, x, height)
    {
      changed' := changed;
      for y := 0 to height
        invariant changed' == changed + ColumnDiff(cells[..], Step(Model()), width, height, x, y)
      {
        ScanCell(Model(), x, y);
        changed' := ScanOne(x, y, changed');
        assert changed' == changed + (ColumnDiff(cells[..], Step(Model()), width, height, x, y) +
          Emitted(x, y, CellAt(Model(), x, y), Neighbors(Model(), x, y)));
      }
    }

    /** The scan phase of `update`: every column in turn. It writes nothing
        (no modifies clause), so every count is taken from the grid as it
        was before the generation. */
    method Scan() returns (changed: seq<Change>)
      requires Valid()
      ensures changed == Changes(Model())
    {
      changed := [];
      for x := 0 to width
        invariant changed == ScanDiff(cells[..], Step(Model()), width, height, x)
      {
        changed := ScanColumn(x, changed);
      }
    }

    /** The apply phase of `update`: each entry of the change list written
        and painted through change_cell, in order. */
    method ApplyChanges(changed: seq<Change>)
      requires Valid() && InRange(changed, width, height)
      modifies cells, this`events
      ensures Valid()
      ensures cells[..] == Apply(old(cells[..]), width, height, changed)
      ensures events == old(events) + Draws(changed)
      ensures old(InSync()) ==> InSync()
    {
      ghost var start, log := cells[..], events;
      for k := 0 to |changed|
        invariant Valid()
        invariant cells[..] == Apply(start, width, height, changed[..k])
        invariant events == log + Draws(changed[..k])
      {
        var c := changed[k];
        ChangeCell(c.x, c.y, c.cell);
        ApplySnoc(start, width, height, changed, k);
        DrawsSnoc(log, changed, k);
      }
      assert changed[..|changed|] == changed;
      if Render(log) == Picture(width, height, start) {
        RenderDraws(log, start, width, height, changed);
      }
    }

    /** `update`: one generation. The scan collects the changes, then each
        is written and painted through change_cell; unchanged cells are
        neither written nor painted. */
    method Update()
      requires Valid()
      modifies cells, this`events
      ensures Valid()
      ensures Model() == old(Model()).(cells := Step(old(Model())))
      ensures events == old(events) + Draws(Changes(old(Model())))
      ensures old(InSync()) ==> InSync()
    {
      var changed := Scan();
      ApplyChangesIsStep(Model());
      ApplyChanges(changed);
    }

    /** The `copy_from_slice` of `change_size` for row `y`: its first
        `cols` cells copied into the same row of the `w` by `h` array
        `dst`; nothing else in `dst` changes. */
    method CopyRow(dst: array<Cell>, w: nat, h: nat, cols: nat, y: nat)
      requires Valid() && dst.Length == w * h && dst != cells
      requires cols <= w && cols <= width && y < h && y < height
      modifies dst
      ensures forall x': nat, y': nat :: x' < w && y' < h ==>
        Get(dst[..], w, h, x', y') ==
          if y' == y && x' < cols then Get(cells[..], width, height, x', y')
          else Get(old(dst[..]), w, h, x', y')
    {
      IdxAll(w, h);
      IdxAll(width, height);
      for x := 0 to cols
        invariant forall x': nat, y': nat :: x' < w && y' < h ==>
          Get(dst[..], w, h, x', y') ==
            if y' == y && x' < x then Get(cells[..], width, height, x', y')
            else Get(old(dst[..]), w, h, x', y')
      {
        ghost var before := dst[..];
        dst[Idx(w, x, y)] := cells[Idx(width, x, y)];
        assert dst[..] == Set(before, w, h, x, y, Get(cells[..], width, height, x, y));
      }
    }

    /** The copying loop of `change_size`: the overlapping top-left block
        of the cells copied row by row into the Dead `w` by `h` array
        `dst`, which then holds the resized grid. */
    method CopyInto(dst: array<Cell>, w: nat, h: nat)
      requires Valid() && dst.Length == w * h && dst != cells
      requires forall i :: 0 <= i < dst.Length ==> dst[i] == Dead
      modifies dst
      ensures dst[..] == Resized(cells[..], width, height, w, h)
    {
      var cols := if w < width then w else width;
      var rows := if h < height then h else height;
      IdxAll(w, h);
      for y := 0 to rows
        invariant forall x': nat, y': nat :: x' < w && y' < h ==>
          Get(dst[..], w, h, x', y') ==
            if x' < cols && y' < y then Get(cells[..], width, height, x', y') else Dead
      {
        CopyRow(dst, w, h, cols, y);
      }
      SameCells(dst[..], Resized(cells[..], width, height, w, h), w, h);
    }

    /** `change_size`: move the cells into a fresh `newWidth` by
        `newHeight` array, top-left anchored, then repaint everything. */
    method ChangeSize(newWidth: nat, newHeight: nat)
      requires Valid()
      modifies this
      ensures Valid() && fresh(cells)
      ensures width == newWidth && height == newHeight && wrapAround == old(wrapAround)
      ensures cellW == old(cellW) && cellH == old(cellH)
      ensures cells[..] == Resized(old(cells[..]), old(width), old(height), newWidth, newHeight)
      ensures events == old(events) + [Redraw(newWidth, newHeight, cells[..])]
      ensures InSync()
    {
      var newWorld := new Cell[newWidth * newHeight](_ => Dead);
      CopyInto(newWorld, newWidth, newHeight);
      cells := newWorld;
      width, height := newWidth, newHeight;
      InitCanvas();
    }

    /** `set_width`: resize, keeping the current height. */
    method SetWidth(newWidth: nat)
      requires Valid()
      modifies this
      ensures Valid() && fresh(cells)
      ensures width == newWidth && height == old(height) && wrapAround == old(wrapAround)
      ensures cellW == old(cellW) && cellH == old(cellH)
      ensures cells[..] == Resized(old(cells[..]), old(width), old(height), newWidth, old(height))
      ensures events == old(events) + [Redraw(width, height, cells[..])]
      ensures InSync()
    {
      ChangeSize(newWidth, height);
    }

    /** `set_height`: resize, keeping the current width. */
    method SetHeight(newHeight: nat)
      requires Valid()
      modifies this
      ensures Valid() && fresh(cells)
      ensures width == old(width) && height == newHeight && wrapAround == old(wrapAround)
      ensures cellW == old(cellW) && cellH == old(cellH)
      ensures cells[..] == Resized(old(cells[..]), old(width), old(height), old(width), newHeight)
      ensures events == old(events) + [Redraw(width, height, cells[..])]
      ensures InSync()
    {
      ChangeSize(width, newHeight);
    }

    /** The `wrap_around` setter: changes the policy, not the cells, and
        paints nothing. */
    method SetWrapAround(wrapAround: bool)
      modifies this`wrapAround
      ensures this.wrapAround == wrapAround
    {
      this.wrapAround := wrapAround;
    }

    /** Toggling the same cell twice restores the grid and paints the cell
        twice, first in its flipped and then in its original state. */
    method ToggleTwice(x: nat, y: nat)
      requires Valid() && x < width && y < height
      modifies cells, this`events
      ensures Valid() && Model() == old(Model())
      ensures events == old(events) + [Draw(x, y, Toggled(CellAt(old(Model()), x, y))),
                                       Draw(x, y, CellAt(old(Model()), x, y))]
      ensures old(InSync()) ==> InSync()
    {
      ghost var before, c := Model(), CellAt(Model(), x, y);
      ToggleCell(x, y);
      ToggleCell(x, y);
      ToggledTwice(c);
      ghost var after := Model();
      forall x': nat, y': nat | x' < width && y' < height
        ensures Get(after.cells, width, height, x', y') == Get(before.cells, width, height, x', y')
      {
        assert CellAt(after, x', y') == CellAt(before, x', y');
      }
      SameCells(after.cells, before.cells, width, height);
    }
  }
}
