# Game of Life world, modelled in Dafny

This project models the `World` engine of a Conway's Game of Life web app
(`src/lib.rs`). The world is a `width` by `height` grid of cells stored
row-major in one array, with a boundary policy. When wrap-around is on, the
grid is a torus. When it is off, positions off the grid count as dead.
`update` computes one generation of the B3/S23 rule in two phases:

1. It scans every cell, column by column. Each cell's eight neighbours are
   counted in the grid as it was before the generation. The scan records
   each cell whose state changes.
2. It writes every recorded change back and paints each one on the canvas.

Cells can also be set, changed or toggled one at a time, and the world can
be resized. A resize keeps the overlapping top-left block.

Modules, one per concept:

- `Cells` (`cell.dfy`): the `Cell` enum, `get_state`, `is_alive` and
  `is_dead`.
- `Grids` (`grid.dfy`): an immutable snapshot `Grid`, row-major indexing,
  `wrap`, `get_cell_state` (`CellState`) and `calculate_neighbors`
  (`Neighbors`).
- `Generation` (`generation.dfy`): the rule per cell, the whole next
  generation `Step`, and the change list that the scan phase produces
  (`Changes`). `Apply` writes a change list back. The main result is that
  applying `Changes(g)` to `g` gives `Step(g)`.
- `Resize` (`resize.dfy`): `Resized`, the storage that `change_size`
  builds.
- `Canvas` (`canvas.dfy`): the drawing surface, modelled as a log of events:
  - `Draw(x, y, cell)` is the single-cell fill of `change_cell`;
  - `Redraw(...)` is the full repaint of `init_canvas`.

  `Render` gives the picture that a log leaves on the surface.
- `Scenarios` (`scenarios.dfy`): the blinker, three live cells in a line on
  a 3 by 3 world without wrap-around, turning over and back.
- `Engine` (`world.dfy`): `class World`. Its cells live in an
  `array<Cell>` that the methods update in place. A ghost field `events`
  logs everything sent to the surface.
  - `Model()` is the current snapshot.
  - `InSync()` says the surface shows exactly the current cells.
  - `update` is the methods `Scan` (read-only, no `modifies` clause)
    followed by `ApplyChanges`. Each is proved against `Changes` and
    `Apply`.

Neighbour coordinates are computed in the source with
`wrapping_add_signed(±1)` on `usize`. The only value outside `[0, dim]`
this produces is `usize::MAX` (from `0 - 1`). The model writes it as `-1`.

## Model

| member | source | states |
|---|---|---|
| Cells.GetState | src/lib.rs:210-212 | the state is 0 or 1, and it is 1 exactly for `Alive` |
| Cells.IsAlive | src/lib.rs:214-216 | true exactly for `Alive` |
| Cells.IsDead | src/lib.rs:218-220 | true exactly for `Dead`; exactly one of `is_alive` and `is_dead` holds |
| Cells.Toggled | src/lib.rs:163-169 | the state `toggle_cell` writes differs from the old one, and is alive exactly when the old one was dead |
| Cells.ToggledTwice | src/lib.rs:163-169 | toggling twice gives back the original state |
| Grids.IdxRowMajor | src/lib.rs:55-61 | the model's index of `(x, y)` is the source's `y * width + x` |
| Grids.IdxFacts | src/lib.rs:55-61 | a position on the grid has an index inside the `width * height` storage, and both coordinates can be read back from it |
| Grids.IdxUnique | src/lib.rs:55-61 | distinct positions have distinct indices |
| Grids.IndexSplit | src/lib.rs:28 | every slot `i` of the `width * height` storage is the index of the on-grid position `(i % width, i / width)` |
| Grids.Wrap | src/lib.rs:67-79 | a coordinate on the grid is returned unchanged; with wrap-around on, a coordinate one step off resolves to a cell; with it off, it resolves to nothing |
| Grids.WrapIsModulo | src/lib.rs:67-79 | with wrap-around on, `wrap` is reduction modulo `max` |
| Grids.Set | src/lib.rs:59-61 | a write through `get_cell_mut` replaces the cell at `(x, y)`, leaves every other cell as it was, and keeps the length |
| Grids.CellState | src/lib.rs:43-53 | a lookup is 0 or 1; without wrap-around it is the cell's state on the grid and 0 off the grid |
| Grids.CellStateOnTorus | src/lib.rs:43-53 | with wrap-around a lookup reads the cell whose coordinates are reduced modulo the dimensions |
| Grids.CellAtIndex | src/lib.rs:55-57 | `get_cell` reads the storage slot `y * width + x`, which lies inside the storage |
| Grids.Neighbors | src/lib.rs:81-92 | the neighbour count is at most 8 |
| Grids.NeighborsOnTorus | src/lib.rs:81-92 | with wrap-around the count is the sum of the eight cells around `(x, y)`, each coordinate reduced modulo its dimension |
| Grids.NeighborsWithinBounds | src/lib.rs:81-92 | without wrap-around the count is at most the number of neighbour positions that lie on the grid |
| Grids.CornerNeighbors | src/lib.rs:81-92 | without wrap-around, a corner of a grid at least 2 by 2 has 3 neighbour positions on the grid and at most 3 live neighbours |
| Grids.SingleCellTorus | src/lib.rs:81-92 | on a 1 by 1 torus the eight lookups all read the single cell, so a live cell counts 8 |
| Grids.WithCell | src/lib.rs:63-65 | writing one cell keeps the shape and the boundary policy and changes only that cell |
| Grids.WithCellAtIndex | src/lib.rs:59-65 | writing one cell changes exactly the storage slot `y * width + x` |
| Grids.LookupAvoidsCentre | src/lib.rs:81-92 | no lookup other than the centre reads the centre cell, unless the world is a torus narrower or lower than 2 |
| Grids.NeighborsIgnoreCentre | src/lib.rs:81-92 | a cell's count does not depend on the cell itself, under the same condition |
| Generation.Transition | src/lib.rs:137-141 | a live cell with fewer than 2 or more than 3 neighbours is recorded as Dead; a dead cell with exactly 3 is recorded as Alive; in every other case nothing is recorded; a recorded state always differs from the current one |
| Generation.NextCell | src/lib.rs:137-141 | the cell's next state is Alive exactly when it has 3 neighbours, or has 2 and is alive (B3/S23); it differs from the current state exactly when an entry is recorded |
| Generation.Step | src/lib.rs:131-147 | the next generation has one cell per cell of the old grid (what each cell holds is `StepAt`) |
| Generation.StepAt | src/lib.rs:131-147 | each cell of the next generation is the rule applied to that cell and its count in the old grid |
| Generation.ColumnDiffOrdered | src/lib.rs:133-143 | the entries of one column of the scan are in that column, top to bottom |
| Generation.ScanDiffOrdered | src/lib.rs:133-143 | the entries of the scan so far are in column-major order, so no position appears twice |
| Generation.ColumnDiffMembers | src/lib.rs:134-142 | one column of the scan holds exactly the cells of that column that differ, each with its new state |
| Generation.ScanDiffMembers | src/lib.rs:133-143 | the scan so far holds exactly the differing cells of the columns scanned |
| Generation.Diff | src/lib.rs:132-143 | every cell that differs between two grids appears exactly once, with its state in the second grid, in scan order |
| Generation.ScanCell | src/lib.rs:135-141 | scanning one more cell appends exactly the entry that the branch of `update` for that cell records |
| Generation.Changes | src/lib.rs:132-143 | the change list is in scan order and holds exactly the cells whose state changes, each with its next state |
| Generation.Apply | src/lib.rs:144-146 | writing a change list back keeps the storage size (what it writes is `ApplySnoc` and `ApplyAt`) |
| Generation.ApplySnoc | src/lib.rs:144-146 | applying one more entry writes that entry's cell over the previous result |
| Generation.ApplyAt | src/lib.rs:144-146 | after applying entries that agree with a target, each cell holds the target's value if some entry wrote it, and its old value otherwise |
| Generation.ApplyDiff | src/lib.rs:131-147 | applying the difference from `a` to `b` to `a` gives `b` |
| Generation.DiffEmptyIff | src/lib.rs:131-147 | the difference is empty exactly when the grids are equal |
| Generation.ApplyChangesIsStep | src/lib.rs:131-147 | writing the scan's change list back to the old grid gives exactly the next generation |
| Generation.StableIffNoChanges | src/lib.rs:131-147 | `update` records no change exactly when the grid is a still life |
| Generation.AllDeadLookups | src/lib.rs:43-53 | in an all-dead grid every lookup is 0 |
| Generation.AllDeadNoChanges | src/lib.rs:131-147 | an all-dead grid produces no changes |
| Generation.LoneLookup | src/lib.rs:43-53 | without wrap-around, in a grid whose only live cell is `(x, y)`, a lookup is 1 exactly at `(x, y)` |
| Generation.LoneNeighbors | src/lib.rs:81-92 | without wrap-around, beside a lone live cell every count is at most 1, and the lone cell itself counts 0 |
| Generation.OrderedSingleton | src/lib.rs:132-143 | a change list in scan order whose only member is `c` is exactly `[c]` |
| Generation.LoneCellDies | src/lib.rs:131-147 | without wrap-around a lone live cell dies, and that is the only change of the generation |
| Scenarios.CountVertical | src/lib.rs:81-92 | in the upright blinker the middle row counts 3, 2, 3 and the top and bottom rows count 2, 1, 2 |
| Scenarios.CountHorizontal | src/lib.rs:81-92 | in the lying blinker the counts are the upright ones transposed |
| Scenarios.BlinkerTurns | src/lib.rs:131-147 | one generation turns the upright blinker into the lying one |
| Scenarios.BlinkerReturns | src/lib.rs:131-147 | one more generation turns it upright again, so the blinker has period 2 |
| Resize.Resized | src/lib.rs:188-198 | the new storage has `width * height` cells; each cell inside the overlap of the old and new shapes keeps its state, and every other cell is Dead |
| Resize.ResizeSameShape | src/lib.rs:188-198 | resizing to the current shape changes nothing |
| Resize.GrowShrinkRoundTrip | src/lib.rs:188-198 | growing and then shrinking back to the old shape restores every cell |
| Resize.ResizeTwice | src/lib.rs:188-198 | two resizes equal one resize to the final shape, provided the intermediate shape cuts nothing the final shape keeps |
| Canvas.Draws | src/lib.rs:144-146 | the apply phase paints once per entry, in order, each entry's cell in its new state |
| Canvas.DrawsSnoc | src/lib.rs:144-146 | painting one more entry appends its draw event |
| Canvas.LoneCellOneDraw | src/lib.rs:144-161 | the generation of a lone live cell, without wrap-around, paints exactly one cell, the lone one, as Dead |
| Canvas.RenderDraws | src/lib.rs:149-161 | when a surface shows some cells, painting a change list leaves it showing the change list applied to those cells |
| Engine.World.constructor | src/lib.rs:20-41 | a new world has `width * height` cells, all Dead, holds the given fields, and is painted once in full |
| Engine.World.InitCanvas | src/lib.rs:94-129 | a full repaint of the current cells; afterwards the surface shows the cells |
| Engine.World.SetCell | src/lib.rs:63-65 | writes the one cell and nothing else, and paints nothing |
| Engine.World.ChangeCell | src/lib.rs:149-161 | writes the one cell, appends one draw event for it, and keeps the surface in sync |
| Engine.World.ToggleCell | src/lib.rs:163-169 | writes the toggled state of the one cell and paints it once |
| Engine.World.ToggleTwice | src/lib.rs:163-169 | toggling the same cell twice restores the grid and paints the cell twice, first flipped and then in its original state |
| Engine.World.ScanOne | src/lib.rs:135-141 | for one cell, appends the entry that `Transition` gives for its state and count, or nothing |
| Engine.World.ScanColumn | src/lib.rs:134-142 | scanning one column appends that column's differences from the next generation |
| Engine.World.Scan | src/lib.rs:132-143 | without writing anything, the scan phase returns `Changes` of the current grid |
| Engine.World.ApplyChanges | src/lib.rs:144-146 | the apply phase leaves the cells equal to `Apply` of the change list, logs one draw per entry, and keeps the surface in sync |
| Engine.World.Update | src/lib.rs:131-147 | one generation: the new cells are `Step` of the old grid, the shape and policy are unchanged, exactly one draw per changed cell is logged, and the surface stays in sync |
| Engine.World.CopyRow | src/lib.rs:192 | copies the overlap of one row into the new array and changes nothing else there |
| Engine.World.CopyInto | src/lib.rs:189-193 | the copying loop leaves the new array equal to `Resized` of the old cells |
| Engine.World.ChangeSize | src/lib.rs:188-198 | a fresh array holds `Resized` of the old cells; the dimensions become the new ones; the other fields are kept; the world is repainted in full |
| Engine.World.SetWidth | src/lib.rs:178-181 | resizes to the new width and keeps the height, the cell size and the boundary policy |
| Engine.World.SetHeight | src/lib.rs:183-186 | resizes to the new height and keeps the width, the cell size and the boundary policy |
| Engine.World.SetWrapAround | src/utils.rs:34-37 | changes the boundary policy only |

## Left out

- Drawing on the canvas is left out. This covers pixel geometry, colours,
  grid lines, `f64` and `u32` conversions, and the `ctx` field. Each
  drawing is replaced by an event in the ghost log (`Draw` or `Redraw`),
  which records which cell is painted in which state.
- `set_cell` paints nothing in the code, so after it the surface may not
  show the cells. The model follows the code: `SetCell` promises no
  `InSync()`, unlike `ChangeCell`.
- The `wasm_bindgen` glue, the JavaScript front end, the panic hook and the
  getter half of the getter/setter macro are left out. The getters only
  read the class's fields.
- `usize` overflow is not modelled; Dafny's integers are unbounded.
  - `width * height` and `y * width + x` could overflow in the source.
  - `cell_w * width - 1` in `init_canvas` underflows for an empty world.
    It belongs to the drawing, which is not modelled.
  - The sum of eight `u8` lookups is at most 8, so it cannot overflow.
- `set_cell`, `change_cell` and `toggle_cell` index the storage at
  `y * width + x` without checking either coordinate. The model makes
  `x < width && y < height` a precondition, so it covers neither of the
  two behaviours of a position off the grid:
  - when the slot lies past the storage, the source panics;
  - when `x >= width` but the slot is still inside the storage, the source
    writes a cell of a later row without panicking. For example, on a
    3 by 2 world `toggle_cell(3, 0)` flips the cell `(0, 1)`.
- Grids.Wrap: with `max == 0` and wrap-around on, the source's `max - 1`
  underflows. The modulo statement requires `0 < max`. No caller reaches
  that case: `update` and the scan visit no cell of an empty world.
- `copy_from_slice` copies a row as a block. It is modelled as a loop over
  the row's cells (`CopyRow`).
- The source does not reject zero dimensions, and neither does the model:
  an empty world is valid and has no cells to scan.
