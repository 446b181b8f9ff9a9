/** The world's storage and its neighbourhood: row-major indexing, the
    boundary policy `wrap`, the lookup `get_cell_state` and the neighbour
    count `calculate_neighbors` of lib.rs, over an immutable snapshot.

    Coordinates are `int`. The source computes neighbour coordinates with
    `wrapping_add_signed(±1)` on `usize`; the only value outside `[0, dim]`
    that this can produce is `usize::MAX` (from `0 - 1`), which is written
    here as `-1`. */
module Grids {
  import opened Cells

  datatype Option<T> = None | Some(value: T)

  /** A snapshot of a world: cells in row-major order, its dimensions and
      its boundary policy. */
  datatype Grid = Grid(cells: seq<Cell>, width: nat, height: nat, wrapAround: bool)
  {
    /** The storage holds exactly `width * height` cells. */
    predicate Valid()
    {
      |cells| == width * height
    }
  }

  /** Where cell `(x, y)` lives in a row-major array of rows of width `w`:
      `y` whole rows, then `x` cells (IdxRowMajor: `y * w + x`). Written
      as a recursion on rows so that the product stays out of the proofs
      that only need IdxFacts. */
  function Idx(w: nat, x: nat, y: nat): nat
    decreases y
  {
    if y == 0 then x else w + Idx(w, x, y - 1)
  }

  /** Idx is the row-major index `y * w + x` of the source. */
  lemma {:induction false} IdxRowMajor(w: nat, x: nat, y: nat)
    ensures Idx(w, x, y) == y * w + x
    decreases y
  {
    if y > 0 {
      IdxRowMajor(w, x, y - 1);
    }
  }

  /** A coordinate pair inside a `w` by `h` grid maps to an index inside
      the storage, from which both coordinates can be read back. */
  lemma IdxFacts(w: nat, h: nat, x: nat, y: nat)
    requires x < w && y < h
    ensures Idx(w, x, y) < w * h
    ensures Idx(w, x, y) % w == x && Idx(w, x, y) / w == y
  {
    var i := Idx(w, x, y);
    IdxRowMajor(w, x, y);
    calc {
      i;
    <  y * w + w;
    == (y + 1) * w;
    <= { MulLe(y + 1, h, w); }
      h * w;
    }
    DivModUnique(i, w, y, x);
  }

  /** Distinct cells have distinct indices. */
  lemma IdxUnique(w: nat, h: nat, x1: nat, y1: nat, x2: nat, y2: nat)
    requires x1 < w && y1 < h && x2 < w && y2 < h
    ensures Idx(w, x1, y1) == Idx(w, x2, y2) ==> x1 == x2 && y1 == y2
  {
    IdxFacts(w, h, x1, y1);
    IdxFacts(w, h, x2, y2);
  }

  /** `a <= b` is preserved by multiplying with the same natural number. */
  lemma MulLe(a: nat, b: nat, w: nat)
    requires a <= b
    ensures a * w <= b * w
  {
  }

  /** Euclidean division is determined by its quotient and remainder. */
  lemma DivModUnique(n: nat, w: nat, q: nat, r: nat)
    requires r < w && n == q * w + r
    ensures n / w == q && n % w == r
  {
    var q', r' := n / w, n % w;
    assert n == q' * w + r';
    if q' > q {
      MulLe(q + 1, q', w);
      assert false;
    } else if q' < q {
      MulLe(q' + 1, q, w);
      assert false;
    }
  }

  /** Every index of a `w` by `h` storage is the index of one cell. */
  lemma IndexSplit(w: nat, h: nat, i: int)
    requires 0 <= i < w * h
    ensures w > 0 && i % w < w && i / w < h && Idx(w, i % w, i / w) == i
  {
    IdxRowMajor(w, i % w, i / w);
    if i / w >= h {
      MulLe(h, i / w, w);
      assert false;
    }
  }

  /** IdxFacts for every cell of a `w` by `h` grid at once. */
  lemma IdxAll(w: nat, h: nat)
    ensures forall x: nat, y: nat :: x < w && y < h ==>
      Idx(w, x, y) < w * h && Idx(w, x, y) % w == x && Idx(w, x, y) / w == y
  {
    forall x: nat, y: nat | x < w && y < h
      ensures Idx(w, x, y) < w * h && Idx(w, x, y) % w == x && Idx(w, x, y) / w == y
    {
      IdxFacts(w, h, x, y);
    }
  }

  /** Two storages of the same grid shape that agree on every cell are equal. */
  lemma SameCells(a: seq<Cell>, b: seq<Cell>, w: nat, h: nat)
    requires |a| == w * h && |b| == w * h
    requires forall x: nat, y: nat :: x < w && y < h ==> Get(a, w, h, x, y) == Get(b, w, h, x, y)
    ensures a == b
  {
    forall i | 0 <= i < |a| ensures a[i] == b[i] {
      IndexSplit(w, h, i);
      assert Get(a, w, h, i % w, i / w) == Get(b, w, h, i % w, i / w);
    }
  }

  /** `wrap`: resolve a coordinate that is at most one step off `[0, max)`.
      A coordinate on the grid is returned as it is; with wrap-around on an
      off-grid one resolves to a cell of the grid (WrapIsModulo: the
      toroidal neighbour), with it off it has no cell. */
  function Wrap(value: int, max: int, wrapAround: bool): (r: Option<int>)
    ensures 0 <= value < max ==> r == Some(value)
    ensures 0 < max && -1 <= value <= max && wrapAround ==> r.Some? && 0 <= r.value < max
    ensures -1 <= value <= max && !wrapAround ==> (r.Some? <==> 0 <= value < max)
  {
    if value == -1 then
      if wrapAround then Some(max - 1) else None
    else if value == max then
      if wrapAround then Some(0) else None
    else
      Some(value)
  }

  /** With wrap-around on, Wrap is reduction modulo `max`. */
  lemma WrapIsModulo(value: int, max: int)
    requires 0 < max && -1 <= value <= max
    ensures Wrap(value, max, true) == Some(value % max)
  {
    ModNeighbour(value, max);
  }

  /** Reducing a coordinate at most one step off `[0, m)` modulo `m`. */
  lemma ModNeighbour(v: int, m: int)
    requires 0 < m && -1 <= v <= m
    ensures v % m == if v == -1 then m - 1 else if v == m then 0 else v
  {
    if v == -1 {
      assert v == (-1) * m + (m - 1);
    } else if v == m {
      assert v == 1 * m + 0;
    }
  }

  /** A coordinate pair names a cell of the grid. */
  predicate OnGrid(g: Grid, x: int, y: int)
  {
    0 <= x < g.width && 0 <= y < g.height
  }

  /** The cell at `(x, y)` of a `w` by `h` row-major storage. */
  function Get(cells: seq<Cell>, w: nat, h: nat, x: nat, y: nat): Cell
    requires |cells| == w * h && x < w && y < h
  {
    IdxFacts(w, h, x, y);
    cells[Idx(w, x, y)]
  }

  /** The storage with cell `(x, y)` replaced by `c` (`get_cell_mut`
      followed by an assignment); no other cell changes. */
  function Set(cells: seq<Cell>, w: nat, h: nat, x: nat, y: nat, c: Cell): (r: seq<Cell>)
    requires |cells| == w * h && x < w && y < h
    ensures |r| == w * h
    ensures forall x': nat, y': nat :: x' < w && y' < h ==>
      Get(r, w, h, x', y') == if x' == x && y' == y then c else Get(cells, w, h, x', y')
  {
    IdxAll(w, h);
    cells[Idx(w, x, y) := c]
  }

  /** The cell at `(x, y)` (`get_cell`). */
  function CellAt(g: Grid, x: nat, y: nat): Cell
    requires g.Valid() && x < g.width && y < g.height
  {
    Get(g.cells, g.width, g.height, x, y)
  }

  /** `get_cell` reads the storage slot `y * width + x`. */
  lemma CellAtIndex(g: Grid, x: nat, y: nat)
    requires g.Valid() && x < g.width && y < g.height
    ensures y * g.width + x < |g.cells|
    ensures CellAt(g, x, y) == g.cells[y * g.width + x]
  {
    IdxFacts(g.width, g.height, x, y);
    IdxRowMajor(g.width, x, y);
  }

  /** `get_cell_state`: the state (0 or 1) of the cell at a position at most
      one step off the grid. Each axis is resolved by Wrap on its own; a
      position with no cell counts as 0. */
  function CellState(g: Grid, x: int, y: int): (s: nat)
    requires g.Valid() && 0 < g.width && 0 < g.height
    requires -1 <= x <= g.width && -1 <= y <= g.height
    ensures s <= 1
    ensures !g.wrapAround ==> s == if OnGrid(g, x, y) then GetState(CellAt(g, x, y)) else 0
  {
    match Wrap(x, g.width, g.wrapAround)
    case None => 0
    case Some(wx) =>
      match Wrap(y, g.height, g.wrapAround)
      case None => 0
      case Some(wy) => GetState(CellAt(g, wx, wy))
  }

  /** `calculate_neighbors`: the sum of eight lookups, one per offset of the
      Moore neighbourhood, in the source's order. Positions are looked up,
      not deduplicated: on a torus narrower than three cells one cell (even
      the centre) can be counted more than once. */
  function Neighbors(g: Grid, x: nat, y: nat): (n: nat)
    requires g.Valid() && x < g.width && y < g.height
    ensures n <= 8
  {
    CellState(g, x + 1, y + 1)
    + CellState(g, x + 1, y)
    + CellState(g, x + 1, y - 1)
    + CellState(g, x, y - 1)
    + CellState(g, x - 1, y - 1)
    + CellState(g, x - 1, y)
    + CellState(g, x - 1, y + 1)
    + CellState(g, x, y + 1)
  }

  /** 1 when the position is a cell of the grid, 0 otherwise. */
  function OnGridCount(g: Grid, x: int, y: int): nat
  {
    if OnGrid(g, x, y) then 1 else 0
  }

  /** How many of the eight neighbour positions of `(x, y)` are on the grid. */
  function InBoundsNeighbors(g: Grid, x: nat, y: nat): nat
  {
    OnGridCount(g, x + 1, y + 1) + OnGridCount(g, x + 1, y) + OnGridCount(g, x + 1, y - 1)
    + OnGridCount(g, x, y - 1) + OnGridCount(g, x - 1, y - 1) + OnGridCount(g, x - 1, y)
    + OnGridCount(g, x - 1, y + 1) + OnGridCount(g, x, y + 1)
  }

  /** Without wrap-around the count never exceeds the number of neighbour
      positions that are on the grid. */
  lemma NeighborsWithinBounds(g: Grid, x: nat, y: nat)
    requires g.Valid() && x < g.width && y < g.height && !g.wrapAround
    ensures Neighbors(g, x, y) <= InBoundsNeighbors(g, x, y)
  {
  }

  /** Without wrap-around a corner cell of a grid at least two cells wide
      and high has three neighbour positions on the grid, so at most three
      live neighbours. */
  lemma CornerNeighbors(g: Grid)
    requires g.Valid() && 2 <= g.width && 2 <= g.height && !g.wrapAround
    ensures InBoundsNeighbors(g, 0, 0) == 3
    ensures Neighbors(g, 0, 0) <= 3
  {
    NeighborsWithinBounds(g, 0, 0);
  }

  /** The state of the cell at a position on the torus, each axis reduced
      modulo its dimension. */
  function TorusState(g: Grid, x: int, y: int): nat
    requires g.Valid() && 0 < g.width && 0 < g.height
  {
    GetState(CellAt(g, x % g.width, y % g.height))
  }

  /** With wrap-around a lookup reads the cell whose coordinates are the
      given ones reduced modulo the dimensions. */
  lemma CellStateOnTorus(g: Grid, x: int, y: int)
    requires g.Valid() && 0 < g.width && 0 < g.height && g.wrapAround
    requires -1 <= x <= g.width && -1 <= y <= g.height
    ensures CellState(g, x, y) == TorusState(g, x, y)
  {
    WrapIsModulo(x, g.width);
    WrapIsModulo(y, g.height);
  }

  /** With wrap-around the count is the sum of the eight cells around
      `(x, y)` on the torus, each coordinate reduced modulo its dimension. */
  lemma NeighborsOnTorus(g: Grid, x: nat, y: nat)
    requires g.Valid() && g.wrapAround && x < g.width && y < g.height
    ensures Neighbors(g, x, y) ==
      TorusState(g, x + 1, y + 1) + TorusState(g, x + 1, y) + TorusState(g, x + 1, y - 1)
      + TorusState(g, x, y - 1) + TorusState(g, x - 1, y - 1) + TorusState(g, x - 1, y)
      + TorusState(g, x - 1, y + 1) + TorusState(g, x, y + 1)
  {
    TorusFirstHalf(g, x, y);
    TorusSecondHalf(g, x, y);
  }

  /** The first four lookups of the count, on the torus. */
  lemma TorusFirstHalf(g: Grid, x: nat, y: nat)
    requires g.Valid() && g.wrapAround && x < g.width && y < g.height
    ensures CellState(g, x + 1, y + 1) + CellState(g, x + 1, y) + CellState(g, x + 1, y - 1)
      + CellState(g, x, y - 1) ==
      TorusState(g, x + 1, y + 1) + TorusState(g, x + 1, y) + TorusState(g, x + 1, y - 1)
      + TorusState(g, x, y - 1)
  {
    CellStateOnTorus(g, x + 1, y + 1);
    CellStateOnTorus(g, x + 1, y);
    CellStateOnTorus(g, x + 1, y - 1);
    CellStateOnTorus(g, x, y - 1);
  }

  /** The last four lookups of the count, on the torus. */
  lemma TorusSecondHalf(g: Grid, x: nat, y: nat)
    requires g.Valid() && g.wrapAround && x < g.width && y < g.height
    ensures CellState(g, x - 1, y - 1) + CellState(g, x - 1, y) + CellState(g, x - 1, y + 1)
      + CellState(g, x, y + 1) ==
      TorusState(g, x - 1, y - 1) + TorusState(g, x - 1, y) + TorusState(g, x - 1, y + 1)
      + TorusState(g, x, y + 1)
  {
    CellStateOnTorus(g, x - 1, y - 1);
    CellStateOnTorus(g, x - 1, y);
    CellStateOnTorus(g, x - 1, y + 1);
    CellStateOnTorus(g, x, y + 1);
  }

  /** The world with cell `(x, y)` replaced by `c`. */
  function WithCell(g: Grid, x: nat, y: nat, c: Cell): (g': Grid)
    requires g.Valid() && x < g.width && y < g.height
    ensures g'.Valid() && g'.width == g.width && g'.height == g.height
    ensures g'.wrapAround == g.wrapAround
    ensures forall x': nat, y': nat :: x' < g.width && y' < g.height ==>
      CellAt(g', x', y') == if x' == x && y' == y then c else CellAt(g, x', y')
  {
    g.(cells := Set(g.cells, g.width, g.height, x, y, c))
  }

  /** Writing one cell changes exactly the storage slot `y * width + x`. */
  lemma WithCellAtIndex(g: Grid, x: nat, y: nat, c: Cell)
    requires g.Valid() && x < g.width && y < g.height
    ensures y * g.width + x < |g.cells|
    ensures WithCell(g, x, y, c).cells == g.cells[y * g.width + x := c]
  {
    IdxFacts(g.width, g.height, x, y);
    IdxRowMajor(g.width, x, y);
  }

  /** A lookup at offset `(dx, dy)` from `(x, y)` other than the centre does
      not see the centre cell, unless the world is a torus less than two
      cells wide or high. */
  lemma LookupAvoidsCentre(g: Grid, x: nat, y: nat, c: Cell, dx: int, dy: int)
    requires g.Valid() && x < g.width && y < g.height
    requires !g.wrapAround || (2 <= g.width && 2 <= g.height)
    requires -1 <= dx <= 1 && -1 <= dy <= 1 && (dx != 0 || dy != 0)
    ensures CellState(WithCell(g, x, y, c), x + dx, y + dy) == CellState(g, x + dx, y + dy)
  {
    var w, h := g.width, g.height;
    ModNeighbour(x + dx, w);
    ModNeighbour(y + dy, h);
  }

  /** The count of a cell does not depend on the cell itself, unless the
      world is a torus less than two cells wide or high, where the centre is
      among its own eight looked-up neighbours. */
  lemma NeighborsIgnoreCentre(g: Grid, x: nat, y: nat, c: Cell)
    requires g.Valid() && x < g.width && y < g.height
    requires !g.wrapAround || (2 <= g.width && 2 <= g.height)
    ensures Neighbors(WithCell(g, x, y, c), x, y) == Neighbors(g, x, y)
  {
    LookupAvoidsCentre(g, x, y, c, 1, 1);
    LookupAvoidsCentre(g, x, y, c, 1, 0);
    LookupAvoidsCentre(g, x, y, c, 1, -1);
    LookupAvoidsCentre(g, x, y, c, 0, -1);
    LookupAvoidsCentre(g, x, y, c, -1, -1);
    LookupAvoidsCentre(g, x, y, c, -1, 0);
    LookupAvoidsCentre(g, x, y, c, -1, 1);
    LookupAvoidsCentre(g, x, y, c, 0, 1);
  }

  /** On a one-by-one torus the single cell is all eight of its own
      neighbours: a live cell there counts 8 and a dead one 0. */
  lemma SingleCellTorus(c: Cell)
    ensures Neighbors(Grid([c], 1, 1, true), 0, 0) == 8 * GetState(c)
  {
  }
}
