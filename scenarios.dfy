/** The blinker: three live cells in a line on a 3 by 3 world without
    wrap-around turn over in each generation. */
module Scenarios {
  import opened Cells
  import opened Grids
  import opened Generation

  /** The blinker standing in the middle column, row-major. */
  const Vertical: seq<Cell> :=
    [Dead, Alive, Dead,
     Dead, Alive, Dead,
     Dead, Alive, Dead]

  /** The blinker lying in the middle row, row-major. */
  const Horizontal: seq<Cell> :=
    [Dead, Dead, Dead,
     Alive, Alive, Alive,
     Dead, Dead, Dead]

  /** Each cell of the two storages: alive exactly on the middle column,
      respectively the middle row. */
  lemma BlinkerCells(x: nat, y: nat)
    requires x < 3 && y < 3
    ensures Get(Vertical, 3, 3, x, y) == if x == 1 then Alive else Dead
    ensures Get(Horizontal, 3, 3, x, y) == if y == 1 then Alive else Dead
  {
    IdxRowMajor(3, x, y);
  }

  /** A lookup in the upright blinker is 1 exactly on the middle column. */
  lemma LookVertical(a: int, b: int)
    requires -1 <= a <= 3 && -1 <= b <= 3
    ensures CellState(Grid(Vertical, 3, 3, false), a, b) == if a == 1 && 0 <= b < 3 then 1 else 0
  {
    if 0 <= a < 3 && 0 <= b < 3 {
      BlinkerCells(a, b);
    }
  }

  /** A lookup in the lying blinker is 1 exactly on the middle row. */
  lemma LookHorizontal(a: int, b: int)
    requires -1 <= a <= 3 && -1 <= b <= 3
    ensures CellState(Grid(Horizontal, 3, 3, false), a, b) == if b == 1 && 0 <= a < 3 then 1 else 0
  {
    if 0 <= a < 3 && 0 <= b < 3 {
      BlinkerCells(a, b);
    }
  }

  /** The live neighbours in the upright blinker: on the middle row, 2 for
      the centre and 3 for the ends; on the top and bottom rows, 1 for the
      live cell of the middle column and 2 for the corners. */
  lemma CountVertical(x: nat, y: nat)
    requires x < 3 && y < 3
    ensures Neighbors(Grid(Vertical, 3, 3, false), x, y) ==
      if y == 1 then (if x == 1 then 2 else 3) else if x == 1 then 1 else 2
  {
    if x == 0 {
      VerticalColumn0(y);
    } else if x == 1 {
      VerticalColumn1(y);
    } else {
      VerticalColumn2(y);
    }
  }

  /** The counts of the lying blinker: the upright ones, transposed. */
  lemma CountHorizontal(x: nat, y: nat)
    requires x < 3 && y < 3
    ensures Neighbors(Grid(Horizontal, 3, 3, false), x, y) ==
      if x == 1 then (if y == 1 then 2 else 3) else if y == 1 then 1 else 2
  {
    if x == 0 {
      HorizontalColumn0(y);
    } else if x == 1 {
      HorizontalColumn1(y);
    } else {
      HorizontalColumn2(y);
    }
  }

  // The counts column by column, so that each proof sees a fixed column.

  lemma VerticalColumn0(y: nat)
    requires y < 3
    ensures Neighbors(Grid(Vertical, 3, 3, false), 0, y) == if y == 1 then 3 else 2
  {
    var g := Grid(Vertical, 3, 3, false);
    assert Neighbors(g, 0, y) ==
      CellState(g, 1, y + 1) + CellState(g, 1, y) + CellState(g, 1, y - 1) + CellState(g, 0, y - 1)
      + CellState(g, -1, y - 1) + CellState(g, -1, y) + CellState(g, -1, y + 1) + CellState(g, 0, y + 1);
    LookVertical(1, y + 1);
    LookVertical(1, y);
    LookVertical(1, y - 1);
    LookVertical(0, y - 1);
    LookVertical(-1, y - 1);
    LookVertical(-1, y);
    LookVertical(-1, y + 1);
    LookVertical(0, y + 1);
  }

  lemma VerticalColumn1(y: nat)
    requires y < 3
    ensures Neighbors(Grid(Vertical, 3, 3, false), 1, y) == if y == 1 then 2 else 1
  {
    var g := Grid(Vertical, 3, 3, false);
    assert Neighbors(g, 1, y) ==
      CellState(g, 2, y + 1) + CellState(g, 2, y) + CellState(g, 2, y - 1) + CellState(g, 1, y - 1)
      + CellState(g, 0, y - 1) + CellState(g, 0, y) + CellState(g, 0, y + 1) + CellState(g, 1, y + 1);
    LookVertical(2, y + 1);
    LookVertical(2, y);
    LookVertical(2, y - 1);
    LookVertical(1, y - 1);
    LookVertical(0, y - 1);
    LookVertical(0, y);
    LookVertical(0, y + 1);
    LookVertical(1, y + 1);
  }

  lemma VerticalColumn2(y: nat)
    requires y < 3
    ensures Neighbors(Grid(Vertical, 3, 3, false), 2, y) == if y == 1 then 3 else 2
  {
    var g := Grid(Vertical, 3, 3, false);
    assert Neighbors(g, 2, y) ==
      CellState(g, 3, y + 1) + CellState(g, 3, y) + CellState(g, 3, y - 1) + CellState(g, 2, y - 1)
      + CellState(g, 1, y - 1) + CellState(g, 1, y) + CellState(g, 1, y + 1) + CellState(g, 2, y + 1);
    LookVertical(3, y + 1);
    LookVertical(3, y);
    LookVertical(3, y - 1);
    LookVertical(2, y - 1);
    LookVertical(1, y - 1);
    LookVertical(1, y);
    LookVertical(1, y + 1);
    LookVertical(2, y + 1);
  }

  lemma HorizontalColumn0(y: nat)
    requires y < 3
    ensures Neighbors(Grid(Horizontal, 3, 3, false), 0, y) == if y == 1 then 1 else 2
  {
    var g := Grid(Horizontal, 3, 3, false);
    assert Neighbors(g, 0, y) ==
      CellState(g, 1, y + 1) + CellState(g, 1, y) + CellState(g, 1, y - 1) + CellState(g, 0, y - 1)
      + CellState(g, -1, y - 1) + CellState(g, -1, y) + CellState(g, -1, y + 1) + CellState(g, 0, y + 1);
    LookHorizontal(1, y + 1);
    LookHorizontal(1, y);
    LookHorizontal(1, y - 1);
    LookHorizontal(0, y - 1);
    LookHorizontal(-1, y - 1);
    LookHorizontal(-1, y);
    LookHorizontal(-1, y + 1);
    LookHorizontal(0, y + 1);
  }

  lemma HorizontalColumn1(y: nat)
    requires y < 3
    ensures Neighbors(Grid(Horizontal, 3, 3, false), 1, y) == if y == 1 then 2 else 3
  {
    var g := Grid(Horizontal, 3, 3, false);
    assert Neighbors(g, 1, y) ==
      CellState(g, 2, y + 1) + CellState(g, 2, y) + CellState(g, 2, y - 1) + CellState(g, 1, y - 1)
      + CellState(g, 0, y - 1) + CellState(g, 0, y) + CellState(g, 0, y + 1) + CellState(g, 1, y + 1);
    LookHorizontal(2, y + 1);
    LookHorizontal(2, y);
    LookHorizontal(2, y - 1);
    LookHorizontal(1, y - 1);
    LookHorizontal(0, y - 1);
    LookHorizontal(0, y);
    LookHorizontal(0, y + 1);
    LookHorizontal(1, y + 1);
  }

  lemma HorizontalColumn2(y: nat)
    requires y < 3
    ensures Neighbors(Grid(Horizontal, 3, 3, false), 2, y) == if y == 1 then 1 else 2
  {
    var g := Grid(Horizontal, 3, 3, false);
    assert Neighbors(g, 2, y) ==
      CellState(g, 3, y + 1) + CellState(g, 3, y) + CellState(g, 3, y - 1) + CellState(g, 2, y - 1)
      + CellState(g, 1, y - 1) + CellState(g, 1, y) + CellState(g, 1, y + 1) + CellState(g, 2, y + 1);
    LookHorizontal(3, y + 1);
    LookHorizontal(3, y);
    LookHorizontal(3, y - 1);
    LookHorizontal(2, y - 1);
    LookHorizontal(1, y - 1);
    LookHorizontal(1, y);
    LookHorizontal(1, y + 1);
    LookHorizontal(2, y + 1);
  }

  /** The upright blinker lies down in one generation. */
  lemma BlinkerTurns()
    ensures Step(Grid(Vertical, 3, 3, false)) == Horizontal
  {
    var g := Grid(Vertical, 3, 3, false);
    forall x: nat, y: nat | x < 3 && y < 3
      ensures Get(Step(g), 3, 3, x, y) == Get(Horizontal, 3, 3, x, y)
    {
      StepAt(g, x, y);
      CountVertical(x, y);
      BlinkerCells(x, y);
    }
    SameCells(Step(g), Horizontal, 3, 3);
  }

  /** The lying blinker stands up again in the next generation. */
  lemma BlinkerReturns()
    ensures Step(Grid(Horizontal, 3, 3, false)) == Vertical
  {
    var g := Grid(Horizontal, 3, 3, false);
    forall x: nat, y: nat | x < 3 && y < 3
      ensures Get(Step(g), 3, 3, x, y) == Get(Vertical, 3, 3, x, y)
    {
      StepAt(g, x, y);
      CountHorizontal(x, y);
      BlinkerCells(x, y);
    }
    SameCells(Step(g), Vertical, 3, 3);
  }
}
