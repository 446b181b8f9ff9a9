/** One generation of the world (`update` in lib.rs), stated on snapshots:
    the B3/S23 rule, the whole next grid `Step`, and the change list the
    scan phase of `update` collects and the apply phase writes back. */
module Generation {
  import opened Cells
  import opened Grids

  /** The branch of `update` for one cell with `n` live neighbours: the new
      state to record, or None when the cell keeps its state. */
  function Transition(c: Cell, n: nat): (t: Option<Cell>)
    ensures t.Some? ==> t.value != c
    ensures t.None? <==> (c == Alive && (n == 2 || n == 3)) || (c == Dead && n != 3)
  {
    if IsAlive(c) && (n < 2 || n > 3) then Some(Dead)
    else if IsDead(c) && n == 3 then Some(Alive)
    else None
  }

  /** The state a cell has after the generation: born with exactly three
      live neighbours, survives with two or three (B3/S23). */
  function NextCell(c: Cell, n: nat): (r: Cell)
    ensures r == Alive <==> n == 3 || (c == Alive && n == 2)
    ensures r != c <==> Transition(c, n).Some?
  {
    match Transition(c, n)
    case None => c
    case Some(d) => d
  }

  /** The state of cell `(x, y)` after the generation, from the counts of
      the snapshot `g`. */
  function NextAt(g: Grid, x: nat, y: nat): Cell
    requires g.Valid() && x < g.width && y < g.height
  {
    NextCell(CellAt(g, x, y), Neighbors(g, x, y))
  }

  /** The cell at `(x, y)` changes state in this generation. */
  predicate Changing(g: Grid, x: nat, y: nat)
    requires g.Valid() && x < g.width && y < g.height
  {
    NextAt(g, x, y) != CellAt(g, x, y)
  }

  /** The whole next generation: every cell gets the rule applied to its
      neighbour count in the old grid. */
  function Step(g: Grid): (r: seq<Cell>)
    requires g.Valid()
    ensures |r| == |g.cells|
  {
    seq(g.width * g.height, i requires 0 <= i < g.width * g.height =>
      IndexSplit(g.width, g.height, i);
      NextAt(g, i % g.width, i / g.width))
  }

  /** Cell `(x, y)` of the next generation is the rule applied to that
      cell and its count in `g`. */
  lemma StepAt(g: Grid, x: nat, y: nat)
    requires g.Valid() && x < g.width && y < g.height
    ensures Get(Step(g), g.width, g.height, x, y) == NextAt(g, x, y)
  {
    IdxFacts(g.width, g.height, x, y);
  }

  /** StepAt for every cell at once. */
  lemma StepAll(g: Grid)
    requires g.Valid()
    ensures forall x: nat, y: nat :: x < g.width && y < g.height ==>
      Get(Step(g), g.width, g.height, x, y) == NextAt(g, x, y)
  {
    forall x: nat, y: nat | x < g.width && y < g.height
      ensures Get(Step(g), g.width, g.height, x, y) == NextAt(g, x, y)
    {
      StepAt(g, x, y);
    }
  }

  /** One entry of `update`'s change list: a position and its new state. */
  datatype Change = Change(x: nat, y: nat, cell: Cell)

  /** Scan order of `update`: column by column, top to bottom in a column. */
  predicate Before(a: Change, b: Change)
  {
    a.x < b.x || (a.x == b.x && a.y < b.y)
  }

  /** The entries are strictly in scan order, hence no position twice. */
  predicate Ordered(cs: seq<Change>)
  {
    forall i, j :: 0 <= i < j < |cs| ==> Before(cs[i], cs[j])
  }

  /** Two ordered lists, every entry of the first before every entry of
      the second, make an ordered list. */
  lemma OrderedAppend(a: seq<Change>, b: seq<Change>)
    requires Ordered(a) && Ordered(b)
    requires forall i, j :: 0 <= i < |a| && 0 <= j < |b| ==> Before(a[i], b[j])
    ensures Ordered(a + b)
  {
    forall i, j | 0 <= i < j < |a + b| ensures Before((a + b)[i], (a + b)[j]) {
      if j < |a| {
      } else if i >= |a| {
        assert Before(b[i - |a|], b[j - |a|]);
      } else {
        assert Before(a[i], b[j - |a|]);
      }
    }
  }

  /** An entry names a cell that differs between the `w` by `h` grids `a`
      and `b`, and carries its state in `b`. */
  predicate Differs(a: seq<Cell>, b: seq<Cell>, w: nat, h: nat, c: Change)
    requires |a| == w * h && |b| == w * h
  {
    c.x < w && c.y < h && Get(a, w, h, c.x, c.y) != Get(b, w, h, c.x, c.y)
    && c.cell == Get(b, w, h, c.x, c.y)
  }

  /** The differences from `a` to `b` in column `x`, rows `[0, y)`, top to
      bottom. */
  function ColumnDiff(a: seq<Cell>, b: seq<Cell>, w: nat, h: nat, x: nat, y: nat): seq<Change>
    requires |a| == w * h && |b| == w * h && x < w && y <= h
    decreases y
  {
    if y == 0 then []
    else
      var cs, next := ColumnDiff(a, b, w, h, x, y - 1), Get(b, w, h, x, y - 1);
      if Get(a, w, h, x, y - 1) != next then cs + [Change(x, y - 1, next)] else cs
  }

  /** The differences from `a` to `b` in columns `[0, x)`, in scan order. */
  function ScanDiff(a: seq<Cell>, b: seq<Cell>, w: nat, h: nat, x: nat): seq<Change>
    requires |a| == w * h && |b| == w * h && x <= w
    decreases x
  {
    if x == 0 then [] else ScanDiff(a, b, w, h, x - 1) + ColumnDiff(a, b, w, h, x - 1, h)
  }

  /** ColumnDiff lists rows of its column below `y`, top to bottom. */
  lemma {:induction false} ColumnDiffOrdered(a: seq<Cell>, b: seq<Cell>, w: nat, h: nat, x: nat, y: nat)
    requires |a| == w * h && |b| == w * h && x < w && y <= h
    ensures Ordered(ColumnDiff(a, b, w, h, x, y))
    ensures forall k :: 0 <= k < |ColumnDiff(a, b, w, h, x, y)| ==>
      ColumnDiff(a, b, w, h, x, y)[k].x == x && ColumnDiff(a, b, w, h, x, y)[k].y < y
    decreases y
  {
    if y > 0 {
      ColumnDiffOrdered(a, b, w, h, x, y - 1);
      var cs := ColumnDiff(a, b, w, h, x, y - 1);
      if Get(a, w, h, x, y - 1) != Get(b, w, h, x, y - 1) {
        OrderedAppend(cs, [Change(x, y - 1, Get(b, w, h, x, y - 1))]);
      }
    }
  }

  /** ScanDiff lists columns below `x`, in scan order. */
  lemma {:induction false} ScanDiffOrdered(a: seq<Cell>, b: seq<Cell>, w: nat, h: nat, x: nat)
    requires |a| == w * h && |b| == w * h && x <= w
    ensures Ordered(ScanDiff(a, b, w, h, x))
    ensures forall k :: 0 <= k < |ScanDiff(a, b, w, h, x)| ==> ScanDiff(a, b, w, h, x)[k].x < x
    decreases x
  {
    if x > 0 {
      ScanDiffOrdered(a, b, w, h, x - 1);
      ColumnDiffOrdered(a, b, w, h, x - 1, h);
      OrderedAppend(ScanDiff(a, b, w, h, x - 1), ColumnDiff(a, b, w, h, x - 1, h));
    }
  }

  /** ColumnDiff holds exactly the differences of its column and rows. */
  lemma {:induction false} ColumnDiffMembers(a: seq<Cell>, b: seq<Cell>, w: nat, h: nat, x: nat, y: nat)
    requires |a| == w * h && |b| == w * h && x < w && y <= h
    ensures forall c :: c in ColumnDiff(a, b, w, h, x, y) <==> c.x == x && c.y < y && Differs(a, b, w, h, c)
    decreases y
  {
    if y > 0 {
      ColumnDiffMembers(a, b, w, h, x, y - 1);
    }
  }

  /** ScanDiff holds exactly the differences of its columns. */
  lemma {:induction false} ScanDiffMembers(a: seq<Cell>, b: seq<Cell>, w: nat, h: nat, x: nat)
    requires |a| == w * h && |b| == w * h && x <= w
    ensures forall c :: c in ScanDiff(a, b, w, h, x) <==> c.x < x && Differs(a, b, w, h, c)
    decreases x
  {
    if x > 0 {
      ScanDiffMembers(a, b, w, h, x - 1);
      ColumnDiffMembers(a, b, w, h, x - 1, h);
    }
  }

  /** Every cell that differs from `a` to `b`, exactly once, with its state
      in `b`, in scan order. */
  function Diff(a: seq<Cell>, b: seq<Cell>, w: nat, h: nat): (cs: seq<Change>)
    requires |a| == w * h && |b| == w * h
    ensures Ordered(cs)
    ensures forall c :: c in cs <==> Differs(a, b, w, h, c)
  {
    ScanDiffOrdered(a, b, w, h, w);
    ScanDiffMembers(a, b, w, h, w);
    ScanDiff(a, b, w, h, w)
  }

  /** The entries `update` records for a cell in state `c` with `n` live
      neighbours: one carrying the new state, or none. */
  function Emitted(x: nat, y: nat, c: Cell, n: nat): seq<Change>
  {
    match Transition(c, n)
    case None => []
    case Some(d) => [Change(x, y, d)]
  }

  /** One step of the scan: a column's list grows by the entries recorded
      for `(x, y)`. */
  lemma ScanCell(g: Grid, x: nat, y: nat)
    requires g.Valid() && x < g.width && y < g.height
    ensures ColumnDiff(g.cells, Step(g), g.width, g.height, x, y + 1) ==
      ColumnDiff(g.cells, Step(g), g.width, g.height, x, y) +
        Emitted(x, y, CellAt(g, x, y), Neighbors(g, x, y))
  {
    StepAt(g, x, y);
  }

  /** The change list of `update`'s scan phase: the difference between the
      grid and its next generation. */
  function Changes(g: Grid): (cs: seq<Change>)
    requires g.Valid()
    ensures Ordered(cs)
    ensures forall c :: c in cs <==>
      c.x < g.width && c.y < g.height && Changing(g, c.x, c.y) && c.cell == NextAt(g, c.x, c.y)
  {
    StepAll(g);
    Diff(g.cells, Step(g), g.width, g.height)
  }

  /** The change list's entries all lie on a `w` by `h` grid. */
  predicate InRange(cs: seq<Change>, w: nat, h: nat)
  {
    forall k :: 0 <= k < |cs| ==> cs[k].x < w && cs[k].y < h
  }

  /** The apply phase: the entries written one after another, in order. */
  function Apply(cells: seq<Cell>, w: nat, h: nat, cs: seq<Change>): (r: seq<Cell>)
    requires |cells| == w * h && InRange(cs, w, h)
    ensures |r| == |cells|
    decreases |cs|
  {
    if cs == [] then cells
    else
      var last := cs[|cs| - 1];
      Set(Apply(cells, w, h, cs[..|cs| - 1]), w, h, last.x, last.y, last.cell)
  }

  /** Applying one more entry writes that entry's cell. */
  lemma ApplySnoc(cells: seq<Cell>, w: nat, h: nat, cs: seq<Change>, k: nat)
    requires |cells| == w * h && InRange(cs, w, h) && k < |cs|
    ensures InRange(cs[..k], w, h) && InRange(cs[..k + 1], w, h)
    ensures Apply(cells, w, h, cs[..k + 1]) ==
      Set(Apply(cells, w, h, cs[..k]), w, h, cs[k].x, cs[k].y, cs[k].cell)
  {
    assert cs[..k + 1][..k] == cs[..k];
  }

  /** Some entry of `cs` is at `(x, y)`. */
  predicate Touches(cs: seq<Change>, x: nat, y: nat)
  {
    exists k :: 0 <= k < |cs| && cs[k].x == x && cs[k].y == y
  }

  /** When every entry writes the value a target `t` has at its position,
      applying them yields `t` where some entry writes and leaves the old
      value everywhere else. */
  lemma {:induction false} ApplyAt(cells: seq<Cell>, w: nat, h: nat, cs: seq<Change>, t: seq<Cell>, x: nat, y: nat)
    requires |cells| == w * h && |t| == w * h && InRange(cs, w, h)
    requires forall k :: 0 <= k < |cs| ==> Get(t, w, h, cs[k].x, cs[k].y) == cs[k].cell
    requires x < w && y < h
    ensures Get(Apply(cells, w, h, cs), w, h, x, y) ==
      if Touches(cs, x, y) then Get(t, w, h, x, y) else Get(cells, w, h, x, y)
    decreases |cs|
  {
    if cs != [] {
      var n := |cs| - 1;
      var prefix := cs[..n];
      ApplyAt(cells, w, h, prefix, t, x, y);
      if Touches(cs, x, y) && (cs[n].x != x || cs[n].y != y) {
        var k :| 0 <= k < |cs| && cs[k].x == x && cs[k].y == y;
        assert prefix[k] == cs[k];
      }
    }
  }

  /** Applying the difference from `a` to `b` to `a` gives `b`. */
  lemma ApplyDiff(a: seq<Cell>, b: seq<Cell>, w: nat, h: nat)
    requires |a| == w * h && |b| == w * h
    ensures InRange(Diff(a, b, w, h), w, h)
    ensures Apply(a, w, h, Diff(a, b, w, h)) == b
  {
    var cs := Diff(a, b, w, h);
    assert InRange(cs, w, h) by {
      forall k | 0 <= k < |cs| ensures cs[k].x < w && cs[k].y < h {
        assert cs[k] in cs;
      }
    }
    forall k | 0 <= k < |cs| ensures Get(b, w, h, cs[k].x, cs[k].y) == cs[k].cell {
      assert cs[k] in cs;
    }
    var r := Apply(a, w, h, cs);
    forall x: nat, y: nat | x < w && y < h ensures Get(r, w, h, x, y) == Get(b, w, h, x, y) {
      ApplyAt(a, w, h, cs, b, x, y);
      if Get(a, w, h, x, y) != Get(b, w, h, x, y) {
        var c := Change(x, y, Get(b, w, h, x, y));
        assert c in cs;
        var k :| 0 <= k < |cs| && cs[k] == c;
        assert Touches(cs, x, y);
      }
    }
    SameCells(r, b, w, h);
  }

  /** The difference is empty exactly when the grids are equal. */
  lemma DiffEmptyIff(a: seq<Cell>, b: seq<Cell>, w: nat, h: nat)
    requires |a| == w * h && |b| == w * h
    ensures Diff(a, b, w, h) == [] <==> a == b
  {
    if Diff(a, b, w, h) == [] {
      ApplyDiff(a, b, w, h);
    } else {
      assert Diff(a, b, w, h)[0] in Diff(a, b, w, h);
    }
  }

  /** Two-phase update is one generation: applying the change list of the
      scan to the old grid gives the next generation. */
  lemma ApplyChangesIsStep(g: Grid)
    requires g.Valid()
    ensures InRange(Changes(g), g.width, g.height)
    ensures Apply(g.cells, g.width, g.height, Changes(g)) == Step(g)
  {
    ApplyDiff(g.cells, Step(g), g.width, g.height);
  }

  /** A grid is a still life exactly when its change list is empty. */
  lemma StableIffNoChanges(g: Grid)
    requires g.Valid()
    ensures Changes(g) == [] <==> Step(g) == g.cells
  {
    DiffEmptyIff(g.cells, Step(g), g.width, g.height);
  }

  /** In an all-dead grid every lookup yields 0. */
  lemma AllDeadLookups(g: Grid)
    requires g.Valid() && 0 < g.width && 0 < g.height
    requires forall i :: 0 <= i < |g.cells| ==> g.cells[i] == Dead
    ensures forall x: int, y: int :: -1 <= x <= g.width && -1 <= y <= g.height ==> CellState(g, x, y) == 0
  {
    var w, h := g.width, g.height;
    forall x: int, y: int | -1 <= x <= w && -1 <= y <= h ensures CellState(g, x, y) == 0 {
      if g.wrapAround {
        CellStateOnTorus(g, x, y);
        IdxFacts(w, h, x % w, y % h);
      } else if OnGrid(g, x, y) {
        IdxFacts(w, h, x, y);
      }
    }
  }

  /** All-dead grids stay dead: every count is 0, so nothing is recorded. */
  lemma AllDeadNoChanges(g: Grid)
    requires g.Valid()
    requires forall i :: 0 <= i < |g.cells| ==> g.cells[i] == Dead
    ensures Changes(g) == []
  {
    if Changes(g) != [] {
      var c := Changes(g)[0];
      assert c in Changes(g);
      AllDeadLookups(g);
      IdxFacts(g.width, g.height, c.x, c.y);
    }
  }

  /** `(x, y)` is the only live cell of the grid. */
  predicate LoneCell(g: Grid, x: nat, y: nat)
    requires g.Valid()
  {
    forall x': nat, y': nat :: x' < g.width && y' < g.height ==>
      (CellAt(g, x', y') == Alive <==> x' == x && y' == y)
  }

  /** Without wrap-around, a lookup in a grid whose only live cell is
      `(x, y)` is 1 exactly at `(x, y)`. */
  lemma LoneLookup(g: Grid, x: nat, y: nat, a: int, b: int)
    requires g.Valid() && !g.wrapAround && x < g.width && y < g.height && LoneCell(g, x, y)
    requires -1 <= a <= g.width && -1 <= b <= g.height
    ensures CellState(g, a, b) == if a == x && b == y then 1 else 0
  {
    if OnGrid(g, a, b) {
      assert CellAt(g, a, b) == Alive <==> a == x && b == y;
    }
  }

  /** Without wrap-around the eight neighbour positions are distinct, so
      beside a lone live cell a count is at most 1, and the lone cell
      itself counts 0. */
  lemma LoneNeighbors(g: Grid, x: nat, y: nat, a: nat, b: nat)
    requires g.Valid() && !g.wrapAround && x < g.width && y < g.height && LoneCell(g, x, y)
    requires a < g.width && b < g.height
    ensures Neighbors(g, a, b) <= if a == x && b == y then 0 else 1
  {
    LoneLookup(g, x, y, a + 1, b + 1);
    LoneLookup(g, x, y, a + 1, b);
    LoneLookup(g, x, y, a + 1, b - 1);
    LoneLookup(g, x, y, a, b - 1);
    LoneLookup(g, x, y, a - 1, b - 1);
    LoneLookup(g, x, y, a - 1, b);
    LoneLookup(g, x, y, a - 1, b + 1);
    LoneLookup(g, x, y, a, b + 1);
    var n := Neighbors(g, a, b);
    assert n ==
      (if a + 1 == x && b + 1 == y then 1 else 0) + (if a + 1 == x && b == y then 1 else 0)
      + (if a + 1 == x && b - 1 == y then 1 else 0) + (if a == x && b - 1 == y then 1 else 0)
      + (if a - 1 == x && b - 1 == y then 1 else 0) + (if a - 1 == x && b == y then 1 else 0)
      + (if a - 1 == x && b + 1 == y then 1 else 0) + (if a == x && b + 1 == y then 1 else 0);
  }

  /** An ordered list whose only member is `c` is `[c]`. */
  lemma OrderedSingleton(cs: seq<Change>, c: Change)
    requires Ordered(cs)
    requires forall e :: e in cs <==> e == c
    ensures cs == [c]
  {
    assert c in cs;
    assert |cs| > 1 ==> cs[0] in cs && cs[1] in cs && Before(cs[0], cs[1]);
    assert cs[0] in cs;
  }

  /** Without wrap-around a lone live cell dies, and its death is the only
      change of the generation. */
  lemma LoneCellDies(g: Grid, x: nat, y: nat)
    requires g.Valid() && !g.wrapAround && x < g.width && y < g.height && LoneCell(g, x, y)
    ensures Changes(g) == [Change(x, y, Dead)]
  {
    var c := Change(x, y, Dead);
    forall e: Change ensures e in Changes(g) <==> e == c {
      if e.x < g.width && e.y < g.height {
        LoneNeighbors(g, x, y, e.x, e.y);
        assert CellAt(g, e.x, e.y) == Alive <==> e.x == x && e.y == y;
      }
    }
    OrderedSingleton(Changes(g), c);
  }
}
