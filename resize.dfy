/** Resizing the world (`change_size` in lib.rs): the old cells keep their
    coordinates, anchored at the top-left corner; everything outside the
    overlap of the two shapes is Dead. */
module Resize {
  import opened Cells
  import opened Grids

  /** The storage `change_size` builds for a new `w` by `h` shape from a
      `oldW` by `oldH` storage. */
  function Resized(cells: seq<Cell>, oldW: nat, oldH: nat, w: nat, h: nat): (r: seq<Cell>)
    requires |cells| == oldW * oldH
    ensures |r| == w * h
    ensures forall x: nat, y: nat :: x < w && y < h ==>
      Get(r, w, h, x, y) == if x < oldW && y < oldH then Get(cells, oldW, oldH, x, y) else Dead
  {
    IdxAll(w, h);
    seq(w * h, i requires 0 <= i < w * h =>
      IndexSplit(w, h, i);
      var x, y := i % w, i / w;
      if x < oldW && y < oldH then Get(cells, oldW, oldH, x, y) else Dead)
  }

  /** Resizing to the same shape changes nothing. */
  lemma ResizeSameShape(cells: seq<Cell>, w: nat, h: nat)
    requires |cells| == w * h
    ensures Resized(cells, w, h, w, h) == cells
  {
    SameCells(Resized(cells, w, h, w, h), cells, w, h);
  }

  /** Growing the world and then shrinking it back to its old shape
      restores every cell. */
  lemma GrowShrinkRoundTrip(cells: seq<Cell>, w: nat, h: nat, bigW: nat, bigH: nat)
    requires |cells| == w * h && w <= bigW && h <= bigH
    ensures Resized(Resized(cells, w, h, bigW, bigH), bigW, bigH, w, h) == cells
  {
    var big := Resized(cells, w, h, bigW, bigH);
    SameCells(Resized(big, bigW, bigH, w, h), cells, w, h);
  }

  /** Resizing twice is resizing once to the final shape, as long as the
      intermediate shape cuts nothing the final shape keeps. */
  lemma ResizeTwice(cells: seq<Cell>, w0: nat, h0: nat, w1: nat, h1: nat, w2: nat, h2: nat)
    requires |cells| == w0 * h0
    requires (w2 <= w1 || w0 <= w1) && (h2 <= h1 || h0 <= h1)
    ensures Resized(Resized(cells, w0, h0, w1, h1), w1, h1, w2, h2) == Resized(cells, w0, h0, w2, h2)
  {
    var mid := Resized(cells, w0, h0, w1, h1);
    SameCells(Resized(mid, w1, h1, w2, h2), Resized(cells, w0, h0, w2, h2), w2, h2);
  }
}
