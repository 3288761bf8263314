/**
 * The baseline rule (automata/dummy.rs): its seed is a filled centred
 * rectangle and its step inverts every cell, whatever the stepping factor.
 */
module Dummy {
  import opened Grids

  /** (x, y) lies in the centre third [w/3, 2w/3) x [h/3, 2h/3), bounds rounded down as in usize. */
  predicate InCentre(w: nat, h: nat, x: nat, y: nat) {
    w / 3 <= x < 2 * w / 3 && h / 3 <= y < 2 * h / 3
  }

  /** The inner loop of `init`: sets cells x, x+1, ..., xEnd-1 of row y to 1. */
  function StampRow(g: Grid, y: nat, x: nat, xEnd: nat): (r: Grid)
    requires Valid(g) && y < g.h && xEnd <= g.w
    ensures Valid(r) && SameShape(r, g)
    ensures forall a: nat, b: nat :: a < g.w && b < g.h ==>
      Get(r, a, b) == if b == y && x <= a < xEnd then 1 else Get(g, a, b)
    decreases xEnd - x
  {
    if x >= xEnd then g else StampRow(Set(g, x, y, 1), y, x + 1, xEnd)
  }

  /** The outer loop of `init`: stamps rows y, y+1, ..., yEnd-1 over the columns [xStart, xEnd). */
  function StampRows(g: Grid, y: nat, yEnd: nat, xStart: nat, xEnd: nat): (r: Grid)
    requires Valid(g) && yEnd <= g.h && xEnd <= g.w
    ensures Valid(r) && SameShape(r, g)
    ensures forall a: nat, b: nat :: a < g.w && b < g.h ==>
      Get(r, a, b) == if y <= b < yEnd && xStart <= a < xEnd then 1 else Get(g, a, b)
    decreases yEnd - y
  {
    if y >= yEnd then g else StampRows(StampRow(g, y, xStart, xEnd), y + 1, yEnd, xStart, xEnd)
  }

  /**
   * Seeds the centred rectangle over whatever the grid already holds: the
   * rectangle becomes 1 and no other cell is touched (nothing is cleared).
   */
  function Init(g: Grid): (r: Grid)
    requires Valid(g)
    ensures Valid(r) && SameShape(r, g)
    ensures forall x: nat, y: nat :: x < g.w && y < g.h ==>
      Get(r, x, y) == if InCentre(g.w, g.h, x, y) then 1 else Get(g, x, y)
  {
    StampRows(g, g.h / 3, 2 * g.h / 3, g.w / 3, 2 * g.w / 3)
  }

  /** The step's per-cell rule: 0 becomes 1, any other code becomes 0. */
  function Invert(v: Byte): Byte {
    if v == 0 then 1 else 0
  }

  /**
   * One generation: every cell of the output is written from the same cell of
   * `current`, so the previous content of `next` plays no part.
   */
  function Step(current: Grid): (next: Grid)
    requires Valid(current)
    ensures Valid(next) && SameShape(next, current)
    ensures forall x: nat, y: nat :: x < current.w && y < current.h ==>
      (Get(next, x, y) == 1 <==> Get(current, x, y) == 0) &&
      (Get(next, x, y) == 0 <==> Get(current, x, y) != 0)
  {
    Tabulate(current.w, current.h, (x: nat, y: nat) =>
      if x < current.w && y < current.h then Invert(Get(current, x, y)) else 0)
  }

  /** Every code the step emits is 0 or 1. */
  lemma StepIsBinary(current: Grid)
    requires Valid(current)
    ensures var next := Step(current);
      forall x: nat, y: nat :: x < current.w && y < current.h ==> Get(next, x, y) <= 1
  {
  }

  /** Every code of the grid is 0 or 1. */
  predicate Binary(g: Grid)
    requires Valid(g)
  {
    forall x: nat, y: nat :: x < g.w && y < g.h ==> Get(g, x, y) <= 1
  }

  /** Inversion is an involution: two steps restore a grid of 0/1 codes. */
  lemma StepTwiceRestores(g: Grid)
    requires Valid(g) && Binary(g)
    ensures Step(Step(g)) == g
  {
    var twice := Step(Step(g));
    forall x: nat, y: nat | x < g.w && y < g.h
      ensures Get(twice, x, y) == Get(g, x, y)
    {
    }
    Extensionality(twice, g);
  }
}
