/**
 * The grid value every automaton reads and writes (grid.rs): a width, a
 * height and a row-major vector of unsigned 8-bit cell codes, with no notion
 * of wrap-around. Out-of-range coordinates are a programming fault in the
 * source, so the accessors require in-range coordinates.
 */
module Grids {

  /** An unsigned 8-bit value (Rust `u8`): a cell code, and a byte of a file. */
  type Byte = x: int | 0 <= x < 256

  datatype Grid = Grid(w: nat, h: nat, cells: seq<Byte>)

  /** The backing vector holds exactly one code per coordinate. */
  predicate Valid(g: Grid) {
    |g.cells| == g.w * g.h
  }

  /** Both grids have the same width and height. */
  predicate SameShape(a: Grid, b: Grid) {
    a.w == b.w && a.h == b.h
  }

  /**
   * Row-major position of (x, y) in a grid of width w: y whole rows of w
   * cells, then x more. Written as repeated addition so that the solver
   * unfolds it only on demand; IdxClosedForm gives the product y * w + x.
   */
  function Idx(w: nat, x: nat, y: nat): nat {
    if y == 0 then x else w + Idx(w, x, y - 1)
  }

  lemma {:induction false} IdxClosedForm(w: nat, x: nat, y: nat)
    ensures Idx(w, x, y) == y * w + x
  {
    if y > 0 {
      IdxClosedForm(w, x, y - 1);
    }
  }

  /** Idx(w, 0, h) is the number of cells of a w-by-h grid. */
  lemma IdxLength(w: nat, h: nat)
    ensures Idx(w, 0, h) == w * h
  {
    IdxClosedForm(w, 0, h);
  }

  /** Multiplication by a natural number is monotone. */
  lemma MulMonotone(a: int, b: int, c: nat)
    ensures a <= b ==> a * c <= b * c
  {
    var d := b - a;
    assert b * c == a * c + d * c;
  }

  /** For x < w and y < h the row-major index lies in [0, w*h). */
  lemma IdxInRange(w: nat, h: nat, x: nat, y: nat)
    requires x < w && y < h
    ensures Idx(w, x, y) < w * h
  {
    IdxClosedForm(w, x, y);
    MulMonotone(y, h - 1, w);
    assert (h - 1) * w == h * w - w;
  }

  /** The index determines the coordinates: x is its remainder and y its quotient by w. */
  lemma IdxDivMod(w: nat, x: nat, y: nat)
    requires x < w
    ensures Idx(w, x, y) % w == x && Idx(w, x, y) / w == y
  {
    IdxClosedForm(w, x, y);
    var i := Idx(w, x, y);
    var q, r := i / w, i % w;
    assert i == q * w + r;
    var d := y - q;
    assert d * w == r - x;
    MulMonotone(1, d, w);
    MulMonotone(d, -1, w);
  }

  /** Distinct in-range coordinates have distinct indices. */
  lemma IdxInjective(w: nat, x: nat, y: nat, x': nat, y': nat)
    requires x < w && x' < w
    ensures Idx(w, x, y) == Idx(w, x', y') <==> x == x' && y == y'
  {
    IdxDivMod(w, x, y);
    IdxDivMod(w, x', y');
  }

  /** Every position of a w*h vector is the index of one in-range coordinate pair. */
  lemma IndexCoords(w: nat, h: nat, i: nat)
    requires i < w * h
    ensures w > 0 && 0 <= i % w < w && 0 <= i / w < h && Idx(w, i % w, i / w) == i
  {
    MulZero(w, h);
    var q, r := i / w, i % w;
    assert i == q * w + r;
    MulMonotone(h, q, w);
    IdxClosedForm(w, r, q);
  }

  lemma MulZero(a: int, b: int)
    ensures a == 0 ==> a * b == 0
  {
  }

  /** Cell code at (x, y) (grid.rs `get`). */
  function Get(g: Grid, x: nat, y: nat): Byte
    requires Valid(g) && x < g.w && y < g.h
  {
    IdxInRange(g.w, g.h, x, y);
    g.cells[Idx(g.w, x, y)]
  }

  /** `get` reads the vector at the row-major position y * w + x. */
  lemma GetRowMajor(g: Grid, x: nat, y: nat)
    requires Valid(g) && x < g.w && y < g.h
    ensures y * g.w + x < |g.cells| && Get(g, x, y) == g.cells[y * g.w + x]
  {
    IdxClosedForm(g.w, x, y);
    IdxInRange(g.w, g.h, x, y);
  }

  /** Overwrites one cell (grid.rs `set`). */
  function Set(g: Grid, x: nat, y: nat, v: Byte): (r: Grid)
    requires Valid(g) && x < g.w && y < g.h
    ensures Valid(r) && SameShape(r, g)
    ensures Get(r, x, y) == v
    ensures forall x': nat, y': nat :: x' < g.w && y' < g.h && (x' != x || y' != y) ==> Get(r, x', y') == Get(g, x', y')
  {
    IdxInRange(g.w, g.h, x, y);
    var r := Grid(g.w, g.h, g.cells[Idx(g.w, x, y) := v]);
    forall x': nat, y': nat | x' < g.w && y' < g.h && (x' != x || y' != y)
      ensures Get(r, x', y') == Get(g, x', y')
    {
      IdxInRange(g.w, g.h, x', y');
      IdxInjective(g.w, x, y, x', y');
    }
    r
  }

  /** The row-major vector of f over [0, w) x [0, h). */
  function TabulateCells(w: nat, h: nat, f: (nat, nat) -> Byte): (cells: seq<Byte>)
    ensures |cells| == w * h
  {
    var n := Idx(w, 0, h);
    IdxLength(w, h);
    seq(n, (i: int) requires 0 <= i < n => CellAt(w, h, f, i))
  }

  /** The value of f at the coordinates of row-major position i. */
  function CellAt(w: nat, h: nat, f: (nat, nat) -> Byte, i: nat): Byte
    requires i < w * h
  {
    IndexCoords(w, h, i);
    f(i % w, i / w)
  }

  lemma TabulateAt(w: nat, h: nat, f: (nat, nat) -> Byte, x: nat, y: nat)
    requires x < w && y < h
    ensures Idx(w, x, y) < w * h && TabulateCells(w, h, f)[Idx(w, x, y)] == f(x, y)
  {
    IdxInRange(w, h, x, y);
    IdxDivMod(w, x, y);
    assert TabulateCells(w, h, f)[Idx(w, x, y)] == CellAt(w, h, f, Idx(w, x, y));
  }

  /** A w-by-h grid whose cell (x, y) is f(x, y); the common shape of every rule that writes a whole buffer. */
  function Tabulate(w: nat, h: nat, f: (nat, nat) -> Byte): (r: Grid)
    ensures Valid(r) && r.w == w && r.h == h
    ensures forall x: nat, y: nat :: x < w && y < h ==> Get(r, x, y) == f(x, y)
  {
    var r := Grid(w, h, TabulateCells(w, h, f));
    forall x: nat, y: nat | x < w && y < h
      ensures Get(r, x, y) == f(x, y)
    {
      TabulateAt(w, h, f, x, y);
    }
    r
  }

  /**
   * The grid g with the selected cells rewritten by f and every other cell
   * kept: the shape of a step that updates a random subset of cells.
   */
  function Update(g: Grid, selected: set<(nat, nat)>, f: (nat, nat) -> Byte): (r: Grid)
    requires Valid(g)
    ensures Valid(r) && SameShape(r, g)
    ensures forall x: nat, y: nat :: x < g.w && y < g.h ==>
      Get(r, x, y) == if (x, y) in selected then f(x, y) else Get(g, x, y)
  {
    Tabulate(g.w, g.h, (x: nat, y: nat) => UpdatedAt(g, selected, f, x, y))
  }

  /** The code Update gives cell (x, y); 0 off the grid, where it is never read. */
  function UpdatedAt(g: Grid, selected: set<(nat, nat)>, f: (nat, nat) -> Byte, x: nat, y: nat): Byte {
    if Valid(g) && x < g.w && y < g.h then
      if (x, y) in selected then f(x, y) else Get(g, x, y)
    else 0
  }

  /** Rewriting one cell is the update that selects that cell alone. */
  lemma SetIsUpdate(g: Grid, x: nat, y: nat, f: (nat, nat) -> Byte)
    requires Valid(g) && x < g.w && y < g.h
    ensures Set(g, x, y, f(x, y)) == Update(g, {(x, y)}, f)
  {
    var a, b := Set(g, x, y, f(x, y)), Update(g, {(x, y)}, f);
    forall x': nat, y': nat | x' < g.w && y' < g.h
      ensures Get(a, x', y') == Get(b, x', y')
    {
      if (x', y') != (x, y) {
        assert (x', y') !in {(x, y)};
      }
    }
    Extensionality(a, b);
  }

  /** A fresh zero-filled grid (grid.rs `new`). */
  function New(w: nat, h: nat): (r: Grid)
    ensures Valid(r) && r.w == w && r.h == h && |r.cells| == w * h
    ensures forall x: nat, y: nat :: x < w && y < h ==> Get(r, x, y) == 0
  {
    var n := Idx(w, 0, h);
    IdxLength(w, h);
    var r := Grid(w, h, seq(n, _ => 0));
    forall x: nat, y: nat | x < w && y < h
      ensures Get(r, x, y) == 0
    {
      IdxInRange(w, h, x, y);
    }
    r
  }

  /** Overwrites every cell with v (grid.rs `fill`). */
  function Fill(g: Grid, v: Byte): (r: Grid)
    requires Valid(g)
    ensures Valid(r) && SameShape(r, g)
    ensures forall x: nat, y: nat :: x < g.w && y < g.h ==> Get(r, x, y) == v
  {
    var r := Grid(g.w, g.h, seq(|g.cells|, _ => v));
    forall x: nat, y: nat | x < g.w && y < g.h
      ensures Get(r, x, y) == v
    {
      IdxInRange(g.w, g.h, x, y);
    }
    r
  }

  /**
   * Exchanges the two backing vectors (grid.rs `swap`). Each grid keeps its
   * own width and height and no dimension check is made, so a grid comes out
   * valid exactly when the vector it received fits its own dimensions.
   */
  function Swap(a: Grid, b: Grid): (r: (Grid, Grid))
    ensures SameShape(r.0, a) && SameShape(r.1, b)
    ensures r.0.cells == b.cells && r.1.cells == a.cells
    ensures Valid(r.0) <==> |b.cells| == a.w * a.h
    ensures Valid(r.1) <==> |a.cells| == b.w * b.h
  {
    (a.(cells := b.cells), b.(cells := a.cells))
  }

  /** Swapping twice restores both grids. */
  lemma SwapInvolution(a: Grid, b: Grid)
    ensures Swap(Swap(a, b).0, Swap(a, b).1) == (a, b)
  {
  }

  /** Two valid grids of one shape that agree on every coordinate are equal. */
  lemma Extensionality(a: Grid, b: Grid)
    requires Valid(a) && Valid(b) && SameShape(a, b)
    requires forall x: nat, y: nat :: x < a.w && y < a.h ==> Get(a, x, y) == Get(b, x, y)
    ensures a == b
  {
    forall i | 0 <= i < |a.cells|
      ensures a.cells[i] == b.cells[i]
    {
      IndexCoords(a.w, a.h, i);
      assert Get(a, i % a.w, i / a.w) == Get(b, i % a.w, i / a.w);
    }
  }
}
