/**
 * Conway's Game of Life on a torus (automata/life.rs): eight neighbours with
 * wrap-around, birth on exactly 3, survival on 2 or 3, any nonzero code
 * counting as alive. The step takes no stepping factor: every cell is updated.
 */
module Life {
  import opened Grids
  import Torus

  /** The eight neighbour coordinates of (x, y), by modular arithmetic. */
  function Moore(w: nat, h: nat, x: nat, y: nat): seq<(int, int)>
    requires w > 0 && h > 0
  {
    [ ((x - 1) % w, (y - 1) % h), (x, (y - 1) % h), ((x + 1) % w, (y - 1) % h),
      ((x - 1) % w, y),                             ((x + 1) % w, y),
      ((x - 1) % w, (y + 1) % h), (x, (y + 1) % h), ((x + 1) % w, (y + 1) % h) ]
  }

  /** Whether the coordinate lies on the grid and holds a nonzero code. */
  predicate LiveAt(g: Grid, c: (int, int))
    requires Valid(g)
  {
    0 <= c.0 < g.w && 0 <= c.1 < g.h && Get(g, c.0, c.1) != 0
  }

  /** How many entries of the list are live coordinates, counted with repetition. */
  function LiveAmong(g: Grid, cs: seq<(int, int)>): (n: nat)
    requires Valid(g)
    ensures n <= |cs|
  {
    if cs == [] then 0
    else (if LiveAt(g, cs[0]) then 1 else 0) + LiveAmong(g, cs[1..])
  }

  /** The source's `(code != 0) as u8`. */
  function Live(v: Byte): nat {
    if v != 0 then 1 else 0
  }

  /** The reference count, unfolded over its eight entries in the source's order. */
  lemma MooreUnfold(g: Grid, x: nat, y: nat)
    requires Valid(g) && x < g.w && y < g.h
    ensures var xm1, xp1 := Torus.Dec(x, g.w), Torus.Inc(x, g.w);
      var ym1, yp1 := Torus.Dec(y, g.h), Torus.Inc(y, g.h);
      LiveAmong(g, Moore(g.w, g.h, x, y)) ==
        Live(Get(g, xm1, ym1)) + Live(Get(g, x, ym1)) + Live(Get(g, xp1, ym1))
        + Live(Get(g, xm1, y)) + Live(Get(g, xp1, y))
        + Live(Get(g, xm1, yp1)) + Live(Get(g, x, yp1)) + Live(Get(g, xp1, yp1))
  {
    var xm1, xp1 := Torus.Dec(x, g.w), Torus.Inc(x, g.w);
    var ym1, yp1 := Torus.Dec(y, g.h), Torus.Inc(y, g.h);
    var m := Moore(g.w, g.h, x, y);
    assert LiveAmong(g, m[8..]) == 0;
    assert LiveAmong(g, m[7..]) == Live(Get(g, xp1, yp1));
    assert LiveAmong(g, m[6..]) == Live(Get(g, x, yp1)) + LiveAmong(g, m[7..]);
    assert LiveAmong(g, m[5..]) == Live(Get(g, xm1, yp1)) + LiveAmong(g, m[6..]);
    assert LiveAmong(g, m[4..]) == Live(Get(g, xp1, y)) + LiveAmong(g, m[5..]);
    assert LiveAmong(g, m[3..]) == Live(Get(g, xm1, y)) + LiveAmong(g, m[4..]);
    assert LiveAmong(g, m[2..]) == Live(Get(g, xp1, ym1)) + LiveAmong(g, m[3..]);
    assert LiveAmong(g, m[1..]) == Live(Get(g, x, ym1)) + LiveAmong(g, m[2..]);
    assert LiveAmong(g, m) == Live(Get(g, xm1, ym1)) + LiveAmong(g, m[1..]);
  }

  /**
   * `count_neighbors`: the number of nonzero cells among the eight toroidal
   * neighbours. Cells reached twice on a narrow torus count twice, as in the
   * source, which adds up eight reads.
   */
  function CountNeighbours(g: Grid, x: nat, y: nat): (n: nat)
    requires Valid(g) && x < g.w && y < g.h
    ensures n <= 8
    ensures n == LiveAmong(g, Moore(g.w, g.h, x, y))
  {
    var xm1, xp1 := Torus.Dec(x, g.w), Torus.Inc(x, g.w);
    var ym1, yp1 := Torus.Dec(y, g.h), Torus.Inc(y, g.h);
    MooreUnfold(g, x, y);
    Live(Get(g, xm1, ym1)) + Live(Get(g, x, ym1)) + Live(Get(g, xp1, ym1))
    + Live(Get(g, xm1, y)) + Live(Get(g, xp1, y))
    + Live(Get(g, xm1, yp1)) + Live(Get(g, x, yp1)) + Live(Get(g, xp1, yp1))
  }

  /** The `match (alive, n)` of the step. */
  function Outcome(alive: bool, n: nat): Byte {
    match (alive, n)
    case (true, 2) => 1
    case (true, 3) => 1
    case (false, 3) => 1
    case _ => 0
  }

  /**
   * One synchronous generation: every cell of the output is written, from
   * `current` alone, with 1 exactly on a birth (dead cell, three live
   * neighbours) or a survival (live cell, two or three), and 0 otherwise.
   */
  function Step(current: Grid): (next: Grid)
    requires Valid(current)
    ensures Valid(next) && SameShape(next, current)
    ensures forall x: nat, y: nat :: x < current.w && y < current.h ==>
      var n := LiveAmong(current, Moore(current.w, current.h, x, y));
      Get(next, x, y) == if (Get(current, x, y) != 0 && (n == 2 || n == 3)) || (Get(current, x, y) == 0 && n == 3) then 1 else 0
  {
    Tabulate(current.w, current.h, (x: nat, y: nat) =>
      if x < current.w && y < current.h then Outcome(Get(current, x, y) != 0, CountNeighbours(current, x, y)) else 0)
  }

  /** The step emits only codes 0 and 1. */
  lemma StepIsBinary(current: Grid)
    requires Valid(current)
    ensures var next := Step(current);
      forall x: nat, y: nat :: x < current.w && y < current.h ==> Get(next, x, y) <= 1
  {
  }

  /** Every nonzero code replaced by 1. */
  function Normalise(g: Grid): (r: Grid)
    requires Valid(g)
    ensures Valid(r) && SameShape(r, g)
    ensures forall x: nat, y: nat :: x < g.w && y < g.h ==> Get(r, x, y) == Live(Get(g, x, y))
  {
    Tabulate(g.w, g.h, (x: nat, y: nat) => if x < g.w && y < g.h then Live(Get(g, x, y)) else 0)
  }

  lemma {:induction false} LiveAmongNormalise(g: Grid, cs: seq<(int, int)>)
    requires Valid(g)
    ensures LiveAmong(Normalise(g), cs) == LiveAmong(g, cs)
  {
    if cs != [] {
      LiveAmongNormalise(g, cs[1..]);
    }
  }

  /** Only alive-or-dead matters: the step of a grid equals the step of its 0/1 normalisation. */
  lemma StepSeesOnlyAliveness(g: Grid)
    requires Valid(g)
    ensures Step(Normalise(g)) == Step(g)
  {
    var a, b := Step(Normalise(g)), Step(g);
    forall x: nat, y: nat | x < g.w && y < g.h
      ensures Get(a, x, y) == Get(b, x, y)
    {
      LiveAmongNormalise(g, Moore(g.w, g.h, x, y));
    }
    Extensionality(a, b);
  }

  /** The cells the glider seed sets, anchored at (2, 2). */
  predicate InGlider(x: nat, y: nat) {
    (x, y) in {(3, 2), (4, 3), (2, 4), (3, 4), (4, 4)}
  }

  /**
   * `init`: clears the grid and places a glider. The five writes need a grid of
   * at least 5 x 5; afterwards exactly the five glider cells are 1.
   */
  function Init(g: Grid): (r: Grid)
    requires Valid(g) && g.w >= 5 && g.h >= 5
    ensures Valid(r) && SameShape(r, g)
    ensures forall x: nat, y: nat :: x < g.w && y < g.h ==>
      Get(r, x, y) == if InGlider(x, y) then 1 else 0
  {
    var (x, y) := (2, 2);
    var cleared := Fill(g, 0);
    var g1 := Set(cleared, x + 1, y, 1);
    var g2 := Set(g1, x + 2, y + 1, 1);
    var g3 := Set(g2, x, y + 2, 1);
    var g4 := Set(g3, x + 1, y + 2, 1);
    Set(g4, x + 2, y + 2, 1)
  }
}
