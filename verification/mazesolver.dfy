/**
 * The maze solver (automata/mazesolver.rs): an eight-code rule over the four
 * toroidal neighbours that floods outward from the start, marks a route back
 * from the goal, and prunes the route with neighbour counts and 5x5 corner
 * templates. The random draws of the source (the one cell updated when the
 * stepping factor is 0, or the cells selected otherwise) are parameters.
 */
module MazeSolver {
  import opened Grids
  import Torus
  import Patterns
  import PatternMatch

  const Open: Byte := 0
  const Wall: Byte := 1
  const Start: Byte := 2
  const Goal: Byte := 3
  const Frontier: Byte := 4
  const Visited: Byte := 5
  const ToDelete: Byte := 6
  const Route: Byte := 7

  /** The four neighbour codes in the order the source reads them: up, left, right, down, with wrap-around. */
  function Neighbours(g: Grid, x: nat, y: nat): (ns: seq<Byte>)
    requires Valid(g) && x < g.w && y < g.h
    ensures ns == [Get(g, x, (y - 1) % g.h), Get(g, (x - 1) % g.w, y), Get(g, (x + 1) % g.w, y), Get(g, x, (y + 1) % g.h)]
  {
    var xm1, xp1 := Torus.Dec(x, g.w), Torus.Inc(x, g.w);
    var ym1, yp1 := Torus.Dec(y, g.h), Torus.Inc(y, g.h);
    [Get(g, x, ym1), Get(g, xm1, y), Get(g, xp1, y), Get(g, x, yp1)]
  }

  /** `in_neighbors`: probes up, left, right, down in turn and answers at the first neighbour holding code c. */
  function InNeighbours(g: Grid, x: nat, y: nat, c: Byte): (found: bool)
    requires Valid(g) && x < g.w && y < g.h
    ensures found <==> c in Neighbours(g, x, y)
  {
    var ns := Neighbours(g, x, y);
    if ns[0] == c then true
    else if ns[1] == c then true
    else if ns[2] == c then true
    else if ns[3] == c then true
    else false
  }

  /** `get_4neigh_count` indexes an eight-entry table with each neighbour code, so every one must be below 8. */
  predicate CountsDefined(g: Grid, x: nat, y: nat)
    requires Valid(g) && x < g.w && y < g.h
  {
    forall k :: 0 <= k < 4 ==> Neighbours(g, x, y)[k] < 8
  }

  /** The sum of an eight-entry table. */
  function Sum8(l: seq<nat>): nat
    requires |l| == 8
  {
    l[0] + l[1] + l[2] + l[3] + l[4] + l[5] + l[6] + l[7]
  }

  /**
   * The tally of `get_4neigh_count`: an eight-entry table, zero at first,
   * incremented at index c for each code c of the list in turn.
   */
  function Tally(ns: seq<Byte>): (l: seq<nat>)
    requires forall k :: 0 <= k < |ns| ==> ns[k] < 8
    ensures |l| == 8
    ensures forall c :: 0 <= c < 8 ==> l[c] == multiset(ns)[c]
    ensures Sum8(l) == |ns|
    decreases |ns|
  {
    if |ns| == 0 then [0, 0, 0, 0, 0, 0, 0, 0]
    else
      var last, init := ns[|ns| - 1], ns[..|ns| - 1];
      var t := Tally(init);
      assert ns == init + [last];
      CountIncrement(t, init, last);
      SumIncrement(t, last);
      t[last := t[last] + 1]
  }

  /** Counting one more code: the table incremented at c counts the list extended by c. */
  lemma CountIncrement(t: seq<nat>, init: seq<Byte>, c: Byte)
    requires |t| == 8 && c < 8
    requires forall d :: 0 <= d < 8 ==> t[d] == multiset(init)[d]
    ensures forall d :: 0 <= d < 8 ==> t[c := t[c] + 1][d] == multiset(init + [c])[d]
  {
    assert multiset(init + [c]) == multiset(init) + multiset{c};
  }

  lemma SumIncrement(t: seq<nat>, c: nat)
    requires |t| == 8 && c < 8
    ensures Sum8(t[c := t[c] + 1]) == Sum8(t) + 1
  {
  }

  /** `get_4neigh_count`: l[c] is the number of the four neighbours holding code c. */
  function NeighbourCounts(g: Grid, x: nat, y: nat): (l: seq<nat>)
    requires Valid(g) && x < g.w && y < g.h && CountsDefined(g, x, y)
    ensures |l| == 8 && Sum8(l) == 4
    ensures forall c :: 0 <= c < 8 ==> l[c] == multiset(Neighbours(g, x, y))[c]
  {
    Tally(Neighbours(g, x, y))
  }

  /** The library loop of the cleanup: tries the templates in order and stops at the first that matches. */
  function AnyTemplate(g: Grid, x: nat, y: nat, pats: seq<Patterns.Pattern5>): (found: bool)
    requires Valid(g) && x < g.w && y < g.h
    ensures found <==> exists k :: 0 <= k < |pats| && PatternMatch.MatchPattern(g, x, y, pats[k])
  {
    if pats == [] then false
    else if PatternMatch.MatchPattern(g, x, y, pats[0]) then true
    else
      var rest := AnyTemplate(g, x, y, pats[1..]);
      assert rest <==> exists k :: 1 <= k < |pats| && PatternMatch.MatchPattern(g, x, y, pats[k]) by {
        forall k | 1 <= k < |pats|
          ensures pats[k] == pats[1..][k - 1]
        {
        }
      }
      rest
  }

  /**
   * When a route cell is pruned: three or more of its neighbours are open or
   * wall, or two are and one is already marked for deletion, or one of the
   * corner templates matches around it.
   */
  predicate Prunable(g: Grid, x: nat, y: nat)
    requires Valid(g) && x < g.w && y < g.h
  {
    var m := multiset(Neighbours(g, x, y));
    || m[Open] + m[Wall] >= 3
    || (m[Open] + m[Wall] >= 2 && m[ToDelete] >= 1)
    || Template(g, x, y)
  }

  /** Some template of the library matches around (x, y). */
  predicate Template(g: Grid, x: nat, y: nat)
    requires Valid(g) && x < g.w && y < g.h
  {
    exists k :: 0 <= k < |Patterns.AllPatterns| && PatternMatch.MatchPattern(g, x, y, Patterns.AllPatterns[k])
  }

  /**
   * The rule's writes for a cell holding v, given what the neighbourhood
   * shows: a start or frontier neighbour, a goal neighbour, a route
   * neighbour, the two neighbour-count tests of the cleanup and the template
   * test. The source writes v and then overwrites it in the order below, so
   * the last write that applies wins.
   */
  function Overwrite(v: Byte, seeded: bool, goal: bool, route: bool, sparse: bool, besideDeleted: bool, template: bool): (r: Byte)
    ensures v == Open ==> r == if seeded then Frontier else Open
    ensures v == Frontier ==> r == if goal then Route else Visited
    ensures v == Visited ==> r == if route then Route else Visited
    ensures v == Route ==> r == if sparse || besideDeleted || template then ToDelete else Route
    ensures v == ToDelete ==> r == Open
    ensures v != Open && v != Frontier && v != Visited && v != Route && v != ToDelete ==> r == v
  {
    var r0 := v;
    // exploration
    var r1 := if v == Open && seeded then Frontier else r0;
    var r2 := if v == Frontier then Visited else r1;
    var r3 := if v == Frontier && goal then Route else r2;
    // backtracking
    var r4 := if v == Visited && route then Route else r3;
    // cleanup
    var r5 := if v == Route && sparse then ToDelete else r4;
    var r6 := if v == Route && besideDeleted then ToDelete else r5;
    var r7 := if v == Route && template then ToDelete else r6;
    if v == ToDelete then Open else r7
  }

  /** The rule for one selected cell, read from `current` only: `Overwrite` fed with the neighbourhood tests. */
  function Rule(g: Grid, x: nat, y: nat): Byte
    requires Valid(g) && x < g.w && y < g.h && CountsDefined(g, x, y)
  {
    var l := NeighbourCounts(g, x, y);
    Overwrite(Get(g, x, y),
      InNeighbours(g, x, y, Start) || InNeighbours(g, x, y, Frontier),
      InNeighbours(g, x, y, Goal),
      InNeighbours(g, x, y, Route),
      l[1] + l[0] >= 3,
      l[1] + l[0] >= 2 && l[6] >= 1,
      AnyTemplate(g, x, y, Patterns.AllPatterns))
  }

  /**
   * The rule's table: an open cell next to the start or the frontier joins
   * the frontier; a frontier cell becomes route next to the goal and visited
   * otherwise; a visited cell next to the route joins it; a route cell that is
   * prunable is marked for deletion; a cell marked for deletion is opened;
   * walls, start, goal and unknown codes stay.
   */
  lemma RuleTable(g: Grid, x: nat, y: nat)
    requires Valid(g) && x < g.w && y < g.h && CountsDefined(g, x, y)
    ensures Table(Get(g, x, y), Neighbours(g, x, y), Prunable(g, x, y), Rule(g, x, y))
  {
    RuleIsOverwrite(g, x, y);
  }

  /** The table of the rule: r is what a cell holding v becomes, given its neighbour codes ns. */
  predicate Table(v: Byte, ns: seq<Byte>, prunable: bool, r: Byte) {
    && (v == Open ==> r == if Start in ns || Frontier in ns then Frontier else Open)
    && (v == Frontier ==> r == if Goal in ns then Route else Visited)
    && (v == Visited ==> r == if Route in ns then Route else Visited)
    && (v == Route ==> r == if prunable then ToDelete else Route)
    && (v == ToDelete ==> r == Open)
    && (v != Open && v != Frontier && v != Visited && v != Route && v != ToDelete ==> r == v)
  }

  /** Rule in terms of the neighbour list: the tests it feeds to Overwrite, stated without the helper functions. */
  lemma RuleIsOverwrite(g: Grid, x: nat, y: nat)
    requires Valid(g) && x < g.w && y < g.h && CountsDefined(g, x, y)
    ensures var ns := Neighbours(g, x, y); var m := multiset(ns);
      Rule(g, x, y) == Overwrite(Get(g, x, y), Start in ns || Frontier in ns, Goal in ns, Route in ns,
        m[Open] + m[Wall] >= 3, m[Open] + m[Wall] >= 2 && m[ToDelete] >= 1, Template(g, x, y))
  {
    var l := NeighbourCounts(g, x, y);
    var m := multiset(Neighbours(g, x, y));
    assert l[0] == m[Open] && l[1] == m[Wall] && l[6] == m[ToDelete];
  }

  /** The rule maps codes 0..7 to codes 0..7, and start, goal and wall cells never change. */
  lemma RuleKeepsCodes(g: Grid, x: nat, y: nat)
    requires Valid(g) && x < g.w && y < g.h && CountsDefined(g, x, y)
    ensures Get(g, x, y) < 8 ==> Rule(g, x, y) < 8
    ensures Get(g, x, y) in {Wall, Start, Goal} ==> Rule(g, x, y) == Get(g, x, y)
  {
    RuleTable(g, x, y);
  }

  /** Every code of the grid is one of the eight solver codes. */
  predicate CodesBelow8(g: Grid)
    requires Valid(g)
  {
    forall x: nat, y: nat :: x < g.w && y < g.h ==> Get(g, x, y) < 8
  }

  /**
   * `step` with `async_fact == 0`: the rule is applied to the drawn cell
   * (x, y) and written into `next`; no other cell of `next` is written, so
   * the rest of `next` keeps whatever it held on entry.
   */
  function StepOne(current: Grid, next: Grid, x: nat, y: nat): (r: Grid)
    requires Valid(current) && Valid(next) && SameShape(current, next)
    requires x < current.w && y < current.h && CountsDefined(current, x, y)
    ensures Valid(r) && SameShape(r, next)
    ensures Get(r, x, y) == Rule(current, x, y)
    ensures forall x': nat, y': nat :: x' < next.w && y' < next.h && (x' != x || y' != y) ==> Get(r, x', y') == Get(next, x', y')
  {
    Set(next, x, y, Rule(current, x, y))
  }

  /** Every selected cell of the grid has neighbour codes below 8. */
  predicate SelectionDefined(g: Grid, selected: set<(nat, nat)>)
    requires Valid(g)
  {
    forall x: nat, y: nat :: x < g.w && y < g.h && (x, y) in selected ==> CountsDefined(g, x, y)
  }

  /** The rule as a function of the coordinates, for the cells where it is defined; 0 elsewhere. */
  function RuleAt(current: Grid): (nat, nat) -> Byte
    requires Valid(current)
  {
    (x: nat, y: nat) => if x < current.w && y < current.h && CountsDefined(current, x, y) then Rule(current, x, y) else 0
  }

  /**
   * `step` with `async_fact != 0`: every cell of the output is written; the
   * selected cells (those whose draw fell below the factor) by the rule, the
   * others copied from `current`.
   */
  function StepAll(current: Grid, selected: set<(nat, nat)>): (r: Grid)
    requires Valid(current) && SelectionDefined(current, selected)
    ensures Valid(r) && SameShape(r, current)
    ensures forall x: nat, y: nat :: x < current.w && y < current.h ==>
      Get(r, x, y) == if (x, y) in selected then Rule(current, x, y) else Get(current, x, y)
  {
    Update(current, selected, RuleAt(current))
  }

  /** What `step` demands of its inputs and of the random draws standing in for the generator. */
  predicate CanStep(current: Grid, next: Grid, asyncFact: real, cell: (nat, nat), selected: set<(nat, nat)>) {
    && Valid(current) && Valid(next) && SameShape(current, next)
    && (if asyncFact == 0.0
        then cell.0 < current.w && cell.1 < current.h && CountsDefined(current, cell.0, cell.1)
        else SelectionDefined(current, selected))
  }

  /** `step`: one cell when the stepping factor is 0, otherwise the selected cells with copy-through. */
  function Step(current: Grid, next: Grid, asyncFact: real, cell: (nat, nat), selected: set<(nat, nat)>): (r: Grid)
    requires CanStep(current, next, asyncFact, cell, selected)
    ensures Valid(r) && SameShape(r, current)
    ensures asyncFact == 0.0 ==> forall x: nat, y: nat :: x < current.w && y < current.h ==>
      Get(r, x, y) == if (x, y) == cell then Rule(current, x, y) else Get(next, x, y)
    ensures asyncFact != 0.0 ==> forall x: nat, y: nat :: x < current.w && y < current.h ==>
      Get(r, x, y) == if (x, y) in selected then Rule(current, x, y) else Get(current, x, y)
  {
    if asyncFact == 0.0 then StepOne(current, next, cell.0, cell.1) else StepAll(current, selected)
  }

  /**
   * Both branches apply the same rule: updating one cell of a buffer that
   * already holds `current` gives the same grid as selecting only that cell.
   */
  lemma BranchesAgree(current: Grid, x: nat, y: nat)
    requires Valid(current) && x < current.w && y < current.h && CountsDefined(current, x, y)
    ensures StepOne(current, current, x, y) == StepAll(current, {(x, y)})
  {
    assert RuleAt(current)(x, y) == Rule(current, x, y);
    SetIsUpdate(current, x, y, RuleAt(current));
  }

  /** On a grid of solver codes every neighbour code is below 8. */
  lemma CodesDefineCounts(g: Grid, x: nat, y: nat)
    requires Valid(g) && CodesBelow8(g) && x < g.w && y < g.h
    ensures CountsDefined(g, x, y)
  {
    var ns := Neighbours(g, x, y);
    assert ns[0] < 8 && ns[1] < 8 && ns[2] < 8 && ns[3] < 8;
  }

  /** On a grid of solver codes every cell can be updated, and the output again holds only solver codes. */
  lemma StepKeepsCodes(current: Grid, next: Grid, asyncFact: real, cell: (nat, nat), selected: set<(nat, nat)>)
    requires Valid(current) && Valid(next) && SameShape(current, next) && CodesBelow8(current) && CodesBelow8(next)
    requires asyncFact == 0.0 ==> cell.0 < current.w && cell.1 < current.h
    ensures CanStep(current, next, asyncFact, cell, selected)
    ensures CodesBelow8(Step(current, next, asyncFact, cell, selected))
  {
    forall x: nat, y: nat | x < current.w && y < current.h
      ensures CountsDefined(current, x, y) && Rule(current, x, y) < 8
    {
      CodesDefineCounts(current, x, y);
      RuleKeepsCodes(current, x, y);
    }
    var r := Step(current, next, asyncFact, cell, selected);
    forall x: nat, y: nat | x < current.w && y < current.h
      ensures Get(r, x, y) < 8
    {
      if asyncFact == 0.0 && (x, y) != cell {
        assert Get(r, x, y) == Get(next, x, y);
      } else if asyncFact != 0.0 && (x, y) !in selected {
        assert Get(r, x, y) == Get(current, x, y);
      }
    }
  }

  /** The cells `init` stamps as wall: the border, row 15 left of column 60 and row 25 right of column 30. */
  predicate IsWall(w: nat, h: nat, x: nat, y: nat) {
    y == 0 || y == h - 1 || x == 0 || x == w - 1 || (y == 15 && x < 60) || (y == 25 && x > 30)
  }

  /** The walls of `init`'s first loop, for one column x. */
  predicate RowWall(h: nat, x: nat, y: nat) {
    y == 0 || y == h - 1 || (y == 15 && x < 60) || (y == 25 && x > 30)
  }

  /** What `init`'s writes demand: the start and goal of `soft_init`, and rows 15 and 25 where they are written. */
  predicate CanInit(g: Grid) {
    g.w >= 9 && g.h >= 16 && (g.w > 31 ==> g.h >= 26)
  }

  /** One pass of `init`'s first loop: column x gets its top, bottom, row-15 and row-25 walls. */
  function WallColumn(g: Grid, x: nat): (r: Grid)
    requires Valid(g) && x < g.w && g.h >= 16 && (x > 30 ==> g.h >= 26)
    ensures Valid(r) && SameShape(r, g)
    ensures forall a: nat, b: nat :: a < g.w && b < g.h ==>
      Get(r, a, b) == if a == x && RowWall(g.h, a, b) then Wall else Get(g, a, b)
  {
    var g1 := Set(g, x, 0, Wall);
    var g2 := Set(g1, x, g.h - 1, Wall);
    var g3 := if x < 60 then Set(g2, x, 15, Wall) else g2;
    if x > 30 then Set(g3, x, 25, Wall) else g3
  }

  /** `init`'s first loop, from column x to the last. */
  function WallRowsFrom(g: Grid, x: nat): (r: Grid)
    requires Valid(g) && x <= g.w && g.h >= 16 && (g.w > 31 ==> g.h >= 26)
    ensures Valid(r) && SameShape(r, g)
    ensures forall a: nat, b: nat :: a < g.w && b < g.h ==>
      Get(r, a, b) == if a >= x && RowWall(g.h, a, b) then Wall else Get(g, a, b)
    decreases g.w - x
  {
    if x == g.w then g else WallRowsFrom(WallColumn(g, x), x + 1)
  }

  /** `init`'s second loop, from row y to the last: the left and right border cells. */
  function WallSidesFrom(g: Grid, y: nat): (r: Grid)
    requires Valid(g) && y <= g.h && g.w >= 1
    ensures Valid(r) && SameShape(r, g)
    ensures forall a: nat, b: nat :: a < g.w && b < g.h ==>
      Get(r, a, b) == if b >= y && (a == 0 || a == g.w - 1) then Wall else Get(g, a, b)
    decreases g.h - y
  {
    if y == g.h then g else WallSidesFrom(Set(Set(g, 0, y, Wall), g.w - 1, y, Wall), y + 1)
  }

  /**
   * `soft_init`: stamps the start at (1, 1) and then the goal at
   * (w - 9, h - 10), so the goal wins if they coincide; nothing else changes.
   */
  function SoftInit(g: Grid): (r: Grid)
    requires Valid(g) && g.w >= 9 && g.h >= 10
    ensures Valid(r) && SameShape(r, g)
    ensures forall x: nat, y: nat :: x < g.w && y < g.h ==>
      Get(r, x, y) == if (x, y) == (g.w - 9, g.h - 10) then Goal else if (x, y) == (1, 1) then Start else Get(g, x, y)
  {
    Set(Set(g, 1, 1, Start), g.w - 9, g.h - 10, Goal)
  }

  /**
   * `init`: clears the grid, walls the border and the two interior rows, then
   * places start and goal. The result is the same whatever the grid held.
   */
  function Init(g: Grid): (r: Grid)
    requires Valid(g) && CanInit(g)
    ensures Valid(r) && SameShape(r, g)
    ensures forall x: nat, y: nat :: x < g.w && y < g.h ==>
      Get(r, x, y) ==
        if (x, y) == (g.w - 9, g.h - 10) then Goal
        else if (x, y) == (1, 1) then Start
        else if IsWall(g.w, g.h, x, y) then Wall
        else Open
  {
    SoftInit(WallSidesFrom(WallRowsFrom(Fill(g, Open), 0), 0))
  }
}
