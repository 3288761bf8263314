/**
 * The maze generator (automata/mazegenerator.rs): a depth-first carver that
 * advances one move per step. Its mutable state (a started flag and a stack of
 * odd cells) is an explicit value here, threaded through each step; the random
 * choice among the candidate moves is the parameter `pick`.
 */
module MazeGenerator {
  import opened Grids

  /** A grid coordinate (x, y). */
  type Coord = (nat, nat)

  /** The carver's state: whether the start has been placed, and the stack of cells still being explored. */
  datatype State = State(started: bool, stack: seq<Coord>)

  /** `MazeGenerator::new`: not started, empty stack. */
  function New(): (s: State)
    ensures !s.started && s.stack == []
  {
    State(false, [])
  }

  /** `init`: fills the grid with walls (1). The carver's state is left as it is. */
  function Init(g: Grid): (r: Grid)
    requires Valid(g)
    ensures Valid(r) && SameShape(r, g)
    ensures forall x: nat, y: nat :: x < g.w && y < g.h ==> Get(r, x, y) == 1
  {
    Fill(g, 1)
  }

  /**
   * Whether (nx, ny) is a move from (x, y): two cells away along one axis,
   * strictly inside the border, and still a wall.
   */
  predicate IsCandidate(g: Grid, x: nat, y: nat, nx: nat, ny: nat)
    requires Valid(g)
  {
    && (((nx == x - 2 || nx == x + 2) && ny == y) || (nx == x && (ny == y - 2 || ny == y + 2)))
    && 0 < nx < g.w - 1 && 0 < ny < g.h - 1
    && Get(g, nx, ny) == 1
  }

  /** One direction of the candidate loop: the target as a one-element list if it qualifies. */
  function Probe(g: Grid, nx: int, ny: int): (cs: seq<Coord>)
    requires Valid(g)
    ensures |cs| <= 1
    ensures forall k :: 0 <= k < |cs| ==> cs[k] == (nx, ny)
  {
    if 0 < nx < g.w - 1 && 0 < ny < g.h - 1 && Get(g, nx, ny) == 1 then [(nx, ny)] else []
  }

  /**
   * The candidate moves from (x, y), probed left, right, up, down. A coordinate
   * is listed exactly when it is a move, and no move is listed twice.
   */
  function Candidates(g: Grid, x: nat, y: nat): (cs: seq<Coord>)
    requires Valid(g)
    ensures |cs| <= 4
    ensures forall nx: nat, ny: nat :: (nx, ny) in cs <==> IsCandidate(g, x, y, nx, ny)
    ensures forall k, l :: 0 <= k < l < |cs| ==> cs[k] != cs[l]
  {
    Probe(g, x - 2, y) + Probe(g, x + 2, y) + Probe(g, x, y - 2) + Probe(g, x, y + 2)
  }

  /** The wall cell between a cell and a move from it. */
  function Mid(a: Coord, b: Coord): Coord {
    ((a.0 + b.0) / 2, (a.1 + b.1) / 2)
  }

  /** Two cells a move apart: two steps along one axis. */
  predicate TwoApart(a: Coord, b: Coord) {
    ((a.0 == b.0 + 2 || b.0 == a.0 + 2) && a.1 == b.1) || (a.0 == b.0 && (a.1 == b.1 + 2 || b.1 == a.1 + 2))
  }

  /** A move from the stack's top lands strictly inside, and so does the wall between. */
  lemma CandidateGeometry(g: Grid, x: nat, y: nat, nx: nat, ny: nat)
    requires Valid(g) && IsCandidate(g, x, y, nx, ny)
    ensures TwoApart((x, y), (nx, ny))
    ensures Mid((x, y), (nx, ny)).0 < g.w && Mid((x, y), (nx, ny)).1 < g.h
    ensures Mid((x, y), (nx, ny)) != (nx, ny)
  {
  }

  /** What `step` demands: the start (1, 1) on the grid before the first step, and a non-empty grid while the stack is not empty. */
  predicate CanStep(s: State, g: Grid) {
    && Valid(g)
    && (!s.started ==> g.w >= 2 && g.h >= 2)
    && (s.started && s.stack != [] ==> g.w >= 1 && g.h >= 1)
  }

  /**
   * `step`: `next` is first overwritten with a copy of `current`, so its old
   * contents do not matter and the output is the copy with at most two cells
   * carved. The first step carves (1, 1) and pushes it. Later steps look at the
   * top of the stack: no stack, nothing happens; no move, the top is popped;
   * otherwise the move chosen by `pick` and the wall before it are carved and
   * the move is pushed.
   */
  function Step(s: State, current: Grid, pick: nat): (r: (Grid, State))
    requires CanStep(s, current)
    ensures Valid(r.0) && SameShape(r.0, current) && r.1.started
    ensures !s.started ==>
      && r.1.stack == s.stack + [(1, 1)]
      && forall x: nat, y: nat :: x < current.w && y < current.h ==>
           Get(r.0, x, y) == if (x, y) == (1, 1) then 0 else Get(current, x, y)
    ensures s.started && s.stack == [] ==> r == (current, s)
    ensures s.started && s.stack != [] ==>
      var top := s.stack[|s.stack| - 1];
      var cs := Candidates(current, top.0, top.1);
      && (cs == [] ==> r == (current, State(true, s.stack[..|s.stack| - 1])))
      && (cs != [] ==>
           var c := cs[pick % |cs|];
           && IsCandidate(current, top.0, top.1, c.0, c.1)
           && r.1.stack == s.stack + [c]
           && forall x: nat, y: nat :: x < current.w && y < current.h ==>
                Get(r.0, x, y) == if (x, y) == c || (x, y) == Mid(top, c) then 0 else Get(current, x, y))
  {
    var copy := current;
    if !s.started then
      (Set(copy, 1, 1, 0), State(true, s.stack + [(1, 1)]))
    else if s.stack == [] then
      (copy, s)
    else
      var top := s.stack[|s.stack| - 1];
      var cs := Candidates(copy, top.0, top.1);
      if cs == [] then
        (copy, State(true, s.stack[..|s.stack| - 1]))
      else
        var c := cs[pick % |cs|];
        CandidateGeometry(copy, top.0, top.1, c.0, c.1);
        var m := Mid(top, c);
        (Set(Set(copy, m.0, m.1, 0), c.0, c.1, 0), State(true, s.stack + [c]))
  }

  /** The carver only ever opens cells: every cell keeps its code or becomes 0, and open cells stay open. */
  lemma StepOnlyCarves(s: State, current: Grid, pick: nat)
    requires CanStep(s, current)
    ensures var g := Step(s, current, pick).0;
      forall x: nat, y: nat :: x < current.w && y < current.h ==>
        (Get(g, x, y) == Get(current, x, y) || Get(g, x, y) == 0)
  {
  }

  /** A cell the step pushes was a wall in `current` and is open in the output. */
  lemma PushedWasWallNowOpen(s: State, current: Grid, pick: nat)
    requires CanStep(s, current) && s.started
    ensures var r := Step(s, current, pick);
      |r.1.stack| > |s.stack| ==>
        var c := r.1.stack[|r.1.stack| - 1];
        c.0 < current.w && c.1 < current.h && Get(current, c.0, c.1) == 1 && Get(r.0, c.0, c.1) == 0
  {
  }

  predicate Odd(n: nat) {
    n % 2 == 1
  }

  /** Every stacked cell has odd coordinates, lies strictly inside the border and is open. */
  predicate StackedOpen(st: seq<Coord>, g: Grid)
    requires Valid(g)
  {
    forall k :: 0 <= k < |st| ==>
      Odd(st[k].0) && Odd(st[k].1) && 0 < st[k].0 < g.w - 1 && 0 < st[k].1 < g.h - 1 && Get(g, st[k].0, st[k].1) == 0
  }

  /** No cell is stacked twice. */
  predicate Distinct(st: seq<Coord>) {
    forall k, l :: 0 <= k < l < |st| ==> st[k] != st[l]
  }

  /** Consecutive stacked cells are a move apart with the wall between them open. */
  predicate Corridor(st: seq<Coord>, g: Grid)
    requires Valid(g)
  {
    forall k :: 0 < k < |st| ==>
      TwoApart(st[k - 1], st[k]) && Mid(st[k - 1], st[k]).0 < g.w && Mid(st[k - 1], st[k]).1 < g.h
      && Get(g, Mid(st[k - 1], st[k]).0, Mid(st[k - 1], st[k]).1) == 0
  }

  /**
   * The invariant of the depth-first search: before the start nothing is
   * stacked, and the stack is an open corridor of distinct odd inner cells
   * leading back to the start.
   */
  predicate Inv(s: State, g: Grid)
    requires Valid(g)
  {
    (!s.started ==> s.stack == []) && StackedOpen(s.stack, g) && Distinct(s.stack) && Corridor(s.stack, g)
  }

  /** A fresh carver satisfies the invariant on any grid. */
  lemma NewSatisfiesInv(g: Grid)
    requires Valid(g)
    ensures Inv(New(), g)
  {
  }

  /** g2 has the shape of g, and every cell of g2 is the cell of g or open. */
  predicate OnlyCarved(g: Grid, g2: Grid)
    requires Valid(g) && Valid(g2)
  {
    SameShape(g, g2) && forall x: nat, y: nat :: x < g.w && y < g.h ==> (Get(g2, x, y) == Get(g, x, y) || Get(g2, x, y) == 0)
  }

  /** Opening more cells keeps the invariant. */
  lemma InvUnderCarving(s: State, g: Grid, g2: Grid)
    requires Valid(g) && Valid(g2) && OnlyCarved(g, g2) && Inv(s, g)
    ensures Inv(s, g2)
  {
    forall k | 0 <= k < |s.stack|
      ensures Get(g2, s.stack[k].0, s.stack[k].1) == 0
    {
      assert Get(g, s.stack[k].0, s.stack[k].1) == 0;
    }
    forall k | 0 < k < |s.stack|
      ensures var m := Mid(s.stack[k - 1], s.stack[k]); Get(g2, m.0, m.1) == 0
    {
      var m := Mid(s.stack[k - 1], s.stack[k]);
      assert Get(g, m.0, m.1) == 0;
    }
  }

  /** Popping the top keeps the invariant. */
  lemma InvAfterPop(s: State, g: Grid)
    requires Valid(g) && Inv(s, g) && s.stack != []
    ensures Inv(State(true, s.stack[..|s.stack| - 1]), g)
  {
  }

  lemma PushStackedOpen(st: seq<Coord>, g: Grid, c: Coord)
    requires Valid(g) && StackedOpen(st, g)
    requires Odd(c.0) && Odd(c.1) && 0 < c.0 < g.w - 1 && 0 < c.1 < g.h - 1 && Get(g, c.0, c.1) == 0
    ensures StackedOpen(st + [c], g)
  {
    forall k | 0 <= k < |st + [c]|
      ensures var d := (st + [c])[k]; Odd(d.0) && Odd(d.1) && 0 < d.0 < g.w - 1 && 0 < d.1 < g.h - 1 && Get(g, d.0, d.1) == 0
    {
      if k < |st| {
        assert (st + [c])[k] == st[k];
      }
    }
  }

  /** A move keeps both coordinates odd. */
  lemma MoveKeepsParity(a: Coord, b: Coord)
    requires TwoApart(a, b) && Odd(a.0) && Odd(a.1)
    ensures Odd(b.0) && Odd(b.1)
  {
  }

  /** A wall is not on the stack. */
  lemma WallNotStacked(st: seq<Coord>, g: Grid, c: Coord)
    requires Valid(g) && StackedOpen(st, g) && c.0 < g.w && c.1 < g.h && Get(g, c.0, c.1) == 1
    ensures c !in st
  {
    forall k | 0 <= k < |st|
      ensures st[k] != c
    {
      assert Get(g, st[k].0, st[k].1) == 0;
    }
  }

  lemma PushDistinct(st: seq<Coord>, c: Coord)
    requires Distinct(st) && c !in st
    ensures Distinct(st + [c])
  {
  }

  lemma PushCorridor(st: seq<Coord>, g: Grid, c: Coord)
    requires Valid(g) && Corridor(st, g) && st != []
    requires TwoApart(st[|st| - 1], c)
    requires var m := Mid(st[|st| - 1], c); m.0 < g.w && m.1 < g.h && Get(g, m.0, m.1) == 0
    ensures Corridor(st + [c], g)
  {
    forall k | 0 < k < |st + [c]|
      ensures var a, b := (st + [c])[k - 1], (st + [c])[k];
        TwoApart(a, b) && Mid(a, b).0 < g.w && Mid(a, b).1 < g.h && Get(g, Mid(a, b).0, Mid(a, b).1) == 0
    {
      if k < |st| {
        assert (st + [c])[k - 1] == st[k - 1] && (st + [c])[k] == st[k];
      } else {
        assert (st + [c])[k - 1] == st[|st| - 1] && (st + [c])[k] == c;
      }
    }
  }

  /** Pushing a move from the top, once it and the wall before it are open, keeps the invariant. */
  lemma InvAfterPush(s: State, g: Grid, g2: Grid, c: Coord)
    requires Valid(g) && Valid(g2) && Inv(s, g) && s.started && s.stack != []
    requires IsCandidate(g, s.stack[|s.stack| - 1].0, s.stack[|s.stack| - 1].1, c.0, c.1)
    requires OnlyCarved(g, g2)
    requires Get(g2, c.0, c.1) == 0
    requires var m := Mid(s.stack[|s.stack| - 1], c); m.0 < g.w && m.1 < g.h && Get(g2, m.0, m.1) == 0
    ensures Inv(State(true, s.stack + [c]), g2)
  {
    var top := s.stack[|s.stack| - 1];
    InvUnderCarving(s, g, g2);
    CandidateGeometry(g, top.0, top.1, c.0, c.1);
    assert Odd(top.0) && Odd(top.1);
    MoveKeepsParity(top, c);
    PushStackedOpen(s.stack, g2, c);
    WallNotStacked(s.stack, g, c);
    PushDistinct(s.stack, c);
    PushCorridor(s.stack, g2, c);
  }

  /**
   * Why StepPreservesInv asks for 3 x 3: on a 2 x 2 grid of walls the first
   * step stacks (1, 1), which lies on the border, so the invariant breaks.
   */
  lemma SmallGridBreaksInv()
    ensures var g := Fill(Grids.New(2, 2), 1);
      && Inv(New(), g) && CanStep(New(), g)
      && Step(New(), g, 0).1.stack == [(1, 1)]
      && !Inv(Step(New(), g, 0).1, Step(New(), g, 0).0)
  {
    var g := Fill(Grids.New(2, 2), 1);
    var r := Step(New(), g, 0);
    assert r.1.stack[0] == (1, 1) && !(1 < g.w - 1);
    assert !StackedOpen(r.1.stack, r.0);
  }

  /** Once the invariant holds, every step may run; and on a grid of at least 3 x 3 each step preserves it. */
  lemma StepPreservesInv(s: State, current: Grid, pick: nat)
    requires Valid(current) && current.w >= 3 && current.h >= 3 && Inv(s, current)
    ensures CanStep(s, current)
    ensures var r := Step(s, current, pick); Inv(r.1, r.0)
  {
    var r := Step(s, current, pick);
    StepOnlyCarves(s, current, pick);
    assert OnlyCarved(current, r.0);
    if !s.started {
      InvUnderCarving(State(true, []), current, r.0);
    } else if s.stack != [] {
      var top := s.stack[|s.stack| - 1];
      var cs := Candidates(current, top.0, top.1);
      if cs == [] {
        InvAfterPop(s, current);
      } else {
        var c := cs[pick % |cs|];
        CandidateGeometry(current, top.0, top.1, c.0, c.1);
        InvAfterPush(s, current, r.0, c);
      }
    }
  }

  /** The cell a step pushes, if it pushes one. */
  function Pushed(before: State, after: State): seq<Coord> {
    if |after.stack| > |before.stack| then [after.stack[|after.stack| - 1]] else []
  }

  /**
   * A run of steps with the given picks, each step reading the grid the one
   * before it produced (the engine's swap hands the output back as `current`).
   * Answers the final grid, the final state and every cell pushed, in order.
   */
  function Run(s: State, g: Grid, picks: seq<nat>): (r: (Grid, State, seq<Coord>))
    requires Valid(g) && g.w >= 3 && g.h >= 3 && Inv(s, g)
    ensures Valid(r.0) && SameShape(r.0, g) && Inv(r.1, r.0)
    decreases |picks|
  {
    if picks == [] then (g, s, [])
    else
      StepPreservesInv(s, g, picks[0]);
      var (g1, s1) := Step(s, g, picks[0]);
      var rest := Run(s1, g1, picks[1..]);
      (rest.0, rest.1, Pushed(s, s1) + rest.2)
  }

  /** Once the carver has started, a cell that is open is never pushed and stays open. */
  lemma {:induction false} OpenNeverPushed(s: State, g: Grid, picks: seq<nat>, c: Coord)
    requires Valid(g) && g.w >= 3 && g.h >= 3 && Inv(s, g) && s.started
    requires c.0 < g.w && c.1 < g.h && Get(g, c.0, c.1) == 0
    ensures var r := Run(s, g, picks); c !in r.2 && Get(r.0, c.0, c.1) == 0
    decreases |picks|
  {
    if picks != [] {
      StepPreservesInv(s, g, picks[0]);
      var (g1, s1) := Step(s, g, picks[0]);
      StepOnlyCarves(s, g, picks[0]);
      PushedWasWallNowOpen(s, g, picks[0]);
      OpenNeverPushed(s1, g1, picks[1..], c);
    }
  }

  /** A step pushes at most one cell, on the grid and open in the output, and leaves the carver started. */
  lemma PushedOpen(s: State, g: Grid, pick: nat)
    requires CanStep(s, g)
    ensures var r := Step(s, g, pick);
      && r.1.started && |Pushed(s, r.1)| <= 1
      && forall c :: c in Pushed(s, r.1) ==> c.0 < g.w && c.1 < g.h && Get(r.0, c.0, c.1) == 0
  {
    if s.started {
      PushedWasWallNowOpen(s, g, pick);
    }
  }

  /** Putting a cell that does not occur in front of a repetition-free list keeps it free of repeats. */
  lemma ConsDistinct(c: Coord, st: seq<Coord>)
    requires Distinct(st) && c !in st
    ensures Distinct([c] + st)
  {
    forall k, l | 0 <= k < l < |[c] + st|
      ensures ([c] + st)[k] != ([c] + st)[l]
    {
      assert ([c] + st)[l] == st[l - 1];
      if k > 0 {
        assert ([c] + st)[k] == st[k - 1];
      }
    }
  }

  /** A run of at least one step is that step followed by the run of the remaining picks. */
  lemma RunCons(s: State, g: Grid, picks: seq<nat>)
    requires Valid(g) && g.w >= 3 && g.h >= 3 && Inv(s, g) && picks != []
    ensures CanStep(s, g)
    ensures var step := Step(s, g, picks[0]);
      && Valid(step.0) && SameShape(step.0, g) && Inv(step.1, step.0)
      && Run(s, g, picks).2 == Pushed(s, step.1) + Run(step.1, step.0, picks[1..]).2
      && Run(s, g, picks).0 == Run(step.1, step.0, picks[1..]).0
  {
    StepPreservesInv(s, g, picks[0]);
  }

  /** Over any run, no cell is pushed twice: once carved a cell is no longer a wall, so never a candidate again. */
  lemma {:induction false} RunPushesDistinct(s: State, g: Grid, picks: seq<nat>)
    requires Valid(g) && g.w >= 3 && g.h >= 3 && Inv(s, g)
    ensures Distinct(Run(s, g, picks).2)
    decreases |picks|
  {
    if picks != [] {
      RunCons(s, g, picks);
      var step := Step(s, g, picks[0]);
      var rest := Run(step.1, step.0, picks[1..]).2;
      RunPushesDistinct(step.1, step.0, picks[1..]);
      PushedOpen(s, g, picks[0]);
      var p := Pushed(s, step.1);
      if p != [] {
        OpenNeverPushed(step.1, step.0, picks[1..], p[0]);
        ConsDistinct(p[0], rest);
        assert p == [p[0]];
      }
    }
  }

  /** Every cell pushed during a run is on the grid and open at its end. */
  lemma {:induction false} RunPushesOpen(s: State, g: Grid, picks: seq<nat>)
    requires Valid(g) && g.w >= 3 && g.h >= 3 && Inv(s, g)
    ensures var r := Run(s, g, picks);
      forall c :: c in r.2 ==> c.0 < g.w && c.1 < g.h && Get(r.0, c.0, c.1) == 0
    decreases |picks|
  {
    if picks != [] {
      RunCons(s, g, picks);
      var step := Step(s, g, picks[0]);
      RunPushesOpen(step.1, step.0, picks[1..]);
      PushedOpen(s, g, picks[0]);
      var p := Pushed(s, step.1);
      if p != [] {
        OpenNeverPushed(step.1, step.0, picks[1..], p[0]);
        assert p == [p[0]];
      }
    }
  }
}
