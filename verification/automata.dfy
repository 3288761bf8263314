/**
 * The automata behind the `Automaton` trait (automaton.rs), as one closed
 * datatype. The generator carries its search state in its constructor, so a
 * step returns the automaton that the next step must use. The random draws of
 * a step are gathered in an `Oracle`.
 */
module Automata {
  import opened Grids
  import Dummy
  import Life
  import MazeGenerator
  import MazeSolver

  datatype Automaton =
    | DummyRule
    | LifeRule
    | GeneratorRule(state: MazeGenerator.State)
    | SolverRule

  /**
   * What a step draws at random: the one cell the solver updates when the
   * stepping factor is 0, the cells whose draw falls below the factor
   * otherwise, and the generator's choice among its candidate moves.
   */
  datatype Oracle = Oracle(cell: (nat, nat), selected: set<(nat, nat)>, pick: nat)

  /** `name`: the identifier each automaton answers to. */
  function Name(a: Automaton): string {
    match a
    case DummyRule => "dummy"
    case LifeRule => "life"
    case GeneratorRule(_) => "generator"
    case SolverRule => "mazesolver"
  }

  /** The four names are pairwise different. */
  lemma NamesDistinct(a: Automaton, b: Automaton)
    requires Name(a) == Name(b)
    ensures a.DummyRule? == b.DummyRule? && a.LifeRule? == b.LifeRule?
    ensures a.GeneratorRule? == b.GeneratorRule? && a.SolverRule? == b.SolverRule?
  {
    assert Name(a)[0] == Name(b)[0];
    assert Name(a)[1] == Name(b)[1];
  }

  /** What `init` needs of the grid: the glider fits in 5 x 5, and the solver's walls and endpoints fit. */
  predicate CanInit(a: Automaton, g: Grid) {
    && Valid(g)
    && match a
       case LifeRule => g.w >= 5 && g.h >= 5
       case SolverRule => MazeSolver.CanInit(g)
       case _ => true
  }

  /** `init` of each automaton. */
  function Init(a: Automaton, g: Grid): (r: Grid)
    requires CanInit(a, g)
    ensures Valid(r) && SameShape(r, g)
  {
    match a
    case DummyRule => Dummy.Init(g)
    case LifeRule => Life.Init(g)
    case GeneratorRule(_) => MazeGenerator.Init(g)
    case SolverRule => MazeSolver.Init(g)
  }

  /** Except for the dummy rule, which draws over the grid, `init` forgets what the grid held. */
  lemma InitForgetsGrid(a: Automaton, g: Grid, g': Grid)
    requires CanInit(a, g) && CanInit(a, g') && SameShape(g, g') && !a.DummyRule?
    ensures Init(a, g) == Init(a, g')
  {
    Extensionality(Init(a, g), Init(a, g'));
  }

  /** What `soft_init` needs: only the solver writes, at (1, 1) and (w - 9, h - 10). */
  predicate CanSoftInit(a: Automaton, g: Grid) {
    Valid(g) && (a.SolverRule? ==> g.w >= 9 && g.h >= 10)
  }

  /** `soft_init`: the solver places start and goal; the other automata leave the grid alone. */
  function SoftInit(a: Automaton, g: Grid): (r: Grid)
    requires CanSoftInit(a, g)
    ensures Valid(r) && SameShape(r, g)
    ensures !a.SolverRule? ==> r == g
    ensures a.SolverRule? ==> forall x: nat, y: nat :: x < g.w && y < g.h ==>
      Get(r, x, y) ==
        if (x, y) == (g.w - 9, g.h - 10) then MazeSolver.Goal
        else if (x, y) == (1, 1) then MazeSolver.Start
        else Get(g, x, y)
  {
    if a.SolverRule? then MazeSolver.SoftInit(g) else g
  }

  /** What `step` needs: the two buffers of one shape, and whatever the automaton's own step demands. */
  predicate CanStep(a: Automaton, current: Grid, next: Grid, asyncFact: real, o: Oracle) {
    && Valid(current) && Valid(next) && SameShape(current, next)
    && match a
       case GeneratorRule(s) => MazeGenerator.CanStep(s, current)
       case SolverRule => MazeSolver.CanStep(current, next, asyncFact, o.cell, o.selected)
       case _ => true
  }

  /**
   * `step`: the grid written into `next`, and the automaton after the step.
   * Only the generator has state to change, and it stays a generator.
   */
  function Step(a: Automaton, current: Grid, next: Grid, asyncFact: real, o: Oracle): (r: (Grid, Automaton))
    requires CanStep(a, current, next, asyncFact, o)
    ensures Valid(r.0) && SameShape(r.0, current)
    ensures !a.GeneratorRule? ==> r.1 == a
    ensures a.GeneratorRule? ==> r.1.GeneratorRule?
    ensures Name(r.1) == Name(a)
  {
    match a
    case DummyRule => (Dummy.Step(current), a)
    case LifeRule => (Life.Step(current), a)
    case GeneratorRule(s) =>
      var (g, s') := MazeGenerator.Step(s, current, o.pick);
      (g, GeneratorRule(s'))
    case SolverRule => (MazeSolver.Step(current, next, asyncFact, o.cell, o.selected), a)
  }

  /**
   * The old contents of `next` matter only to the solver's single-cell branch:
   * every other automaton, and the solver with a nonzero factor, writes each
   * cell of the output from `current`.
   */
  lemma StepIgnoresNext(a: Automaton, current: Grid, next: Grid, next': Grid, asyncFact: real, o: Oracle)
    requires CanStep(a, current, next, asyncFact, o) && CanStep(a, current, next', asyncFact, o)
    requires !(a.SolverRule? && asyncFact == 0.0)
    ensures Step(a, current, next, asyncFact, o) == Step(a, current, next', asyncFact, o)
  {
    if a.SolverRule? {
      Extensionality(Step(a, current, next, asyncFact, o).0, Step(a, current, next', asyncFact, o).0);
    }
  }

  /** In the solver's single-cell branch the output is the old `next` with one cell rewritten. */
  lemma SolverSingleCellKeepsNext(current: Grid, next: Grid, o: Oracle)
    requires CanStep(SolverRule, current, next, 0.0, o)
    ensures var g := Step(SolverRule, current, next, 0.0, o).0;
      forall x: nat, y: nat :: x < current.w && y < current.h && (x, y) != o.cell ==> Get(g, x, y) == Get(next, x, y)
  {
  }

  /** The dummy and life rules take neither the stepping factor nor any random draw. */
  lemma DeterministicRules(a: Automaton, current: Grid, next: Grid, next': Grid, f: real, f': real, o: Oracle, o': Oracle)
    requires a.DummyRule? || a.LifeRule?
    requires CanStep(a, current, next, f, o) && CanStep(a, current, next', f', o')
    ensures Step(a, current, next, f, o) == Step(a, current, next', f', o')
  {
  }
}
