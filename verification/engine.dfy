/**
 * The simulation engine (engine.rs): a current grid, a second buffer of the
 * same shape that the automaton writes into, the automaton and the stepping
 * factor. A step writes the next generation into the buffer and then swaps
 * the two buffers' cells.
 */
module Engines {
  import opened Grids
  import Automata
  import Dummy
  import Life
  import MazeGenerator
  import MazeSolver

  datatype Engine = Engine(current: Grid, next: Grid, automaton: Automata.Automaton, asyncFact: real)

  /** The engine's invariant: both buffers well formed and of one shape. */
  predicate Inv(e: Engine) {
    Valid(e.current) && Valid(e.next) && SameShape(e.current, e.next)
  }

  /** Every cell is 0. */
  predicate Cleared(g: Grid)
    requires Valid(g)
  {
    forall x: nat, y: nat :: x < g.w && y < g.h ==> Get(g, x, y) == 0
  }

  /** `Engine::new`: two w x h buffers of zeros, then the automaton seeds the current one. */
  function New(w: nat, h: nat, asyncFact: real, a: Automata.Automaton): (e: Engine)
    requires Automata.CanInit(a, Grids.New(w, h))
    ensures Inv(e) && e.current.w == w && e.current.h == h
    ensures Cleared(e.next) && e.automaton == a && e.asyncFact == asyncFact
    ensures e.current == Automata.Init(a, Grids.New(w, h))
  {
    var current := Automata.Init(a, Grids.New(w, h));
    Engine(current, Grids.New(w, h), a, asyncFact)
  }

  /**
   * `set_automaton`: the new automaton seeds the current grid as it stands
   * (its `init` is not preceded by a clear) and the buffer is replaced by
   * zeros of the same shape.
   */
  function SetAutomaton(e: Engine, a: Automata.Automaton): (r: Engine)
    requires Inv(e) && Automata.CanInit(a, e.current)
    ensures Inv(r) && SameShape(r.current, e.current)
    ensures r.automaton == a && r.asyncFact == e.asyncFact && Cleared(r.next)
    ensures r.current == Automata.Init(a, e.current)
  {
    Engine(Automata.Init(a, e.current), Grids.New(e.current.w, e.current.h), a, e.asyncFact)
  }

  /** What a step needs of the engine and of the random draws. */
  predicate CanStep(e: Engine, o: Automata.Oracle) {
    Inv(e) && Automata.CanStep(e.automaton, e.current, e.next, e.asyncFact, o)
  }

  /**
   * `step_once`: the automaton writes into the buffer, then the buffers swap.
   * The new current grid is the automaton's output and the buffer now holds
   * the previous generation.
   */
  function StepOnce(e: Engine, o: Automata.Oracle): (r: Engine)
    requires CanStep(e, o)
    ensures Inv(r) && SameShape(r.current, e.current)
    ensures r.next == e.current
    ensures r.current == Automata.Step(e.automaton, e.current, e.next, e.asyncFact, o).0
    ensures r.automaton == Automata.Step(e.automaton, e.current, e.next, e.asyncFact, o).1
    ensures r.asyncFact == e.asyncFact
  {
    var (written, a') := Automata.Step(e.automaton, e.current, e.next, e.asyncFact, o);
    var (c, n) := Swap(e.current, written);
    Engine(c, n, a', e.asyncFact)
  }

  /** What `soft_init` needs. */
  predicate CanSoftInit(e: Engine) {
    Inv(e) && Automata.CanSoftInit(e.automaton, e.current)
  }

  /** `soft_init`: the automaton's soft seeding of the current grid; nothing else changes. */
  function SoftInit(e: Engine): (r: Engine)
    requires CanSoftInit(e)
    ensures r.current == Automata.SoftInit(e.automaton, e.current)
    ensures Inv(r) && r.next == e.next && r.automaton == e.automaton && r.asyncFact == e.asyncFact
    ensures !e.automaton.SolverRule? ==> r == e
  {
    e.(current := Automata.SoftInit(e.automaton, e.current))
  }

  /** `set_grid`: the grid becomes current and the buffer is replaced by zeros of its shape. */
  function SetGrid(e: Engine, g: Grid): (r: Engine)
    requires Valid(g)
    ensures Inv(r) && r.current == g && Cleared(r.next)
    ensures r.automaton == e.automaton && r.asyncFact == e.asyncFact
  {
    Engine(g, Grids.New(g.w, g.h), e.automaton, e.asyncFact)
  }

  /** `set_async_fact`: only the stepping factor changes. */
  function SetAsyncFact(e: Engine, f: real): (r: Engine)
    ensures r.asyncFact == f && r.current == e.current && r.next == e.next && r.automaton == e.automaton
  {
    e.(asyncFact := f)
  }

  /** Two steps of the dummy rule bring a 0/1 grid back. */
  lemma DummyTwoStepsRestore(e: Engine, o: Automata.Oracle, o': Automata.Oracle)
    requires Inv(e) && e.automaton.DummyRule? && Dummy.Binary(e.current)
    ensures CanStep(StepOnce(e, o), o')
    ensures StepOnce(StepOnce(e, o), o').current == e.current
  {
    Dummy.StepTwiceRestores(e.current);
  }

  /** One engine step of the life rule is one generation of Life, whatever the stepping factor. */
  lemma LifeStep(e: Engine, o: Automata.Oracle)
    requires Inv(e) && e.automaton.LifeRule?
    ensures CanStep(e, o)
    ensures StepOnce(e, o).current == Life.Step(e.current)
  {
  }

  /**
   * With a stepping factor of 0 the solver rewrites one cell of the buffer and
   * the swap makes that buffer current, so apart from the drawn cell the new
   * current grid is the buffer's old content, not the previous generation.
   */
  lemma SolverSingleCellStep(e: Engine, o: Automata.Oracle)
    requires CanStep(e, o) && e.automaton.SolverRule? && e.asyncFact == 0.0
    ensures var r := StepOnce(e, o);
      && Get(r.current, o.cell.0, o.cell.1) == MazeSolver.Rule(e.current, o.cell.0, o.cell.1)
      && forall x: nat, y: nat :: x < e.current.w && y < e.current.h && (x, y) != o.cell ==>
           Get(r.current, x, y) == Get(e.next, x, y)
  {
  }

  /** The generator's search invariant, with a grid of at least 3 x 3, survives every engine step. */
  lemma GeneratorInvPreserved(e: Engine, o: Automata.Oracle)
    requires Inv(e) && e.automaton.GeneratorRule? && e.current.w >= 3 && e.current.h >= 3
    requires MazeGenerator.Inv(e.automaton.state, e.current)
    ensures CanStep(e, o)
    ensures var r := StepOnce(e, o);
      r.automaton.GeneratorRule? && MazeGenerator.Inv(r.automaton.state, r.current)
  {
    MazeGenerator.StepPreservesInv(e.automaton.state, e.current, o.pick);
  }
}
