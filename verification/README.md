# Cellular automaton kernel in Dafny

A model of the simulation kernel of a small cellular-automaton engine written
in Rust. It covers the following parts:

- **Grid.** A width, a height and a row-major vector of `u8` cell codes,
  with `new`, `get`, `set`, `fill` and `swap`.
- **Automata.** Four rules, modelled as one closed datatype instead of a
  trait object:
  - the dummy inverter;
  - Conway's Life on a torus;
  - a depth-first maze carver that keeps a `started` flag and a stack;
  - an eight-code maze solver with 5x5 corner templates matched under the
    eight symmetries of the square.
- **Template tables.** The templates the solver matches against.
- **Registry.** Looks up automata by name, ignoring ASCII case.
- **Engine.** Two buffers: a step writes into the second buffer and then
  swaps the two.
- **Codec.** The `.cagr` byte layout behind `save` and `load`.

Everything is immutable. A grid is `Grid(w, h, cells)` and is well formed when
`|cells| == w * h`. Each operation is a pure function that returns the new
grid, or the new engine. Three random draws of the source become parameters,
gathered in `Automata.Oracle`:

- the one cell the solver updates when the stepping factor is 0;
- the set of cells whose draw falls below the factor otherwise;
- the carver's choice among its candidate moves.

The stepping factor is a `real` and is only compared with 0.

Modules and files:

| module | file | models |
|---|---|---|
| `Grids` | grid.dfy | grid.rs |
| `Torus` | torus.dfy | the `xm1`/`xp1`/`ym1`/`yp1` wrap-around of life.rs and mazesolver.rs |
| `Dummy` | dummy.dfy | automata/dummy.rs |
| `Life` | life.dfy | automata/life.rs |
| `Patterns` | patterns.dfy | automata/patterns.rs |
| `Symmetry` | symmetry.dfy | the transform table of `match_pattern` |
| `PatternMatch` | patternmatch.dfy | `match_pattern` |
| `MazeSolver` | mazesolver.dfy | the rest of automata/mazesolver.rs |
| `MazeGenerator` | mazegenerator.dfy | automata/mazegenerator.rs |
| `Automata` | automata.dfy | the `Automaton` trait (automaton.rs) as a datatype |
| `Registry` | registry.dfy | automata/mod.rs |
| `Engines` | engine.dfy | engine.rs |
| `Codec` | codec.dfy | the byte layout of io/bin.rs |
| `Wrappers` | wrappers.dfy | `Option` and `Result` |

Points where the code is less uniform than one might expect, all modelled as
written:

- **Stepping factor.** Only the solver reads it. Dummy's and the generator's
  `step` ignore it, and Life's `step` has no such parameter.
  `Automata.DeterministicRules` states this.
- **Solver with a factor of 0.** The solver writes the one drawn cell of
  `next` and copies nothing else through. After the engine's swap, every
  other cell of the new current grid is therefore the buffer's old content,
  not the previous generation. `Engines.SolverSingleCellStep` states this.
- **Generator `init`.** It refills the grid with walls but does not reset the
  carver's `started` flag or stack.
- **Generator `step`.** It takes one carve or backtrack action per call. The
  action is not gated by any cell selection.
- **Registry.** Only the dummy and Life rules are offered, because the module
  file declares no other automaton modules. `Registry.ByNameExamples` shows
  that "generator" and "mazesolver" are not found.

## Model

| member | source | states |
|---|---|---|
| Grids.IdxClosedForm | cellular_automaton/src/grid.rs:22-26 | the row-major index of (x, y) is y * w + x |
| Grids.IdxInRange | cellular_automaton/src/grid.rs:22-26 | for x < w and y < h the index lies in [0, w*h) |
| Grids.IdxDivMod | cellular_automaton/src/grid.rs:22-26 | the index gives back x as its remainder and y as its quotient by w |
| Grids.IdxInjective | cellular_automaton/src/grid.rs:22-26 | two in-range coordinates share an index if and only if they are equal |
| Grids.IndexCoords | cellular_automaton/src/grid.rs:22-26 | every position below w*h is the index of an in-range coordinate, so the index is onto |
| Grids.New | cellular_automaton/src/grid.rs:9-11 | `new(w, h)` has the given dimensions, exactly w*h cells, and every cell is 0 |
| Grids.Get | cellular_automaton/src/grid.rs:28-31 | `get(x, y)` reads the cell at row-major position y * w + x; carries no contract of its own, the position is stated by Grids.GetRowMajor |
| Grids.GetRowMajor | cellular_automaton/src/grid.rs:28-31 | for in-range coordinates, `get(x, y)` is entry y * w + x of the cell vector, and that entry exists |
| Grids.Set | cellular_automaton/src/grid.rs:33-36 | after `set(x, y, v)`, `get(x, y)` is v; every other cell and both dimensions are unchanged |
| Grids.Fill | cellular_automaton/src/grid.rs:38-40 | every cell becomes v and the dimensions are unchanged |
| Grids.Swap | cellular_automaton/src/grid.rs:42-44 | the cell vectors are exchanged; each grid keeps its own width and height, and is well formed exactly when the vector it receives fits them |
| Grids.SwapInvolution | cellular_automaton/src/grid.rs:42-44 | swapping twice restores both grids |
| Grids.Extensionality | cellular_automaton/src/grid.rs:28-31 | two well-formed grids of one shape that `get` cannot tell apart are equal |
| Torus.Dec | cellular_automaton/src/automata/life.rs:12-14 | the wrapped left or upper neighbour index stays in [0, n) and equals (x - 1) mod n |
| Torus.Inc | cellular_automaton/src/automata/life.rs:13-15 | the wrapped right or lower neighbour index stays in [0, n) and equals (x + 1) mod n |
| Dummy.StampRow | cellular_automaton/src/automata/dummy.rs:13-15 | the inner loop sets exactly columns [x, xEnd) of row y to 1 |
| Dummy.StampRows | cellular_automaton/src/automata/dummy.rs:12-16 | the two loops set exactly the rectangle of rows [y, yEnd) and columns [xStart, xEnd) to 1 |
| Dummy.Init | cellular_automaton/src/automata/dummy.rs:8-17 | every cell of [w/3, 2w/3) x [h/3, 2h/3) becomes 1 and every other cell is untouched |
| Dummy.Step | cellular_automaton/src/automata/dummy.rs:21-29 | every output cell is 1 if and only if the input cell is 0, and 0 if and only if it is nonzero |
| Dummy.Invert | cellular_automaton/src/automata/dummy.rs:26 | the per-cell inversion; carries no contract of its own, stated by Dummy.Step and Dummy.StepTwiceRestores |
| Dummy.StepIsBinary | cellular_automaton/src/automata/dummy.rs:26 | the step emits only codes 0 and 1 |
| Dummy.StepTwiceRestores | cellular_automaton/src/automata/dummy.rs:25-26 | two steps restore a grid of 0/1 codes |
| Life.MooreUnfold | cellular_automaton/src/automata/life.rs:17-29 | the eight reads of `count_neighbors` add up to the live count over the eight toroidal neighbours |
| Life.CountNeighbours | cellular_automaton/src/automata/life.rs:7-30 | the count is the number of nonzero cells among the eight toroidal neighbours, and at most 8 |
| Life.Step | cellular_automaton/src/automata/life.rs:48-63 | an output cell is 1 exactly on survival (nonzero cell, 2 or 3 live neighbours) or birth (zero cell, 3), and 0 otherwise; only `current` is read |
| Life.Outcome | cellular_automaton/src/automata/life.rs:54-58 | the `match (alive, n)` of the step; carries no contract of its own, its meaning as births and survivals is stated by Life.Step |
| Life.StepIsBinary | cellular_automaton/src/automata/life.rs:60 | the step emits only codes 0 and 1 |
| Life.LiveAmongNormalise | cellular_automaton/src/automata/life.rs:18-27 | a neighbour counts as live exactly when its code is nonzero, whatever that code is |
| Life.StepSeesOnlyAliveness | cellular_automaton/src/automata/life.rs:17-58 | the step of a grid equals the step of the grid with every nonzero code replaced by 1 |
| Life.Init | cellular_automaton/src/automata/life.rs:36-46 | on a grid of at least 5 x 5, exactly (3,2), (4,3), (2,4), (3,4) and (4,4) are 1 and every other cell is 0 |
| Patterns.BlankIsAllWildcard | cellular_automaton/src/automata/patterns.rs:3-9 | the blank template is wildcard (-1) everywhere |
| Patterns.EntriesAreCodes | cellular_automaton/src/automata/patterns.rs:3-33 | every template entry is -1 or a cell code in 0..7, so the `as u8` comparison is meaningful |
| Patterns.LibraryContents | cellular_automaton/src/automata/patterns.rs:35-39 | the library is exactly the three corner templates, in order, without the blank one |
| Patterns.CornerTemplatesShape | cellular_automaton/src/automata/patterns.rs:11-33 | each corner template has centre 7 and fixes exactly the same six entries; the three differ only at row 1 column 2 and row 2 column 3 |
| Symmetry.Apply | cellular_automaton/src/automata/mazesolver.rs:85-94 | the eight arms of the transform `match`; carries no contract of its own, its properties are stated by Symmetry.IdentityApply, Symmetry.StaysInWindow, Symmetry.WindowBijection, Symmetry.ComposeApply and Symmetry.PairwiseDistinct |
| Symmetry.Inverse | cellular_automaton/src/automata/mazesolver.rs:85-94 | each transform has an inverse in the group table, on both sides |
| Symmetry.IdentityApply | cellular_automaton/src/automata/mazesolver.rs:86 | transform 0 moves no position |
| Symmetry.ComposeApply | cellular_automaton/src/automata/mazesolver.rs:85-94 | the composed transform number acts, at every position, as one transform followed by the other |
| Symmetry.InverseUndoes | cellular_automaton/src/automata/mazesolver.rs:85-94 | a transform followed by its inverse, or its inverse followed by it, returns every position |
| Symmetry.ComposeInverseCancels | cellular_automaton/src/automata/mazesolver.rs:85-94 | composing with u and then with u's inverse gives back t |
| Symmetry.StaysInWindow | cellular_automaton/src/automata/mazesolver.rs:85-94 | every transform maps the 5x5 window into itself and fixes (2, 2) |
| Symmetry.WindowBijection | cellular_automaton/src/automata/mazesolver.rs:85-94 | every transform is one to one, and onto the window |
| Symmetry.PairwiseDistinct | cellular_automaton/src/automata/mazesolver.rs:85-94 | the eight transforms are pairwise distinct |
| PatternMatch.WindowAtReads | cellular_automaton/src/automata/mazesolver.rs:78-82 | window position (i, j) holds the grid cell ((x + i - 2) mod w, (y + j - 2) mod h) |
| PatternMatch.Wrap | cellular_automaton/src/automata/mazesolver.rs:69-71 | `rem_euclid` lands in [0, m) |
| PatternMatch.FitsFrom | cellular_automaton/src/automata/mazesolver.rs:76-107 | the two inner loops with their early exits succeed exactly when every remaining window position fits |
| PatternMatch.MatchFrom | cellular_automaton/src/automata/mazesolver.rs:75-112 | the transform loop succeeds exactly when some transform from t on fits the whole window |
| PatternMatch.MatchWindow | cellular_automaton/src/automata/mazesolver.rs:75-114 | a window matches exactly when some transform fits it |
| PatternMatch.MatchPattern | cellular_automaton/src/automata/mazesolver.rs:62-115 | `match_pattern` is true if and only if, for some transform, every non-wildcard entry equals the grid at the wrapped window position |
| PatternMatch.AllWildcardMatches | cellular_automaton/src/automata/mazesolver.rs:96-99 | a template of wildcards only matches everywhere |
| PatternMatch.FitsTransformedIf | cellular_automaton/src/automata/mazesolver.rs:85-104 | a window that fits under t composed with s's inverse fits under t once transformed by s |
| PatternMatch.FitsTransformedOnlyIf | cellular_automaton/src/automata/mazesolver.rs:85-104 | the converse of FitsTransformedIf |
| PatternMatch.FitsTransformed | cellular_automaton/src/automata/mazesolver.rs:85-104 | both directions together |
| PatternMatch.MatchIsSymmetric | cellular_automaton/src/automata/mazesolver.rs:73-115 | rotating or mirroring a neighbourhood does not change whether a template matches it |
| MazeSolver.Neighbours | cellular_automaton/src/automata/mazesolver.rs:44-56 | the four neighbours read are up, left, right and down, with wrap-around |
| MazeSolver.InNeighbours | cellular_automaton/src/automata/mazesolver.rs:43-59 | `in_neighbors(c)` is true if and only if one of the four toroidal neighbours holds c |
| MazeSolver.Tally | cellular_automaton/src/automata/mazesolver.rs:29-37 | entry c of the table is the number of occurrences of c in the list, and the entries add up to its length |
| MazeSolver.NeighbourCounts | cellular_automaton/src/automata/mazesolver.rs:19-40 | l[c] is the number of the four neighbours holding c, and the counts add up to 4; every neighbour code must be below 8 |
| MazeSolver.CodesDefineCounts | cellular_automaton/src/automata/mazesolver.rs:29-37 | on a grid of codes 0..7 the table is never indexed out of bounds |
| MazeSolver.AnyTemplate | cellular_automaton/src/automata/mazesolver.rs:172-177 | the template loop succeeds exactly when some template of the list matches |
| MazeSolver.Rule | cellular_automaton/src/automata/mazesolver.rs:155-179 | the per-cell rule, read from `current` only; carries no contract of its own, its table is stated by MazeSolver.RuleTable and MazeSolver.RuleIsOverwrite |
| MazeSolver.Overwrite | cellular_automaton/src/automata/mazesolver.rs:155-179 | the sequence of overriding writes amounts to a table by the cell's code: the last write that applies wins |
| MazeSolver.RuleIsOverwrite | cellular_automaton/src/automata/mazesolver.rs:155-179 | the rule's tests read as "code among the neighbours", neighbour multiplicities and "some template matches" |
| MazeSolver.RuleTable | cellular_automaton/src/automata/mazesolver.rs:155-179 | 0 becomes 4 next to a 2 or 4; 4 becomes 7 next to a 3 and 5 otherwise; 5 becomes 7 next to a 7; 7 becomes 6 when prunable; 6 becomes 0; every other code stays |
| MazeSolver.RuleKeepsCodes | cellular_automaton/src/automata/mazesolver.rs:155-179 | codes 0..7 map to codes 0..7, and wall, start and goal never change |
| MazeSolver.StepOne | cellular_automaton/src/automata/mazesolver.rs:151-179 | with a factor of 0 only the drawn cell of `next` is written, with the rule's value |
| MazeSolver.StepAll | cellular_automaton/src/automata/mazesolver.rs:180-213 | with a nonzero factor every cell is written: selected cells by the rule, the others copied from `current` |
| MazeSolver.Step | cellular_automaton/src/automata/mazesolver.rs:150-215 | the two branches of `step`, chosen by whether the factor is 0 |
| MazeSolver.BranchesAgree | cellular_automaton/src/automata/mazesolver.rs:151-211 | both branches apply the same rule: the single-cell branch on a buffer holding `current` equals the all-cells branch with only that cell selected |
| MazeSolver.StepKeepsCodes | cellular_automaton/src/automata/mazesolver.rs:150-215 | on grids of codes 0..7 every step is defined and again yields codes 0..7 |
| MazeSolver.WallColumn | cellular_automaton/src/automata/mazesolver.rs:127-132 | one pass of the first loop walls column x at rows 0, h - 1, 15 (x < 60) and 25 (x > 30), and nothing else |
| MazeSolver.WallRowsFrom | cellular_automaton/src/automata/mazesolver.rs:127-132 | the first loop from column x on walls exactly those cells of columns x and beyond |
| MazeSolver.WallSidesFrom | cellular_automaton/src/automata/mazesolver.rs:134-137 | the second loop from row y on walls exactly columns 0 and w - 1 of rows y and beyond |
| MazeSolver.SoftInit | cellular_automaton/src/automata/mazesolver.rs:142-148 | only (1, 1) becomes 2 and (w - 9, h - 10) becomes 3, and the goal wins if they coincide |
| MazeSolver.Init | cellular_automaton/src/automata/mazesolver.rs:121-140 | the border and rows 15 (x < 60) and 25 (x > 30) are 1, start and goal are placed, and every other cell is 0, whatever the grid held |
| MazeGenerator.New | cellular_automaton/src/automata/mazegenerator.rs:11-16 | a new carver is not started and has an empty stack |
| MazeGenerator.Init | cellular_automaton/src/automata/mazegenerator.rs:23-25 | every cell becomes 1 |
| MazeGenerator.Probe | cellular_automaton/src/automata/mazegenerator.rs:61-71 | one direction contributes at most its own target |
| MazeGenerator.Candidates | cellular_automaton/src/automata/mazegenerator.rs:56-72 | a coordinate is a candidate if and only if it is 2 away along one axis, strictly inside the border and still 1; there are at most four and none is repeated |
| MazeGenerator.CandidateGeometry | cellular_automaton/src/automata/mazegenerator.rs:79-81 | a chosen move is two cells away, and the wall between lies on the grid and differs from it |
| MazeGenerator.Step | cellular_automaton/src/automata/mazegenerator.rs:29-88 | the first call opens (1, 1) and pushes it; with an empty stack nothing changes; with no candidate the top is popped and the grid is unchanged; otherwise exactly the chosen candidate and the wall before it become 0 and the candidate is pushed |
| MazeGenerator.StepOnlyCarves | cellular_automaton/src/automata/mazegenerator.rs:29-88 | a step only opens cells: each cell keeps its code or becomes 0 |
| MazeGenerator.NewSatisfiesInv | cellular_automaton/src/automata/mazegenerator.rs:11-16 | a new carver satisfies the search invariant |
| MazeGenerator.InvUnderCarving | cellular_automaton/src/automata/mazegenerator.rs:83-84 | opening cells keeps the invariant |
| MazeGenerator.InvAfterPop | cellular_automaton/src/automata/mazegenerator.rs:74-76 | popping the top keeps the invariant |
| MazeGenerator.PushStackedOpen | cellular_automaton/src/automata/mazegenerator.rs:84-85 | pushing an odd, inner, open cell keeps every stacked cell odd, inner and open |
| MazeGenerator.MoveKeepsParity | cellular_automaton/src/automata/mazegenerator.rs:58 | a move of two keeps both coordinates odd |
| MazeGenerator.WallNotStacked | cellular_automaton/src/automata/mazegenerator.rs:68 | a cell still holding 1 is not on the current stack, so a candidate is never pushed onto a stack that already holds it |
| MazeGenerator.PushDistinct | cellular_automaton/src/automata/mazegenerator.rs:85 | pushing a cell not yet on the stack keeps the stack free of repeats |
| MazeGenerator.PushCorridor | cellular_automaton/src/automata/mazegenerator.rs:80-85 | pushing a move whose wall is open keeps consecutive stacked cells joined by open walls |
| MazeGenerator.InvAfterPush | cellular_automaton/src/automata/mazegenerator.rs:77-86 | carving and pushing a candidate keeps the invariant |
| MazeGenerator.PushedWasWallNowOpen | cellular_automaton/src/automata/mazegenerator.rs:66-85 | a cell the step pushes was a wall in `current` and is open in the output |
| MazeGenerator.Run | cellular_automaton/src/automata/mazegenerator.rs:29-88 | steps threaded one after another, each reading the grid the one before produced, keep the search invariant to the end, on a grid of at least 3 x 3 that starts in the invariant |
| MazeGenerator.OpenNeverPushed | cellular_automaton/src/automata/mazegenerator.rs:66-85 | on a grid of at least 3 x 3, once the carver has started, an open cell is never pushed again in any run and stays open |
| MazeGenerator.RunPushesDistinct | cellular_automaton/src/automata/mazegenerator.rs:29-88 | on a grid of at least 3 x 3, over any run of steps, no cell is pushed twice |
| MazeGenerator.RunPushesOpen | cellular_automaton/src/automata/mazegenerator.rs:29-88 | on a grid of at least 3 x 3, every cell pushed during a run is on the grid and open at its end |
| MazeGenerator.SmallGridBreaksInv | cellular_automaton/src/automata/mazegenerator.rs:37-45 | on a 2 x 2 grid of walls the first step stacks the border cell (1, 1), and the invariant no longer holds |
| MazeGenerator.StepPreservesInv | cellular_automaton/src/automata/mazegenerator.rs:29-88 | on a grid of at least 3 x 3, every step keeps the stack's cells distinct, odd, inner and open, joined by open walls |
| Automata.Name | cellular_automaton/src/automaton.rs:4 | `name()`: "dummy", "life", "generator" and "mazesolver" (dummy.rs:6, life.rs:34, mazegenerator.rs:21, mazesolver.rs:119); carries no contract of its own, the names are told apart by Automata.NamesDistinct |
| Automata.NamesDistinct | cellular_automaton/src/automaton.rs:4 | the four automata answer to four different names |
| Automata.Init | cellular_automaton/src/automaton.rs:6-7 | `init` keeps the grid's shape |
| Automata.InitForgetsGrid | cellular_automaton/src/automaton.rs:6-7 | except for the dummy rule, `init` gives the same grid whatever the grid held |
| Automata.SoftInit | cellular_automaton/src/automaton.rs:9-10 | the solver's `soft_init` puts the start at (1, 1) and the goal at (w - 9, h - 10), the goal winning on overlap, and changes no other cell; the other automata leave the grid alone |
| Automata.Step | cellular_automaton/src/automaton.rs:12-13 | a step keeps the shape; only the generator's state changes, and the automaton keeps its name |
| Automata.StepIgnoresNext | cellular_automaton/src/automaton.rs:12-13 | the old contents of `next` matter only to the solver's single-cell branch |
| Automata.SolverSingleCellKeepsNext | cellular_automaton/src/automata/mazesolver.rs:151-179 | in the solver's single-cell branch every cell but the drawn one keeps what `next` held |
| Automata.DeterministicRules | cellular_automaton/src/automata/dummy.rs:21-29 | the dummy and life steps depend on neither the stepping factor nor any random draw |
| Registry.Available | cellular_automaton/src/automata/mod.rs:6-11 | the registry is dummy then life |
| Registry.Lower | cellular_automaton/src/automata/mod.rs:16 | ASCII lower-casing, the folding behind `eq_ignore_ascii_case`: it leaves no capital letter, changes nothing but capitals, and keeps letters letters |
| Registry.Upper | cellular_automaton/src/automata/mod.rs:16 | ASCII upper-casing: it leaves no small letter, changes nothing but small letters, and keeps letters letters |
| Registry.LowerUpperInverse | cellular_automaton/src/automata/mod.rs:16 | Lower takes each capital to the small letter that Upper takes back to it, and the other way round |
| Registry.LowerIdempotent | cellular_automaton/src/automata/mod.rs:16 | lower-casing twice is lower-casing once |
| Registry.LowerUpper | cellular_automaton/src/automata/mod.rs:16 | upper-casing a character does not change its lower-case form |
| Registry.FoldingsAgree | cellular_automaton/src/automata/mod.rs:16 | two characters have the same lower-case form if and only if they have the same upper-case form, so the choice of folding does not change what matches |
| Registry.FindFrom | cellular_automaton/src/automata/mod.rs:14-16 | `find` answers the first matching entry from k on, or nothing when none from k on matches |
| Registry.ByName | cellular_automaton/src/automata/mod.rs:13-17 | `by_name` gives the first registered automaton whose name matches ignoring ASCII case, and nothing if and only if none matches |
| Registry.ByNameIgnoresCase | cellular_automaton/src/automata/mod.rs:16 | a name and its upper-cased form find the same automaton |
| Registry.ByNameFindsRegistered | cellular_automaton/src/automata/mod.rs:13-17 | every registered automaton is found under its own name |
| Registry.ByNameExamples | cellular_automaton/src/automata/mod.rs:6-17 | "LIFE" finds life, "Dummy" finds dummy, and "generator", "mazesolver" and "" find nothing |
| Engines.New | cellular_automaton/src/engine.rs:11-16 | `current` is the automaton's `init` of a zero grid, `next` is a zero grid of the same shape, and the automaton and factor are stored |
| Engines.SetAutomaton | cellular_automaton/src/engine.rs:22-26 | the new automaton's `init` runs on `current` as it stands, without a clear; `next` becomes zeros of the same shape |
| Engines.StepOnce | cellular_automaton/src/engine.rs:28-31 | the new `current` is what the step wrote, the new `next` is the old `current`, and both buffers keep one shape |
| Engines.SoftInit | cellular_automaton/src/engine.rs:33-35 | `current` becomes the automaton's `soft_init` of it; the buffer, the automaton and the factor are unchanged |
| Engines.SetGrid | cellular_automaton/src/engine.rs:37-40 | `current` becomes the grid exactly and `next` zeros of its shape; the automaton is not re-initialised |
| Engines.SetAsyncFact | cellular_automaton/src/engine.rs:42-44 | only the factor changes |
| Engines.DummyTwoStepsRestore | cellular_automaton/src/engine.rs:28-31 | two engine steps of the dummy rule restore a 0/1 grid |
| Engines.LifeStep | cellular_automaton/src/engine.rs:28-31 | an engine step with the life rule is one Life generation, whatever the factor |
| Engines.SolverSingleCellStep | cellular_automaton/src/engine.rs:28-31 | with factor 0 the solver's engine step leaves, outside the drawn cell, the buffer's old content as the new current grid |
| Engines.GeneratorInvPreserved | cellular_automaton/src/engine.rs:28-31 | on a grid of at least 3 x 3, the carver's search invariant survives every engine step |
| Codec.Le32 | cellular_automaton/src/io/bin.rs:64-65 | `to_le_bytes` gives four bytes; with Codec.FromLe32 it is a two-sided inverse, by Codec.Le32RoundTrip and Codec.FromLe32RoundTrip |
| Codec.FromLe32 | cellular_automaton/src/io/bin.rs:88-89 | `from_le_bytes` gives a value below 2^32; Codec.Le32 inverts it, by Codec.FromLe32RoundTrip |
| Codec.Le32RoundTrip | cellular_automaton/src/io/bin.rs:88-89 | reading back the four little-endian bytes of a value below 2^32 gives the value |
| Codec.FromLe32RoundTrip | cellular_automaton/src/io/bin.rs:64-65 | four bytes read as a word are written back as the same bytes |
| Codec.SameWord | cellular_automaton/src/io/bin.rs:88-89 | two four-byte words that read as the same number are the same bytes |
| Codec.Encode | cellular_automaton/src/io/bin.rs:55-69 | the bytes are "CAGR", version 1, the width and the height mod 2^32 as little-endian words, then the cells: 13 + w*h bytes |
| Codec.Decode | cellular_automaton/src/io/bin.rs:71-96 | checks in order: magic, else BadMagic; version, else UnsupportedVersion with the byte read; zero width or height, else BadSize; any short read gives Io; success gives a w x h grid of the next w*h bytes |
| Codec.DecodeEncode | cellular_automaton/src/io/bin.rs:55-96 | a saved grid with 0 < w, h < 2^32 loads back as itself |
| Codec.EmptyGridDoesNotLoad | cellular_automaton/src/io/bin.rs:91 | a saved grid with a zero dimension fails to load with BadSize |
| Codec.DecodeIgnoresTrailing | cellular_automaton/src/io/bin.rs:93-95 | bytes after the cells change nothing |
| Codec.EncodeDecode | cellular_automaton/src/io/bin.rs:55-96 | saving a loaded grid reproduces the header and cells it was loaded from |

## Left out

- The egui front end, the terminal renderer, the binaries and `main` are
  left out: they are input, output and wall-clock pacing.
- File handling is left out: `ensure_dir`, `list_grids`, `path_in_dir`,
  creating and opening files. `Io` stands for a read that runs out of bytes;
  other file-system failures are not modelled.
- `grid.rs` has no `as_slice` or `as_mut_slice`, which `save` and `load`
  call. The model takes both to be the row-major cell vector.
- `width` and `height` are the fields `w` and `h`. Engine's `current` is the
  field `current`.
- Random draws are parameters: the drawn cell, the selected set and the
  carver's pick. The `random::<f32>() < async_fact` comparison becomes
  membership in the selected set, and the model makes no probabilistic
  claim. The `f32` factor is a `real`, and only whether it is 0 matters.
- `usize` overflow of `w * h` is not modelled; integers are unbounded. Nor is
  memory exhaustion: `load` allocates the w x h grid before reading its cells,
  so a header with large dimensions and few bytes may abort instead of giving
  `Io`, which is what the model answers.
- The `i32` casts are not modelled either: coordinates are taken to fit in
  `i32`. This covers `match_pattern`, and the carver's `x as i32 + dx` and
  `nx as usize` on its stack top.
- Grids.Get: out-of-range coordinates are excluded by precondition. The
  source guards them only with a `debug_assert`. In a release build,
  `get(x, y)` or `set(x, y)` with x >= w reaches some other cell while
  y * w + x < w * h still holds. Otherwise, and always when y >= h, the
  vector index panics. This applies to every caller below.
- Life.Init: requires a grid of at least 5 x 5. On a smaller grid the
  source's glider writes land on cells out of place or panic; the model
  does not describe smaller grids.
- MazeSolver.Init: requires w >= 9, h >= 16, and h >= 26 when w > 31, so
  that every write of `init` and `soft_init` lands on the grid. On smaller
  grids the source writes cells out of place or panics; the model does not
  describe smaller grids.
- Automata.Step: requires `next` to have the shape of `current`. The engine
  always provides that; the source would also run with a larger `next`.
- MazeGenerator.StepPreservesInv: requires a grid of at least 3 x 3, and so
  do the run lemmas and Engines.GeneratorInvPreserved. On a grid with w < 3
  or h < 3 the source's first step stacks (1, 1), which lies on the border,
  so the stack property does not hold there; MazeGenerator.SmallGridBreaksInv
  shows it on a 2 x 2 grid.
- MazeGenerator.CanStep: requires a non-empty grid while the stack is not
  empty, because the source's `w - 1` underflows on an empty grid.
- Life has no `soft_init` in life.rs, which the trait requires. The model
  treats it as doing nothing, as for the dummy and the generator.
- Life's `step` has no `async_fact` parameter, which the trait requires. The
  model's Life step ignores the factor.
- `Engine::new` takes four arguments, but its callers in the front end and
  the terminal binary pass three. The model follows `engine.rs`; the callers
  are not part of this model.
- Global properties of whole runs are not proved: that the carved maze is a
  spanning tree, that the solver reaches a fixed point, and that a Life
  blinker oscillates. Only per-step invariants and the MazeGenerator run
  lemmas (no cell pushed twice, every pushed cell open) are.
