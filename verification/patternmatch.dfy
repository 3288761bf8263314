/**
 * Template matching of the maze solver's cleanup rule (`match_pattern` in
 * automata/mazesolver.rs): a 5x5 template fits the 5x5 neighbourhood of a
 * cell, read with wrap-around, under at least one of the eight symmetries of
 * the square; wildcard entries fit any code.
 */
module PatternMatch {
  import opened Grids
  import opened Symmetry
  import opened Patterns

  /** A 5x5 block of cell codes, rows first: win[j][i] is column i of row j. */
  type Window = win: seq<seq<Byte>> | |win| == 5 && forall j :: 0 <= j < 5 ==> |win[j]| == 5
    witness [[0, 0, 0, 0, 0], [0, 0, 0, 0, 0], [0, 0, 0, 0, 0], [0, 0, 0, 0, 0], [0, 0, 0, 0, 0]]

  /** The 5x5 block of the grid centred on (x, y), read with wrap-around. */
  function WindowAt(g: Grid, x: nat, y: nat): Window
    requires Valid(g) && x < g.w && y < g.h
  {
    [WindowRow(g, x, y - 2), WindowRow(g, x, y - 1), WindowRow(g, x, y), WindowRow(g, x, y + 1), WindowRow(g, x, y + 2)]
  }

  /** Position (i, j) of the block centred on (x, y) holds the cell ((x + i - 2) mod w, (y + j - 2) mod h). */
  lemma WindowAtReads(g: Grid, x: nat, y: nat)
    requires Valid(g) && x < g.w && y < g.h
    ensures var win := WindowAt(g, x, y);
      forall i, j :: 0 <= i < 5 && 0 <= j < 5 ==> win[j][i] == Get(g, (x + i - 2) % g.w, (y + j - 2) % g.h)
  {
  }

  /** Row y of the grid, with wrap-around, from column x - 2 to column x + 2. */
  function WindowRow(g: Grid, x: nat, y: int): (row: seq<Byte>)
    requires Valid(g) && x < g.w && g.h > 0
    ensures |row| == 5
  {
    var yy := Wrap(y, g.h);
    [Get(g, Wrap(x - 2, g.w), yy), Get(g, Wrap(x - 1, g.w), yy), Get(g, Wrap(x, g.w), yy),
     Get(g, Wrap(x + 1, g.w), yy), Get(g, Wrap(x + 2, g.w), yy)]
  }

  /** The source's `rem_euclid`: the representative of a in [0, m). */
  function Wrap(a: int, m: nat): (r: nat)
    requires m > 0
    ensures r < m
  {
    a % m
  }

  /** The source's `want as u8` on an i8 entry: the value modulo 256. */
  function AsU8(v: int): Byte {
    v % 256
  }

  /** Window position (i, j) fits under t: its template entry is the wildcard or equals the code there. */
  predicate CellFits(win: Window, pat: Pattern5, t: Transform, i: int, j: int)
    requires 0 <= i < 5 && 0 <= j < 5
  {
    StaysInWindow(t);
    var p := Apply(t, i, j);
    pat[p.1][p.0] == Wildcard || win[j][i] == AsU8(pat[p.1][p.0])
  }

  /** The whole window fits the template under t. */
  predicate Fits(win: Window, pat: Pattern5, t: Transform) {
    forall i, j :: 0 <= i < 5 && 0 <= j < 5 ==> CellFits(win, pat, t, i, j)
  }

  /**
   * The two inner loops for one transform: checks the positions from row j,
   * column i onwards in row-major order and stops at the first misfit.
   */
  function FitsFrom(win: Window, pat: Pattern5, t: Transform, j: nat, i: nat): (ok: bool)
    requires j <= 5 && i <= 5
    ensures ok <==> forall jj, ii :: 0 <= ii < 5 && j <= jj < 5 && (jj > j || ii >= i) ==> CellFits(win, pat, t, ii, jj)
    decreases 5 - j, 5 - i
  {
    if j == 5 then true
    else if i == 5 then FitsFrom(win, pat, t, j + 1, 0)
    else CellFits(win, pat, t, i, j) && FitsFrom(win, pat, t, j, i + 1)
  }

  /** The transform loop: tries t, t + 1, ..., 7 and stops at the first that fits. */
  function MatchFrom(win: Window, pat: Pattern5, t: nat): (found: bool)
    requires t <= 8
    ensures found <==> exists u: Transform :: t <= u && Fits(win, pat, u)
    decreases 8 - t
  {
    if t == 8 then false
    else
      assert FitsFrom(win, pat, t, 0, 0) <==> Fits(win, pat, t);
      FitsFrom(win, pat, t, 0, 0) || MatchFrom(win, pat, t + 1)
  }

  /** Whether the template fits the window under some symmetry. */
  function MatchWindow(win: Window, pat: Pattern5): (found: bool)
    ensures found <==> exists t: Transform :: Fits(win, pat, t)
  {
    MatchFrom(win, pat, 0)
  }

  /**
   * `match_pattern`: true exactly when, for some transform t, every
   * non-wildcard entry pat[pj][pi], with (pi, pj) the image of (i, j) under t,
   * equals the grid at ((x + i - 2) mod w, (y + j - 2) mod h).
   */
  function MatchPattern(g: Grid, x: nat, y: nat, pat: Pattern5): (found: bool)
    requires Valid(g) && x < g.w && y < g.h
    ensures found <==> exists t: Transform :: Fits(WindowAt(g, x, y), pat, t)
  {
    MatchWindow(WindowAt(g, x, y), pat)
  }

  /** A template of wildcards only fits every neighbourhood. */
  lemma AllWildcardMatches(g: Grid, x: nat, y: nat, pat: Pattern5)
    requires Valid(g) && x < g.w && y < g.h
    requires forall r, c :: 0 <= r < 5 && 0 <= c < 5 ==> pat[r][c] == Wildcard
    ensures MatchPattern(g, x, y, pat)
  {
    assert Fits(WindowAt(g, x, y), pat, 0);
  }

  /** The window rotated or mirrored by s: position (i, j) shows the window's cell at the image of (i, j) under s. */
  function TransformWindow(win: Window, s: Transform): Window {
    StaysInWindow(s);
    seq(5, (j: int) requires 0 <= j < 5 =>
      seq(5, (i: int) requires 0 <= i < 5 => win[Apply(s, i, j).1][Apply(s, i, j).0]))
  }

  /** A transformed window fits under t exactly when the original fits under t composed with the inverse of s. */
  lemma FitsTransformed(win: Window, pat: Pattern5, s: Transform, t: Transform)
    ensures Fits(TransformWindow(win, s), pat, t) <==> Fits(win, pat, Compose(t, Inverse(s)))
  {
    if Fits(win, pat, Compose(t, Inverse(s))) {
      FitsTransformedIf(win, pat, s, t);
    }
    if Fits(TransformWindow(win, s), pat, t) {
      FitsTransformedOnlyIf(win, pat, s, t);
    }
  }

  lemma FitsTransformedIf(win: Window, pat: Pattern5, s: Transform, t: Transform)
    requires Fits(win, pat, Compose(t, Inverse(s)))
    ensures Fits(TransformWindow(win, s), pat, t)
  {
    var tw := TransformWindow(win, s);
    var c := Compose(t, Inverse(s));
    StaysInWindow(s);
    forall i, j | 0 <= i < 5 && 0 <= j < 5
      ensures CellFits(tw, pat, t, i, j)
    {
      var q := Apply(s, i, j);
      assert CellFits(win, pat, c, q.0, q.1);
      ComposeApply(t, Inverse(s), q.0, q.1);
      InverseUndoes(s, i, j);
    }
  }

  lemma FitsTransformedOnlyIf(win: Window, pat: Pattern5, s: Transform, t: Transform)
    requires Fits(TransformWindow(win, s), pat, t)
    ensures Fits(win, pat, Compose(t, Inverse(s)))
  {
    var tw := TransformWindow(win, s);
    var c := Compose(t, Inverse(s));
    StaysInWindow(Inverse(s));
    forall qi, qj | 0 <= qi < 5 && 0 <= qj < 5
      ensures CellFits(win, pat, c, qi, qj)
    {
      var p := Apply(Inverse(s), qi, qj);
      InverseUndoes(s, qi, qj);
      assert CellFits(tw, pat, t, p.0, p.1);
      ComposeApply(t, Inverse(s), qi, qj);
    }
  }

  /** Rotating or mirroring a neighbourhood by any of the eight symmetries does not change whether a template matches it. */
  lemma MatchIsSymmetric(win: Window, pat: Pattern5, s: Transform)
    ensures MatchWindow(TransformWindow(win, s), pat) <==> MatchWindow(win, pat)
  {
    if MatchWindow(TransformWindow(win, s), pat) {
      var t: Transform :| Fits(TransformWindow(win, s), pat, t);
      FitsTransformed(win, pat, s, t);
    }
    if MatchWindow(win, pat) {
      var u: Transform :| Fits(win, pat, u);
      FitsTransformed(win, pat, s, Compose(u, s));
      ComposeInverseCancels(u, s);
    }
  }
}
