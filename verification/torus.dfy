/**
 * Toroidal neighbour arithmetic shared by the Life and maze-solver rules: the
 * grid itself has no wrap-around, each rule computes `xm1`, `xp1`, `ym1` and
 * `yp1` with an explicit edge test.
 */
module Torus {

  /** One step back on a ring of n positions: 0 wraps to n - 1. */
  function Dec(x: nat, n: nat): (r: nat)
    requires x < n
    ensures r < n && r == (x - 1) % n
  {
    if x == 0 then MinusOneMod(n); n - 1 else SmallMod(x - 1, n); x - 1
  }

  /** One step forward on a ring of n positions: n - 1 wraps to 0. */
  function Inc(x: nat, n: nat): (r: nat)
    requires x < n
    ensures r < n && r == (x + 1) % n
  {
    if x + 1 == n then SelfMod(n); 0 else SmallMod(x + 1, n); x + 1
  }

  lemma SmallMod(a: int, n: int)
    requires 0 <= a < n
    ensures a % n == a
  {
  }

  lemma MinusOneMod(n: int)
    requires n > 0
    ensures (-1) % n == n - 1
  {
  }

  lemma SelfMod(n: int)
    requires n > 0
    ensures n % n == 0
  {
  }
}
