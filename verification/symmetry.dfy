/**
 * The eight symmetries of the square (the dihedral group D4) acting on the
 * positions (i, j) of a 5x5 window, numbered as the maze solver's
 * `match_pattern` numbers them (automata/mazesolver.rs).
 */
module Symmetry {

  /** A transform number, 0..7. */
  type Transform = t: nat | t < 8

  /** Pattern position (pi, pj) compared with window position (i, j) under transform t. */
  function Apply(t: Transform, i: int, j: int): (int, int) {
    match t
    case 0 => (i, j)          // identity
    case 1 => (4 - j, i)      // rotation by 90
    case 2 => (4 - i, 4 - j)  // rotation by 180
    case 3 => (j, 4 - i)      // rotation by 270
    case 4 => (4 - i, j)      // vertical mirror
    case 5 => (4 - j, 4 - i)  // vertical mirror then rotation by 90
    case 6 => (i, 4 - j)      // horizontal mirror
    case _ => (j, i)          // diagonal mirror
  }

  predicate InWindow(p: (int, int)) {
    0 <= p.0 < 5 && 0 <= p.1 < 5
  }

  /** The transform number of "apply u, then t", read off the group table. */
  function Compose(t: Transform, u: Transform): Transform {
    [[0, 1, 2, 3, 4, 5, 6, 7],
     [1, 2, 3, 0, 5, 6, 7, 4],
     [2, 3, 0, 1, 6, 7, 4, 5],
     [3, 0, 1, 2, 7, 4, 5, 6],
     [4, 7, 6, 5, 0, 3, 2, 1],
     [5, 4, 7, 6, 1, 0, 3, 2],
     [6, 5, 4, 7, 2, 1, 0, 3],
     [7, 6, 5, 4, 3, 2, 1, 0]][t][u]
  }

  /** The transform undoing t: the rotations by 90 and 270 undo each other, every other transform undoes itself. */
  function Inverse(t: Transform): (u: Transform)
    ensures Compose(u, t) == 0 && Compose(t, u) == 0
  {
    if t == 1 then 3 else if t == 3 then 1 else t
  }

  /** Transform 0 leaves every position where it is. */
  lemma IdentityApply(i: int, j: int)
    ensures Apply(0, i, j) == (i, j)
  {
  }

  /** Applying t and then its inverse, or the inverse and then t, brings every position back. */
  lemma InverseUndoes(t: Transform, i: int, j: int)
    ensures Apply(Inverse(t), Apply(t, i, j).0, Apply(t, i, j).1) == (i, j)
    ensures Apply(t, Apply(Inverse(t), i, j).0, Apply(Inverse(t), i, j).1) == (i, j)
  {
    ComposeApply(Inverse(t), t, i, j);
    ComposeApply(t, Inverse(t), i, j);
    IdentityApply(i, j);
  }

  /** The group table is right: the composed transform acts as u followed by t, at every position. */
  lemma ComposeApply(t: Transform, u: Transform, i: int, j: int)
    ensures Apply(Compose(t, u), i, j) == Apply(t, Apply(u, i, j).0, Apply(u, i, j).1)
  {
    match u
    case 0 =>
    case 1 =>
    case 2 =>
    case 3 =>
    case 4 =>
    case 5 =>
    case 6 =>
    case _ =>
  }

  /** Composing with u and then with u's inverse gives back t. */
  lemma ComposeInverseCancels(t: Transform, u: Transform)
    ensures Compose(Compose(t, u), Inverse(u)) == t
  {
  }

  /** Each transform maps the 5x5 window into itself and fixes its centre (2, 2). */
  lemma StaysInWindow(t: Transform)
    ensures Apply(t, 2, 2) == (2, 2)
    ensures forall i, j :: InWindow((i, j)) ==> InWindow(Apply(t, i, j))
  {
  }

  /** Each transform is one to one, and onto the window: every window position is the image of one. */
  lemma WindowBijection(t: Transform)
    ensures forall i, j, i', j' :: Apply(t, i, j) == Apply(t, i', j') ==> i == i' && j == j'
    ensures forall p :: InWindow(p) ==> exists q :: InWindow(q) && Apply(t, q.0, q.1) == p
  {
    forall i, j, i', j' | Apply(t, i, j) == Apply(t, i', j')
      ensures i == i' && j == j'
    {
      InverseUndoes(t, i, j);
      InverseUndoes(t, i', j');
    }
    StaysInWindow(Inverse(t));
    forall p | InWindow(p)
      ensures exists q :: InWindow(q) && Apply(t, q.0, q.1) == p
    {
      var q := Apply(Inverse(t), p.0, p.1);
      InverseUndoes(t, p.0, p.1);
      assert InWindow(q) && Apply(t, q.0, q.1) == p;
    }
  }

  /** The eight transforms are pairwise distinct: already the window position (1, 0) tells them apart. */
  lemma PairwiseDistinct(t: Transform, u: Transform)
    requires t != u
    ensures Apply(t, 1, 0) != Apply(u, 1, 0)
  {
  }
}
