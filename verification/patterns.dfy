/**
 * The 5x5 templates the maze solver's cleanup matches against
 * (automata/patterns.rs). An entry is an i8: -1 is a wildcard, any other value
 * is a cell code the grid must hold. Rows are indexed first: p[row][column].
 */
module Patterns {

  /** The wildcard entry: matches any cell code. */
  const Wildcard: int := -1

  /** A 5x5 table of i8 entries (`[[i8; 5]; 5]`). */
  type Pattern5 = p: seq<seq<int>> | |p| == 5 && forall r :: 0 <= r < 5 ==> |p[r]| == 5 && forall c :: 0 <= c < 5 ==> -128 <= p[r][c] < 128
    witness [[-1, -1, -1, -1, -1], [-1, -1, -1, -1, -1], [-1, -1, -1, -1, -1], [-1, -1, -1, -1, -1], [-1, -1, -1, -1, -1]]

  const BlankPattern: Pattern5 := [
    [-1, -1, -1, -1, -1],
    [-1, -1, -1, -1, -1],
    [-1, -1, -1, -1, -1],
    [-1, -1, -1, -1, -1],
    [-1, -1, -1, -1, -1]
  ]

  const CuttingCorners1: Pattern5 := [
    [-1, -1, -1, -1, -1],
    [-1, -1,  1, -1, -1],
    [-1,  7,  7,  1, -1],
    [-1,  7,  7, -1, -1],
    [-1, -1, -1, -1, -1]
  ]

  const CuttingCorners2: Pattern5 := [
    [-1, -1, -1, -1, -1],
    [-1, -1,  1, -1, -1],
    [-1,  7,  7,  0, -1],
    [-1,  7,  7, -1, -1],
    [-1, -1, -1, -1, -1]
  ]

  const CuttingCorners3: Pattern5 := [
    [-1, -1, -1, -1, -1],
    [-1, -1,  0, -1, -1],
    [-1,  7,  7,  0, -1],
    [-1,  7,  7, -1, -1],
    [-1, -1, -1, -1, -1]
  ]

  /** The library the cleanup rule tries, in order (`ALL_PATTERNS`). */
  const AllPatterns: seq<Pattern5> := [CuttingCorners1, CuttingCorners2, CuttingCorners3]

  /** The six positions, (row, column), that the corner templates fix. */
  const CornerFixed: set<(int, int)> := {(1, 2), (2, 1), (2, 2), (2, 3), (3, 1), (3, 2)}

  /** The blank template is all wildcard. */
  lemma BlankIsAllWildcard()
    ensures forall r, c :: 0 <= r < 5 && 0 <= c < 5 ==> BlankPattern[r][c] == Wildcard
  {
  }

  /**
   * Every entry of every template is the wildcard or a cell code 0..7, so the
   * matcher's `want as u8` conversion never wraps a meaningful entry.
   */
  lemma EntriesAreCodes()
    ensures forall k, r, c :: 0 <= k < |AllPatterns| && 0 <= r < 5 && 0 <= c < 5 ==>
      AllPatterns[k][r][c] == Wildcard || 0 <= AllPatterns[k][r][c] <= 7
    ensures forall r, c :: 0 <= r < 5 && 0 <= c < 5 ==>
      BlankPattern[r][c] == Wildcard || 0 <= BlankPattern[r][c] <= 7
  {
  }

  /** The library holds the three corner templates in order and not the blank one. */
  lemma LibraryContents()
    ensures |AllPatterns| == 3
    ensures AllPatterns[0] == CuttingCorners1 && AllPatterns[1] == CuttingCorners2 && AllPatterns[2] == CuttingCorners3
    ensures BlankPattern !in AllPatterns
  {
    assert BlankPattern[1][2] != CuttingCorners1[1][2];
    assert BlankPattern[1][2] != CuttingCorners2[1][2];
    assert BlankPattern[1][2] != CuttingCorners3[1][2];
  }

  /**
   * Each corner template has a route (7) centre and fixes exactly six entries,
   * the same six in all three; the three differ from one another only at row 1
   * column 2 and at row 2 column 3.
   */
  lemma CornerTemplatesShape()
    ensures |CornerFixed| == 6
    ensures forall k :: 0 <= k < 3 ==> AllPatterns[k][2][2] == 7
    ensures forall k, r, c :: 0 <= k < 3 && 0 <= r < 5 && 0 <= c < 5 ==>
      (AllPatterns[k][r][c] != Wildcard <==> (r, c) in CornerFixed)
    ensures forall k, l, r, c :: 0 <= k < 3 && 0 <= l < 3 && 0 <= r < 5 && 0 <= c < 5 && (r, c) != (1, 2) && (r, c) != (2, 3) ==>
      AllPatterns[k][r][c] == AllPatterns[l][r][c]
  {
  }
}
