/**
 * The driver loop of `nussinov`: every cell (i, j) with i <= j receives the
 * recursive score Fill(i, j), spans taken in increasing length.
 */
module MatrixFill {
  import opened Wrappers
  import opened PairScore
  import opened ScoreMatrix
  import opened Recurrence

  /**
   * The matrix the driver leaves behind: Fill(r, c) on and above the
   * diagonal, the initial values below it.
   */
  predicate Filled(m: Matrix, s: string, minDist: nat, w: Weights) {
    IsSquare(m, |s|) &&
    forall r, c :: 0 <= r < |s| && 0 <= c < |s| ==>
      m[r][c] == (if r <= c then Some(Fill(s, minDist, w, r, c)) else InitialCell(r, c))
  }

  /** Initialises the matrix, then fills span length k = 0, 1, ... and start i = 0, 1, ... in turn. */
  method FillMatrix(s: string, minDist: nat, w: Weights) returns (m: Matrix)
    ensures Filled(m, s, minDist, w)
  {
    var n := |s|;
    m := Initialize(n, minDist);
    var k := 0;
    while k < n
      invariant 0 <= k <= n
      invariant IsSquare(m, n)
      invariant forall r, c :: 0 <= r < n && 0 <= c < n ==>
          m[r][c] == (if r <= c && c - r < k then Some(Fill(s, minDist, w, r, c)) else InitialCell(r, c))
    {
      var i := 0;
      while i < n - k
        invariant 0 <= i <= n - k
        invariant IsSquare(m, n)
        invariant forall r, c :: 0 <= r < n && 0 <= c < n ==>
            m[r][c] == (if r <= c && (c - r < k || (c - r == k && r < i))
                        then Some(Fill(s, minDist, w, r, c)) else InitialCell(r, c))
      {
        var j := i + k;
        m := m[i := m[i][j := Some(Fill(s, minDist, w, i, j))]];
        i := i + 1;
      }
      k := k + 1;
    }
  }

  /** A filled matrix holds a score in every cell the traceback may read. */
  lemma FilledIsWellFormed(m: Matrix, s: string, minDist: nat, w: Weights)
    requires Filled(m, s, minDist, w)
    ensures WellFormed(m, |s|)
  {
  }

  /**
   * Every cell the traceback may read holds the recursive score of its span;
   * on the first sub-diagonal that score is the 0 of an empty span.
   */
  lemma FilledCell(m: Matrix, s: string, minDist: nat, w: Weights, r: int, c: int)
    requires Filled(m, s, minDist, w) && 0 <= r < |s| && 0 <= c < |s| && r <= c + 1
    ensures m[r][c].Some? && Cell(m, r, c) == Fill(s, minDist, w, r, c)
  {
  }

  /** The cells the program's own check inspects after filling UGGGGUU. */
  lemma FilledExample(m: Matrix, s: string)
    requires s == "UGGGGUU" && Filled(m, s, 3, DefaultWeights)
    ensures m[0][6] == Some(1) && m[1][5] == Some(1)
  {
    FillExample(s);
  }

  /** The driver leaves one matrix only: two filled matrices of the same input are equal. */
  lemma FilledIsUnique(m1: Matrix, m2: Matrix, s: string, minDist: nat, w: Weights)
    requires Filled(m1, s, minDist, w) && Filled(m2, s, minDist, w)
    ensures m1 == m2
  {
    forall r | 0 <= r < |s| ensures m1[r] == m2[r] {
      assert forall c :: 0 <= c < |s| ==> m1[r][c] == m2[r][c];
    }
  }
}
