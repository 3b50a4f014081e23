/**
 * The N x N score matrix. Cell (r, c) is either unset (`None`, the source's
 * not-a-number marker) or holds an integer score.
 */
module ScoreMatrix {
  import opened Wrappers

  type Matrix = seq<seq<Option<int>>>

  predicate IsSquare(m: Matrix, n: nat) {
    |m| == n && forall r :: 0 <= r < n ==> |m[r]| == n
  }

  /** The value a freshly initialised matrix holds in cell (r, c). */
  function InitialCell(r: int, c: int): Option<int> {
    if c == r || c == r - 1 then Some(0) else None
  }

  /**
   * Every cell the traceback may read is set: those on or above the
   * first sub-diagonal.
   */
  predicate WellFormed(m: Matrix, n: nat) {
    IsSquare(m, n) &&
    forall r, c :: 0 <= r < n && 0 <= c < n && r <= c + 1 ==> m[r][c].Some?
  }

  /** The score stored in a set cell. */
  function Cell(m: Matrix, r: int, c: int): int
    requires 0 <= r < |m| && 0 <= c < |m[r]| && m[r][c].Some?
  {
    m[r][c].value
  }

  /**
   * A fresh n x n matrix: every cell unset, then the diagonal (r, r) and the
   * first sub-diagonal (r, r - 1) set to 0. The minimum loop distance plays no part.
   */
  method Initialize(n: nat, minDist: nat) returns (m: Matrix)
    ensures IsSquare(m, n)
    ensures forall r, c :: 0 <= r < n && 0 <= c < n ==> (m[r][c] == Some(0) <==> c == r || c == r - 1)
    ensures forall r, c :: 0 <= r < n && 0 <= c < n ==> (m[r][c] == None <==> c != r && c != r - 1)
  {
    m := seq(n, _ => seq(n, _ => None));
    var r := 0;
    while r < n
      invariant 0 <= r <= n
      invariant IsSquare(m, n)
      invariant forall a, c :: 0 <= a < n && 0 <= c < n ==> m[a][c] == (if c == a && a < r then Some(0) else None)
    {
      m := m[r := m[r][r := Some(0)]];
      r := r + 1;
    }
    r := 1;
    while r < n
      invariant 1 <= r && (r <= n || n == 0)
      invariant IsSquare(m, n)
      invariant forall a, c :: 0 <= a < n && 0 <= c < n ==>
          m[a][c] == (if c == a || (c == a - 1 && a < r) then Some(0) else None)
    {
      m := m[r := m[r][r - 1 := Some(0)]];
      r := r + 1;
    }
  }
}
