/** Python's reading of a list index. */
module Indexing {
  /**
   * The position a Python index names in a list of length n: a negative
   * index counts from the end, so -1 names the last element. Every index
   * Python accepts names the one position congruent to it modulo n.
   */
  function PyIndex(c: int, n: int): (r: int)
    ensures Indexable(c, n) ==> 0 <= r < n && r == c % n
    ensures 0 <= c ==> r == c
  {
    if c < 0 then c + n else c
  }

  /** Indices Python accepts for a list of length n; any other raises IndexError. */
  predicate Indexable(c: int, n: int) {
    -n <= c < n
  }
}
