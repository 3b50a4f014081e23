/**
 * The pair scorer: the weight a base pair contributes to a structure.
 */
module PairScore {

  /** The score of each canonical pair family: A-U, G-C and the G-U wobble pair. */
  datatype Weights = Weights(au: int, gc: int, gu: int)

  /** The default weights of `is_paired` and `fill`, which `main` also passes. */
  const DefaultWeights := Weights(2, 3, 1)

  /** The unordered pair of bases {b1, b2} is the unordered pair {x, y}. */
  predicate SameBases(b1: char, b2: char, x: char, y: char) {
    (b1 == x && b2 == y) || (b1 == y && b2 == x)
  }

  /**
   * The score of bases `b1` and `b2` pairing with each other. The two bases
   * are matched as an unordered pair; anything that is not a canonical pair
   * (same bases, non-canonical pairs, unknown symbols) scores 0.
   */
  function IsPaired(b1: char, b2: char, w: Weights): (r: int)
    ensures SameBases(b1, b2, 'A', 'U') ==> r == w.au
    ensures SameBases(b1, b2, 'G', 'C') ==> r == w.gc
    ensures SameBases(b1, b2, 'G', 'U') ==> r == w.gu
    ensures !SameBases(b1, b2, 'A', 'U') && !SameBases(b1, b2, 'G', 'C') && !SameBases(b1, b2, 'G', 'U') ==> r == 0
  {
    if (b1, b2) == ('A', 'U') || (b1, b2) == ('U', 'A') then w.au
    else if (b1, b2) == ('G', 'C') || (b1, b2) == ('C', 'G') then w.gc
    else if (b1, b2) == ('G', 'U') || (b1, b2) == ('U', 'G') then w.gu
    else 0
  }

  /** The scorer does not care which base comes first. */
  lemma IsPairedSymmetric(b1: char, b2: char, w: Weights)
    ensures IsPaired(b1, b2, w) == IsPaired(b2, b1, w)
  {
  }

  /** The default weights on the pairs the program's own checks use. */
  lemma IsPairedExamples()
    ensures IsPaired('A', 'U', DefaultWeights) == 2
    ensures IsPaired('G', 'C', DefaultWeights) == 3
    ensures IsPaired('G', 'U', DefaultWeights) == 1
    ensures IsPaired('A', 'A', DefaultWeights) == 0
  {
  }
}
