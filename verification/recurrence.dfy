/**
 * The Nussinov recurrence: the best total pair weight over the span i..j of a
 * sequence, computed by plain recursion as the source does.
 */
module Recurrence {
  import opened PairScore
  import opened Structure

  /**
   * The best score of the span i..j: 0 when its ends are at most `minDist`
   * apart (j - i <= minDist), otherwise the best of pairing i
   * with j, leaving i unpaired, leaving j unpaired, and splitting the span in two.
   */
  function Fill(s: string, minDist: nat, w: Weights, i: int, j: int): (r: int)
    requires 0 <= i && j < |s|
    decreases j - i, 1
    ensures r >= 0
    ensures j - i <= minDist ==> r == 0
  {
    if i >= j - minDist then 0
    else
      var paired := Fill(s, minDist, w, i + 1, j - 1) + IsPaired(s[i], s[j], w);
      var iUnpaired := Fill(s, minDist, w, i + 1, j);
      var jUnpaired := Fill(s, minDist, w, i, j - 1);
      var split := Bifurcation(s, minDist, w, i, j, j - minDist);
      Max(Max(paired, iUnpaired), Max(jUnpaired, split))
  }

  function Max(a: int, b: int): int {
    if a >= b then a else b
  }

  /** The score of i..j split into the independent spans i..k and k+1..j. */
  function SplitScore(s: string, minDist: nat, w: Weights, i: int, k: int, j: int): int
    requires 0 <= i <= k < j < |s|
    decreases j - i, 0, 0
  {
    Fill(s, minDist, w, i, k) + Fill(s, minDist, w, k + 1, j)
  }

  /** The best split of i..j over the split points i <= k < hi: no split in the range scores more. */
  function Bifurcation(s: string, minDist: nat, w: Weights, i: int, j: int, hi: int): (r: int)
    requires 0 <= i < hi <= j - minDist && j < |s|
    decreases j - i, 0, hi - i
    ensures forall k :: i <= k < hi ==> SplitScore(s, minDist, w, i, k, j) <= r
  {
    var last := SplitScore(s, minDist, w, i, hi - 1, j);
    if hi == i + 1 then last
    else Max(Bifurcation(s, minDist, w, i, j, hi - 1), last)
  }

  /** Some split point in i..hi-1 scores exactly `Bifurcation`. */
  lemma {:induction false} BifurcationIsAttained(s: string, minDist: nat, w: Weights, i: int, j: int, hi: int)
    returns (k: int)
    requires 0 <= i < hi <= j - minDist && j < |s|
    ensures i <= k < hi && SplitScore(s, minDist, w, i, k, j) == Bifurcation(s, minDist, w, i, j, hi)
    decreases hi - i
  {
    k := hi - 1;
    if hi > i + 1 {
      var k0 := BifurcationIsAttained(s, minDist, w, i, j, hi - 1);
      if Bifurcation(s, minDist, w, i, j, hi - 1) >= SplitScore(s, minDist, w, i, hi - 1, j) {
        k := k0;
      }
    }
  }

  /** Growing a span at either end never lowers its score. */
  lemma FillMonotone(s: string, minDist: nat, w: Weights, i: int, j: int)
    requires 0 <= i && j < |s|
    ensures Fill(s, minDist, w, i, j) >= Fill(s, minDist, w, i + 1, j)
    ensures Fill(s, minDist, w, i, j) >= Fill(s, minDist, w, i, j - 1)
  {
  }

  /** A span long enough to close a pair scores at least its inner span plus the pair (i, j). */
  lemma FillPairedBound(s: string, minDist: nat, w: Weights, i: int, j: int)
    requires 0 <= i && j < |s| && j - i > minDist
    ensures Fill(s, minDist, w, i, j) >= Fill(s, minDist, w, i + 1, j - 1) + IsPaired(s[i], s[j], w)
  {
  }

  /**
   * A span long enough to close a pair scores exactly one of its four
   * candidates: i paired with j, i unpaired, j unpaired, or a split.
   */
  lemma FillIsAttained(s: string, minDist: nat, w: Weights, i: int, j: int)
    requires 0 <= i && j < |s| && j - i > minDist
    ensures var r := Fill(s, minDist, w, i, j);
      || r == Fill(s, minDist, w, i + 1, j - 1) + IsPaired(s[i], s[j], w)
      || r == Fill(s, minDist, w, i + 1, j)
      || r == Fill(s, minDist, w, i, j - 1)
      || exists k :: i <= k < j - minDist && r == SplitScore(s, minDist, w, i, k, j)
  {
    var k := BifurcationIsAttained(s, minDist, w, i, j, j - minDist);
  }

  /** A span long enough to close a pair scores at least each of its splits. */
  lemma FillCoversSplits(s: string, minDist: nat, w: Weights, i: int, j: int, k: int)
    requires 0 <= i <= k < j - minDist && j < |s|
    ensures Fill(s, minDist, w, i, j) >= Fill(s, minDist, w, i, k) + Fill(s, minDist, w, k + 1, j)
  {
    var split := Bifurcation(s, minDist, w, i, j, j - minDist);
    assert SplitScore(s, minDist, w, i, k, j) <= split;
  }

  /** A structure on a span inside the sequence names positions of the sequence only. */
  lemma ValidStructureInRange(ps: seq<Pair>, lo: int, hi: int, minDist: nat, n: int)
    requires ValidStructure(ps, lo, hi, minDist) && 0 <= lo && hi < n
    ensures InRange(ps, n) && Ordered(ps)
  {
  }

  /**
   * Optimality, first half: no secondary structure on i..j whose pairs all
   * have their ends more than `minDist` apart scores more than Fill(i, j).
   */
  lemma {:induction false} FillIsUpperBound(s: string, minDist: nat, w: Weights, i: int, j: int, ps: seq<Pair>)
    requires 0 <= i && j < |s|
    requires ValidStructure(ps, i, j, minDist)
    ensures InRange(ps, |s|) && Score(s, w, ps) <= Fill(s, minDist, w, i, j)
    decreases j - i, 1
  {
    ValidStructureInRange(ps, i, j, minDist, |s|);
    if |ps| == 0 {
      return;
    }
    if forall y :: y in ps ==> y.0 != i {
      UpperBoundWhenFirstUnpaired(s, minDist, w, i, j, ps);
    } else if forall y :: y in ps ==> y.1 != j {
      UpperBoundWhenLastUnpaired(s, minDist, w, i, j, ps);
    } else {
      var a :| a in ps && a.0 == i;
      var b :| b in ps && b.1 == j;
      if a == b {
        UpperBoundWhenPaired(s, minDist, w, i, j, ps);
      } else {
        UpperBoundWhenSplit(s, minDist, w, i, j, ps, a, b);
      }
    }
  }

  /** The case where i belongs to no pair: the structure lies in i+1..j. */
  lemma {:induction false} UpperBoundWhenFirstUnpaired(s: string, minDist: nat, w: Weights, i: int, j: int, ps: seq<Pair>)
    requires 0 <= i && j < |s|
    requires ValidStructure(ps, i, j, minDist)
    requires forall y :: y in ps ==> y.0 != i
    requires |ps| > 0
    ensures InRange(ps, |s|) && Score(s, w, ps) <= Fill(s, minDist, w, i, j)
    decreases j - i, 0
  {
    assert i < j by {
      assert ps[0] in ps;
    }
    var i' := i + 1;
    assert ValidStructure(ps, i', j, minDist);
    FillIsUpperBound(s, minDist, w, i', j, ps);
    NarrowerBound(s, minDist, w, i, j, i', j, Score(s, w, ps));
  }

  /** The case where j belongs to no pair: the structure lies in i..j-1. */
  lemma {:induction false} UpperBoundWhenLastUnpaired(s: string, minDist: nat, w: Weights, i: int, j: int, ps: seq<Pair>)
    requires 0 <= i && j < |s|
    requires ValidStructure(ps, i, j, minDist)
    requires forall y :: y in ps ==> y.1 != j
    requires |ps| > 0
    ensures InRange(ps, |s|) && Score(s, w, ps) <= Fill(s, minDist, w, i, j)
    decreases j - i, 0
  {
    assert i < j by {
      assert ps[0] in ps;
    }
    var j' := j - 1;
    assert ValidStructure(ps, i, j', minDist);
    FillIsUpperBound(s, minDist, w, i, j', ps);
    NarrowerBound(s, minDist, w, i, j, i, j', Score(s, w, ps));
  }

  /** A value bounded by the score of i..j without one of its ends is bounded by the score of i..j. */
  lemma NarrowerBound(s: string, minDist: nat, w: Weights, i: int, j: int, i': int, j': int, x: int)
    requires 0 <= i && j < |s|
    requires (i' == i + 1 && j' == j) || (i' == i && j' == j - 1)
    requires x <= Fill(s, minDist, w, i', j')
    ensures x <= Fill(s, minDist, w, i, j)
  {
    FillMonotone(s, minDist, w, i, j);
  }

  /** The case where (i, j) itself is a pair of the structure. */
  lemma {:induction false} UpperBoundWhenPaired(s: string, minDist: nat, w: Weights, i: int, j: int, ps: seq<Pair>)
    requires 0 <= i && j < |s|
    requires ValidStructure(ps, i, j, minDist) && (i, j) in ps
    ensures InRange(ps, |s|) && Score(s, w, ps) <= Fill(s, minDist, w, i, j)
    decreases j - i, 0
  {
    PeelOuterPair(s, w, ps, i, j, minDist);
    FillIsUpperBound(s, minDist, w, i + 1, j - 1, Upto(ps, j - 1));
    FillPairedBound(s, minDist, w, i, j);
  }

  /** The case where i pairs with p and j with another base: the structure splits after p. */
  lemma {:induction false} UpperBoundWhenSplit(s: string, minDist: nat, w: Weights, i: int, j: int, ps: seq<Pair>, a: Pair, b: Pair)
    requires 0 <= i && j < |s|
    requires ValidStructure(ps, i, j, minDist)
    requires a in ps && a.0 == i && b in ps && b.1 == j && a != b
    ensures InRange(ps, |s|) && Score(s, w, ps) <= Fill(s, minDist, w, i, j)
    decreases j - i, 0
  {
    var p := a.1;
    var left, right := Upto(ps, p), Beyond(ps, p);
    SplitAfterPartner(s, w, ps, i, j, minDist, a, b);
    FillIsUpperBound(s, minDist, w, i, p, left);
    var q := p + 1;
    FillIsUpperBound(s, minDist, w, q, j, right);
    SplitBound(s, minDist, w, i, p, q, j, Score(s, w, ps), Score(s, w, left), Score(s, w, right));
  }

  /**
   * A total made of two parts, each bounded by the score of its half of a
   * split of i..j after k (the right half starting at q = k + 1), is bounded
   * by the score of i..j.
   */
  lemma SplitBound(s: string, minDist: nat, w: Weights, i: int, k: int, q: int, j: int, total: int, l: int, r: int)
    requires 0 <= i <= k < j - minDist && j < |s| && q == k + 1
    requires total == l + r && l <= Fill(s, minDist, w, i, k) && r <= Fill(s, minDist, w, q, j)
    ensures total <= Fill(s, minDist, w, i, j)
  {
    FillCoversSplits(s, minDist, w, i, j, k);
  }

  /** Optimality over the whole sequence: no structure on 0..|s|-1 scores more than Fill(0, |s| - 1). */
  lemma FillBoundsEveryStructure(s: string, minDist: nat, w: Weights)
    ensures forall ps :: ValidStructure(ps, 0, |s| - 1, minDist) ==>
      InRange(ps, |s|) && Score(s, w, ps) <= Fill(s, minDist, w, 0, |s| - 1)
  {
    var last := |s| - 1;
    forall ps | ValidStructure(ps, 0, last, minDist)
      ensures InRange(ps, |s|) && Score(s, w, ps) <= Fill(s, minDist, w, 0, last)
    {
      FillIsUpperBound(s, minDist, w, 0, last, ps);
    }
  }

  /** The scores the program's own check expects for UGGGGUU with the default weights and loop distance 3. */
  lemma FillExample(s: string)
    requires s == "UGGGGUU"
    ensures Fill(s, 3, DefaultWeights, 0, 6) == 1
    ensures Fill(s, 3, DefaultWeights, 1, 5) == 1
  {
    var w := DefaultWeights;
    assert s[0] == 'U' && s[1] == 'G' && s[2] == 'G' && s[4] == 'G' && s[5] == 'U' && s[6] == 'U';
    assert Bifurcation(s, 3, w, 0, 4, 1) == 0;
    assert Fill(s, 3, w, 0, 4) == 1;
    assert Bifurcation(s, 3, w, 1, 5, 2) == 0;
    assert Fill(s, 3, w, 1, 5) == 1;
    assert Bifurcation(s, 3, w, 2, 6, 3) == 0;
    assert Fill(s, 3, w, 2, 6) == 1;
    assert Bifurcation(s, 3, w, 0, 5, 1) == 1;
    assert Bifurcation(s, 3, w, 0, 5, 2) == 1;
    assert Fill(s, 3, w, 0, 5) == 1;
    assert Bifurcation(s, 3, w, 1, 6, 2) == 1;
    assert Bifurcation(s, 3, w, 1, 6, 3) == 1;
    assert Fill(s, 3, w, 1, 6) == 1;
    assert Bifurcation(s, 3, w, 0, 6, 1) == 1;
    assert Bifurcation(s, 3, w, 0, 6, 2) == 1;
    assert Bifurcation(s, 3, w, 0, 6, 3) == 1;
  }
}
