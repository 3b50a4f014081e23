/**
 * Pair lists: sets of base pairs (i, j) of sequence positions, the conditions
 * that make one a secondary structure, and its score.
 */
module Structure {
  import opened PairScore

  /** A base pair (i, j); the traceback also uses it for the span i..j of a sequence. */
  type Pair = (int, int)

  function Init<T>(xs: seq<T>): seq<T>
    requires |xs| > 0
  {
    xs[..|xs| - 1]
  }

  function Last<T>(xs: seq<T>): T
    requires |xs| > 0
  {
    xs[|xs| - 1]
  }

  predicate SharesIndex(x: Pair, y: Pair) {
    x.0 == y.0 || x.0 == y.1 || x.1 == y.0 || x.1 == y.1
  }

  /** `x` opens first, `y` opens inside `x` and closes outside it: a pseudoknot. */
  predicate Crosses(x: Pair, y: Pair) {
    x.0 < y.0 < x.1 < y.1
  }

  /** Two pairs that may appear together in a secondary structure. */
  predicate Compatible(x: Pair, y: Pair) {
    !SharesIndex(x, y) && !Crosses(x, y) && !Crosses(y, x)
  }

  /** Every two pairs of `ps` are compatible; in particular no pair occurs twice. */
  predicate NonCrossing(ps: seq<Pair>)
    decreases |ps|
  {
    |ps| == 0 ||
    (NonCrossing(Init(ps)) && forall x :: x in Init(ps) ==> Compatible(x, Last(ps)))
  }

  /** No position belongs to two pairs, nor twice to one pair. */
  predicate DistinctIndices(ps: seq<Pair>)
    decreases |ps|
  {
    |ps| == 0 ||
    (DistinctIndices(Init(ps)) && Last(ps).0 != Last(ps).1 &&
     forall x :: x in Init(ps) ==> !SharesIndex(x, Last(ps)))
  }

  /** Every pair is written with its smaller position first. */
  predicate Ordered(ps: seq<Pair>) {
    forall x :: x in ps ==> x.0 < x.1
  }

  /** Every position named by `ps` is a position of a sequence of length `n`. */
  predicate InRange(ps: seq<Pair>, n: int) {
    forall x :: x in ps ==> 0 <= x.0 < n && 0 <= x.1 < n
  }

  /** Every pair lies in the span lo..hi and has its ends more than `minDist` apart (j - i > minDist). */
  predicate Within(ps: seq<Pair>, lo: int, hi: int, minDist: nat) {
    forall x :: x in ps ==> lo <= x.0 && x.1 <= hi && x.1 - x.0 > minDist
  }

  /** A pseudoknot-free secondary structure on the span lo..hi. */
  predicate ValidStructure(ps: seq<Pair>, lo: int, hi: int, minDist: nat) {
    NonCrossing(ps) && Within(ps, lo, hi, minDist)
  }

  /** The total weight of the pairs of `ps` on sequence `s`. */
  function Score(s: string, w: Weights, ps: seq<Pair>): int
    requires InRange(ps, |s|)
    decreases |ps|
  {
    if |ps| == 0 then 0
    else Score(s, w, Init(ps)) + IsPaired(s[Last(ps).0], s[Last(ps).1], w)
  }

  /** The pairs of `ps` that close at or before position `mid`, in their original order. */
  function Upto(ps: seq<Pair>, mid: int): (r: seq<Pair>)
    decreases |ps|
    ensures forall x :: x in r <==> x in ps && x.1 <= mid
    ensures NonCrossing(ps) ==> NonCrossing(r)
  {
    if |ps| == 0 then []
    else
      var r0 := Upto(Init(ps), mid);
      if Last(ps).1 <= mid then
        assert Init(r0 + [Last(ps)]) == r0;
        r0 + [Last(ps)]
      else r0
  }

  /** The pairs of `ps` that close after position `mid`, in their original order. */
  function Beyond(ps: seq<Pair>, mid: int): (r: seq<Pair>)
    decreases |ps|
    ensures forall x :: x in r <==> x in ps && x.1 > mid
    ensures NonCrossing(ps) ==> NonCrossing(r)
  {
    if |ps| == 0 then []
    else
      var r0 := Beyond(Init(ps), mid);
      if Last(ps).1 > mid then
        assert Init(r0 + [Last(ps)]) == r0;
        r0 + [Last(ps)]
      else r0
  }

  lemma MemberOfInit<T>(xs: seq<T>, x: T)
    requires |xs| > 0 && x in xs
    ensures x in Init(xs) || x == Last(xs)
  {
    assert xs == Init(xs) + [Last(xs)];
  }

  /** Any two different pairs of a non-crossing list are compatible, whatever their order. */
  lemma {:induction false} NonCrossingMembers(ps: seq<Pair>, x: Pair, y: Pair)
    requires NonCrossing(ps) && x in ps && y in ps && x != y
    ensures Compatible(x, y)
    decreases |ps|
  {
    MemberOfInit(ps, x);
    MemberOfInit(ps, y);
    if x in Init(ps) && y in Init(ps) {
      NonCrossingMembers(Init(ps), x, y);
    }
  }

  /** A non-crossing list of ordered pairs never uses a position twice. */
  lemma {:induction false} NonCrossingDistinct(ps: seq<Pair>)
    requires NonCrossing(ps) && Ordered(ps)
    ensures DistinctIndices(ps)
    decreases |ps|
  {
    if |ps| > 0 {
      assert Ordered(Init(ps)) by {
        forall x | x in Init(ps) ensures x.0 < x.1 {
          assert x in ps;
        }
      }
      NonCrossingDistinct(Init(ps));
      assert Last(ps) in ps;
    }
  }

  /** A non-crossing list of two or more pairs holds two different pairs. */
  lemma TwoDifferentMembers(ps: seq<Pair>)
    requires NonCrossing(ps) && |ps| > 1
    ensures ps[0] in ps && Last(ps) in ps && ps[0] != Last(ps)
  {
    assert Init(ps)[0] in Init(ps);
  }

  /** A non-crossing list holding only copies of `c` holds it exactly once. */
  lemma OnlyMember(ps: seq<Pair>, c: Pair)
    requires NonCrossing(ps) && c in ps
    requires forall x :: x in ps ==> x == c
    ensures ps == [c]
  {
    if |ps| > 1 {
      TwoDifferentMembers(ps);
      assert false;
    }
  }

  /** Splitting a list at a closing position splits its score. */
  lemma {:induction false} ScoreSplit(s: string, w: Weights, ps: seq<Pair>, mid: int)
    requires InRange(ps, |s|)
    ensures Score(s, w, ps) == Score(s, w, Upto(ps, mid)) + Score(s, w, Beyond(ps, mid))
    decreases |ps|
  {
    if |ps| > 0 {
      assert InRange(Init(ps), |s|) by {
        forall x | x in Init(ps) ensures 0 <= x.0 < |s| && 0 <= x.1 < |s| {
          assert x in ps;
        }
      }
      ScoreSplit(s, w, Init(ps), mid);
      var u0, b0 := Upto(Init(ps), mid), Beyond(Init(ps), mid);
      if Last(ps).1 <= mid {
        assert Init(u0 + [Last(ps)]) == u0;
      } else {
        assert Init(b0 + [Last(ps)]) == b0;
      }
    }
  }

  /** The score of two lists put together is the sum of their scores. */
  lemma {:induction false} ScoreAppend(s: string, w: Weights, a: seq<Pair>, b: seq<Pair>)
    requires InRange(a, |s|) && InRange(b, |s|)
    ensures InRange(a + b, |s|)
    ensures Score(s, w, a + b) == Score(s, w, a) + Score(s, w, b)
    decreases |b|
  {
    assert forall x :: x in a + b ==> x in a || x in b;
    if |b| > 0 {
      assert Init(a + b) == a + Init(b);
      assert forall x :: x in Init(b) ==> x in b;
      ScoreAppend(s, w, a, Init(b));
    } else {
      assert a + b == a;
    }
  }

  /** The score of a one-pair list is the weight of that pair. */
  lemma ScoreSingle(s: string, w: Weights, c: Pair)
    requires 0 <= c.0 < |s| && 0 <= c.1 < |s|
    ensures Score(s, w, [c]) == IsPaired(s[c.0], s[c.1], w)
  {
    assert Init([c]) == [];
  }

  /**
   * A structure on i..j that pairs i with j is that pair around a structure
   * on i+1..j-1.
   */
  lemma PeelOuterPair(s: string, w: Weights, ps: seq<Pair>, i: int, j: int, minDist: nat)
    requires 0 <= i && j < |s|
    requires ValidStructure(ps, i, j, minDist) && (i, j) in ps
    ensures InRange(ps, |s|)
    ensures ValidStructure(Upto(ps, j - 1), i + 1, j - 1, minDist)
    ensures Score(s, w, ps) == Score(s, w, Upto(ps, j - 1)) + IsPaired(s[i], s[j], w)
  {
    InsideOuterPair(ps, i, j, minDist);
    OuterPairAlone(ps, i, j, minDist);
    ScoreAroundLast(s, w, ps, j - 1, (i, j));
  }

  /** When only `c` closes after `mid`, the score is that of the rest plus the weight of `c`. */
  lemma ScoreAroundLast(s: string, w: Weights, ps: seq<Pair>, mid: int, c: Pair)
    requires InRange(ps, |s|) && Beyond(ps, mid) == [c] && 0 <= c.0 < |s| && 0 <= c.1 < |s|
    ensures Score(s, w, ps) == Score(s, w, Upto(ps, mid)) + IsPaired(s[c.0], s[c.1], w)
  {
    ScoreSplit(s, w, ps, mid);
    ScoreSingle(s, w, c);
  }

  /** Every other pair of a structure on i..j that pairs i with j lies strictly inside i..j. */
  lemma InsideOuterPair(ps: seq<Pair>, i: int, j: int, minDist: nat)
    requires ValidStructure(ps, i, j, minDist) && (i, j) in ps
    ensures ValidStructure(Upto(ps, j - 1), i + 1, j - 1, minDist)
  {
    forall z | z in Upto(ps, j - 1) ensures i + 1 <= z.0 && z.1 <= j - 1 {
      NonCrossingMembers(ps, z, (i, j));
    }
  }

  /** In a structure on i..j that pairs i with j, that pair is the only one closing at j. */
  lemma OuterPairAlone(ps: seq<Pair>, i: int, j: int, minDist: nat)
    requires ValidStructure(ps, i, j, minDist) && (i, j) in ps
    ensures Beyond(ps, j - 1) == [(i, j)]
  {
    var outer := Beyond(ps, j - 1);
    forall z | z in outer ensures z == (i, j) {
      if z != (i, j) {
        NonCrossingMembers(ps, z, (i, j));
      }
    }
    OnlyMember(outer, (i, j));
  }

  /**
   * A structure on i..j in which i pairs with p and j with another partner
   * splits into a structure on i..p and one on p+1..j, with p + 1 < j - minDist.
   */
  lemma SplitAfterPartner(s: string, w: Weights, ps: seq<Pair>, i: int, j: int, minDist: nat, a: Pair, b: Pair)
    requires 0 <= i && j < |s|
    requires ValidStructure(ps, i, j, minDist)
    requires a in ps && a.0 == i && b in ps && b.1 == j && a != b
    ensures InRange(ps, |s|)
    ensures i < a.1 < j - minDist
    ensures ValidStructure(Upto(ps, a.1), i, a.1, minDist)
    ensures ValidStructure(Beyond(ps, a.1), a.1 + 1, j, minDist)
    ensures Score(s, w, ps) == Score(s, w, Upto(ps, a.1)) + Score(s, w, Beyond(ps, a.1))
  {
    var p := a.1;
    NonCrossingMembers(ps, a, b);
    assert i < p < b.0 < j - minDist;
    forall z | z in Beyond(ps, p) ensures p + 1 <= z.0 {
      NonCrossingMembers(ps, z, a);
    }
    ScoreSplit(s, w, ps, p);
  }

  /** A structure with a pair needs a span whose ends are more than `minDist` apart. */
  lemma PairNeedsRoom(ps: seq<Pair>, lo: int, hi: int, minDist: nat)
    requires Within(ps, lo, hi, minDist)
    ensures |ps| > 0 ==> hi - lo > minDist
  {
    if |ps| > 0 {
      assert ps[0] in ps;
    }
  }
}
