/**
 * The traceback: an explicit stack of spans, each popped span resolved by the
 * first of four tests that holds, in the fixed order "i unpaired", "j unpaired",
 * "i pairs with j", "split".
 */
module Reconstruct {
  import opened Wrappers
  import opened Indexing
  import opened PairScore
  import opened Structure
  import opened ScoreMatrix
  import opened Recurrence
  import opened MatrixFill

  /** The traceback state: the stack of pending spans (top last) and the pairs recorded so far. */
  datatype Walk = Walk(stack: seq<Pair>, pairs: seq<Pair>)

  /** The test the split scan applies to a candidate split point k of the span i..j. */
  datatype SplitTest =
    | AsWritten  // m[i][k-1] + m[k+1][j-1] + 1 == m[i][j], column -1 read as the last column
    | Corrected  // m[i][k] + m[k+1][j] == m[i][j], the split of the recurrence

  /**
   * Whether k passes the split test for the span i..j. As written, the
   * first split point of a span starting at 0 reads column -1, which Python
   * takes as the last column n - 1.
   */
  function SplitMatches(m: Matrix, n: nat, test: SplitTest, i: int, j: int, k: int): (r: bool)
    requires WellFormed(m, n) && 0 <= i <= k < j < n
    ensures test == AsWritten && k == 0 ==> (r <==> Cell(m, 0, n - 1) + Cell(m, 1, j - 1) + 1 == Cell(m, 0, j))
    ensures test == AsWritten && k > 0 ==> (r <==> Cell(m, i, k - 1) + Cell(m, k + 1, j - 1) + 1 == Cell(m, i, j))
  {
    match test
    case AsWritten => Cell(m, i, PyIndex(k - 1, n)) + Cell(m, k + 1, j - 1) + 1 == Cell(m, i, j)
    case Corrected => Cell(m, i, k) + Cell(m, k + 1, j) == Cell(m, i, j)
  }

  /**
   * What each split test asks of a filled matrix. The corrected test accepts
   * exactly the split points whose two halves reach the span's score; the
   * test as written compares Fill(i, k - 1) + Fill(k + 1, j - 1) + 1 with it,
   * and at k = 0 reads the score of the whole sequence in place of column -1.
   */
  lemma SplitTestOnFilled(m: Matrix, s: string, minDist: nat, w: Weights, test: SplitTest, i: int, j: int, k: int)
    requires Filled(m, s, minDist, w) && 0 <= i <= k < j < |s|
    ensures WellFormed(m, |s|)
    ensures test == Corrected ==>
      (SplitMatches(m, |s|, test, i, j, k) <==> SplitScore(s, minDist, w, i, k, j) == Fill(s, minDist, w, i, j))
    ensures test == AsWritten && k > 0 ==>
      (SplitMatches(m, |s|, test, i, j, k) <==>
        Fill(s, minDist, w, i, k - 1) + Fill(s, minDist, w, k + 1, j - 1) + 1 == Fill(s, minDist, w, i, j))
    ensures test == AsWritten && k == 0 ==>
      (SplitMatches(m, |s|, test, i, j, k) <==>
        Fill(s, minDist, w, 0, |s| - 1) + Fill(s, minDist, w, 1, j - 1) + 1 == Fill(s, minDist, w, 0, j))
  {
    FilledIsWellFormed(m, s, minDist, w);
    FilledCell(m, s, minDist, w, i, j);
    FilledCell(m, s, minDist, w, i, k);
    FilledCell(m, s, minDist, w, k + 1, j);
    FilledCell(m, s, minDist, w, k + 1, j - 1);
    if k > 0 {
      FilledCell(m, s, minDist, w, i, k - 1);
    } else {
      FilledCell(m, s, minDist, w, 0, |s| - 1);
    }
  }

  /** The first split point in k..j-1 that passes the test, if there is one. */
  function FindSplit(m: Matrix, n: nat, test: SplitTest, i: int, j: int, k: int): (r: Option<int>)
    requires WellFormed(m, n) && 0 <= i <= k <= j < n
    decreases j - k
    ensures r.Some? ==> k <= r.value < j && SplitMatches(m, n, test, i, j, r.value)
    ensures r.Some? ==> forall t :: k <= t < r.value ==> !SplitMatches(m, n, test, i, j, t)
    ensures r.None? <==> forall t :: k <= t < j ==> !SplitMatches(m, n, test, i, j, t)
  {
    if k == j then None
    else if SplitMatches(m, n, test, i, j, k) then Some(k)
    else FindSplit(m, n, test, i, j, k + 1)
  }

  /** Every pending span lies inside 0..n-1 and is at worst empty by one position. */
  predicate SpansInBounds(stack: seq<Pair>, n: int) {
    forall sp :: sp in stack ==> 0 <= sp.0 && sp.1 < n && sp.0 <= sp.1 + 1
  }

  predicate Covers(sp: Pair, t: int) {
    sp.0 <= t <= sp.1
  }

  /** Two spans with no position in common. */
  predicate Apart(a: Pair, b: Pair) {
    a.1 < b.0 || b.1 < a.0 || a.1 < a.0 || b.1 < b.0
  }

  /** A span inside `outer`, at worst empty by one position. */
  predicate Inside(sp: Pair, outer: Pair) {
    outer.0 <= sp.0 && sp.1 <= outer.1 && sp.0 <= sp.1 + 1
  }

  predicate SpansApart(stack: seq<Pair>) {
    forall x, y :: 0 <= x < y < |stack| ==> Apart(stack[x], stack[y])
  }

  /** What resolving one popped span pushes onto the stack and records as pairs. */
  datatype Outcome = Outcome(push: seq<Pair>, record: seq<Pair>)

  /**
   * Resolves the popped span i..j. A span of fewer than two positions yields
   * nothing. Otherwise the first test that holds decides: i unpaired (push
   * i+1..j), j unpaired (push i..j-1), i paired with j (record (i, j), push
   * i+1..j-1), or a split at the first k the scan accepts (push k+1..j, then
   * i..k); when the scan accepts no k the span yields nothing. Whatever is
   * pushed lies inside i..j and is pairwise apart, and a recorded pair
   * encloses everything pushed.
   */
  function Resolve(m: Matrix, s: string, w: Weights, test: SplitTest, i: int, j: int): (r: Outcome)
    requires WellFormed(m, |s|) && 0 <= i && j < |s| && i <= j + 1
    ensures forall sp :: sp in r.push ==> Inside(sp, (i, j))
    ensures SpansApart(r.push)
    ensures r.record == [] || (r.record == [(i, j)] && i < j && forall sp :: sp in r.push ==> i < sp.0 && sp.1 < j)
    ensures i >= j ==> r == Outcome([], [])
  {
    if i >= j then Outcome([], [])
    else if Cell(m, i + 1, j) == Cell(m, i, j) then Outcome([(i + 1, j)], [])
    else if Cell(m, i, j - 1) == Cell(m, i, j) then Outcome([(i, j - 1)], [])
    else if Cell(m, i + 1, j - 1) + IsPaired(s[i], s[j], w) == Cell(m, i, j) then
      Outcome([(i + 1, j - 1)], [(i, j)])
    else
      match FindSplit(m, |s|, test, i, j, i)
      case None => Outcome([], [])
      case Some(k) => Outcome([(k + 1, j), (i, k)], [])
  }

  /**
   * One turn of the traceback loop: pop the top span and resolve it. The
   * spans below the top stay as they were, at most two spans are pushed,
   * and at most one pair is recorded, the popped span itself.
   */
  function Step(m: Matrix, s: string, w: Weights, test: SplitTest, walk: Walk): (r: Walk)
    requires WellFormed(m, |s|) && |walk.stack| > 0 && SpansInBounds(walk.stack, |s|)
    ensures |walk.stack| - 1 <= |r.stack| <= |walk.stack| + 1
    ensures r.stack[..|walk.stack| - 1] == walk.stack[..|walk.stack| - 1]
    ensures walk.pairs <= r.pairs && |r.pairs| <= |walk.pairs| + 1
    ensures |r.pairs| > |walk.pairs| ==> r.pairs[|walk.pairs|] == walk.stack[|walk.stack| - 1]
  {
    var top := Last(walk.stack);
    assert top in walk.stack;
    var o := Resolve(m, s, w, test, top.0, top.1);
    Walk(Init(walk.stack) + o.push, walk.pairs + o.record)
  }

  /** The number of positions a span covers. */
  function Width(sp: Pair): nat {
    if sp.0 <= sp.1 then sp.1 - sp.0 + 1 else 0
  }

  /** The loop's termination measure: each pending span costs its width squared, plus one. */
  function Cost(stack: seq<Pair>): nat
    decreases |stack|
  {
    if |stack| == 0 then 0 else Cost(Init(stack)) + Width(Last(stack)) * Width(Last(stack)) + 1
  }

  /** No pending span covers a position that is already paired. */
  predicate Clear(stack: seq<Pair>, pairs: seq<Pair>) {
    forall sp, p :: sp in stack && p in pairs ==> !Covers(sp, p.0) && !Covers(sp, p.1)
  }

  /**
   * What the traceback keeps true from one turn to the next: pending spans
   * in bounds and pairwise apart, clear of every recorded pair, and the
   * recorded pairs a non-crossing list of ordered pairs of positions.
   */
  predicate TraceInvariant(walk: Walk, n: int) {
    && SpansInBounds(walk.stack, n)
    && SpansApart(walk.stack)
    && Clear(walk.stack, walk.pairs)
    && NonCrossing(walk.pairs)
    && Ordered(walk.pairs)
    && InRange(walk.pairs, n)
  }

  lemma ApartFromInside(a: Pair, outer: Pair, sp: Pair)
    requires Apart(a, outer) && Inside(sp, outer)
    ensures Apart(a, sp) && Apart(sp, a)
  {
  }

  lemma AppendedMembers<T>(xs: seq<T>, ys: seq<T>, x: T)
    requires x in xs + ys
    ensures x in xs || x in ys
  {
  }

  /** Replacing the top span by spans inside it keeps the pending spans in bounds and apart. */
  lemma ReplaceTopSpans(stack: seq<Pair>, n: int, news: seq<Pair>)
    requires |stack| > 0 && SpansInBounds(stack, n) && SpansApart(stack)
    requires forall sp :: sp in news ==> Inside(sp, Last(stack))
    requires SpansApart(news)
    ensures SpansInBounds(Init(stack) + news, n) && SpansApart(Init(stack) + news)
  {
    var rest, top := Init(stack), Last(stack);
    assert top in stack;
    var all := rest + news;
    forall sp | sp in all ensures 0 <= sp.0 && sp.1 < n && sp.0 <= sp.1 + 1 {
      AppendedMembers(rest, news, sp);
      if sp in rest {
        assert sp in stack;
      }
    }
    forall x, y | 0 <= x < y < |all| ensures Apart(all[x], all[y]) {
      if y < |rest| {
        assert all[x] == stack[x] && all[y] == stack[y];
      } else if x < |rest| {
        assert all[x] == stack[x] && Apart(stack[x], stack[|stack| - 1]);
        assert all[y] in news;
        ApartFromInside(all[x], top, all[y]);
      } else {
        assert all[x] == news[x - |rest|] && all[y] == news[y - |rest|];
      }
    }
  }

  /**
   * Replacing the top span by spans inside it, and possibly recording the top
   * span itself as a pair when the new spans lie strictly inside it, keeps
   * the traceback invariant.
   */
  lemma ReplaceTop(walk: Walk, n: int, news: seq<Pair>, added: seq<Pair>)
    requires TraceInvariant(walk, n) && |walk.stack| > 0
    requires forall sp :: sp in news ==> Inside(sp, Last(walk.stack))
    requires SpansApart(news)
    requires added == [] || (added == [Last(walk.stack)] && Last(walk.stack).0 < Last(walk.stack).1 &&
      forall sp :: sp in news ==> Last(walk.stack).0 < sp.0 && sp.1 < Last(walk.stack).1)
    ensures TraceInvariant(Walk(Init(walk.stack) + news, walk.pairs + added), n)
  {
    var stack, pairs := walk.stack, walk.pairs;
    var rest, top := Init(stack), Last(stack);
    assert top in stack;
    ReplaceTopSpans(stack, n, news);
    var stack', pairs' := rest + news, pairs + added;
    forall sp, p | sp in stack' && p in pairs' ensures !Covers(sp, p.0) && !Covers(sp, p.1) {
      AppendedMembers(rest, news, sp);
      AppendedMembers(pairs, added, p);
      if sp in rest {
        var x :| 0 <= x < |rest| && rest[x] == sp;
        assert sp in stack && Apart(stack[x], stack[|stack| - 1]);
      } else {
        assert Inside(sp, top);
      }
      if p in pairs {
        assert !Covers(top, p.0) && !Covers(top, p.1);
      } else {
        assert p == top;
      }
    }
    if added != [] {
      forall x | x in pairs ensures Compatible(x, top) {
        assert !Covers(top, x.0) && !Covers(top, x.1);
      }
      assert Init(pairs') == pairs;
    } else {
      assert pairs' == pairs;
    }
    forall p | p in pairs' ensures p.0 < p.1 && 0 <= p.0 < n && 0 <= p.1 < n {
      AppendedMembers(pairs, added, p);
    }
  }

  /**
   * Every turn of the loop keeps the traceback invariant; on a sequence of at
   * most one base it never records a pair.
   */
  lemma StepKeepsInvariant(m: Matrix, s: string, w: Weights, test: SplitTest, walk: Walk)
    requires WellFormed(m, |s|) && |walk.stack| > 0 && TraceInvariant(walk, |s|)
    ensures TraceInvariant(Step(m, s, w, test, walk), |s|)
    ensures |s| <= 1 ==> Step(m, s, w, test, walk).pairs == walk.pairs
  {
    var top := Last(walk.stack);
    assert top in walk.stack;
    var o := Resolve(m, s, w, test, top.0, top.1);
    ReplaceTop(walk, |s|, o.push, o.record);
    assert walk.pairs + [] == walk.pairs;
  }

  lemma {:induction false} CostAppend(a: seq<Pair>, b: seq<Pair>)
    ensures Cost(a + b) == Cost(a) + Cost(b)
    decreases |b|
  {
    if |b| > 0 {
      assert Init(a + b) == a + Init(b);
      CostAppend(a, Init(b));
    } else {
      assert a + b == a;
    }
  }

  lemma CostSingle(sp: Pair)
    ensures Cost([sp]) == Width(sp) * Width(sp) + 1
  {
    assert Init([sp]) == [];
  }

  /** Replacing a span by a narrower one lowers the measure. */
  lemma ShrinkLowersCost(sp: Pair, top: Pair)
    requires Width(sp) < Width(top)
    ensures Cost([sp]) < Cost([top])
  {
    CostSingle(sp);
    CostSingle(top);
    var a, d := Width(sp), Width(top) - Width(sp);
    assert Width(top) * Width(top) == a * a + 2 * a * d + d * d;
    assert a * d >= 0 && d * d >= 1;
  }

  /** Splitting a span of width a + b into spans of widths a and b lowers the measure. */
  lemma SplitLowersCost(i: int, k: int, j: int)
    requires i <= k < j
    ensures Cost([(k + 1, j), (i, k)]) < Cost([(i, j)])
  {
    var a, b := k - i + 1, j - k;
    assert Init([(k + 1, j), (i, k)]) == [(k + 1, j)];
    CostSingle((k + 1, j));
    CostSingle((i, j));
    assert Width((i, k)) == a && Width((k + 1, j)) == b && Width((i, j)) == a + b;
    assert Cost([(k + 1, j), (i, k)]) == b * b + 1 + a * a + 1;
    assert (a + b) * (a + b) == a * a + b * b + 2 * a * b;
    assert a * b >= 1;
  }

  /** Resolving a span pushes spans of lower total measure than the span itself. */
  lemma ResolveLowersCost(m: Matrix, s: string, w: Weights, test: SplitTest, i: int, j: int)
    requires WellFormed(m, |s|) && 0 <= i && j < |s| && i <= j + 1
    ensures Cost(Resolve(m, s, w, test, i, j).push) < Cost([(i, j)])
  {
    CostSingle((i, j));
    var o := Resolve(m, s, w, test, i, j);
    if |o.push| == 1 {
      ShrinkLowersCost(o.push[0], (i, j));
    } else if |o.push| == 2 {
      var k := o.push[1].1;
      assert o.push == [(k + 1, j), (i, k)];
      SplitLowersCost(i, k, j);
    }
  }

  /** Every turn of the loop lowers the measure, so the traceback terminates. */
  lemma StepLowersCost(m: Matrix, s: string, w: Weights, test: SplitTest, walk: Walk)
    requires WellFormed(m, |s|) && |walk.stack| > 0 && SpansInBounds(walk.stack, |s|)
    ensures Cost(Step(m, s, w, test, walk).stack) < Cost(walk.stack)
  {
    var rest, top := Init(walk.stack), Last(walk.stack);
    assert top in walk.stack;
    assert walk.stack == rest + [top];
    CostAppend(rest, [top]);
    ResolveLowersCost(m, s, w, test, top.0, top.1);
    CostAppend(rest, Resolve(m, s, w, test, top.0, top.1).push);
  }

  /** On a filled matrix a pair (i, j) is recorded only when j - i > `minDist`. */
  lemma ResolveRecordsSpaced(m: Matrix, s: string, minDist: nat, w: Weights, test: SplitTest, i: int, j: int)
    requires Filled(m, s, minDist, w) && WellFormed(m, |s|) && 0 <= i && j < |s| && i <= j + 1
    ensures Within(Resolve(m, s, w, test, i, j).record, 0, |s| - 1, minDist)
  {
    if i < j {
      FilledCell(m, s, minDist, w, i + 1, j);
      FilledCell(m, s, minDist, w, i, j);
    }
  }

  /** On a filled matrix every recorded pair has its ends more than `minDist` apart. */
  lemma StepKeepsSpacing(m: Matrix, s: string, minDist: nat, w: Weights, test: SplitTest, walk: Walk)
    requires Filled(m, s, minDist, w) && WellFormed(m, |s|)
    requires |walk.stack| > 0 && SpansInBounds(walk.stack, |s|)
    requires Within(walk.pairs, 0, |s| - 1, minDist)
    ensures Within(Step(m, s, w, test, walk).pairs, 0, |s| - 1, minDist)
  {
    var top := Last(walk.stack);
    assert top in walk.stack;
    var o := Resolve(m, s, w, test, top.0, top.1);
    ResolveRecordsSpaced(m, s, minDist, w, test, top.0, top.1);
    forall p | p in walk.pairs + o.record ensures 0 <= p.0 && p.1 <= |s| - 1 && p.1 - p.0 > minDist {
      AppendedMembers(walk.pairs, o.record, p);
    }
  }

  /** The total score of the pending spans. */
  function Pending(s: string, minDist: nat, w: Weights, stack: seq<Pair>): int
    requires SpansInBounds(stack, |s|)
    decreases |stack|
  {
    if |stack| == 0 then 0
    else
      assert Last(stack) in stack;
      Pending(s, minDist, w, Init(stack)) + Fill(s, minDist, w, Last(stack).0, Last(stack).1)
  }

  lemma {:induction false} PendingAppend(s: string, minDist: nat, w: Weights, a: seq<Pair>, b: seq<Pair>)
    requires SpansInBounds(a + b, |s|)
    ensures SpansInBounds(a, |s|) && SpansInBounds(b, |s|)
    ensures Pending(s, minDist, w, a + b) == Pending(s, minDist, w, a) + Pending(s, minDist, w, b)
    decreases |b|
  {
    assert forall x :: x in a ==> x in a + b;
    assert forall x :: x in b ==> x in a + b;
    if |b| > 0 {
      assert Init(a + b) == a + Init(b);
      PendingAppend(s, minDist, w, a, Init(b));
    } else {
      assert a + b == a;
    }
  }

  /**
   * With the corrected test the split scan cannot come back empty on a filled
   * matrix: when the first three tests fail, the score of i..j is one of its splits.
   */
  lemma CorrectedSplitExists(m: Matrix, s: string, minDist: nat, w: Weights, i: int, j: int)
    requires Filled(m, s, minDist, w) && WellFormed(m, |s|) && 0 <= i < j < |s|
    requires Cell(m, i + 1, j) != Cell(m, i, j)
    requires Cell(m, i, j - 1) != Cell(m, i, j)
    requires Cell(m, i + 1, j - 1) + IsPaired(s[i], s[j], w) != Cell(m, i, j)
    ensures FindSplit(m, |s|, Corrected, i, j, i).Some?
  {
    FilledCell(m, s, minDist, w, i, j);
    FilledCell(m, s, minDist, w, i + 1, j);
    FilledCell(m, s, minDist, w, i, j - 1);
    FilledCell(m, s, minDist, w, i + 1, j - 1);
    assert j - i > minDist;
    FillIsAttained(s, minDist, w, i, j);
    var k :| i <= k < j - minDist && Fill(s, minDist, w, i, j) == SplitScore(s, minDist, w, i, k, j);
    FilledCell(m, s, minDist, w, i, k);
    FilledCell(m, s, minDist, w, k + 1, j);
    assert SplitMatches(m, |s|, Corrected, i, j, k);
  }

  lemma PendingOne(s: string, minDist: nat, w: Weights, sp: Pair)
    requires 0 <= sp.0 && sp.1 < |s| && sp.0 <= sp.1 + 1
    ensures SpansInBounds([sp], |s|) && Pending(s, minDist, w, [sp]) == Fill(s, minDist, w, sp.0, sp.1)
  {
    assert Init([sp]) == [];
  }

  lemma PendingTwo(s: string, minDist: nat, w: Weights, a: Pair, b: Pair)
    requires 0 <= a.0 && a.1 < |s| && a.0 <= a.1 + 1
    requires 0 <= b.0 && b.1 < |s| && b.0 <= b.1 + 1
    ensures SpansInBounds([a, b], |s|)
    ensures Pending(s, minDist, w, [a, b]) == Fill(s, minDist, w, a.0, a.1) + Fill(s, minDist, w, b.0, b.1)
  {
    assert Init([a, b]) == [a];
    PendingOne(s, minDist, w, a);
  }

  /** Resolving a span whose first test holds pushes i+1..j alone. */
  lemma ResolveFirstBranch(m: Matrix, s: string, w: Weights, test: SplitTest, i: int, j: int)
    requires WellFormed(m, |s|) && 0 <= i < j < |s|
    requires Cell(m, i + 1, j) == Cell(m, i, j)
    ensures Resolve(m, s, w, test, i, j) == Outcome([(i + 1, j)], [])
  {
  }

  lemma ResolveSecondBranch(m: Matrix, s: string, w: Weights, test: SplitTest, i: int, j: int)
    requires WellFormed(m, |s|) && 0 <= i < j < |s|
    requires Cell(m, i + 1, j) != Cell(m, i, j) && Cell(m, i, j - 1) == Cell(m, i, j)
    ensures Resolve(m, s, w, test, i, j) == Outcome([(i, j - 1)], [])
  {
  }

  lemma ResolveThirdBranch(m: Matrix, s: string, w: Weights, test: SplitTest, i: int, j: int)
    requires WellFormed(m, |s|) && 0 <= i < j < |s|
    requires Cell(m, i + 1, j) != Cell(m, i, j) && Cell(m, i, j - 1) != Cell(m, i, j)
    requires Cell(m, i + 1, j - 1) + IsPaired(s[i], s[j], w) == Cell(m, i, j)
    ensures Resolve(m, s, w, test, i, j) == Outcome([(i + 1, j - 1)], [(i, j)])
  {
  }

  lemma ResolveSplitBranch(m: Matrix, s: string, w: Weights, test: SplitTest, i: int, j: int)
    requires WellFormed(m, |s|) && 0 <= i < j < |s|
    requires Cell(m, i + 1, j) != Cell(m, i, j) && Cell(m, i, j - 1) != Cell(m, i, j)
    requires Cell(m, i + 1, j - 1) + IsPaired(s[i], s[j], w) != Cell(m, i, j)
    ensures var f := FindSplit(m, |s|, test, i, j, i);
      Resolve(m, s, w, test, i, j) == if f.Some? then Outcome([(f.value + 1, j), (i, f.value)], []) else Outcome([], [])
  {
  }

  /** When the split test finds k, resolving i..j pushes its two halves, the left half on top. */
  lemma ResolveSplitsAt(m: Matrix, s: string, w: Weights, test: SplitTest, i: int, j: int, k: int, q: int)
    requires WellFormed(m, |s|) && 0 <= i < j < |s| && q == k + 1
    requires Cell(m, i + 1, j) != Cell(m, i, j) && Cell(m, i, j - 1) != Cell(m, i, j)
    requires Cell(m, i + 1, j - 1) + IsPaired(s[i], s[j], w) != Cell(m, i, j)
    requires FindSplit(m, |s|, test, i, j, i) == Some(k)
    ensures Resolve(m, s, w, test, i, j) == Outcome([(q, j), (i, k)], [])
  {
    ResolveSplitBranch(m, s, w, test, i, j);
  }

  /** The balance of one resolution on a filled matrix, one lemma per branch. */
  predicate ResolveBalanced(m: Matrix, s: string, minDist: nat, w: Weights, i: int, j: int)
    requires WellFormed(m, |s|) && 0 <= i && j < |s| && i <= j + 1
  {
    var o := Resolve(m, s, w, Corrected, i, j);
    && SpansInBounds(o.push, |s|) && InRange(o.record, |s|)
    && Pending(s, minDist, w, o.push) + Score(s, w, o.record) == Fill(s, minDist, w, i, j)
  }

  lemma BalancedFirst(m: Matrix, s: string, minDist: nat, w: Weights, i: int, j: int)
    requires WellFormed(m, |s|) && 0 <= i < j < |s|
    requires Cell(m, i + 1, j) == Cell(m, i, j)
    requires Cell(m, i, j) == Fill(s, minDist, w, i, j) && Cell(m, i + 1, j) == Fill(s, minDist, w, i + 1, j)
    ensures ResolveBalanced(m, s, minDist, w, i, j)
  {
    var i' := i + 1;
    ResolveFirstBranch(m, s, w, Corrected, i, j);
    PendingOne(s, minDist, w, (i', j));
  }

  lemma BalancedSecond(m: Matrix, s: string, minDist: nat, w: Weights, i: int, j: int)
    requires WellFormed(m, |s|) && 0 <= i < j < |s|
    requires Cell(m, i + 1, j) != Cell(m, i, j) && Cell(m, i, j - 1) == Cell(m, i, j)
    requires Cell(m, i, j) == Fill(s, minDist, w, i, j) && Cell(m, i, j - 1) == Fill(s, minDist, w, i, j - 1)
    ensures ResolveBalanced(m, s, minDist, w, i, j)
  {
    var j' := j - 1;
    ResolveSecondBranch(m, s, w, Corrected, i, j);
    PendingOne(s, minDist, w, (i, j'));
  }

  lemma BalancedThird(m: Matrix, s: string, minDist: nat, w: Weights, i: int, j: int)
    requires WellFormed(m, |s|) && 0 <= i < j < |s|
    requires Cell(m, i + 1, j) != Cell(m, i, j) && Cell(m, i, j - 1) != Cell(m, i, j)
    requires Cell(m, i + 1, j - 1) + IsPaired(s[i], s[j], w) == Cell(m, i, j)
    requires Cell(m, i, j) == Fill(s, minDist, w, i, j)
    requires Cell(m, i + 1, j - 1) == Fill(s, minDist, w, i + 1, j - 1)
    ensures ResolveBalanced(m, s, minDist, w, i, j)
  {
    var i', j' := i + 1, j - 1;
    ResolveThirdBranch(m, s, w, Corrected, i, j);
    PendingOne(s, minDist, w, (i', j'));
    ScoreSingle(s, w, (i, j));
  }

  lemma BalancedSplit(m: Matrix, s: string, minDist: nat, w: Weights, i: int, j: int, k: int, q: int)
    requires WellFormed(m, |s|) && 0 <= i <= k < j < |s| && q == k + 1
    requires Cell(m, i + 1, j) != Cell(m, i, j) && Cell(m, i, j - 1) != Cell(m, i, j)
    requires Cell(m, i + 1, j - 1) + IsPaired(s[i], s[j], w) != Cell(m, i, j)
    requires FindSplit(m, |s|, Corrected, i, j, i) == Some(k)
    requires Fill(s, minDist, w, i, k) + Fill(s, minDist, w, q, j) == Fill(s, minDist, w, i, j)
    ensures ResolveBalanced(m, s, minDist, w, i, j)
  {
    PendingTwo(s, minDist, w, (q, j), (i, k));
    ResolveSplitsAt(m, s, w, Corrected, i, j, k, q);
  }

  /** On a filled matrix the cells a split test reads hold the scores of their spans. */
  lemma SplitReadsScores(m: Matrix, s: string, minDist: nat, w: Weights, i: int, j: int, k: int)
    requires Filled(m, s, minDist, w) && 0 <= i <= k < j < |s|
    ensures Cell(m, i, k) == Fill(s, minDist, w, i, k)
    ensures Cell(m, k + 1, j) == Fill(s, minDist, w, k + 1, j)
    ensures Cell(m, i, j) == Fill(s, minDist, w, i, j)
  {
    FilledCell(m, s, minDist, w, i, j);
    FilledCell(m, s, minDist, w, i, k);
    FilledCell(m, s, minDist, w, k + 1, j);
  }

  /** Where the corrected scan splits a span: a point whose two halves add up to the span's cell. */
  lemma CorrectedSplitAt(m: Matrix, s: string, i: int, j: int) returns (k: int)
    requires WellFormed(m, |s|) && 0 <= i < j < |s|
    requires FindSplit(m, |s|, Corrected, i, j, i).Some?
    ensures i <= k < j && FindSplit(m, |s|, Corrected, i, j, i) == Some(k)
    ensures Cell(m, i, k) + Cell(m, k + 1, j) == Cell(m, i, j)
  {
    k := FindSplit(m, |s|, Corrected, i, j, i).value;
    assert SplitMatches(m, |s|, Corrected, i, j, k);
  }

  /** The cells resolving i..j reads hold the scores of their spans on a filled matrix. */
  lemma ResolveReadsScores(m: Matrix, s: string, minDist: nat, w: Weights, i: int, j: int)
    requires Filled(m, s, minDist, w) && 0 <= i < j < |s|
    ensures Cell(m, i, j) == Fill(s, minDist, w, i, j)
    ensures Cell(m, i + 1, j) == Fill(s, minDist, w, i + 1, j)
    ensures Cell(m, i, j - 1) == Fill(s, minDist, w, i, j - 1)
    ensures Cell(m, i + 1, j - 1) == Fill(s, minDist, w, i + 1, j - 1)
  {
    FilledCell(m, s, minDist, w, i, j);
    FilledCell(m, s, minDist, w, i + 1, j);
    FilledCell(m, s, minDist, w, i, j - 1);
    FilledCell(m, s, minDist, w, i + 1, j - 1);
  }

  /**
   * With the corrected test, what resolving i..j pushes and records scores
   * exactly Fill(i, j): no part of the span's score is lost.
   */
  lemma CorrectedResolveKeepsScore(m: Matrix, s: string, minDist: nat, w: Weights, i: int, j: int)
    requires Filled(m, s, minDist, w) && WellFormed(m, |s|) && 0 <= i && j < |s| && i <= j + 1
    ensures ResolveBalanced(m, s, minDist, w, i, j)
  {
    if i >= j {
      assert Resolve(m, s, w, Corrected, i, j) == Outcome([], []);
      return;
    }
    ResolveReadsScores(m, s, minDist, w, i, j);
    if Cell(m, i + 1, j) == Cell(m, i, j) {
      BalancedFirst(m, s, minDist, w, i, j);
    } else if Cell(m, i, j - 1) == Cell(m, i, j) {
      BalancedSecond(m, s, minDist, w, i, j);
    } else if Cell(m, i + 1, j - 1) + IsPaired(s[i], s[j], w) == Cell(m, i, j) {
      BalancedThird(m, s, minDist, w, i, j);
    } else {
      CorrectedSplitExists(m, s, minDist, w, i, j);
      var k := CorrectedSplitAt(m, s, i, j);
      SplitReadsScores(m, s, minDist, w, i, j, k);
      var q := k + 1;
      BalancedSplit(m, s, minDist, w, i, j, k, q);
    }
  }

  /**
   * With the corrected test every turn keeps the recorded score plus the
   * scores of the pending spans constant.
   */
  lemma CorrectedStepKeepsBalance(m: Matrix, s: string, minDist: nat, w: Weights, walk: Walk)
    requires Filled(m, s, minDist, w) && WellFormed(m, |s|)
    requires |walk.stack| > 0 && TraceInvariant(walk, |s|)
    ensures var r := Step(m, s, w, Corrected, walk);
      && InRange(r.pairs, |s|) && SpansInBounds(r.stack, |s|)
      && Score(s, w, r.pairs) + Pending(s, minDist, w, r.stack)
         == Score(s, w, walk.pairs) + Pending(s, minDist, w, walk.stack)
  {
    StepKeepsInvariant(m, s, w, Corrected, walk);
    var rest, top := Init(walk.stack), Last(walk.stack);
    assert top in walk.stack;
    assert walk.stack == rest + [top];
    PendingAppend(s, minDist, w, rest, [top]);
    assert Init([top]) == [];
    var o := Resolve(m, s, w, Corrected, top.0, top.1);
    assert walk == Walk(rest + [top], walk.pairs);
    StepOnTop(m, s, w, Corrected, rest, top, walk.pairs);
    CorrectedResolveKeepsScore(m, s, minDist, w, top.0, top.1);
    PendingAppend(s, minDist, w, rest, o.push);
    ScoreAppend(s, w, walk.pairs, o.record);
  }

  /** The loop's starting state: the whole sequence pending, nothing recorded. */
  function Start(n: nat): (r: Walk)
    ensures TraceInvariant(r, n) && |r.stack| == 1 && r.pairs == []
  {
    Walk([(0, n - 1)], [])
  }

  /**
   * The pairs the loop ends with from `walk`: turns are taken until no span
   * is pending. Pairs once recorded are kept, in order, and the result is a
   * non-crossing list of ordered pairs of positions.
   */
  function Run(m: Matrix, s: string, w: Weights, test: SplitTest, walk: Walk): (r: seq<Pair>)
    requires WellFormed(m, |s|) && TraceInvariant(walk, |s|)
    decreases Cost(walk.stack)
    ensures walk.pairs <= r
    ensures NonCrossing(r) && Ordered(r) && InRange(r, |s|)
  {
    if |walk.stack| == 0 then walk.pairs
    else
      StepKeepsInvariant(m, s, w, test, walk);
      StepLowersCost(m, s, w, test, walk);
      var next := Step(m, s, w, test, walk);
      var r := Run(m, s, w, test, next);
      assert walk.pairs <= next.pairs;
      r
  }

  /**
   * What the traceback loop carries from turn to turn: the walk's invariant,
   * nothing recorded for a sequence of at most one base, every recorded pair
   * spaced by the gap of any matrix-filling, and under the corrected test a
   * score of recorded pairs and pending spans equal to the optimum.
   */
  ghost predicate Carried(m: Matrix, s: string, w: Weights, test: SplitTest, walk: Walk) {
    && TraceInvariant(walk, |s|)
    && (|s| <= 1 ==> walk.pairs == [])
    && (forall minDist: nat :: Filled(m, s, minDist, w) ==> Within(walk.pairs, 0, |s| - 1, minDist))
    && (test == Corrected ==> forall minDist: nat :: Filled(m, s, minDist, w) ==>
          Score(s, w, walk.pairs) + Pending(s, minDist, w, walk.stack) == Fill(s, minDist, w, 0, |s| - 1))
  }

  /** One turn of the traceback loop keeps every fact the loop carries and lowers its cost. */
  lemma TurnKeepsTrace(m: Matrix, s: string, w: Weights, test: SplitTest, walk: Walk, next: Walk)
    requires WellFormed(m, |s|) && |walk.stack| > 0 && Carried(m, s, w, test, walk)
    requires next == Step(m, s, w, test, walk)
    ensures Carried(m, s, w, test, next) && Cost(next.stack) < Cost(walk.stack)
    ensures Run(m, s, w, test, walk) == Run(m, s, w, test, next)
  {
    StepKeepsInvariant(m, s, w, test, walk);
    StepLowersCost(m, s, w, test, walk);
    RunStep(m, s, w, test, walk);
    forall minDist: nat | Filled(m, s, minDist, w)
      ensures Within(next.pairs, 0, |s| - 1, minDist)
    {
      StepKeepsSpacing(m, s, minDist, w, test, walk);
    }
    if test == Corrected {
      forall minDist: nat | Filled(m, s, minDist, w)
        ensures Score(s, w, next.pairs) + Pending(s, minDist, w, next.stack) == Fill(s, minDist, w, 0, |s| - 1)
      {
        CorrectedStepKeepsBalance(m, s, minDist, w, walk);
      }
    }
  }

  /** The loop's facts hold of the walk that starts with the whole sequence. */
  lemma CarriedAtStart(m: Matrix, s: string, w: Weights, test: SplitTest)
    ensures Carried(m, s, w, test, Start(|s|))
  {
    var walk := Start(|s|);
    forall minDist: nat | Filled(m, s, minDist, w)
      ensures Pending(s, minDist, w, walk.stack) == Fill(s, minDist, w, 0, |s| - 1)
    {
      PendingOne(s, minDist, w, (0, |s| - 1));
    }
  }

  /** Once the stack is empty the walk's pairs are the run's result and carry the loop's facts alone. */
  lemma CarriedAtEnd(m: Matrix, s: string, w: Weights, test: SplitTest, walk: Walk)
    requires WellFormed(m, |s|) && Carried(m, s, w, test, walk) && |walk.stack| == 0
    ensures Run(m, s, w, test, walk) == walk.pairs
    ensures NonCrossing(walk.pairs) && Ordered(walk.pairs) && InRange(walk.pairs, |s|)
    ensures |s| <= 1 ==> walk.pairs == []
    ensures forall minDist: nat :: Filled(m, s, minDist, w) ==> Within(walk.pairs, 0, |s| - 1, minDist)
    ensures test == Corrected ==>
      forall minDist: nat :: Filled(m, s, minDist, w) ==> Score(s, w, walk.pairs) == Fill(s, minDist, w, 0, |s| - 1)
  {
  }

  /**
   * The traceback: starting from the whole sequence, resolve spans until the
   * stack is empty. The pairs recorded always form a pseudoknot-free list of
   * ordered pairs of positions; on a matrix filled with gap `minDist` every
   * recorded pair has its ends more than `minDist` apart; and with the
   * corrected split test the recorded pairs score exactly Fill(0, |s| - 1),
   * the best any such structure can score.
   */
  method Traceback(m: Matrix, s: string, w: Weights, test: SplitTest) returns (pairs: seq<Pair>)
    requires WellFormed(m, |s|)
    ensures NonCrossing(pairs) && Ordered(pairs) && InRange(pairs, |s|)
    ensures |s| <= 1 ==> pairs == []
    ensures forall minDist: nat :: Filled(m, s, minDist, w) ==> Within(pairs, 0, |s| - 1, minDist)
    ensures test == Corrected ==>
      forall minDist: nat :: Filled(m, s, minDist, w) ==> Score(s, w, pairs) == Fill(s, minDist, w, 0, |s| - 1)
    ensures pairs == Run(m, s, w, test, Start(|s|))
  {
    var walk := Start(|s|);
    CarriedAtStart(m, s, w, test);
    while |walk.stack| > 0
      invariant Carried(m, s, w, test, walk)
      invariant Run(m, s, w, test, walk) == Run(m, s, w, test, Start(|s|))
      decreases Cost(walk.stack)
    {
      var next := Step(m, s, w, test, walk);
      TurnKeepsTrace(m, s, w, test, walk, next);
      walk := next;
    }
    CarriedAtEnd(m, s, w, test, walk);
    pairs := walk.pairs;
  }
  /** One turn that resolves a span and leaves exactly what it pushed and recorded. */
  lemma StepOnSingle(m: Matrix, s: string, w: Weights, test: SplitTest, top: Pair, pairs: seq<Pair>)
    requires WellFormed(m, |s|) && 0 <= top.0 && top.1 < |s| && top.0 <= top.1 + 1
    ensures var o := Resolve(m, s, w, test, top.0, top.1);
      Step(m, s, w, test, Walk([top], pairs)) == Walk(o.push, pairs + o.record)
  {
    StepOnTop(m, s, w, test, [], top, pairs);
    assert [] + [top] == [top];
  }

  /** One turn resolves the top span and leaves the spans below it in place. */
  lemma StepOnTop(m: Matrix, s: string, w: Weights, test: SplitTest, rest: seq<Pair>, top: Pair, pairs: seq<Pair>)
    requires WellFormed(m, |s|) && SpansInBounds(rest, |s|) && 0 <= top.0 && top.1 < |s| && top.0 <= top.1 + 1
    ensures SpansInBounds(rest + [top], |s|)
    ensures var o := Resolve(m, s, w, test, top.0, top.1);
      Step(m, s, w, test, Walk(rest + [top], pairs)) == Walk(rest + o.push, pairs + o.record)
  {
    assert top in rest + [top];
    assert Init(rest + [top]) == rest && Last(rest + [top]) == top;
  }

  /** One turn of the loop leaves the final pairs unchanged. */
  lemma RunStep(m: Matrix, s: string, w: Weights, test: SplitTest, walk: Walk)
    requires WellFormed(m, |s|) && TraceInvariant(walk, |s|) && |walk.stack| > 0
    ensures TraceInvariant(Step(m, s, w, test, walk), |s|)
    ensures Run(m, s, w, test, walk) == Run(m, s, w, test, Step(m, s, w, test, walk))
  {
    StepKeepsInvariant(m, s, w, test, walk);
  }

  /** A span of fewer than two positions is popped without effect. */
  lemma EmptySpanTurn(m: Matrix, s: string, w: Weights, test: SplitTest, rest: seq<Pair>, top: Pair, pairs: seq<Pair>)
    requires WellFormed(m, |s|) && SpansInBounds(rest, |s|) && 0 <= top.0 && top.1 < |s| && top.1 <= top.0 <= top.1 + 1
    ensures SpansInBounds(rest + [top], |s|)
    ensures Step(m, s, w, test, Walk(rest + [top], pairs)) == Walk(rest, pairs)
  {
    StepOnTop(m, s, w, test, rest, top, pairs);
    assert rest + [] == rest && pairs + [] == pairs;
  }
}
