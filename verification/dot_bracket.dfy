/**
 * Dot-bracket notation: one character per base, '(' where a pair opens,
 * ')' where it closes and '.' where the base is unpaired.
 */
module DotBracket {
  import opened Wrappers
  import opened Indexing
  import opened Structure

  /** A string of n dots. */
  function Dots(n: nat): (r: string)
    ensures |r| == n && forall t :: 0 <= t < n ==> r[t] == '.'
  {
    seq(n, _ => '.')
  }

  /** Every position named by `ps` is an index Python accepts for a list of length n. */
  predicate AllIndexable(ps: seq<Pair>, n: int) {
    forall p :: p in ps ==> Indexable(p.0, n) && Indexable(p.1, n)
  }

  /** Whether some pair of `ps` names position t of a string of length n, reading indices the Python way. */
  predicate Named(ps: seq<Pair>, n: int, t: int)
    requires AllIndexable(ps, n)
  {
    exists p :: p in ps && (PyIndex(p.0, n) == t || PyIndex(p.1, n) == t)
  }

  /**
   * Writes the pairs of `ps` over `d` in list order, '(' at the first
   * position of each pair and then ')' at the second, each index read the
   * Python way.
   */
  function Paint(d: string, ps: seq<Pair>): (r: string)
    requires AllIndexable(ps, |d|)
    ensures |r| == |d|
    ensures forall t :: 0 <= t < |r| ==> r[t] in {'.', '(', ')'} || r[t] == d[t]
    decreases |ps|
  {
    if |ps| == 0 then d
    else
      assert Last(ps) in ps;
      var r := Paint(d, Init(ps));
      var p := Last(ps);
      r[PyIndex(p.0, |d|) := '('][PyIndex(p.1, |d|) := ')']
  }

  /** The writes of the last pair win: its closing position reads ')', and its opening one '(' unless the two coincide. */
  lemma PaintLastWins(d: string, ps: seq<Pair>)
    requires AllIndexable(ps, |d|) && |ps| > 0
    ensures Last(ps) in ps
    ensures Paint(d, ps)[PyIndex(Last(ps).1, |d|)] == ')'
    ensures PyIndex(Last(ps).0, |d|) != PyIndex(Last(ps).1, |d|) ==> Paint(d, ps)[PyIndex(Last(ps).0, |d|)] == '('
  {
  }

  /** A position that no pair names keeps its character. */
  lemma {:induction false} PaintKeepsUnnamed(d: string, ps: seq<Pair>, t: int)
    requires AllIndexable(ps, |d|) && 0 <= t < |d| && !Named(ps, |d|, t)
    ensures Paint(d, ps)[t] == d[t]
    decreases |ps|
  {
    if |ps| > 0 {
      var p := Last(ps);
      assert p in ps;
      assert forall x :: x in Init(ps) ==> x in ps;
      PaintKeepsUnnamed(d, Init(ps), t);
    }
  }

  /**
   * The dot-bracket string of `pairs` on `s`, or None where the program
   * raises IndexError because a pair names a position outside the sequence.
   */
  function PairsToStructure(pairs: seq<Pair>, s: string): (r: Option<string>)
    ensures r.Some? <==> AllIndexable(pairs, |s|)
    ensures r.Some? ==> |r.value| == |s| && forall t :: 0 <= t < |s| ==> r.value[t] in {'.', '(', ')'}
  {
    if AllIndexable(pairs, |s|) then Some(Paint(Dots(|s|), pairs)) else None
  }

  /** Position t opens a pair of `ps`. */
  predicate Opens(ps: seq<Pair>, t: int) {
    exists p :: p in ps && p.0 == t
  }

  /** Position t closes a pair of `ps`. */
  predicate Closes(ps: seq<Pair>, t: int) {
    exists p :: p in ps && p.1 == t
  }

  lemma InRangeIndexable(ps: seq<Pair>, n: int)
    requires InRange(ps, n)
    ensures AllIndexable(ps, n)
  {
  }

  /**
   * For pairs of positions inside the sequence that share no position, the
   * painted string reads '(' exactly where a pair opens, ')' exactly where
   * one closes, and the underlying character everywhere else.
   */
  lemma {:induction false} PaintMarks(d: string, ps: seq<Pair>, t: int)
    requires InRange(ps, |d|) && DistinctIndices(ps) && 0 <= t < |d|
    ensures AllIndexable(ps, |d|)
    ensures Paint(d, ps)[t] == (if Opens(ps, t) then '(' else if Closes(ps, t) then ')' else d[t])
    decreases |ps|
  {
    InRangeIndexable(ps, |d|);
    if |ps| > 0 {
      var init, p := Init(ps), Last(ps);
      assert p in ps;
      assert InRange(init, |d|) by {
        forall x | x in init ensures 0 <= x.0 < |d| && 0 <= x.1 < |d| {
          assert x in ps;
        }
      }
      PaintMarks(d, init, t);
      forall x | x in ps ensures x in init || x == p {
        var k :| 0 <= k < |ps| && ps[k] == x;
        if k < |ps| - 1 {
          assert init[k] == x;
        }
      }
      if t == p.0 {
        assert !Closes(init, t);
      } else if t == p.1 {
        assert !Opens(init, t);
      } else {
        assert Opens(ps, t) == Opens(init, t);
        assert Closes(ps, t) == Closes(init, t);
      }
    }
  }

  /**
   * The structure string of a list of pairs of distinct positions inside the
   * sequence: '(' exactly at the opening positions, ')' exactly at the
   * closing ones, '.' at every unpaired position.
   */
  lemma StructureMarks(pairs: seq<Pair>, s: string)
    requires InRange(pairs, |s|) && DistinctIndices(pairs)
    ensures PairsToStructure(pairs, s).Some?
    ensures var r := PairsToStructure(pairs, s).value;
      forall t :: 0 <= t < |s| ==>
        && (r[t] == '(' <==> Opens(pairs, t))
        && (r[t] == ')' <==> Closes(pairs, t))
        && (r[t] == '.' <==> !Opens(pairs, t) && !Closes(pairs, t))
  {
    InRangeIndexable(pairs, |s|);
    var r := Paint(Dots(|s|), pairs);
    forall t | 0 <= t < |s|
      ensures && (r[t] == '(' <==> Opens(pairs, t))
              && (r[t] == ')' <==> Closes(pairs, t))
              && (r[t] == '.' <==> !Opens(pairs, t) && !Closes(pairs, t))
    {
      PaintMarks(Dots(|s|), pairs, t);
      OpensOrCloses(pairs, t);
    }
  }

  /** In a list of pairs that share no position, no position both opens and closes a pair. */
  lemma {:induction false} OpensOrCloses(ps: seq<Pair>, t: int)
    requires DistinctIndices(ps)
    ensures !(Opens(ps, t) && Closes(ps, t))
    decreases |ps|
  {
    if |ps| > 0 {
      var init, p := Init(ps), Last(ps);
      OpensOrCloses(init, t);
      forall x | x in ps ensures x in init || x == p {
        var k :| 0 <= k < |ps| && ps[k] == x;
        if k < |ps| - 1 {
          assert init[k] == x;
        }
      }
      forall a, b | a in ps && b in ps && a.0 == t ensures b.1 != t {
        if a != p && b != p {
          assert Opens(init, t);
        }
      }
    }
  }

  /** Overwriting one character changes the multiset of characters by exactly that character. */
  lemma UpdateCounts(r: string, a: int, c: char)
    requires 0 <= a < |r|
    ensures multiset(r[a := c]) == multiset(r) - multiset{r[a]} + multiset{c}
  {
    var r' := r[a := c];
    assert r == r[..a] + [r[a]] + r[a + 1..];
    assert r' == r[..a] + [c] + r[a + 1..];
  }

  /** Painting one pair over two dots turns one dot into '(' and another into ')'. */
  lemma PaintPairCounts(r: string, a: int, b: int)
    requires 0 <= a < |r| && 0 <= b < |r| && a != b && r[a] == '.' && r[b] == '.'
    ensures var r' := r[a := '('][b := ')'];
      && multiset(r')['('] == multiset(r)['('] + 1
      && multiset(r')[')'] == multiset(r)[')'] + 1
      && multiset(r')['.'] + 2 == multiset(r)['.']
  {
    UpdateCounts(r, a, '(');
    UpdateCounts(r[a := '('], b, ')');
  }

  /**
   * For pairs of distinct positions inside the sequence, the structure
   * string holds one '(' and one ')' per pair and a '.' for every other base.
   */
  lemma {:induction false} PaintCounts(n: nat, ps: seq<Pair>)
    requires InRange(ps, n) && DistinctIndices(ps)
    ensures AllIndexable(ps, n)
    ensures var r := Paint(Dots(n), ps);
      multiset(r)['('] == |ps| && multiset(r)[')'] == |ps| && multiset(r)['.'] == n - 2 * |ps|
    decreases |ps|
  {
    InRangeIndexable(ps, n);
    if |ps| == 0 {
      DotsCount(n);
    } else {
      var init, p := Init(ps), Last(ps);
      assert p in ps;
      assert InRange(init, n) by {
        forall x | x in init ensures 0 <= x.0 < n && 0 <= x.1 < n {
          assert x in ps;
        }
      }
      PaintCounts(n, init);
      var r := Paint(Dots(n), init);
      PaintMarks(Dots(n), init, p.0);
      PaintMarks(Dots(n), init, p.1);
      assert !Opens(init, p.0) && !Closes(init, p.0) && !Opens(init, p.1) && !Closes(init, p.1);
      PaintPairCounts(r, p.0, p.1);
      assert Paint(Dots(n), ps) == r[p.0 := '('][p.1 := ')'];
    }
  }

  lemma {:induction false} DotsCount(n: nat)
    ensures multiset(Dots(n))['.'] == n && multiset(Dots(n))['('] == 0 && multiset(Dots(n))[')'] == 0
  {
    if n > 0 {
      assert Dots(n) == Dots(n - 1) + ['.'];
      DotsCount(n - 1);
    } else {
      assert Dots(n) == [];
    }
  }

  /** The program's stem on GGAAGCC. */
  lemma StemStructure(s: string)
    requires s == "GGAAGCC"
    ensures PairsToStructure([(0, 6), (1, 5)], s) == Some("((...))")
  {
    assert Init([(0, 6), (1, 5)]) == [(0, 6)] && Init([(0, 6)]) == [];
    assert Dots(7) == ".......";
    assert Paint(".......", [(0, 6)]) == "(.....)";
    assert Paint(".......", [(0, 6), (1, 5)]) == "((...))";
  }

  /** Python's reading of index -1 as the last base, and an index past the end. */
  lemma WrapStructures(u: string)
    requires u == "GCAU"
    ensures PairsToStructure([(0, -1)], u) == Some("(..)")
    ensures PairsToStructure([(0, 4)], u) == None
  {
    assert Init([(0, -1)]) == [];
    assert Dots(4) == "....";
    assert Paint("....", [(0, -1)]) == "(..)";
    assert !Indexable(4, |u|);
  }

  /** GCAU with no pair is all dots; with G-C and A-U paired it reads "()()". */
  lemma SplitStructures(u: string)
    requires u == "GCAU"
    ensures PairsToStructure([], u) == Some("....")
    ensures PairsToStructure([(0, 1), (2, 3)], u) == Some("()()")
  {
    assert Dots(4) == "....";
    assert Init([(0, 1), (2, 3)]) == [(0, 1)] && Init([(0, 1)]) == [];
    assert Paint("....", [(0, 1)]) == "()..";
    assert Paint("....", [(0, 1), (2, 3)]) == "()()";
  }
}
