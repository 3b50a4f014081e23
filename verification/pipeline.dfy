/**
 * The whole prediction for one sequence: fill the score matrix, trace back
 * the pairs, and write them in dot-bracket notation.
 */
module Pipeline {
  import opened Wrappers
  import opened PairScore
  import opened Structure
  import opened Recurrence
  import opened MatrixFill
  import opened Reconstruct
  import opened TracebackExamples
  import opened DotBracket

  /**
   * Predicts the secondary structure of `s`. Whatever the split test, the
   * pairs are exactly what the traceback returns on the filled matrix, they
   * form a pseudoknot-free structure whose every pair has its ends more than
   * `minDist` apart (j - i > minDist), and the structure string marks exactly
   * those pairs. With the corrected split test the pairs also score as much
   * as any such structure can.
   */
  method Nussinov(s: string, w: Weights, minDist: nat, test: SplitTest) returns (pairs: seq<Pair>, structure: string)
    ensures ValidStructure(pairs, 0, |s| - 1, minDist) && InRange(pairs, |s|) && Ordered(pairs)
    ensures PairsToStructure(pairs, s) == Some(structure) && |structure| == |s|
    ensures forall t :: 0 <= t < |s| ==>
      && (structure[t] == '(' <==> Opens(pairs, t))
      && (structure[t] == ')' <==> Closes(pairs, t))
      && (structure[t] == '.' <==> !Opens(pairs, t) && !Closes(pairs, t))
    ensures test == Corrected ==> Score(s, w, pairs) == Fill(s, minDist, w, 0, |s| - 1)
    ensures test == Corrected ==>
      forall ps :: ValidStructure(ps, 0, |s| - 1, minDist) ==> InRange(ps, |s|) && Score(s, w, ps) <= Score(s, w, pairs)
    ensures forall m :: Filled(m, s, minDist, w) ==> pairs == Run(m, s, w, test, Start(|s|))
    ensures minDist >= |s| - 1 ==> pairs == [] && structure == Dots(|s|)
  {
    pairs := PredictPairs(s, w, minDist, test);
    NonCrossingDistinct(pairs);
    structure := WriteStructure(pairs, s);
  }

  /** Lines 130-136 of `nussinov`: fill the matrix, then trace the pairs back out of it. */
  method PredictPairs(s: string, w: Weights, minDist: nat, test: SplitTest) returns (pairs: seq<Pair>)
    ensures ValidStructure(pairs, 0, |s| - 1, minDist) && InRange(pairs, |s|) && Ordered(pairs)
    ensures test == Corrected ==> Score(s, w, pairs) == Fill(s, minDist, w, 0, |s| - 1)
    ensures test == Corrected ==>
      forall ps :: ValidStructure(ps, 0, |s| - 1, minDist) ==> InRange(ps, |s|) && Score(s, w, ps) <= Score(s, w, pairs)
    ensures forall m :: Filled(m, s, minDist, w) ==> pairs == Run(m, s, w, test, Start(|s|))
    ensures minDist >= |s| - 1 ==> pairs == []
  {
    var m := FillMatrix(s, minDist, w);
    FilledIsWellFormed(m, s, minDist, w);
    pairs := Traceback(m, s, w, test);
    forall m' | Filled(m', s, minDist, w) ensures pairs == Run(m', s, w, test, Start(|s|)) {
      FilledIsUnique(m, m', s, minDist, w);
    }
    PairNeedsRoom(pairs, 0, |s| - 1, minDist);
    FillBoundsEveryStructure(s, minDist, w);
  }

  /**
   * The call of `pairs_to_structure` on the traceback's pairs: it always
   * yields a string, and the string marks exactly those pairs.
   */
  method WriteStructure(pairs: seq<Pair>, s: string) returns (structure: string)
    requires InRange(pairs, |s|) && DistinctIndices(pairs)
    ensures PairsToStructure(pairs, s) == Some(structure) && |structure| == |s|
    ensures forall t :: 0 <= t < |s| ==>
      && (structure[t] == '(' <==> Opens(pairs, t))
      && (structure[t] == ')' <==> Closes(pairs, t))
      && (structure[t] == '.' <==> !Opens(pairs, t) && !Closes(pairs, t))
  {
    StructureMarks(pairs, s);
    structure := PairsToStructure(pairs, s).value;
  }

  /**
   * GGAAGCC with the default weights and gap 3 is predicted as the stem
   * (0, 6), (1, 5), written "((...))", under either split test.
   */
  method PredictStem(s: string, test: SplitTest) returns (pairs: seq<Pair>, structure: string)
    requires s == "GGAAGCC"
    ensures pairs == [(0, 6), (1, 5)] && structure == "((...))"
  {
    pairs, structure := Nussinov(s, DefaultWeights, 3, test);
    var m := FillMatrix(s, 3, DefaultWeights);
    FilledIsWellFormed(m, s, 3, DefaultWeights);
    StemRun(m, s, test);
    StemStructure(s);
  }

  /** GCAU with the default weights and gap 0: the split test as written predicts no pair at all. */
  method PredictDropped(s: string) returns (pairs: seq<Pair>, structure: string)
    requires s == "GCAU"
    ensures pairs == [] && structure == "...."
  {
    pairs, structure := Nussinov(s, DefaultWeights, 0, AsWritten);
    var m := FillMatrix(s, 0, DefaultWeights);
    FilledIsWellFormed(m, s, 0, DefaultWeights);
    AsWrittenRun(m, s);
    SplitStructures(s);
  }

  /** GCAU with the default weights and gap 0: the corrected split test predicts G-C and A-U. */
  method PredictSplit(s: string) returns (pairs: seq<Pair>, structure: string)
    requires s == "GCAU"
    ensures pairs == [(0, 1), (2, 3)] && structure == "()()"
  {
    pairs, structure := Nussinov(s, DefaultWeights, 0, Corrected);
    var m := FillMatrix(s, 0, DefaultWeights);
    FilledIsWellFormed(m, s, 0, DefaultWeights);
    CorrectedRun(m, s);
    SplitStructures(s);
  }
}
