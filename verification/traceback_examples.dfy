/**
 * Worked traces of the traceback on the sequences of the program's own
 * checks: GGAAGCC with gap 3, which folds into a two-pair stem, and GCAU
 * with gap 0, whose best structure needs the split branch.
 */
module TracebackExamples {
  import opened Wrappers
  import opened Indexing
  import opened PairScore
  import opened Structure
  import opened ScoreMatrix
  import opened Recurrence
  import opened MatrixFill
  import opened Reconstruct

  /** The scores of GGAAGCC with gap 3: a two-pair stem G-C, G-C closing AAG. */
  lemma StemScores(s: string)
    requires s == "GGAAGCC"
    ensures Fill(s, 3, DefaultWeights, 1, 5) == 3
    ensures Fill(s, 3, DefaultWeights, 0, 5) == 3
    ensures Fill(s, 3, DefaultWeights, 1, 6) == 3
    ensures Fill(s, 3, DefaultWeights, 0, 6) == 6
  {
    var w := DefaultWeights;
    assert s[0] == 'G' && s[1] == 'G' && s[2] == 'A' && s[3] == 'A' && s[4] == 'G' && s[5] == 'C' && s[6] == 'C';
    assert Bifurcation(s, 3, w, 0, 4, 1) == 0;
    assert Fill(s, 3, w, 0, 4) == 0;
    assert Bifurcation(s, 3, w, 1, 5, 2) == 0;
    assert Fill(s, 3, w, 1, 5) == 3;
    assert Bifurcation(s, 3, w, 2, 6, 3) == 0;
    assert Fill(s, 3, w, 2, 6) == 0;
    assert Bifurcation(s, 3, w, 0, 5, 2) == 3;
    assert Fill(s, 3, w, 0, 5) == 3;
    assert Bifurcation(s, 3, w, 1, 6, 3) == 0;
    assert Fill(s, 3, w, 1, 6) == 3;
    assert Bifurcation(s, 3, w, 0, 6, 3) == 3;
  }

  /** The cells of the filled GGAAGCC matrix that its traceback reads. */
  lemma StemCells(m: Matrix, s: string)
    requires s == "GGAAGCC" && Filled(m, s, 3, DefaultWeights)
    ensures WellFormed(m, |s|)
    ensures Cell(m, 0, 6) == 6 && Cell(m, 1, 6) == 3 && Cell(m, 0, 5) == 3 && Cell(m, 1, 5) == 3
    ensures Cell(m, 2, 5) == 0 && Cell(m, 1, 4) == 0 && Cell(m, 2, 4) == 0 && Cell(m, 3, 4) == 0
  {
    var w := DefaultWeights;
    StemScores(s);
    FilledCell(m, s, 3, w, 0, 6);
    FilledCell(m, s, 3, w, 1, 6);
    FilledCell(m, s, 3, w, 0, 5);
    FilledCell(m, s, 3, w, 1, 5);
    FilledCell(m, s, 3, w, 2, 5);
    FilledCell(m, s, 3, w, 1, 4);
    FilledCell(m, s, 3, w, 2, 4);
    FilledCell(m, s, 3, w, 3, 4);
  }

  /** The traceback of GGAAGCC with gap 3 first pairs positions 0-6, then 1-5. */
  lemma StemPairTurns(m: Matrix, s: string, test: SplitTest)
    requires s == "GGAAGCC" && Filled(m, s, 3, DefaultWeights) && WellFormed(m, |s|)
    ensures Step(m, s, DefaultWeights, test, Walk([(0, 6)], [])) == Walk([(1, 5)], [(0, 6)])
    ensures Step(m, s, DefaultWeights, test, Walk([(1, 5)], [(0, 6)])) == Walk([(2, 4)], [(0, 6), (1, 5)])
  {
    var w := DefaultWeights;
    StemCells(m, s);
    assert IsPaired(s[0], s[6], w) == 3 && IsPaired(s[1], s[5], w) == 3;
    ResolveThirdBranch(m, s, w, test, 0, 6);
    StepOnSingle(m, s, w, test, (0, 6), []);
    ResolveThirdBranch(m, s, w, test, 1, 5);
    StepOnSingle(m, s, w, test, (1, 5), [(0, 6)]);
    assert [(0, 6)] + [(1, 5)] == [(0, 6), (1, 5)];
  }

  /** It then walks through the loop AAG without recording a pair, and the stack runs empty. */
  lemma StemLoopTurns(m: Matrix, s: string, test: SplitTest)
    requires s == "GGAAGCC" && Filled(m, s, 3, DefaultWeights) && WellFormed(m, |s|)
    ensures Step(m, s, DefaultWeights, test, Walk([(2, 4)], [(0, 6), (1, 5)])) == Walk([(3, 4)], [(0, 6), (1, 5)])
    ensures Step(m, s, DefaultWeights, test, Walk([(3, 4)], [(0, 6), (1, 5)])) == Walk([(4, 4)], [(0, 6), (1, 5)])
    ensures Step(m, s, DefaultWeights, test, Walk([(4, 4)], [(0, 6), (1, 5)])) == Walk([], [(0, 6), (1, 5)])
  {
    var w := DefaultWeights;
    StemCells(m, s);
    var p := [(0, 6), (1, 5)];
    ResolveFirstBranch(m, s, w, test, 2, 4);
    StepOnSingle(m, s, w, test, (2, 4), p);
    ResolveFirstBranch(m, s, w, test, 3, 4);
    StepOnSingle(m, s, w, test, (3, 4), p);
    StepOnSingle(m, s, w, test, (4, 4), p);
    assert p + [] == p;
  }

  /**
   * The traceback of GGAAGCC with gap 3 returns exactly the pairs (0, 6) and
   * (1, 5), under either split test.
   */
  lemma StemRun(m: Matrix, s: string, test: SplitTest)
    requires s == "GGAAGCC" && Filled(m, s, 3, DefaultWeights) && WellFormed(m, |s|)
    ensures Run(m, s, DefaultWeights, test, Start(|s|)) == [(0, 6), (1, 5)]
  {
    var w := DefaultWeights;
    StemPairTurns(m, s, test);
    StemLoopTurns(m, s, test);
    var w0 := Start(|s|);
    assert w0 == Walk([(0, 6)], []);
    RunStep(m, s, w, test, w0);
    var w1 := Step(m, s, w, test, w0);
    RunStep(m, s, w, test, w1);
    var w2 := Step(m, s, w, test, w1);
    RunStep(m, s, w, test, w2);
    var w3 := Step(m, s, w, test, w2);
    RunStep(m, s, w, test, w3);
    var w4 := Step(m, s, w, test, w3);
    RunStep(m, s, w, test, w4);
    var w5 := Step(m, s, w, test, w4);
    assert w5 == Walk([], [(0, 6), (1, 5)]);
  }

  /** The scores of GCAU with gap 0: the best structure pairs G-C and A-U. */
  lemma SplitScores(s: string)
    requires s == "GCAU"
    ensures Fill(s, 0, DefaultWeights, 0, 1) == 3
    ensures Fill(s, 0, DefaultWeights, 1, 2) == 0
    ensures Fill(s, 0, DefaultWeights, 1, 3) == 2
    ensures Fill(s, 0, DefaultWeights, 0, 2) == 3
    ensures Fill(s, 0, DefaultWeights, 0, 3) == 5
  {
    var w := DefaultWeights;
    assert s[0] == 'G' && s[1] == 'C' && s[2] == 'A' && s[3] == 'U';
    assert Bifurcation(s, 0, w, 0, 1, 1) == 0;
    assert Fill(s, 0, w, 0, 1) == 3;
    assert Bifurcation(s, 0, w, 1, 2, 2) == 0;
    assert Fill(s, 0, w, 1, 2) == 0;
    assert Bifurcation(s, 0, w, 2, 3, 3) == 0;
    assert Fill(s, 0, w, 2, 3) == 2;
    assert Bifurcation(s, 0, w, 0, 2, 1) == 0;
    assert Bifurcation(s, 0, w, 0, 2, 2) == 3;
    assert Fill(s, 0, w, 0, 2) == 3;
    assert Bifurcation(s, 0, w, 1, 3, 2) == 2;
    assert Bifurcation(s, 0, w, 1, 3, 3) == 2;
    assert Fill(s, 0, w, 1, 3) == 2;
    assert Bifurcation(s, 0, w, 0, 3, 1) == 2;
    assert Bifurcation(s, 0, w, 0, 3, 2) == 5;
    assert Bifurcation(s, 0, w, 0, 3, 3) == 5;
  }

  /** The cells of the filled GCAU matrix that the split scan of 0..3 reads. */
  lemma SplitExampleCells(m: Matrix, s: string)
    requires s == "GCAU" && Filled(m, s, 0, DefaultWeights)
    ensures WellFormed(m, |s|)
    ensures Cell(m, 0, 3) == 5 && Cell(m, 1, 3) == 2 && Cell(m, 0, 2) == 3 && Cell(m, 1, 2) == 0
    ensures Cell(m, 0, 0) == 0 && Cell(m, 2, 2) == 0 && Cell(m, 0, 1) == 3 && Cell(m, 3, 2) == 0
    ensures Cell(m, 2, 3) == 2
  {
    var w := DefaultWeights;
    SplitScores(s);
    FilledCell(m, s, 0, w, 0, 3);
    FilledCell(m, s, 0, w, 1, 3);
    FilledCell(m, s, 0, w, 0, 2);
    FilledCell(m, s, 0, w, 1, 2);
    FilledCell(m, s, 0, w, 0, 0);
    FilledCell(m, s, 0, w, 2, 2);
    FilledCell(m, s, 0, w, 0, 1);
    FilledCell(m, s, 0, w, 3, 2);
    FilledCell(m, s, 0, w, 2, 3);
  }

  /** The best structure of GCAU with gap 0 pairs G-C and A-U and scores 5. */
  lemma SplitOptimum(s: string)
    requires s == "GCAU"
    ensures Fill(s, 0, DefaultWeights, 0, 3) == 5
    ensures ValidStructure([(0, 1), (2, 3)], 0, 3, 0) && Score(s, DefaultWeights, [(0, 1), (2, 3)]) == 5
  {
    SplitScores(s);
    assert s[0] == 'G' && s[1] == 'C' && s[2] == 'A' && s[3] == 'U';
    assert Init([(0, 1), (2, 3)]) == [(0, 1)] && Init([(0, 1)]) == [];
  }

  /** The cells of the filled GCAU matrix that the traceback of the halves G-C and A-U reads. */
  lemma HalfCells(m: Matrix, s: string)
    requires s == "GCAU" && Filled(m, s, 0, DefaultWeights)
    ensures WellFormed(m, |s|)
    ensures Cell(m, 0, 1) == 3 && Cell(m, 1, 1) == 0 && Cell(m, 0, 0) == 0 && Cell(m, 1, 0) == 0
    ensures Cell(m, 2, 3) == 2 && Cell(m, 3, 3) == 0 && Cell(m, 2, 2) == 0 && Cell(m, 3, 2) == 0
  {
    var w := DefaultWeights;
    SplitScores(s);
    FilledCell(m, s, 0, w, 0, 1);
    FilledCell(m, s, 0, w, 1, 1);
    FilledCell(m, s, 0, w, 0, 0);
    FilledCell(m, s, 0, w, 1, 0);
    FilledCell(m, s, 0, w, 2, 3);
    FilledCell(m, s, 0, w, 3, 3);
    FilledCell(m, s, 0, w, 2, 2);
    FilledCell(m, s, 0, w, 3, 2);
  }

  /** No split point of 0..3 passes the written test on the filled GCAU matrix. */
  lemma AsWrittenScanFails(m: Matrix, s: string)
    requires s == "GCAU" && Filled(m, s, 0, DefaultWeights) && WellFormed(m, |s|)
    ensures FindSplit(m, 4, AsWritten, 0, 3, 0) == None
    ensures Cell(m, 1, 3) != Cell(m, 0, 3) && Cell(m, 0, 2) != Cell(m, 0, 3)
    ensures Cell(m, 1, 2) + IsPaired(s[0], s[3], DefaultWeights) != Cell(m, 0, 3)
  {
    SplitExampleCells(m, s);
    assert IsPaired(s[0], s[3], DefaultWeights) == 1;
    assert !SplitMatches(m, 4, AsWritten, 0, 3, 0);
    assert !SplitMatches(m, 4, AsWritten, 0, 3, 1);
    assert !SplitMatches(m, 4, AsWritten, 0, 3, 2);
  }

  /** Resolving 0..3 on the filled GCAU matrix as written pushes and records nothing. */
  lemma AsWrittenResolve(m: Matrix, s: string)
    requires s == "GCAU" && Filled(m, s, 0, DefaultWeights) && WellFormed(m, |s|)
    ensures Resolve(m, s, DefaultWeights, AsWritten, 0, 3) == Outcome([], [])
  {
    AsWrittenScanFails(m, s);
    ResolveSplitBranch(m, s, DefaultWeights, AsWritten, 0, 3);
  }

  /**
   * The split test as written loses a span: on GCAU with gap 0 the best
   * score of 0..3 is 5, reached only by splitting into G-C and A-U, but no
   * split point passes the written test, so the span is dropped and the
   * traceback records nothing.
   */
  lemma AsWrittenDropsSpan(m: Matrix, s: string)
    requires s == "GCAU" && Filled(m, s, 0, DefaultWeights) && WellFormed(m, |s|)
    ensures Step(m, s, DefaultWeights, AsWritten, Walk([(0, 3)], [])) == Walk([], [])
    ensures Fill(s, 0, DefaultWeights, 0, 3) == 5
    ensures ValidStructure([(0, 1), (2, 3)], 0, 3, 0) && Score(s, DefaultWeights, [(0, 1), (2, 3)]) == 5
  {
    AsWrittenResolve(m, s);
    StepOnSingle(m, s, DefaultWeights, AsWritten, (0, 3), []);
    SplitOptimum(s);
  }

  /** The corrected test splits the GCAU span after position 1, into G-C and A-U. */
  lemma CorrectedSplitsSpan(m: Matrix, s: string)
    requires s == "GCAU" && Filled(m, s, 0, DefaultWeights) && WellFormed(m, |s|)
    ensures Step(m, s, DefaultWeights, Corrected, Walk([(0, 3)], [])) == Walk([(2, 3), (0, 1)], [])
  {
    AsWrittenScanFails(m, s);
    SplitExampleCells(m, s);
    assert !SplitMatches(m, 4, Corrected, 0, 3, 0);
    assert SplitMatches(m, 4, Corrected, 0, 3, 1);
    assert FindSplit(m, 4, Corrected, 0, 3, 0) == Some(1);
    ResolveSplitBranch(m, s, DefaultWeights, Corrected, 0, 3);
    StepOnSingle(m, s, DefaultWeights, Corrected, (0, 3), []);
  }

  /**
   * The traceback as written returns no pair at all for GCAU with gap 0,
   * although the best structure scores 5.
   */
  lemma AsWrittenRun(m: Matrix, s: string)
    requires s == "GCAU" && Filled(m, s, 0, DefaultWeights) && WellFormed(m, |s|)
    ensures Run(m, s, DefaultWeights, AsWritten, Start(|s|)) == []
    ensures Fill(s, 0, DefaultWeights, 0, 3) == 5
  {
    var w := DefaultWeights;
    AsWrittenDropsSpan(m, s);
    var w0 := Start(|s|);
    assert w0 == Walk([(0, 3)], []);
    RunStep(m, s, w, AsWritten, w0);
  }

  /** The corrected traceback of GCAU pairs G-C once the span 0..1 is on top. */
  lemma LeftHalfTurn(m: Matrix, s: string)
    requires s == "GCAU" && Filled(m, s, 0, DefaultWeights) && WellFormed(m, |s|)
    ensures Step(m, s, DefaultWeights, Corrected, Walk([(2, 3), (0, 1)], [])) == Walk([(2, 3), (1, 0)], [(0, 1)])
  {
    var w := DefaultWeights;
    HalfCells(m, s);
    assert IsPaired(s[0], s[1], w) == 3;
    ResolveThirdBranch(m, s, w, Corrected, 0, 1);
    StepOnTop(m, s, w, Corrected, [(2, 3)], (0, 1), []);
    assert [(2, 3)] + [(0, 1)] == [(2, 3), (0, 1)] && [(2, 3)] + [(1, 0)] == [(2, 3), (1, 0)];
  }

  /** The corrected traceback of GCAU then pairs A-U. */
  lemma RightHalfTurn(m: Matrix, s: string)
    requires s == "GCAU" && Filled(m, s, 0, DefaultWeights) && WellFormed(m, |s|)
    ensures Step(m, s, DefaultWeights, Corrected, Walk([(2, 3)], [(0, 1)])) == Walk([(3, 2)], [(0, 1), (2, 3)])
  {
    var w := DefaultWeights;
    HalfCells(m, s);
    assert IsPaired(s[2], s[3], w) == 2;
    ResolveThirdBranch(m, s, w, Corrected, 2, 3);
    StepOnSingle(m, s, w, Corrected, (2, 3), [(0, 1)]);
  }

  /** The spans left empty inside G-C and inside A-U are popped without effect. */
  lemma EmptySpanTurns(m: Matrix, s: string)
    requires s == "GCAU" && WellFormed(m, |s|)
    ensures Step(m, s, DefaultWeights, Corrected, Walk([(2, 3), (1, 0)], [(0, 1)])) == Walk([(2, 3)], [(0, 1)])
    ensures Step(m, s, DefaultWeights, Corrected, Walk([(3, 2)], [(0, 1), (2, 3)])) == Walk([], [(0, 1), (2, 3)])
  {
    EmptySpanTurn(m, s, DefaultWeights, Corrected, [(2, 3)], (1, 0), [(0, 1)]);
    assert [(2, 3)] + [(1, 0)] == [(2, 3), (1, 0)];
    EmptySpanTurn(m, s, DefaultWeights, Corrected, [], (3, 2), [(0, 1), (2, 3)]);
    assert [] + [(3, 2)] == [(3, 2)];
  }

  /**
   * With the corrected test the traceback of GCAU with gap 0 returns the
   * pairs (0, 1) and (2, 3): the split, then G-C, then A-U.
   */
  lemma CorrectedRun(m: Matrix, s: string)
    requires s == "GCAU" && Filled(m, s, 0, DefaultWeights) && WellFormed(m, |s|)
    ensures Run(m, s, DefaultWeights, Corrected, Start(|s|)) == [(0, 1), (2, 3)]
  {
    var w, c := DefaultWeights, Corrected;
    CorrectedSplitsSpan(m, s);
    LeftHalfTurn(m, s);
    RightHalfTurn(m, s);
    EmptySpanTurns(m, s);
    var w0 := Start(|s|);
    assert w0 == Walk([(0, 3)], []);
    RunStep(m, s, w, c, w0);
    var w1 := Step(m, s, w, c, w0);
    RunStep(m, s, w, c, w1);
    var w2 := Step(m, s, w, c, w1);
    RunStep(m, s, w, c, w2);
    var w3 := Step(m, s, w, c, w2);
    RunStep(m, s, w, c, w3);
    var w4 := Step(m, s, w, c, w3);
    RunStep(m, s, w, c, w4);
    var w5 := Step(m, s, w, c, w4);
    assert w5 == Walk([], [(0, 1), (2, 3)]);
  }
}
