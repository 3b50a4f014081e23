# Nussinov RNA folding in Dafny

A model of `nussinov.py`, the Nussinov maximum base-pairing algorithm for RNA
secondary structure, with proofs about it. The model covers:

- the pair scorer `is_paired`;
- the matrix seeding in `initialize`;
- the recursive recurrence `fill`;
- the driver loop of `nussinov` that stores `fill(i, j)` in every cell on and above the diagonal;
- the stack-based `traceback` that reads pairs back out of the matrix;
- `pairs_to_structure`, which writes the pairs in dot-bracket notation.

Modules, one per file:

| module | file | models |
|---|---|---|
| `Wrappers` | wrappers.dfy | `Option`, standing for a matrix cell that may be unset (numpy's NaN) and for a Python error |
| `Indexing` | indexing.dfy | Python's list indexing, where -1 names the last element |
| `PairScore` | pair_score.dfy | `is_paired` and the weight triple |
| `Structure` | structure.dfy | pair lists: non-crossing, distinct positions, minimum loop size, score |
| `ScoreMatrix` | score_matrix.dfy | the matrix, `initialize`, cell access |
| `Recurrence` | recurrence.dfy | `fill`, and its optimality over all secondary structures |
| `MatrixFill` | matrix_fill.dfy | the driver loop (lines 130-135 of `nussinov`) |
| `Reconstruct` | reconstruct.dfy | `traceback`: one loop turn as the pure `Step`, the whole loop as the pure `Run`, and the loop as the method `Traceback` |
| `TracebackExamples` | traceback_examples.dfy | the traceback worked through on GGAAGCC (gap 3) and GCAU (gap 0) |
| `DotBracket` | dot_bracket.dfy | `pairs_to_structure` |
| `Pipeline` | pipeline.dfy | `nussinov` without the file write |

`fill` is the plain recursion of the source, so it is independent of the
matrix. Its partner is an independent meaning of "best score":

- A *secondary structure* on i..j is a list of pairs that is pairwise non-crossing (`Structure.NonCrossing`).
- Every pair lies in i..j and has its ends more than `min_dist` apart, j - i > min_dist (`Structure.Within`).
- The structure's score is the sum of its pair weights (`Structure.Score`).

`Recurrence.FillIsUpperBound` proves that no structure scores more than `Fill(i, j)`.
`Reconstruct.Traceback`, run with the corrected split test, returns a structure
that scores exactly `Fill(0, n - 1)`. Together these prove that the score is attained.

The split test of the traceback is a parameter, `Reconstruct.SplitTest`:

- `AsWritten` is line 94 of the source, character for character. That includes the read of column `k - 1 = -1` when `i = k = 0`, which Python turns into column `n - 1`.
- `Corrected` is the split of the recurrence, `m[i][k] + m[k+1][j] == m[i][j]`.

`Reconstruct.SplitMatches` evaluates either test on the matrix. Every other step of the traceback is the same under both tests. See Findings for why the two differ.

Three behaviours of the code that a reader of a textbook Nussinov implementation might not expect, all modelled as the code has them:

- `initialize` seeds only the diagonal and the first sub-diagonal with 0 (lines 17-18). It ignores `min_dist`; spans too short to close a pair get their 0 from `fill` instead.
- `fill` recurses and never reads the matrix (lines 56-65). The matrix only carries the results to `traceback`.
- When no branch of `traceback` explains a span's value, the span is dropped without a word (lines 93-97), and `Resolve` does the same. Nothing signals an error.

## Model

| member | source | states |
|---|---|---|
| PairScore.IsPaired | nussinov.py:21-39 | A-U in either order scores the A-U weight, G-C the G-C weight, G-U the G-U weight; every other pair of characters, same bases and unknown symbols included, scores 0 |
| PairScore.IsPairedSymmetric | nussinov.py:32-37 | the score does not depend on which base comes first |
| PairScore.IsPairedExamples | nussinov.py:21-39 | with the default weights [2, 3, 1]: A-U 2, G-C 3, G-U 1, A-A 0 |
| ScoreMatrix.Initialize | nussinov.py:4-19 | an n x n matrix in which cell (r, c) is 0 exactly when c = r or c = r - 1 and unset exactly otherwise; `min_dist` has no effect |
| Recurrence.Fill | nussinov.py:41-65 | the score is never negative, and is 0 for every span whose ends are at most `min_dist` apart |
| Recurrence.FillMonotone | nussinov.py:60-61 | dropping either end of a span never raises its score |
| Recurrence.FillPairedBound | nussinov.py:59 | a span long enough to close a pair scores at least its inner span plus the weight of pairing its ends |
| Recurrence.FillCoversSplits | nussinov.py:62-63 | a span scores at least the sum of its two halves at every split point k in [i, j - min_dist) |
| Recurrence.Bifurcation | nussinov.py:62-63 | the maximum taken at line 63: no split point k in [i, hi) scores more than the result |
| Recurrence.BifurcationIsAttained | nussinov.py:62-63 | the bifurcation term equals the score of some split in its range, so the max is over a non-empty range |
| Recurrence.FillIsAttained | nussinov.py:59-65 | the score of a long span equals one of its four candidates: paired, i unpaired, j unpaired, or a split |
| Recurrence.FillIsUpperBound | nussinov.py:41-65 | no pseudoknot-free structure on i..j whose pairs have their ends more than `min_dist` apart scores more than Fill(i, j) |
| Recurrence.FillExample | nussinov.py:41-65 | UGGGGUU with gap 3: Fill(0, 6) = 1 and Fill(1, 5) = 1 |
| MatrixFill.FillMatrix | nussinov.py:130-135 | after the driver loop every cell (i, j) with i <= j holds Fill(i, j), and every cell below the diagonal keeps its `initialize` value |
| MatrixFill.FilledIsWellFormed | nussinov.py:85-94 | every cell the traceback reads, on or above the first sub-diagonal, is set after the driver loop |
| MatrixFill.FilledExample | nussinov.py:130-135 | for UGGGGUU the filled matrix holds 1 at (0, 6) and at (1, 5) |
| Reconstruct.SplitTestOnFilled | nussinov.py:94 | on a filled matrix the corrected test accepts k exactly when Fill(i, k) + Fill(k + 1, j) equals Fill(i, j); the test as written accepts k exactly when Fill(i, k - 1) + Fill(k + 1, j - 1) + 1 equals Fill(i, j), with Fill(0, n - 1), the whole sequence's score, in place of column -1 at k = 0 |
| Reconstruct.FindSplit | nussinov.py:93-97 | the scan returns the first k in [i, j) that passes the split test, or nothing when none does |
| Reconstruct.Resolve | nussinov.py:82-97 | resolving a span pushes only spans inside it that are pairwise apart, and records at most the pair (i, j), which then encloses everything pushed; a span of fewer than two positions yields nothing |
| Reconstruct.Step | nussinov.py:82-97 | one turn pops the top span and leaves every span below it in place; the stack shrinks by one or grows by at most one; the recorded list keeps its old pairs as a prefix and gains at most one pair, the popped span itself |
| Reconstruct.ResolveLowersCost | nussinov.py:82-97 | what a resolution pushes has a smaller sum of (width² + 1) than the span it replaces |
| Reconstruct.StepLowersCost | nussinov.py:81-97 | every loop turn lowers the measure, so the loop ends |
| Reconstruct.StepKeepsInvariant | nussinov.py:81-97 | every loop turn keeps the pending spans in bounds, pairwise apart and clear of recorded pairs; the recorded pairs stay non-crossing, ordered and inside the sequence; with at most one base nothing is recorded |
| Reconstruct.ResolveRecordsSpaced | nussinov.py:85-91 | on a filled matrix a pair (i, j) is recorded only when j - i > `min_dist` |
| Reconstruct.StepKeepsSpacing | nussinov.py:81-97 | on a filled matrix every recorded pair (i, j) has j - i > `min_dist` |
| Reconstruct.CorrectedSplitExists | nussinov.py:62-65 | with the corrected test the scan always finds a split when the first three tests fail on a filled matrix |
| Reconstruct.CorrectedResolveKeepsScore | nussinov.py:85-97 | with the corrected test, the scores of the pushed spans plus the recorded pair's weight equal the score of the resolved span |
| Reconstruct.CorrectedStepKeepsBalance | nussinov.py:81-97 | with the corrected test, the recorded weight plus the pending spans' scores is the same after every loop turn |
| Reconstruct.Start | nussinov.py:79-80 | the loop starts from one pending span and no pair, a state that already satisfies the traceback invariant |
| Reconstruct.Run | nussinov.py:79-98 | taking turns from a stack of pending spans until none is left ends; pairs recorded before are kept, in order, at the front of the result, which is non-crossing, ordered and inside the sequence |
| Reconstruct.Traceback | nussinov.py:67-98 | the loop ends and returns exactly `Run` from the whole sequence; the pairs are non-crossing, ordered and inside the sequence; a filled matrix yields only pairs (i, j) with j - i > `min_dist`; at most one base yields no pair; with the corrected test the pairs score Fill(0, n - 1) |
| TracebackExamples.StemPairTurns | nussinov.py:79-97 | on GGAAGCC with gap 3 the loop records (0, 6), then (1, 5), each time pushing the span just inside the pair |
| TracebackExamples.StemLoopTurns | nussinov.py:79-97 | it then walks through the loop AAG by dropping bases, records nothing more, and the stack runs empty |
| TracebackExamples.AsWrittenDropsSpan | nussinov.py:93-97 | on GCAU with gap 0 the written split test accepts no k, so span 0..3 is dropped and nothing is recorded, although a structure scoring Fill(0, 3) = 5 exists |
| TracebackExamples.CorrectedSplitsSpan | nussinov.py:93-97 | on GCAU the corrected test splits span 0..3 after position 1 |
| TracebackExamples.StemRun | test_nussinov.py:38-53 | on the filled GGAAGCC matrix with gap 3 the traceback returns exactly [(0, 6), (1, 5)], under either split test |
| TracebackExamples.AsWrittenRun | nussinov.py:79-98 | on the filled GCAU matrix with gap 0 the traceback as written returns no pair, although Fill(0, 3) = 5 |
| TracebackExamples.CorrectedRun | nussinov.py:79-98 | on the filled GCAU matrix with gap 0 the traceback with the corrected test returns exactly [(0, 1), (2, 3)] |
| DotBracket.PairsToStructure | nussinov.py:100-115 | the result exists exactly when every index is one Python accepts; it has one character per base, each '.', '(' or ')' |
| DotBracket.Paint | nussinov.py:112-114 | writing the pairs keeps the string's length, and every position ends as '.', '(', ')' or its old character |
| DotBracket.PaintLastWins | nussinov.py:112-114 | the pairs are written in list order, so the last pair's ')' is never overwritten, nor its '(' when its two ends differ |
| DotBracket.PaintKeepsUnnamed | nussinov.py:111-114 | a position that no pair names, with indices read the Python way, keeps its character |
| DotBracket.PaintMarks | nussinov.py:111-115 | for pairs of distinct in-range positions, a position reads '(' where a pair opens, ')' where one closes, and keeps its old character elsewhere |
| DotBracket.StructureMarks | nussinov.py:100-115 | for pairs of distinct in-range positions: '(' exactly at opening positions, ')' exactly at closing positions, '.' exactly at unpaired positions |
| DotBracket.OpensOrCloses | nussinov.py:112-114 | when pairs share no position, no position both opens and closes a pair |
| DotBracket.PaintCounts | nussinov.py:111-115 | for pairs of distinct in-range positions the string holds \|pairs\| '(' and \|pairs\| ')', and a '.' for every other base |
| DotBracket.StemStructure | nussinov.py:100-115 | [(0, 6), (1, 5)] on GGAAGCC gives "((...))" |
| DotBracket.WrapStructures | nussinov.py:100-115 | on GCAU the pair (0, -1) marks the last base, as Python's index -1 does; an index past the end gives no string |
| DotBracket.SplitStructures | nussinov.py:100-115 | on GCAU no pair gives "...." and [(0, 1), (2, 3)] gives "()()" |
| Indexing.PyIndex | nussinov.py:94 | every index Python accepts for a list of length n, from -n to n - 1, names a position in 0..n-1, the one congruent to it modulo n |
| Structure.NonCrossingDistinct | nussinov.py:89-91 | a non-crossing list of ordered pairs never uses a position twice |
| Structure.PeelOuterPair | nussinov.py:59 | a structure on i..j that pairs i with j is that pair around a structure on i+1..j-1, and scores that pair's weight plus the inner structure's score |
| Structure.SplitAfterPartner | nussinov.py:62 | a structure in which i pairs with p and j pairs with another base splits after p into two structures whose scores add up |
| Structure.ScoreSplit | nussinov.py:62 | the score of a structure is the score of its pairs closing at or before a position plus the score of the rest |
| Structure.PairNeedsRoom | nussinov.py:56-57 | a structure on lo..hi that holds a pair needs hi - lo > `min_dist`; a narrower span holds none |
| Recurrence.FillBoundsEveryStructure | nussinov.py:130-135 | no pseudoknot-free structure on the whole sequence scores more than Fill(0, n - 1) |
| MatrixFill.FilledIsUnique | nussinov.py:130-135 | the driver loop determines the matrix: two filled matrices for the same input are equal |
| Pipeline.Nussinov | nussinov.py:130-137 | the predicted pairs are exactly what the traceback returns on the filled matrix; they form a valid structure and the string marks exactly those pairs; a gap of at least n - 1 gives no pair and an all-dot string; with the corrected test no valid structure scores more than the predicted one |
| Pipeline.PredictPairs | nussinov.py:130-136 | the filled matrix's traceback gives a valid structure that is exactly the run of the traceback on any matrix filled for the same input; no pair when the gap is at least n - 1; with the corrected test the pairs reach the optimum and beat every valid structure |
| Pipeline.WriteStructure | nussinov.py:137 | for in-range pairs with distinct ends the conversion always gives a string as long as the sequence, '(' exactly at opening ends, ')' exactly at closing ends and '.' elsewhere |
| Pipeline.PredictStem | nussinov.py:130-137 | GGAAGCC with weights [2, 3, 1] and gap 3 is predicted as [(0, 6), (1, 5)], written "((...))", under either split test |
| Pipeline.PredictDropped | nussinov.py:130-137 | GCAU with weights [2, 3, 1] and gap 0 is predicted, as written, with no pair and written "...." |
| Pipeline.PredictSplit | nussinov.py:130-137 | GCAU with weights [2, 3, 1] and gap 0 is predicted, with the corrected test, as [(0, 1), (2, 3)], written "()()" |

## Left out

- File output and `main` (nussinov.py:138-139, 143-156) are I/O. The output record is not modelled.
- numpy's float matrix is not modelled. A cell is an `Option<int>`, and `None` stands for NaN. With integer weights every score is an integer sum, so the `int(...)` casts on the scores are the identity. Reading a NaN cell would fail in Python; the model proves that the traceback never reads one.
- Performance is not modelled. `fill` is exponential, and the model makes no claim about its cost.
- The weights are an immutable triple `Weights(au, gc, gu)` of integers, not the source's mutable default list. Non-integer weights are not modelled: the source's `int(...)` truncations in `traceback` (lines 85-94) would then change the outcome of its tests.
- `min_dist` is a `nat`, so a negative gap is not modelled. With `min_dist = -1` the base case at line 56 no longer stops `fill(0, 0)`, and line 62 calls `fill(0, 0)` again for k = 0, so the source raises RecursionError on any non-empty sequence.
- Default arguments are not modelled: `is_paired`'s and `fill`'s default weights [2, 3, 1] and `fill`'s default `min_dist = 3` (nussinov.py:21, 41) become explicit parameters, and the examples pass them.
- `Reconstruct.Traceback`: with the split test as written, the model does not claim that the pairs score `Fill(0, n - 1)`, because they need not. See Findings.
- `DotBracket.PaintMarks` and `DotBracket.StructureMarks` assume that the pairs share no position. When positions repeat, the later write wins, and the model states nothing about that case. The traceback never produces repeated positions.
- The characterisation of `DotBracket.PairsToStructure` covers in-range indices only. Negative indices are modelled and wrap as in Python, but the `'('`/`')'` characterisation states nothing about them.

## Findings

| source | as written | input that shows it | evidently intended | confidence | as-written member | corrected member |
|---|---|---|---|---|---|---|
| nussinov.py:94 | the bifurcation branch of `traceback` accepts a split point k when `m[i][k-1] + m[k+1][j-1] + 1 == m[i][j]`. That is not the split of the recurrence at line 62: the column is `k-1` instead of `k`, the row end is `j-1` instead of `j`, and a constant 1 stands in for the pair weight. When no k passes, the span is silently dropped. | GCAU, min_dist 0, weights [2, 3, 1]. Fill(0, 3) = 5, reached only by the split into G-C (0, 1) and A-U (2, 3). At (0, 3) the first three tests fail. The scan gives 6 for k = 0 (the -1 column reads m[0][3]), 1 for k = 1 and 4 for k = 2, so no k passes and the traceback returns no pairs. | accept k when `m[i][k] + m[k+1][j] == m[i][j]`, the split that the recurrence maximises over. Then every span's score is accounted for, and the pairs score `m[0][n-1]`. | not executed; derived by hand and proved on the model | Pipeline.PredictDropped | Reconstruct.CorrectedResolveKeepsScore |
