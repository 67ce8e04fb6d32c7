/**
 * The per-row best-of-K reduction of the calculator (App.tsx, the callback of
 * `studentData.map`): collect the numeric cells of a 1-based inclusive column
 * range, sort them from highest to lowest, keep the first K and average them,
 * with 0 when nothing in the range is numeric.
 */
module BestOf {
  import opened Wrappers
  import opened Types

  function Min(a: int, b: int): int { if a <= b then a else b }

  // ---------------------------------------------------------------------------
  // Collecting the scores of a column range
  // ---------------------------------------------------------------------------

  /** What reading column `i` adds to the scores: its number when it parses,
      nothing when it does not or when the row has no column `i` (`undefined`). */
  function CellScore(row: Row, i: int, parseText: TextParser): seq<real>
  {
    if 0 <= i < |row| then
      match ParseFloat(row[i], parseText)
      case Some(x) => [x]
      case None => []
    else []
  }

  /** The scores the collecting loop has pushed after visiting the 0-based
      columns `lo .. hi-1`, in the order it visits them. */
  function Collected(row: Row, lo: int, hi: int, parseText: TextParser): seq<real>
    decreases hi - lo
  {
    if hi <= lo then [] else Collected(row, lo, hi - 1, parseText) + CellScore(row, hi - 1, parseText)
  }

  /** Reference definition: the numbers of a run of cells, left to right,
      skipping the cells that do not parse. */
  function NumericValues(cells: seq<Cell>, parseText: TextParser): (r: seq<real>)
    ensures |r| <= |cells|
  {
    if cells == [] then []
    else
      (match ParseFloat(cells[0], parseText) case Some(x) => [x] case None => [])
      + NumericValues(cells[1..], parseText)
  }

  lemma {:induction false} NumericValuesAppend(a: seq<Cell>, b: seq<Cell>, parseText: TextParser)
    ensures NumericValues(a + b, parseText) == NumericValues(a, parseText) + NumericValues(b, parseText)
  {
    if a == [] {
      assert a + b == b;
    } else {
      assert (a + b)[1..] == a[1..] + b;
      NumericValuesAppend(a[1..], b, parseText);
    }
  }

  /** The collected scores are exactly the numeric cells of the slice of the row
      between the columns `lo` and `hi` (clipped to the row), in column order:
      columns past the end of the row contribute nothing. */
  lemma {:induction false} CollectedIsNumericSlice(row: Row, lo: int, hi: int, parseText: TextParser)
    requires 0 <= lo <= hi
    ensures Collected(row, lo, hi, parseText) == NumericValues(row[Min(lo, |row|)..Min(hi, |row|)], parseText)
  {
    if hi == lo {
    } else {
      CollectedIsNumericSlice(row, lo, hi - 1, parseText);
      if hi - 1 < |row| {
        var a := row[Min(lo, |row|)..hi - 1];
        assert row[Min(lo, |row|)..hi] == a + [row[hi - 1]];
        NumericValuesAppend(a, [row[hi - 1]], parseText);
        assert NumericValues([row[hi - 1]], parseText) == CellScore(row, hi - 1, parseText);
      }
    }
  }

  /** There are at most as many scores as columns in the range. */
  lemma CollectedBound(row: Row, lo: int, hi: int, parseText: TextParser)
    requires 0 <= lo <= hi
    ensures |Collected(row, lo, hi, parseText)| <= hi - lo
  {
    CollectedIsNumericSlice(row, lo, hi, parseText);
  }

  /** No score is collected exactly when no column of the range holds a number. */
  lemma {:induction false} CollectedEmptyIff(row: Row, lo: int, hi: int, parseText: TextParser)
    ensures Collected(row, lo, hi, parseText) == [] <==>
      forall i :: lo <= i < hi && 0 <= i < |row| ==> ParseFloat(row[i], parseText).None?
    decreases hi - lo
  {
    if hi > lo {
      CollectedEmptyIff(row, lo, hi - 1, parseText);
      var last := CellScore(row, hi - 1, parseText);
      assert Collected(row, lo, hi, parseText) == Collected(row, lo, hi - 1, parseText) + last;
      assert last == [] <==> !(0 <= hi - 1 < |row|) || ParseFloat(row[hi - 1], parseText).None?;
    }
  }

  // ---------------------------------------------------------------------------
  // Sorting from highest to lowest (`quizScores.sort((a, b) => b - a)`)
  // ---------------------------------------------------------------------------

  predicate NonIncreasing(s: seq<real>)
  {
    forall i, j :: 0 <= i < j < |s| ==> s[i] >= s[j]
  }

  /** Places `x` in front of the first element it is at least as large as. */
  function Insert(x: real, s: seq<real>): (r: seq<real>)
    ensures multiset(r) == multiset(s) + multiset{x}
    ensures |r| == |s| + 1
  {
    if s == [] || x >= s[0] then [x] + s
    else
      assert s == [s[0]] + s[1..];
      [s[0]] + Insert(x, s[1..])
  }

  /** Inserting into a non-increasing list keeps it non-increasing. */
  lemma {:induction false} InsertSorted(x: real, s: seq<real>)
    requires NonIncreasing(s)
    ensures NonIncreasing(Insert(x, s))
    ensures Insert(x, s)[0] == x || (|s| > 0 && Insert(x, s)[0] == s[0])
  {
    if s != [] && x < s[0] {
      InsertSorted(x, s[1..]);
    }
  }

  /** The engine's sort with the comparator `b - a`: a rearrangement of the scores
      (that it is non-increasing is `SortDescendingSorted`). */
  function SortDescending(s: seq<real>): (r: seq<real>)
    ensures multiset(r) == multiset(s)
    ensures |r| == |s|
  {
    if s == [] then []
    else
      assert s == [s[0]] + s[1..];
      Insert(s[0], SortDescending(s[1..]))
  }

  /** The sorted scores run from highest to lowest. */
  lemma {:induction false} SortDescendingSorted(s: seq<real>)
    ensures NonIncreasing(SortDescending(s))
  {
    if s != [] {
      SortDescendingSorted(s[1..]);
      InsertSorted(s[0], SortDescending(s[1..]));
    }
  }

  lemma HeadIsLargest(s: seq<real>, x: real)
    requires NonIncreasing(s) && x in multiset(s)
    ensures |s| > 0 && x <= s[0]
  {
  }

  lemma SameHead(a: seq<real>, b: seq<real>)
    requires NonIncreasing(a) && NonIncreasing(b)
    requires multiset(a) == multiset(b) && a != []
    ensures b != [] && a[0] == b[0]
  {
    assert a[0] in multiset(a);
    HeadIsLargest(b, a[0]);
    assert b[0] in multiset(b);
    HeadIsLargest(a, b[0]);
  }

  lemma SameTail(a: seq<real>, b: seq<real>)
    requires a != [] && b != [] && a[0] == b[0] && multiset(a) == multiset(b)
    ensures multiset(a[1..]) == multiset(b[1..])
  {
    assert a == [a[0]] + a[1..] && b == [b[0]] + b[1..];
    assert multiset(a[1..]) == multiset(a) - multiset{a[0]};
    assert multiset(b[1..]) == multiset(b) - multiset{b[0]};
  }

  /** A non-increasing arrangement of a multiset of scores is unique, so which
      sorting algorithm the engine uses does not change the result. */
  lemma {:induction false} SortedPermutationUnique(a: seq<real>, b: seq<real>)
    requires NonIncreasing(a) && NonIncreasing(b)
    requires multiset(a) == multiset(b)
    ensures a == b
  {
    if a == [] {
      assert |b| == |multiset(b)| == 0;
    } else {
      SameHead(a, b);
      SameTail(a, b);
      SortedPermutationUnique(a[1..], b[1..]);
      assert a == [a[0]] + a[1..] && b == [b[0]] + b[1..];
    }
  }

  /** Any non-increasing permutation of the scores is the one the model sorts to. */
  lemma SortDescendingIsTheSort(s: seq<real>, t: seq<real>)
    requires NonIncreasing(t) && multiset(t) == multiset(s)
    ensures SortDescending(s) == t
  {
    SortDescendingSorted(s);
    SortedPermutationUnique(SortDescending(s), t);
  }

  // ---------------------------------------------------------------------------
  // Keeping the best K (`quizScores.slice(0, bestOf)`)
  // ---------------------------------------------------------------------------

  /** `s.slice(0, k)`: the first `k` elements, or all of them when there are fewer. */
  function Take(s: seq<real>, k: nat): seq<real>
  {
    s[..Min(k, |s|)]
  }

  /** The scores kept for the average. */
  function TopScores(scores: seq<real>, k: nat): seq<real>
  {
    Take(SortDescending(scores), k)
  }

  /** The scores left out of the average. */
  function DroppedScores(scores: seq<real>, k: nat): seq<real>
  {
    SortDescending(scores)[Min(k, |scores|)..]
  }

  lemma SplitSorted(s: seq<real>, m: nat)
    requires NonIncreasing(s) && m <= |s|
    ensures NonIncreasing(s[..m])
    ensures s == s[..m] + s[m..]
  {
  }

  /** The kept scores are `min(k, n)` of the collected ones, highest first, and
      the sorted scores are the kept ones followed by the dropped ones. */
  lemma TopScoresShape(scores: seq<real>, k: nat)
    ensures |TopScores(scores, k)| == Min(k, |scores|)
    ensures NonIncreasing(TopScores(scores, k))
    ensures SortDescending(scores) == TopScores(scores, k) + DroppedScores(scores, k)
  {
    SortDescendingSorted(scores);
    SplitSorted(SortDescending(scores), Min(k, |scores|));
  }

  /** The kept and the dropped scores together are exactly the collected scores. */
  lemma TopScoresPartition(scores: seq<real>, k: nat)
    ensures multiset(TopScores(scores, k)) + multiset(DroppedScores(scores, k)) == multiset(scores)
  {
    TopScoresShape(scores, k);
    assert multiset(TopScores(scores, k) + DroppedScores(scores, k)) == multiset(SortDescending(scores));
  }

  /** Every kept score is at least every dropped score. */
  lemma TopScoresDominate(scores: seq<real>, k: nat)
    ensures forall i, j :: 0 <= i < |TopScores(scores, k)| && 0 <= j < |DroppedScores(scores, k)| ==>
      TopScores(scores, k)[i] >= DroppedScores(scores, k)[j]
  {
    var sorted := SortDescending(scores);
    SortDescendingSorted(scores);
    forall i, j | 0 <= i < |TopScores(scores, k)| && 0 <= j < |DroppedScores(scores, k)|
      ensures TopScores(scores, k)[i] >= DroppedScores(scores, k)[j]
    {
      assert TopScores(scores, k)[i] == sorted[i];
      assert DroppedScores(scores, k)[j] == sorted[Min(k, |scores|) + j];
    }
  }

  // ---------------------------------------------------------------------------
  // Averaging (`reduce((sum, score) => sum + score, 0) / length`, or 0)
  // ---------------------------------------------------------------------------

  /** The left fold `reduce((sum, score) => sum + score, 0)`. */
  function Sum(s: seq<real>): real
  {
    if s == [] then 0.0 else Sum(s[..|s| - 1]) + s[|s| - 1]
  }

  /** The average of the kept scores, 0 when none is kept. */
  function Mean(s: seq<real>): real
  {
    if |s| > 0 then Sum(s) / |s| as real else 0.0
  }

  lemma {:induction false} SumAtMost(s: seq<real>, hi: real)
    requires forall i :: 0 <= i < |s| ==> s[i] <= hi
    ensures Sum(s) <= |s| as real * hi
  {
    if s != [] {
      SumAtMost(s[..|s| - 1], hi);
    }
  }

  lemma {:induction false} SumAtLeast(s: seq<real>, lo: real)
    requires forall i :: 0 <= i < |s| ==> lo <= s[i]
    ensures |s| as real * lo <= Sum(s)
  {
    if s != [] {
      SumAtLeast(s[..|s| - 1], lo);
    }
  }

  lemma {:induction false} SumAppend(a: seq<real>, b: seq<real>)
    ensures Sum(a + b) == Sum(a) + Sum(b)
  {
    if b == [] {
      assert a + b == a;
    } else {
      assert (a + b)[..|a + b| - 1] == a + b[..|b| - 1];
      SumAppend(a, b[..|b| - 1]);
    }
  }

  lemma SumMiddle(p: seq<real>, x: real, q: seq<real>)
    ensures Sum(p + [x] + q) == Sum(p + q) + x
  {
    SumAppend(p + [x], q);
    SumAppend(p, [x]);
    SumAppend(p, q);
    assert Sum([x]) == x by {
      assert [x][..0] == [];
    }
  }

  lemma SplitAt(b: seq<real>, i: nat)
    requires i < |b|
    ensures b == b[..i] + [b[i]] + b[i + 1..]
  {
  }

  lemma MultisetMiddle(p: seq<real>, x: real, q: seq<real>)
    ensures multiset(p + q) == multiset(p + [x] + q) - multiset{x}
  {
  }

  /** Taking one score out of a list takes it out of the sum and of the multiset. */
  lemma SumRemove(b: seq<real>, i: nat)
    requires i < |b|
    ensures Sum(b) == Sum(b[..i] + b[i + 1..]) + b[i]
    ensures multiset(b[..i] + b[i + 1..]) == multiset(b) - multiset{b[i]}
  {
    var p, x, q := b[..i], b[i], b[i + 1..];
    SplitAt(b, i);
    SumMiddle(p, x, q);
    MultisetMiddle(p, x, q);
  }

  /** The sum does not depend on the order of the scores, so sorting keeps it. */
  lemma {:induction false} SumPermutation(a: seq<real>, b: seq<real>)
    requires multiset(a) == multiset(b)
    ensures Sum(a) == Sum(b)
    decreases |a|
  {
    if a == [] {
      assert |b| == |multiset(b)| == 0;
    } else {
      var n := |a|;
      var x := a[n - 1];
      assert a == a[..n - 1] + [x];
      assert x in multiset(b);
      var i :| 0 <= i < |b| && b[i] == x;
      SumRemove(b, i);
      assert multiset(a[..n - 1]) == multiset(a) - multiset{x};
      SumPermutation(a[..n - 1], b[..i] + b[i + 1..]);
    }
  }

  lemma DivAtMost(a: real, n: real, c: real)
    requires n > 0.0 && a <= n * c
    ensures a / n <= c
  {
    assert (c - a / n) * n == c * n - a;
  }

  lemma DivAtLeast(a: real, n: real, c: real)
    requires n > 0.0 && n * c <= a
    ensures c <= a / n
  {
    assert (a / n - c) * n == a - c * n;
  }

  /** An average lies between any lower and upper bound of what it averages. */
  lemma MeanBounds(s: seq<real>, lo: real, hi: real)
    requires |s| > 0
    requires forall i :: 0 <= i < |s| ==> lo <= s[i] <= hi
    ensures lo <= Mean(s) <= hi
  {
    SumAtLeast(s, lo);
    SumAtMost(s, hi);
    DivAtLeast(Sum(s), |s| as real, lo);
    DivAtMost(Sum(s), |s| as real, hi);
  }

  lemma ExtensionArithmetic(st: real, sd: real, t: real, d: real, mu: real)
    requires t > 0.0 && d >= 0.0 && mu == st / t && sd <= d * mu
    ensures (st + sd) / (t + d) <= mu
  {
    assert st == mu * t;
    assert (t + d) * mu == t * mu + d * mu;
    DivAtMost(st + sd, t + d, mu);
  }

  /** If an average is at least every element of a second run, appending that
      run cannot raise the average. */
  lemma MeanOfExtension(top: seq<real>, dropped: seq<real>)
    requires |top| > 0
    requires forall j :: 0 <= j < |dropped| ==> dropped[j] <= Mean(top)
    ensures Mean(top + dropped) <= Mean(top)
  {
    SumAppend(top, dropped);
    SumAtMost(dropped, Mean(top));
    assert |top + dropped| == |top| + |dropped|;
    ExtensionArithmetic(Sum(top), Sum(dropped), |top| as real, |dropped| as real, Mean(top));
  }

  // ---------------------------------------------------------------------------
  // The whole reduction of one row
  // ---------------------------------------------------------------------------

  /** The unrounded best-of average of the 0-based columns `lo .. hi-1`. */
  function BestOfAverage(row: Row, lo: int, hi: int, k: nat, parseText: TextParser): real
  {
    Mean(TopScores(Collected(row, lo, hi, parseText), k))
  }

  /** With no numeric cell in the range the average is 0. */
  lemma BestOfAverageNone(row: Row, lo: int, hi: int, k: nat, parseText: TextParser)
    requires forall i :: lo <= i < hi && 0 <= i < |row| ==> ParseFloat(row[i], parseText).None?
    ensures BestOfAverage(row, lo, hi, k, parseText) == 0.0
  {
    CollectedEmptyIff(row, lo, hi, parseText);
  }

  /** Every dropped score is at most the average of the kept ones. */
  lemma DroppedAtMostMean(scores: seq<real>, k: nat)
    requires |scores| > 0 && k >= 1
    ensures |TopScores(scores, k)| > 0
    ensures forall j :: 0 <= j < |DroppedScores(scores, k)| ==> DroppedScores(scores, k)[j] <= Mean(TopScores(scores, k))
  {
    var top := TopScores(scores, k);
    var dropped := DroppedScores(scores, k);
    TopScoresShape(scores, k);
    TopScoresDominate(scores, k);
    MeanBounds(top, top[|top| - 1], top[0]);
    forall j | 0 <= j < |dropped| ensures dropped[j] <= Mean(top) {
      assert dropped[j] <= top[|top| - 1];
    }
  }

  /** With some numeric cell in the range and k >= 1, the average lies between the
      lowest and the highest kept score, is at least every dropped score, and the
      highest kept score is the highest score collected. */
  lemma BestOfAverageBetween(scores: seq<real>, k: nat)
    requires |scores| > 0 && k >= 1
    ensures var top := TopScores(scores, k);
      |top| > 0 && top[|top| - 1] <= Mean(top) <= top[0]
    ensures forall j :: 0 <= j < |DroppedScores(scores, k)| ==> DroppedScores(scores, k)[j] <= Mean(TopScores(scores, k))
    ensures forall j :: 0 <= j < |scores| ==> scores[j] <= TopScores(scores, k)[0]
  {
    var top := TopScores(scores, k);
    TopScoresShape(scores, k);
    MeanBounds(top, top[|top| - 1], top[0]);
    DroppedAtMostMean(scores, k);
    var sorted := SortDescending(scores);
    SortDescendingSorted(scores);
    forall j | 0 <= j < |scores| ensures scores[j] <= top[0] {
      assert scores[j] in multiset(scores);
      HeadIsLargest(sorted, scores[j]);
    }
  }

  lemma MeanOfSorted(scores: seq<real>)
    ensures Mean(SortDescending(scores)) == Mean(scores)
  {
    SumPermutation(scores, SortDescending(scores));
  }

  /** Keeping only the best scores never lowers the average: the best-of
      average is at least the plain average of every collected score. */
  lemma BestOfNeverLowers(scores: seq<real>, k: nat)
    requires |scores| > 0 && k >= 1
    ensures Mean(scores) <= Mean(TopScores(scores, k))
  {
    TopScoresShape(scores, k);
    MeanOfSorted(scores);
    DroppedAtMostMean(scores, k);
    MeanOfExtension(TopScores(scores, k), DroppedScores(scores, k));
  }

  /** The best-of result of a row: the average, rounded as `toFixed(2)` does. */
  function RowResult(row: Row, start: int, end: int, bestOf: nat, parseText: TextParser): ProcessedRow
  {
    ProcessedRow(row, Round2(BestOfAverage(row, start - 1, end, bestOf, parseText)))
  }

  /** The collecting loop of the callback: visits the 0-based columns
      `start-1 .. end-1` and pushes every cell that parses onto `quizScores`. */
  method CollectScores(row: Row, start: int, end: int, parseText: TextParser) returns (quizScores: seq<real>)
    requires 1 <= start <= end
    ensures quizScores == Collected(row, start - 1, end, parseText)
    ensures |quizScores| <= end - start + 1
  {
    quizScores := [];
    var i := start - 1;
    while i < end
      invariant start - 1 <= i <= end
      invariant quizScores == Collected(row, start - 1, i, parseText)
    {
      var score := if 0 <= i < |row| then ParseFloat(row[i], parseText) else None;
      if score.Some? {
        quizScores := quizScores + [score.value];
      }
      i := i + 1;
    }
    CollectedBound(row, start - 1, end, parseText);
  }

  /** The callback of `studentData.map`: collect, sort from highest to lowest,
      keep the best `bestOf`, average, round. */
  method ProcessRow(row: Row, start: int, end: int, bestOf: nat, parseText: TextParser) returns (pr: ProcessedRow)
    requires 1 <= start <= end
    ensures pr == RowResult(row, start, end, bestOf, parseText)
  {
    var quizScores := CollectScores(row, start, end, parseText);
    quizScores := SortDescending(quizScores);
    var topScores := Take(quizScores, bestOf);
    var average := if |topScores| > 0 then Sum(topScores) / |topScores| as real else 0.0;
    pr := ProcessedRow(row, Round2(average));
  }

  // ---------------------------------------------------------------------------
  // A worked example
  // ---------------------------------------------------------------------------

  lemma OrderedThree(a: real, b: real, c: real)
    requires c <= b <= a
    ensures NonIncreasing([a, b, c])
  {
    var t := [a, b, c];
    forall i, j | 0 <= i < j < 3 ensures t[i] >= t[j] {
      assert t[0] == a && t[1] == b && t[2] == c;
    }
  }

  lemma ThreeMultiset(a: real, b: real, c: real)
    ensures multiset([a, b, c]) == multiset{a, b, c}
  {
  }

  lemma CollectThree(name: string, x: real, y: real, z: real, parseText: TextParser)
    ensures Collected([Text(name), Number(x), Number(y), Number(z)], 1, 4, parseText) == [x, y, z]
  {
    var row := [Text(name), Number(x), Number(y), Number(z)];
    assert CellScore(row, 1, parseText) == [x];
    assert CellScore(row, 2, parseText) == [y];
    assert CellScore(row, 3, parseText) == [z];
    assert Collected(row, 1, 2, parseText) == [x];
    assert Collected(row, 1, 3, parseText) == [x, y];
  }

  lemma MeanOfTwo(x: real, y: real)
    ensures Mean([y, x]) == (y + x) / 2.0
  {
    assert [y, x][..1] == [y];
    assert [y][..0] == [];
    assert Sum([y]) == y;
  }

  /** Any non-increasing rearrangement of the collected scores gives the average. */
  lemma BestOfAverageFromSorted(row: Row, lo: int, hi: int, k: nat, parseText: TextParser,
                                scores: seq<real>, sorted: seq<real>)
    requires Collected(row, lo, hi, parseText) == scores
    requires NonIncreasing(sorted) && multiset(sorted) == multiset(scores)
    ensures BestOfAverage(row, lo, hi, k, parseText) == Mean(Take(sorted, k))
  {
    SortDescendingIsTheSort(scores, sorted);
  }

  /** Three collected scores `x, y, z` that rearrange to `c <= b <= a` sort to `[a, b, c]`. */
  lemma AverageOfThree(row: Row, lo: int, hi: int, k: nat, parseText: TextParser,
                       x: real, y: real, z: real, a: real, b: real, c: real)
    requires Collected(row, lo, hi, parseText) == [x, y, z]
    requires c <= b <= a && multiset{a, b, c} == multiset{x, y, z}
    ensures BestOfAverage(row, lo, hi, k, parseText) == Mean(Take([a, b, c], k))
  {
    OrderedThree(a, b, c);
    ThreeMultiset(a, b, c);
    ThreeMultiset(x, y, z);
    BestOfAverageFromSorted(row, lo, hi, k, parseText, [x, y, z], [a, b, c]);
  }

  lemma TopTwoMean(a: real, b: real, c: real)
    ensures Mean(Take([a, b, c], 2)) == (a + b) / 2.0
  {
    assert Take([a, b, c], 2) == [a, b];
    MeanOfTwo(b, a);
  }

  /** Best 2 of columns 2 to 4 when the scores, in whatever columns, rank `a >= b >= c`. */
  lemma BestTwoRanked(name: string, x: real, y: real, z: real, a: real, b: real, c: real, parseText: TextParser)
    requires c <= b <= a && multiset{a, b, c} == multiset{x, y, z}
    ensures BestOfAverage([Text(name), Number(x), Number(y), Number(z)], 1, 4, 2, parseText) == (a + b) / 2.0
  {
    CollectThree(name, x, y, z, parseText);
    AverageOfThree([Text(name), Number(x), Number(y), Number(z)], 1, 4, 2, parseText, x, y, z, a, b, c);
    TopTwoMean(a, b, c);
  }

  /** A row holding a name and three scores, best 2 of columns 2 to 4: the sum of
      the three scores less the lowest, halved, whatever column each sits in. */
  lemma BestTwoOfThree(name: string, x: real, y: real, z: real, parseText: TextParser)
    ensures var lowest := if x <= y && x <= z then x else if y <= z then y else z;
      BestOfAverage([Text(name), Number(x), Number(y), Number(z)], 1, 4, 2, parseText) == (x + y + z - lowest) / 2.0
  {
    if z <= x <= y {
      BestTwoRanked(name, x, y, z, y, x, z, parseText);
    } else if z <= y <= x {
      BestTwoRanked(name, x, y, z, x, y, z, parseText);
    } else if y <= x <= z {
      BestTwoRanked(name, x, y, z, z, x, y, parseText);
    } else if y <= z <= x {
      BestTwoRanked(name, x, y, z, x, z, y, parseText);
    } else if x <= y <= z {
      BestTwoRanked(name, x, y, z, z, y, x, parseText);
    } else {
      BestTwoRanked(name, x, y, z, y, z, x, parseText);
    }
  }

  /** Best 2 of the scores 7, 9 and 5 average to 8. */
  lemma BestTwoOfSevenNineFive(parseText: TextParser)
    ensures RowResult([Text("Alice"), Number(7.0), Number(9.0), Number(5.0)], 2, 4, 2, parseText).calculatedAvg == 8.0
  {
    BestTwoOfThree("Alice", 7.0, 9.0, 5.0, parseText);
    Round2Exact(800);
  }
}
