/**
 * K-fold cross-validation of a gene-prioritization algorithm and the
 * precision / recall / F1 scorer it uses (metrics/cross_validation.py).
 *
 * Scores are exact reals: the source divides counts in floating point, and
 * this model states the ratios without rounding.
 */
module CrossValidation {

  type Gene = string

  // ---------------------------------------------------------------------------
  // Scorer: calculate_metrics
  // ---------------------------------------------------------------------------

  /** The triple returned by the scorer. */
  datatype Scores = Scores(precision: real, recall: real, f1: real)

  /** A count ratio guarded against a zero denominator, as precision and recall are:
      `hits / (hits + misses)` when that sum is positive, else 0. */
  function GuardedRatio(hits: nat, misses: nat): (r: real)
    ensures 0.0 <= r <= 1.0
    ensures r == 0.0 <==> hits == 0
    ensures r == 1.0 <==> hits > 0 && misses == 0
  {
    if hits + misses > 0 then hits as real / (hits + misses) as real else 0.0
  }

  /** Harmonic mean of precision and recall, guarded against a zero denominator. */
  function F1(precision: real, recall: real): (f: real)
    requires 0.0 <= precision <= 1.0 && 0.0 <= recall <= 1.0
    ensures 0.0 <= f <= 1.0
    ensures f == 0.0 <==> precision == 0.0 || recall == 0.0
    ensures f == 1.0 <==> precision == 1.0 && recall == 1.0
  {
    if precision + recall > 0.0 then
      HarmonicMeanBounds(precision, recall);
      2.0 * precision * recall / (precision + recall)
    else 0.0
  }

  lemma HarmonicMeanBounds(p: real, r: real)
    requires 0.0 <= p <= 1.0 && 0.0 <= r <= 1.0 && p + r > 0.0
    ensures 0.0 <= 2.0 * p * r / (p + r) <= 1.0
    ensures 2.0 * p * r / (p + r) == 0.0 <==> p == 0.0 || r == 0.0
    ensures 2.0 * p * r / (p + r) == 1.0 <==> p == 1.0 && r == 1.0
  {
    var sum, pr := p + r, p * r;
    assert 2.0 * p * r == 2.0 * pr;
    var h := 2.0 * pr / sum;
    assert h * sum == 2.0 * pr;
    UnitProduct(p, r);
    assert h * sum <= 1.0 * sum;
    CancelFactor(h, 1.0, sum);
    assert 0.0 * sum <= h * sum;
    CancelFactor(0.0, h, sum);
    assert h == 0.0 <==> pr == 0.0;
    // sum - 2pr = p(1 - r) + r(1 - p), two non-negative terms
    assert h == 1.0 ==> p * (1.0 - r) == 0.0 && r * (1.0 - p) == 0.0;
  }

  lemma UnitProduct(p: real, r: real)
    requires 0.0 <= p <= 1.0 && 0.0 <= r <= 1.0
    ensures 0.0 <= p * r <= p && p * r <= r
    ensures p * (1.0 - r) == p - p * r && r * (1.0 - p) == r - p * r
    ensures 0.0 <= p * (1.0 - r) && 0.0 <= r * (1.0 - p)
  {
    assert p * r <= p * 1.0;
    assert p * r <= 1.0 * r;
    assert 0.0 <= p * (1.0 - r);
    assert 0.0 <= r * (1.0 - p);
  }

  lemma CancelFactor(x: real, y: real, k: real)
    requires k > 0.0 && x * k <= y * k
    ensures x <= y
  {
  }

  /** Number of predicted genes that are in the truth set. */
  function TruePositives(predicted: set<Gene>, truth: set<Gene>): nat { |predicted * truth| }
  /** Number of predicted genes that are not in the truth set. */
  function FalsePositives(predicted: set<Gene>, truth: set<Gene>): nat { |predicted - truth| }
  /** Number of truth genes that were not predicted. */
  function FalseNegatives(predicted: set<Gene>, truth: set<Gene>): nat { |truth - predicted| }

  /** The scorer. Precision is 0 when nothing is predicted and recall is 0 when the
      truth set is empty, so no division by zero ever happens. */
  function CalculateMetrics(predicted: set<Gene>, truth: set<Gene>): (s: Scores)
    ensures 0.0 <= s.precision <= 1.0 && 0.0 <= s.recall <= 1.0 && 0.0 <= s.f1 <= 1.0
  {
    var precision := GuardedRatio(TruePositives(predicted, truth), FalsePositives(predicted, truth));
    var recall := GuardedRatio(TruePositives(predicted, truth), FalseNegatives(predicted, truth));
    Scores(precision, recall, F1(precision, recall))
  }

  /** What each score says about the two sets: an empty side scores 0 without a
      division fault, each score is 0 exactly when the sets are disjoint, precision is 1
      exactly when every prediction is true, and recall is 1 exactly when every true
      gene is predicted. */
  lemma MetricsCharacterised(predicted: set<Gene>, truth: set<Gene>)
    ensures var s := CalculateMetrics(predicted, truth);
      && (predicted == {} ==> s.precision == 0.0)
      && (truth == {} ==> s.recall == 0.0)
      && (s.precision == 0.0 <==> predicted * truth == {})
      && (s.recall == 0.0 <==> predicted * truth == {})
      && (s.f1 == 0.0 <==> predicted * truth == {})
      && (s.precision == 1.0 <==> predicted != {} && predicted <= truth)
      && (s.recall == 1.0 <==> truth != {} && truth <= predicted)
  {
    CountsPartition(predicted, truth);
  }

  /** The three counts partition both sets: tp + fp = |predicted| and tp + fn = |truth|. */
  lemma CountsPartition(predicted: set<Gene>, truth: set<Gene>)
    ensures TruePositives(predicted, truth) + FalsePositives(predicted, truth) == |predicted|
    ensures TruePositives(predicted, truth) + FalseNegatives(predicted, truth) == |truth|
    ensures TruePositives(predicted, truth) == 0 <==> predicted * truth == {}
    ensures FalsePositives(predicted, truth) == 0 <==> predicted <= truth
    ensures FalseNegatives(predicted, truth) == 0 <==> truth <= predicted
  {
    assert predicted == (predicted * truth) + (predicted - truth);
    assert truth == (predicted * truth) + (truth - predicted);
    if predicted - truth == {} {
      assert predicted <= truth by {
        forall g | g in predicted ensures g in truth { assert g !in predicted - truth; }
      }
    }
    if truth - predicted == {} {
      assert truth <= predicted by {
        forall g | g in truth ensures g in predicted { assert g !in truth - predicted; }
      }
    }
  }

  /** F1 computed from the two ratios is the Dice coefficient of the counts:
      2·tp / (|predicted| + |truth|). */
  lemma {:induction false} F1IsDice(predicted: set<Gene>, truth: set<Gene>)
    ensures predicted + truth != {} ==>
      CalculateMetrics(predicted, truth).f1
        == 2.0 * TruePositives(predicted, truth) as real / (|predicted| + |truth|) as real
  {
    var s := CalculateMetrics(predicted, truth);
    var tp := TruePositives(predicted, truth);
    CountsPartition(predicted, truth);
    if predicted + truth != {} {
      var a, b := |predicted| as real, |truth| as real;
      assert a + b > 0.0 by {
        if predicted != {} { assert |predicted| > 0; } else { assert truth != {}; }
      }
      if tp == 0 {
        assert s.f1 == 0.0;
      } else {
        var t := tp as real;
        assert a > 0.0 && b > 0.0;
        assert s.precision == t / a && s.recall == t / b;
        DiceIdentity(t, a, b);
        assert s.f1 == 2.0 * (t / a) * (t / b) / (t / a + t / b);
        assert (|predicted| + |truth|) as real == a + b;
      }
    }
  }

  lemma DiceIdentity(t: real, a: real, b: real)
    requires t > 0.0 && a > 0.0 && b > 0.0
    ensures t / a + t / b > 0.0
    ensures 2.0 * (t / a) * (t / b) / (t / a + t / b) == 2.0 * t / (a + b)
  {
    var p, r := t / a, t / b;
    assert p * a == t && r * b == t;
    assert p > 0.0 && r > 0.0;
    // (p + r)·t = p·r·(a + b), because p·a = r·b = t
    assert (p + r) * t == p * r * (a + b) by {
      calc {
        p * r * (a + b);
        == (p * a) * r + (r * b) * p;
        == t * r + t * p;
        == (p + r) * t;
      }
    }
    var h := 2.0 * p * r / (p + r);
    assert h * (p + r) == 2.0 * p * r;
    assert h * (p + r) * t == 2.0 * p * r * t;
    assert h * p * r * (a + b) == 2.0 * p * r * t;
    assert h * (a + b) == 2.0 * t by {
      assert p * r > 0.0;
      assert (h * (a + b)) * (p * r) == (2.0 * t) * (p * r);
    }
  }

  /** The F1 harmonic-mean identity: 2pr/(p+r) when p + r > 0, else 0. */
  lemma F1Harmonic(predicted: set<Gene>, truth: set<Gene>)
    ensures var s := CalculateMetrics(predicted, truth);
      if s.precision + s.recall > 0.0
      then s.f1 * (s.precision + s.recall) == 2.0 * s.precision * s.recall
      else s.f1 == 0.0
  {
  }

  /** Swapping the arguments swaps precision and recall and leaves F1 unchanged. */
  lemma MetricsSymmetric(predicted: set<Gene>, truth: set<Gene>)
    ensures var s, t := CalculateMetrics(predicted, truth), CalculateMetrics(truth, predicted);
      t.precision == s.recall && t.recall == s.precision && t.f1 == s.f1
  {
    assert predicted * truth == truth * predicted;
  }

  /** Equal non-empty sets score (1, 1, 1). */
  lemma PerfectPrediction(genes: set<Gene>)
    requires genes != {}
    ensures CalculateMetrics(genes, genes) == Scores(1.0, 1.0, 1.0)
  {
    MetricsCharacterised(genes, genes);
  }

  /** Disjoint sets, including empty ones, score (0, 0, 0). */
  lemma DisjointPrediction(predicted: set<Gene>, truth: set<Gene>)
    requires predicted !! truth
    ensures CalculateMetrics(predicted, truth) == Scores(0.0, 0.0, 0.0)
  {
    assert predicted * truth == {};
    MetricsCharacterised(predicted, truth);
  }

  // ---------------------------------------------------------------------------
  // Driver: cross_validate
  // ---------------------------------------------------------------------------

  /** One row of the returned table: the cutoff (column `num_genes`) and its scores. */
  datatype MetricRow = MetricRow(numGenes: int, precision: real, recall: real, f1: real)

  /** pandas `head(n)`: the first n entries; a negative n drops the last |n| entries. */
  function Head<T>(s: seq<T>, n: int): (h: seq<T>)
    ensures |h| <= |s|
    ensures 0 <= n ==> |h| <= n
    ensures n < 0 <= |s| + n ==> |h| == |s| + n
    ensures |s| + n <= 0 ==> h == []
    ensures h == s[..|h|]
    ensures 0 <= n <= |s| ==> |h| == n
    ensures |s| <= n ==> h == s
  {
    if 0 <= n then
      if n <= |s| then s[..n] else s
    else
      if |s| + n <= 0 then [] else s[..|s| + n]
  }

  /** The elements of a sequence as a set (Python's `set(...)`). */
  function Elements(s: seq<Gene>): (e: set<Gene>)
    ensures forall x :: x in e <==> x in s
  {
    set x | x in s
  }

  lemma {:induction false} ElementsCard(s: seq<Gene>)
    ensures |Elements(s)| <= |s|
  {
    if s != [] {
      var last := s[|s| - 1];
      ElementsCard(s[..|s| - 1]);
      assert Elements(s) == Elements(s[..|s| - 1]) + {last} by {
        forall x ensures x in s <==> x in s[..|s| - 1] || x == last {
          if x in s {
            var i :| 0 <= i < |s| && s[i] == x;
            if i < |s| - 1 { assert s[..|s| - 1][i] == x; }
          }
        }
      }
    }
  }

  /** The genes evaluated at a cutoff: `set(result.head(num_genes).gene)`. */
  function TopN(ranked: seq<Gene>, numGenes: int): set<Gene>
  {
    Elements(Head(ranked, numGenes))
  }

  /** The evaluated set for cutoff N has at most N genes, all among the first N of the ranking. */
  lemma TopNBound(ranked: seq<Gene>, numGenes: nat)
    ensures |TopN(ranked, numGenes)| <= numGenes
    ensures forall g :: g in TopN(ranked, numGenes) <==>
      exists i :: 0 <= i < numGenes && i < |ranked| && ranked[i] == g
  {
    var h := Head(ranked, numGenes);
    ElementsCard(h);
    forall g ensures g in TopN(ranked, numGenes) <==> exists i :: 0 <= i < numGenes && i < |ranked| && ranked[i] == g {
      if g in h {
        var i :| 0 <= i < |h| && h[i] == g;
        assert ranked[i] == g;
      }
      if exists i :: 0 <= i < numGenes && i < |ranked| && ranked[i] == g {
        var i :| 0 <= i < numGenes && i < |ranked| && ranked[i] == g;
        assert h[i] == g;
      }
    }
  }

  /** Training indices must address seed rows (KFold only yields such indices). */
  predicate ValidFolds(folds: seq<seq<nat>>, numSeeds: nat)
  {
    forall f, k :: 0 <= f < |folds| && 0 <= k < |folds[f]| ==> folds[f][k] < numSeeds
  }

  /** `seed_genes.iloc[train_index]`: the seeds at the training positions, in that order. */
  function TrainSeeds(seeds: seq<Gene>, trainIndex: seq<nat>): (train: seq<Gene>)
    requires forall k :: 0 <= k < |trainIndex| ==> trainIndex[k] < |seeds|
    ensures |train| == |trainIndex|
    ensures forall k :: 0 <= k < |train| ==> train[k] == seeds[trainIndex[k]]
  {
    seq(|trainIndex|, k requires 0 <= k < |trainIndex| => seeds[trainIndex[k]])
  }

  /** The ranked genes the algorithm returns for one fold: it is run on the fold's
      training seeds and asked for as many predictions as there are seeds in total. */
  function FoldPrediction<Net>(algorithm: (Net, seq<Gene>, nat) -> seq<Gene>, network: Net,
                               seeds: seq<Gene>, trainIndex: seq<nat>): seq<Gene>
    requires forall k :: 0 <= k < |trainIndex| ==> trainIndex[k] < |seeds|
  {
    algorithm(network, TrainSeeds(seeds, trainIndex), |seeds|)
  }

  /** The row for one cutoff: the top-N predictions scored against `truth`. */
  function ScoreRow(numGenes: int, ranked: seq<Gene>, truth: set<Gene>): MetricRow
  {
    var s := CalculateMetrics(TopN(ranked, numGenes), truth);
    MetricRow(numGenes, s.precision, s.recall, s.f1)
  }

  /** The driver's scorer as a value: a cutoff and a ranking give that cutoff's row. */
  function ScoreAgainst(truth: set<Gene>): (int, seq<Gene>) -> MetricRow
  {
    (numGenes, ranked) => ScoreRow(numGenes, ranked, truth)
  }

  /** The rows of one fold, one per cutoff, in cutoff order. The layout of the table does
      not depend on how a row is scored, so it is stated for any scorer `score`. */
  function FoldRows<R>(ranked: seq<Gene>, cutoffs: seq<int>, score: (int, seq<Gene>) -> R): (rows: seq<R>)
    ensures |rows| == |cutoffs|
  {
    seq(|cutoffs|, j requires 0 <= j < |cutoffs| => score(cutoffs[j], ranked))
  }

  /** Extending the cutoff prefix by one appends that cutoff's row. */
  lemma FoldRowsSnoc<R>(ranked: seq<Gene>, cutoffs: seq<int>, score: (int, seq<Gene>) -> R, j: nat)
    requires j < |cutoffs|
    ensures FoldRows(ranked, cutoffs[..j + 1], score)
      == FoldRows(ranked, cutoffs[..j], score) + [score(cutoffs[j], ranked)]
  {
    var longer, shorter := FoldRows(ranked, cutoffs[..j + 1], score), FoldRows(ranked, cutoffs[..j], score);
    forall k | 0 <= k < j + 1
      ensures longer[k] == (shorter + [score(cutoffs[j], ranked)])[k]
    {
      if k < j {
        assert shorter[k] == score(cutoffs[k], ranked);
      }
    }
  }

  /** The blocks of a table laid end to end, in order. */
  function Flatten<T>(blocks: seq<seq<T>>): seq<T>
  {
    if blocks == [] then [] else Flatten(blocks[..|blocks| - 1]) + blocks[|blocks| - 1]
  }

  lemma FlattenSnoc<T>(blocks: seq<seq<T>>, n: nat)
    requires n < |blocks|
    ensures Flatten(blocks[..n + 1]) == Flatten(blocks[..n]) + blocks[n]
  {
    assert blocks[..n + 1][..n] == blocks[..n];
  }

  /** Row k of n blocks of c rows is row k mod c of block k / c. */
  lemma BlockOf(k: nat, c: nat, n: nat)
    requires k < n * c
    ensures c > 0 && k / c < n && k == (k / c) * c + k % c
  {
    assert c > 0;
    MulCancel(k / c, n, c);
  }

  lemma MulCancel(a: nat, b: nat, c: nat)
    requires a * c < b * c
    ensures a < b
  {
  }

  /** Row i·c + j of n blocks of c rows lies in block i. */
  lemma RowIndexBound(i: nat, j: nat, c: nat, n: nat)
    requires i < n && j < c
    ensures i * c + j < n * c
  {
    assert (i + 1) * c <= n * c;
  }

  /** Laying out blocks of c rows each: the result has |blocks|·c rows, and row i·c + j
      is row j of block i. */
  lemma {:induction false} FlattenAt<T>(blocks: seq<seq<T>>, c: nat, i: nat, j: nat)
    requires forall b :: 0 <= b < |blocks| ==> |blocks[b]| == c
    requires i < |blocks| && j < c
    ensures |Flatten(blocks)| == |blocks| * c
    ensures i * c + j < |Flatten(blocks)| && Flatten(blocks)[i * c + j] == blocks[i][j]
  {
    var n := |blocks| - 1;
    FlattenLength(blocks[..n], c);
    FlattenLength(blocks, c);
    var prefix := Flatten(blocks[..n]);
    assert Flatten(blocks) == prefix + blocks[n];
    RowIndexBound(i, j, c, |blocks|);
    if i < n {
      RowIndexBound(i, j, c, n);
      FlattenAt(blocks[..n], c, i, j);
      assert blocks[..n][i] == blocks[i];
    } else {
      assert i * c + j == |prefix| + j;
    }
  }

  lemma {:induction false} FlattenLength<T>(blocks: seq<seq<T>>, c: nat)
    requires forall b :: 0 <= b < |blocks| ==> |blocks[b]| == c
    ensures |Flatten(blocks)| == |blocks| * c
  {
    if blocks != [] {
      var n := |blocks| - 1;
      FlattenLength(blocks[..n], c);
      assert (n + 1) * c == n * c + c;
    }
  }

  /** The rows of each fold, in fold order: fold f's ranking comes from running the
      algorithm on f's training seeds, and `score` turns it into one row per cutoff. */
  function Blocks<Net, R>(algorithm: (Net, seq<Gene>, nat) -> seq<Gene>, network: Net,
                          seeds: seq<Gene>, cutoffs: seq<int>, folds: seq<seq<nat>>,
                          score: (int, seq<Gene>) -> R): (blocks: seq<seq<R>>)
    requires ValidFolds(folds, |seeds|)
    ensures |blocks| == |folds|
    ensures forall f :: 0 <= f < |folds| ==> |blocks[f]| == |cutoffs|
  {
    seq(|folds|, f requires 0 <= f < |folds| =>
      FoldRows(FoldPrediction(algorithm, network, seeds, folds[f]), cutoffs, score))
  }

  /** The whole table: the rows of each fold in turn, every row scored against the full
      seed set. */
  function Table<Net>(algorithm: (Net, seq<Gene>, nat) -> seq<Gene>, network: Net,
                      seeds: seq<Gene>, cutoffs: seq<int>, folds: seq<seq<nat>>): seq<MetricRow>
    requires ValidFolds(folds, |seeds|)
  {
    Flatten(Blocks(algorithm, network, seeds, cutoffs, folds, ScoreAgainst(Elements(seeds))))
  }

  /** The layout for any scorer: |folds|·|cutoffs| rows, fold-major and cutoff-minor. */
  lemma BlocksLayout<Net, R>(algorithm: (Net, seq<Gene>, nat) -> seq<Gene>, network: Net,
                             seeds: seq<Gene>, cutoffs: seq<int>, folds: seq<seq<nat>>,
                             score: (int, seq<Gene>) -> R, i: nat, j: nat)
    requires ValidFolds(folds, |seeds|) && i < |folds| && j < |cutoffs|
    ensures var t := Flatten(Blocks(algorithm, network, seeds, cutoffs, folds, score));
      i * |cutoffs| + j < |t|
      && t[i * |cutoffs| + j] == score(cutoffs[j], FoldPrediction(algorithm, network, seeds, folds[i]))
  {
    var blocks := Blocks(algorithm, network, seeds, cutoffs, folds, score);
    FlattenAt(blocks, |cutoffs|, i, j);
    assert blocks[i] == FoldRows(FoldPrediction(algorithm, network, seeds, folds[i]), cutoffs, score);
  }

  /** Row k of the layout, for any scorer: cutoff k mod |cutoffs| of fold k / |cutoffs|. */
  lemma BlocksRow<Net, R>(algorithm: (Net, seq<Gene>, nat) -> seq<Gene>, network: Net,
                          seeds: seq<Gene>, cutoffs: seq<int>, folds: seq<seq<nat>>,
                          score: (int, seq<Gene>) -> R, k: nat)
    requires ValidFolds(folds, |seeds|)
    requires k < |Flatten(Blocks(algorithm, network, seeds, cutoffs, folds, score))|
    ensures |cutoffs| > 0 && 0 <= k / |cutoffs| < |folds|
    ensures Flatten(Blocks(algorithm, network, seeds, cutoffs, folds, score))[k]
      == score(cutoffs[k % |cutoffs|], FoldPrediction(algorithm, network, seeds, folds[k / |cutoffs|]))
  {
    var c := |cutoffs|;
    FlattenLength(Blocks(algorithm, network, seeds, cutoffs, folds, score), c);
    BlockOf(k, c, |folds|);
    BlocksLayout(algorithm, network, seeds, cutoffs, folds, score, k / c, k % c);
  }

  /** The table has exactly one row per (fold, cutoff) pair. */
  lemma TableLength<Net>(algorithm: (Net, seq<Gene>, nat) -> seq<Gene>, network: Net,
                         seeds: seq<Gene>, cutoffs: seq<int>, folds: seq<seq<nat>>)
    requires ValidFolds(folds, |seeds|)
    ensures |Table(algorithm, network, seeds, cutoffs, folds)| == |folds| * |cutoffs|
  {
    FlattenLength(Blocks(algorithm, network, seeds, cutoffs, folds, ScoreAgainst(Elements(seeds))), |cutoffs|);
  }

  /** Rows are fold-major, cutoff-minor: row i·|cutoffs| + j is cutoff j of fold i,
      scored against the whole seed set, on the ranking the algorithm returned when
      given fold i's training seeds and asked for |seeds| genes. */
  lemma TableAt<Net>(algorithm: (Net, seq<Gene>, nat) -> seq<Gene>, network: Net,
                     seeds: seq<Gene>, cutoffs: seq<int>, folds: seq<seq<nat>>, i: nat, j: nat)
    requires ValidFolds(folds, |seeds|) && i < |folds| && j < |cutoffs|
    ensures i * |cutoffs| + j < |Table(algorithm, network, seeds, cutoffs, folds)|
    ensures Table(algorithm, network, seeds, cutoffs, folds)[i * |cutoffs| + j]
      == ScoreRow(cutoffs[j], algorithm(network, TrainSeeds(seeds, folds[i]), |seeds|), Elements(seeds))
  {
    BlocksLayout(algorithm, network, seeds, cutoffs, folds, ScoreAgainst(Elements(seeds)), i, j);
  }

  /** The `num_genes` column cycles through the cutoff list once per fold. */
  lemma NumGenesCycle<Net>(algorithm: (Net, seq<Gene>, nat) -> seq<Gene>, network: Net,
                           seeds: seq<Gene>, cutoffs: seq<int>, folds: seq<seq<nat>>)
    requires ValidFolds(folds, |seeds|)
    ensures var t := Table(algorithm, network, seeds, cutoffs, folds);
      forall k :: 0 <= k < |t| ==> |cutoffs| > 0 && t[k].numGenes == cutoffs[k % |cutoffs|]
  {
    var t := Table(algorithm, network, seeds, cutoffs, folds);
    TableLength(algorithm, network, seeds, cutoffs, folds);
    forall k | 0 <= k < |t| ensures |cutoffs| > 0 && t[k].numGenes == cutoffs[k % |cutoffs|] {
      BlocksRow(algorithm, network, seeds, cutoffs, folds, ScoreAgainst(Elements(seeds)), k);
    }
  }

  /** When the algorithm returns the same ranking on every fold, every fold yields the
      same rows: row k is the row of cutoff k mod |cutoffs| for that one ranking. */
  lemma FoldIndependentRows<Net>(algorithm: (Net, seq<Gene>, nat) -> seq<Gene>, network: Net,
                                 seeds: seq<Gene>, cutoffs: seq<int>, folds: seq<seq<nat>>,
                                 ranked: seq<Gene>)
    requires ValidFolds(folds, |seeds|)
    requires forall f :: 0 <= f < |folds| ==> FoldPrediction(algorithm, network, seeds, folds[f]) == ranked
    ensures var t := Table(algorithm, network, seeds, cutoffs, folds);
      forall k :: 0 <= k < |t| ==>
        |cutoffs| > 0 && t[k] == ScoreRow(cutoffs[k % |cutoffs|], ranked, Elements(seeds))
  {
    var t := Table(algorithm, network, seeds, cutoffs, folds);
    TableLength(algorithm, network, seeds, cutoffs, folds);
    forall k | 0 <= k < |t|
      ensures |cutoffs| > 0 && t[k] == ScoreRow(cutoffs[k % |cutoffs|], ranked, Elements(seeds))
    {
      BlocksRow(algorithm, network, seeds, cutoffs, folds, ScoreAgainst(Elements(seeds)), k);
      assert FoldPrediction(algorithm, network, seeds, folds[k / |cutoffs|]) == ranked;
    }
  }

  /** Ground truth is the whole seed set: a predicted gene that is one of the fold's
      own training seeds still counts as a true positive. */
  lemma TrainingSeedIsTruePositive(seeds: seq<Gene>, trainIndex: seq<nat>, ranked: seq<Gene>,
                                   numGenes: int, g: Gene)
    requires forall k :: 0 <= k < |trainIndex| ==> trainIndex[k] < |seeds|
    requires g in TrainSeeds(seeds, trainIndex) && g in Head(ranked, numGenes)
    ensures g in TopN(ranked, numGenes) * Elements(seeds)
    ensures var row := ScoreRow(numGenes, ranked, Elements(seeds));
      row.precision > 0.0 && row.recall > 0.0 && row.f1 > 0.0
  {
    var k :| 0 <= k < |trainIndex| && TrainSeeds(seeds, trainIndex)[k] == g;
    assert seeds[trainIndex[k]] == g;
    MetricsCharacterised(TopN(ranked, numGenes), Elements(seeds));
  }

  /** The two-fold, three-cutoff scenario: six rows whose `num_genes` column reads
      1, 2, 3, 1, 2, 3. */
  lemma TwoFoldsThreeCutoffs<Net>(algorithm: (Net, seq<Gene>, nat) -> seq<Gene>, network: Net,
                                  seeds: seq<Gene>, folds: seq<seq<nat>>)
    requires ValidFolds(folds, |seeds|) && |folds| == 2
    ensures var t := Table(algorithm, network, seeds, [1, 2, 3], folds);
      |t| == 6 && seq(|t|, k requires 0 <= k < |t| => t[k].numGenes) == [1, 2, 3, 1, 2, 3]
  {
    TableLength(algorithm, network, seeds, [1, 2, 3], folds);
    NumGenesCycle(algorithm, network, seeds, [1, 2, 3], folds);
  }

  /** cross_validate: runs the algorithm once per fold and appends one row per
      (fold, cutoff). `folds` holds each fold's training indices, as KFold.split yields
      them; `calls` records the arguments of every algorithm call. The log is written from
      the same locals that are passed to `algorithm`, so it is no independent evidence of
      those arguments: what pins them to fold f's training seeds and |seeds| is
      `metrics == Table(...)`, which holds for every `algorithm`. */
  method CrossValidate<Net>(algorithm: (Net, seq<Gene>, nat) -> seq<Gene>, network: Net,
                            seeds: seq<Gene>, numGenesToEvaluate: seq<int>, folds: seq<seq<nat>>)
    returns (metrics: seq<MetricRow>, ghost calls: seq<(seq<Gene>, nat)>)
    requires ValidFolds(folds, |seeds|)
    ensures metrics == Table(algorithm, network, seeds, numGenesToEvaluate, folds)
    ensures |calls| == |folds|
    ensures forall f :: 0 <= f < |folds| ==> calls[f] == (TrainSeeds(seeds, folds[f]), |seeds|)
  {
    var numGenesToPredict := |seeds|;
    var truth := Elements(seeds);
    ghost var blocks := Blocks(algorithm, network, seeds, numGenesToEvaluate, folds, ScoreAgainst(truth));
    metrics := [];
    calls := [];
    var f := 0;
    while f < |folds|
      invariant 0 <= f <= |folds|
      invariant metrics == Flatten(blocks[..f])
      invariant |calls| == f
      invariant forall g :: 0 <= g < f ==> calls[g] == (TrainSeeds(seeds, folds[g]), |seeds|)
    {
      var trainSeeds := TrainSeeds(seeds, folds[f]);
      var result := algorithm(network, trainSeeds, numGenesToPredict);
      calls := calls + [(trainSeeds, numGenesToPredict)];
      ghost var before := metrics;
      var j := 0;
      while j < |numGenesToEvaluate|
        invariant 0 <= j <= |numGenesToEvaluate|
        invariant metrics == before + FoldRows(result, numGenesToEvaluate[..j], ScoreAgainst(truth))
      {
        var numGenes := numGenesToEvaluate[j];
        var scores := CalculateMetrics(TopN(result, numGenes), truth);
        metrics := metrics + [MetricRow(numGenes, scores.precision, scores.recall, scores.f1)];
        FoldRowsSnoc(result, numGenesToEvaluate, ScoreAgainst(truth), j);
        j := j + 1;
      }
      assert numGenesToEvaluate[..j] == numGenesToEvaluate;
      FlattenSnoc(blocks, f);
      f := f + 1;
    }
    assert blocks[..f] == blocks;
  }
}
