# Cross-validation of gene-prioritization algorithms, in Dafny

This project models two parts of a Python toolkit that evaluates gene-prioritization
algorithms.

- **The cross-validation driver and its scorer** (`metrics/cross_validation.py`), in
  `cross_validation.dfy`, module `CrossValidation`.
  - `CalculateMetrics` turns a set of predicted genes and a set of ground-truth genes into
    precision, recall and F1. It uses exact `real`s and the same zero-denominator guards
    as the source.
  - `CrossValidate` is the driver. It is a method with the source's two nested loops over
    folds and cutoffs. For each fold it calls the algorithm on the fold's training seeds
    and asks for as many genes as there are seeds. For each cutoff N it takes the first N
    genes of the ranking (pandas `head`, negative N included) and scores them against the
    **whole** seed set. It appends one row per (fold, cutoff).
  - The method is proved equal to the specification function `Table`. `Table` lays out the
    per-fold row blocks (`Blocks`) one after another. How the rows are laid out does not
    depend on how a row is scored, so the layout lemmas (`BlocksLayout`, `BlocksRow`) are
    stated for any scorer. `Table` uses the scorer `ScoreAgainst`, which scores against
    the full seed set. Lemmas then give the table's length, the content of each row, the
    cycling `num_genes` column, and what the table looks like when the algorithm ignores
    the fold.
  - The folds are an input: one sequence of training indices per fold, as
    `KFold.split` yields them. The algorithm is a function parameter
    `(network, training seeds, count) -> ranked gene ids`. The network is an opaque type
    parameter that the driver passes through unchanged.
  - The ghost out-parameter `calls` records the arguments of every algorithm call.
- **The gene identifier map** (`genes/gene_db.py`), in `gene_db.dfy`, module `GeneDb`.
  - A `GeneDB` is never changed after construction, so it is a datatype value.
  - `New` is the constructor. A path is read with a function parameter that stands for
    `pd.read_csv`. A table is used as given. Any other argument is a `TypeError`.
  - The map is built from the interactor-A pairs and the interactor-B pairs.
    `DropDuplicates` removes repeated pairs on each side and keeps first occurrences. The
    A pairs then come before the B pairs, and `ToDict` inserts them in order, so a later
    pair overwrites an earlier one.
  - `GeneDB.ToOfficialSymbolInteractor` looks up one id given as a string, or a sequence
    of ids in order. An unknown id fails with a `KeyError` naming the first missing id.
    An argument that is neither a string nor an iterable is a `TypeError`.

Three behaviours of the driver that are easy to miss:

- The cutoff list is not checked (metrics/cross_validation.py:33). An empty cutoff list
  gives an empty table (`TableLength` with `|cutoffs| = 0`).
- Cutoffs go to `head` unchecked (metrics/cross_validation.py:34). A negative N drops the
  last |N| rows of the ranking. `Head` models that.
- Every row is scored against the set of all seed genes, the training seeds of the fold
  included (metrics/cross_validation.py:35). See `TableAt` and
  `TrainingSeedIsTruePositive`.

## Model

| member | source | states |
|---|---|---|
| `CrossValidation.GuardedRatio` | metrics/cross_validation.py:56-64 | a guarded count ratio lies in [0, 1]; it is 0 exactly when there are no hits, and 1 exactly when there are hits and no misses |
| `CrossValidation.F1` | metrics/cross_validation.py:66-69 | guarded harmonic mean in [0, 1]; 0 iff precision or recall is 0; 1 iff both are 1 |
| `CrossValidation.HarmonicMeanBounds` | metrics/cross_validation.py:66-67 | when p + r > 0, 2pr/(p+r) lies in [0, 1], is 0 iff p or r is 0, and is 1 iff p = r = 1 |
| `CrossValidation.CalculateMetrics` | metrics/cross_validation.py:42-71 | all three scores lie in [0, 1] |
| `CrossValidation.MetricsCharacterised` | metrics/cross_validation.py:42-71 | empty predictions give precision 0 and empty truth gives recall 0, with no division fault; each score is 0 iff the sets are disjoint; precision is 1 iff the predictions are a non-empty subset of the truth; recall is 1 iff the truth is a non-empty subset of the predictions |
| `CrossValidation.TruePositives` | metrics/cross_validation.py:52 | the number of predicted genes in the truth set; no own contract — `CountsPartition`, `F1IsDice` |
| `CrossValidation.FalsePositives` | metrics/cross_validation.py:53 | the number of predicted genes outside the truth set; no own contract — `CountsPartition` |
| `CrossValidation.FalseNegatives` | metrics/cross_validation.py:54 | the number of truth genes that were not predicted; no own contract — `CountsPartition` |
| `CrossValidation.CountsPartition` | metrics/cross_validation.py:52-54 | tp + fp = \|predicted\| and tp + fn = \|truth\|; tp = 0 iff the sets are disjoint; fp = 0 iff predicted ⊆ truth; fn = 0 iff truth ⊆ predicted |
| `CrossValidation.F1IsDice` | metrics/cross_validation.py:52-69 | F1 from the two guarded ratios equals the Dice coefficient 2·tp / (\|predicted\| + \|truth\|) whenever either set is non-empty |
| `CrossValidation.F1Harmonic` | metrics/cross_validation.py:66-69 | F1·(p + r) = 2pr when p + r > 0, and F1 = 0 otherwise |
| `CrossValidation.MetricsSymmetric` | metrics/cross_validation.py:52-67 | swapping the arguments swaps precision and recall and leaves F1 unchanged |
| `CrossValidation.PerfectPrediction` | metrics/cross_validation.py:56-71 | equal non-empty sets score (1, 1, 1) |
| `CrossValidation.DisjointPrediction` | metrics/cross_validation.py:56-71 | disjoint sets, empty ones included, score (0, 0, 0) |
| `CrossValidation.Head` | metrics/cross_validation.py:34 | `head(n)` is a prefix of the ranking; it has at most n entries for n ≥ 0, exactly n when n ≤ the length, and all of them when n ≥ the length; a negative n keeps exactly the first length + n entries, or none when that is negative |
| `CrossValidation.ElementsCard` | metrics/cross_validation.py:34 | the set of a sequence's elements is no larger than the sequence |
| `CrossValidation.Elements` | metrics/cross_validation.py:34-35 | `set(...)` of a sequence: a value is a member iff it occurs in the sequence; `ElementsCard` bounds its size |
| `CrossValidation.TopN` | metrics/cross_validation.py:34 | `set(result.head(num_genes).gene)`: `Elements` of `Head`; no own contract — `TopNBound` |
| `CrossValidation.TopNBound` | metrics/cross_validation.py:34 | the evaluated set for cutoff N has at most N genes, and a gene is in it iff it is one of the first N of the ranking |
| `CrossValidation.TrainSeeds` | metrics/cross_validation.py:29 | the training seeds are the seeds at the fold's training indices, in index order |
| `CrossValidation.FoldPrediction` | metrics/cross_validation.py:22-31 | the algorithm applied to the network, the fold's training seeds and the total seed count; no own contract — `TableAt`, `CrossValidate` |
| `CrossValidation.ScoreRow` | metrics/cross_validation.py:34-36 | the row `[num_genes, precision, recall, f1]` for one cutoff; no own contract — `TableAt`, `NumGenesCycle`, `TrainingSeedIsTruePositive`, and `MetricsCharacterised` for its scores |
| `CrossValidation.FoldRows` | metrics/cross_validation.py:33-36 | the inner loop's rows: one per cutoff; row order is stated by `FoldRowsSnoc` and `BlocksLayout` |
| `CrossValidation.FoldRowsSnoc` | metrics/cross_validation.py:33-36 | one pass of the inner loop appends the current cutoff's row: the rows of the first j + 1 cutoffs are the rows of the first j followed by row j |
| `CrossValidation.Blocks` | metrics/cross_validation.py:27-36 | one block per fold, and every block has one row per cutoff |
| `CrossValidation.BlocksLayout` | metrics/cross_validation.py:27-36 | for any scorer, row i·\|C\| + j exists and is the score of cutoff C[j] on the ranking returned for fold i's training seeds and the count \|seeds\| |
| `CrossValidation.BlocksRow` | metrics/cross_validation.py:27-36 | for any scorer, every row k lies in fold k div \|C\| and is the score of cutoff C[k mod \|C\|] on that fold's ranking |
| `CrossValidation.FlattenAt` | metrics/cross_validation.py:27-36 | appending blocks of c rows gives \|blocks\|·c rows, and row i·c + j is row j of block i |
| `CrossValidation.Table` | metrics/cross_validation.py:27-36 | the driver's whole row list, the blocks of all folds laid end to end; no own contract — `TableLength`, `TableAt`, `NumGenesCycle`, `FoldIndependentRows`, and `CrossValidate` is proved equal to it |
| `CrossValidation.TableLength` | metrics/cross_validation.py:27-36 | the table has exactly (number of folds) × (number of cutoffs) rows |
| `CrossValidation.TableAt` | metrics/cross_validation.py:27-36 | rows are fold-major and cutoff-minor: row i·\|C\| + j scores cutoff C[j] of the ranking the algorithm returned for fold i's training seeds and the count \|seeds\|, against the full seed set |
| `CrossValidation.NumGenesCycle` | metrics/cross_validation.py:33-36 | the `num_genes` of row k is C[k mod \|C\|]: the column cycles through the cutoff list once per fold |
| `CrossValidation.FoldIndependentRows` | metrics/cross_validation.py:31-35 | when the algorithm returns the same ranking on every fold, row k is the row of cutoff C[k mod \|C\|] for that ranking, so all folds give identical rows |
| `CrossValidation.TrainingSeedIsTruePositive` | metrics/cross_validation.py:29-35 | a predicted gene that is one of the fold's own training seeds is a true positive: precision, recall and F1 of that row are all positive |
| `CrossValidation.TwoFoldsThreeCutoffs` | tests/test_cross_validation.py:4-9 | with two folds and cutoffs [1, 2, 3], the table has 6 rows whose `num_genes` read 1, 2, 3, 1, 2, 3 |
| `CrossValidation.CrossValidate` | metrics/cross_validation.py:7-39 | the returned rows equal `Table` for the given algorithm, seeds, cutoffs and folds; the algorithm is called once per fold, in fold order, on that fold's training seeds and always with the total seed count |
| `GeneDb.InteractorA` | genes/gene_db.py:19 | the A-side (Entrez id, symbol) pairs, one per row, in row order |
| `GeneDb.InteractorB` | genes/gene_db.py:20 | the B-side (Entrez id, symbol) pairs, one per row, in row order |
| `GeneDb.DropDuplicates` | genes/gene_db.py:19-20 | keeps exactly the pairs of the input, each once, and is no longer than the input |
| `GeneDb.DropDuplicatesPrefix` | genes/gene_db.py:19-20 | first occurrences keep their order: de-duplicating a prefix yields a prefix of the de-duplicated whole |
| `GeneDb.ToDict` | genes/gene_db.py:28 | the keys are exactly the ids of the pairs, and every key maps to a symbol that some pair gives it |
| `GeneDb.LastPairWins` | genes/gene_db.py:28 | the last pair with a given id decides that id's symbol |
| `GeneDb.SymbolPairs` | genes/gene_db.py:22-26 | the `np.hstack` of the de-duplicated A pairs and then the de-duplicated B pairs, zipped as (id, symbol); no own contract — `SymbolPairsCover`, `MapIsLastPair` |
| `GeneDb.BuildMap` | genes/gene_db.py:19-28 | `ToDict` of `SymbolPairs`; no own contract — `BuildMapCovers`, `MapIsLastPair`, `BSideWins`, `DeduplicationDecidesWinner` |
| `GeneDb.SymbolPairsCover` | genes/gene_db.py:19-26 | the concatenated pairs mention exactly the ids of the A and B columns, and each pair comes from one row's A or B side |
| `GeneDb.BuildMapCovers` | genes/gene_db.py:19-28 | every id in either Entrez column is a key, every key is such an id, and each key's symbol is one the table pairs it with |
| `GeneDb.MapIsLastPair` | genes/gene_db.py:19-28 | each id maps to the symbol of its last pair in (distinct A pairs) followed by (distinct B pairs) |
| `GeneDb.BSideWins` | genes/gene_db.py:19-28 | an id that appears in the B column maps to a symbol it is paired with on the B side, so B overrides A |
| `GeneDb.DropRepeated` | genes/gene_db.py:19-20 | de-duplicating x, y, x gives x, y: the first occurrence stays and the later repeat is dropped |
| `GeneDb.DeduplicationDecidesWinner` | genes/gene_db.py:19-28 | A-side rows pairing an id with x, then y, then x again (the B side naming another id) map the id to y: the repeated pair is dropped before the map is built, so the table's last row does not decide |
| `GeneDb.LastWithId` | genes/gene_db.py:28 | if some pair at or after a position has a given id, there is a last such pair |
| `GeneDb.GeneDB.ToOfficialSymbolInteractor` | genes/gene_db.py:30-44 | a string is one key and gives one symbol, or a KeyError for that id; a sequence gives a list of the same length whose i-th symbol is that of the i-th id, or a KeyError naming the first unknown id; anything else is a TypeError |
| `GeneDb.LookupAll` | genes/gene_db.py:42 | succeeds iff every id is a key; the result is then in input order with the same length; otherwise the error names the first missing id |
| `GeneDb.New` | genes/gene_db.py:11-28 | a path is read and a table is used as given; any other argument is a TypeError; the built map is `BuildMap` of the table, so `MapIsLastPair` and `BSideWins` describe it: its keys are exactly the interactor ids, each mapped to a symbol the table pairs it with |
| `GeneDb.ConsistentIdLookup` | tests/test_gene_db.py:4-7 | an id that the table always pairs with one symbol looks up, as a string, to that single symbol (the "6416" → "MAP2K4" check) |

## Left out

- File loading (`pd.read_csv` in both files) is not modelled. Seeds and interaction rows
  are already-parsed sequences of strings. The constructor's path branch takes the reader
  as a function parameter.
- `cross_validate` passes a DataFrame to `read_csv` too. That branch is not modelled: the
  network and seeds are taken as already loaded.
- Fold generation by `KFold(shuffle=True, random_state=42)` is not modelled. It is a
  foreign library with a pseudo-random generator. The folds are an input.
  `CrossValidate` requires only that every training index addresses a seed row. That is
  `KFold`'s guarantee. Disjointness and coverage of the folds are not assumed, because the
  driver never relies on them.
- KFold's own argument checks are not modelled. For example, `n_splits < 2` raises
  `ValueError` inside scikit-learn, not in this code.
- CrossValidation.CrossValidate: `numGenesToEvaluate` stands for a collection that can be
  iterated more than once (a list, tuple or range). The loop at
  metrics/cross_validation.py:33 iterates it once per fold, so a one-shot iterator such as a
  generator would make every fold after the first add no rows. That case is not modelled.
- CrossValidation.CrossValidate: the algorithm is a total function, so an exception raised
  by the algorithm, which would abort the run, is not modelled. Its `**kwargs` are taken
  as part of the function value. Its result DataFrame is reduced to the `gene` column.
- Floating-point rounding is not modelled. Scores are exact rationals.
- The conversion of the rows to a DataFrame at the end of `cross_validate` is not
  modelled. The result is the row sequence.
- `str()` of table cells, missing columns and NaN cells in the interaction table are not
  modelled. Rows are records of four strings.
- GeneDb.GeneDB.ToOfficialSymbolInteractor: an iterable argument is a sequence of string
  ids. Iterables of other element types, such as a dict iterated by key, are not modelled.
- Lookups cannot modify the map, because the lookup is a function of an immutable value.
