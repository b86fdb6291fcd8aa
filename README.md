# Bias-Lab fairness core, modelled in Dafny

Bias-Lab is a Streamlit dashboard for exploring bias in datasets and models. This project models the computational core behind it and proves properties of that model:

- **Group-fairness metrics** (`utils/helpers.py`):
  - per-group selection rates;
  - disparate impact (DI), i.e. the lowest group rate over the highest;
  - the representation ratio, i.e. the smallest group share over the largest;
  - the per-row probabilities of the biased-outcome generator;
  - reweighting normalised to mean 1;
  - the A–D fairness grade.
- **The sentiment bias experiment** (`sentiment_experiment.py`):
  - the six counterfactual sentence pairs built with Python's `str.replace`;
  - the bias consistency score, `1 - mean(|diff|) / max(|diff|)`.
- **Dataset helpers** (`scripts/data_processing.py`):
  - text normalisation (`lower().strip()`);
  - group balancing, where each group's rows are repeated `max_count // n` times.

Modules:

- **`Common`**: `Option`, exact sums of reals, occurrence counts, and the predicate `Enumerates(order, column)`. That predicate says a list of group labels names every distinct value of a column exactly once, which is the role pandas' group key order plays in the source. It also holds small lemmas about real division.
- **`PyStrings`**: `str.replace`, and `str.count` as the number of occurrences it rewrites, with Python's left-to-right, non-overlapping, case-sensitive substring matching. An empty pattern is modelled too.
- **`Helpers`**: `utils/helpers.py`.
  - A Python dict from group to value is a sequence of `(group, value)` pairs in key order `order`.
  - Python's `max`/`min` with `key=` and pandas' `idxmax`/`idxmin` keep the first extreme entry in that order.
  - `selection_rates` is a loop, so it is a method proved against the function `Rates`.
  - The other operations are functions.
- **`SentimentExperiment`**: `generate_sentence_pairs` and `compute_bias_consistency` are both loops. Each is a method proved equal to a specification function (`SentencePairs`, `ConsistencyScore`), and lemmas state the properties of those functions.
- **`DataProcessing`**:
  - `preprocess_text` is a function.
  - `balance_dataset` is a method. Its loop builds the list of repeated blocks, and it is proved equal to the function `Balanced`.

Behaviour of the code that is easy to misread (the model follows the code):

- DI is `0.0`, not `1.0`, when every group's rate is 0. The highest rate is then replaced by 1e-9, and `0 / 1e-9` is 0 (`Helpers.DisparateImpactIsZero`).
- Ties for the lowest or highest group go to the first tied group in the dict's or series' key order. The model takes that order as the parameter `order`.
  - In `disparate_impact` the keys come from `labels.groupby(group)`, which sorts them. A tie therefore goes to the lexicographically smallest label (`Helpers.DisparateImpactTieBreak`).
  - In `representation_ratio` the keys come from `value_counts`, which orders them by descending count, not by label.
  - In `balance_dataset` the blocks follow `groupby`'s sorted key order.
- `synthesize_outcome` does not validate `base_rate`. The model accepts any real and clips, as the code does.
- `balance_dataset` on an empty frame has no result, because concatenating an empty list of frames raises. The model returns `None` for that input.
- Pronoun and name swaps are plain substring replacements. "he" is also replaced inside "the" and "she", and the capitalised "He" is not replaced (`PyStrings.ReplaceInsideWords`).

## Model

| member | source | states |
|---|---|---|
| Helpers.SelectionRates | utils/helpers.py:58-71 | one entry per group in group order, keys distinct and covering exactly the groups present; each rate is the group's label sum over its size; with 0/1 labels every rate is in [0, 1] |
| Helpers.BinaryLabelSum | utils/helpers.py:60-70 | with 0/1 labels a group's label sum is its number of 1-labels, never more than its size |
| Helpers.SelectionRateIsShare | utils/helpers.py:62-70 | with 0/1 labels the rate of a present group is P(Y = 1 \| group): positives over group size, in [0, 1] |
| Helpers.RateBounds | utils/helpers.py:64-70 | with 0/1 labels every rate is in [0, 1], including the 0.0 of a group without rows |
| Helpers.ArgMax | utils/helpers.py:81 | the chosen entry has the largest value and every earlier entry is strictly smaller (first maximum wins) |
| Helpers.ArgMin | utils/helpers.py:82 | the chosen entry has the smallest value and every earlier entry is strictly larger (first minimum wins) |
| Helpers.DisparateImpact | utils/helpers.py:73-85 | no groups gives (1.0, "", ""); otherwise both named groups are present and DI is rate(min group) / rate(max group), the latter replaced by 1e-9 when not positive |
| Helpers.DisparateImpactPicksExtremes | utils/helpers.py:78-82 | the min and max groups bound every group's rate, and each is the first group in key order with its rate |
| Helpers.DisparateImpactTieBreak | utils/helpers.py:79-82 | with groupby's sorted keys, any other group tied with the lowest (or highest) group has a lexicographically larger label |
| Helpers.LowestTieBreak | utils/helpers.py:82 | with sorted keys, a group tied with min(rates, key=rates.get) and different from it has a larger label |
| Helpers.HighestTieBreak | utils/helpers.py:81 | with sorted keys, a group tied with max(rates, key=rates.get) and different from it has a larger label |
| Helpers.DisparateImpactBounds | utils/helpers.py:73-85 | with 0/1 labels DI lies in [0, 1] |
| Helpers.DisparateImpactIsOne | utils/helpers.py:81-84 | with 0/1 labels DI is 1 exactly when all groups have one common positive rate |
| Helpers.DisparateImpactIsZero | utils/helpers.py:81-84 | with 0/1 labels DI is 0 exactly when some group has rate 0, including the all-zero case |
| Helpers.DisparateImpactExample | utils/helpers.py:73-85 | labels [1, 1, 0, 0] over groups A, A, B, B give (0.0, "B", "A") |
| Helpers.RepresentationRatio | utils/helpers.py:87-97 | empty column gives (1.0, "", ""); otherwise both named groups are present and the ratio is share(min) / share(max), the latter replaced by 1e-9 when not positive |
| Helpers.RepresentationRatioPicksExtremes | utils/helpers.py:91-95 | the idxmin/idxmax groups bound every group's share, each the first in key order with its share |
| Helpers.ShareOrder | utils/helpers.py:91 | comparing normalised shares of one column is comparing row counts |
| Helpers.RepresentationRatioIsCountRatio | utils/helpers.py:91-96 | on a non-empty column the ratio equals count(min group) / count(max group) and lies in (0, 1] |
| Helpers.RepresentationRatioCountExtremes | utils/helpers.py:91-95 | the named groups have the fewest and the most rows |
| Helpers.ShareSum | utils/helpers.py:91 | the shares add up to the sum of the listed groups' counts over the column length |
| Helpers.ProportionsSumToOne | utils/helpers.py:91 | on a non-empty column the normalised value counts add up to exactly 1 |
| Helpers.Clip | utils/helpers.py:112 | numpy clip: the result lies in [lo, hi], equals x inside the interval and the nearer bound outside it |
| Helpers.RowProbability | utils/helpers.py:112 | each row's Bernoulli parameter lies in [0.01, 0.99] |
| Helpers.OutcomeProbabilities | utils/helpers.py:109-112 | one probability per row, each in [0.01, 0.99], equal for rows of the same group |
| Helpers.UnlistedGroupUsesBaseRate | utils/helpers.py:110-112 | a row whose group has no multiplier, or any row when no table is given, gets the clipped base rate |
| Helpers.NoTableIsUniform | utils/helpers.py:110-112 | without a multiplier table every row gets the same probability |
| Helpers.ProbabilityInRangeIsExact | utils/helpers.py:112 | a scaled rate already inside [0.01, 0.99] is used unchanged |
| Helpers.ProbabilityMonotoneInMultiplier | utils/helpers.py:112 | with a non-negative base rate, a larger multiplier never gives a smaller probability |
| Helpers.RowProbabilityMonotone | utils/helpers.py:112 | the per-group form of the monotonicity above |
| Helpers.ScaledClipMonotone | utils/helpers.py:112 | clip(c * a) <= clip(c * b) when c >= 0 and a <= b |
| Helpers.ApplyReweighting | utils/helpers.py:116-122 | one weight per row, equal within a group; divided by the mean raw weight when that mean is positive, otherwise the raw weights (1.0 for unlisted groups) unchanged |
| Helpers.ReweightingMeanIsOne | utils/helpers.py:119-121 | when the raw mean is positive the returned weights have mean exactly 1 |
| Helpers.ScoreFairness | utils/helpers.py:124-134 | grade A exactly when DI >= 0.95, B exactly on [0.8, 0.95), C exactly on [0.65, 0.8), D exactly below 0.65 |
| Helpers.ScoreFairnessMonotone | utils/helpers.py:128-134 | a higher DI never earns a lower grade; grades A and B are exactly the 80% rule |
| PyStrings.ReplaceLength | sentiment_experiment.py:28-32 | replacing changes the length by (len(rep) - len(pat)) per counted occurrence |
| PyStrings.CountZeroIffAbsent | sentiment_experiment.py:28-32 | the occurrence count is zero exactly when the pattern is not a substring |
| PyStrings.ReplaceAbsent | sentiment_experiment.py:28-32 | replacing a pattern that does not occur returns the string unchanged |
| PyStrings.ReplaceSelf | sentiment_experiment.py:16-29 | replacing a pattern by itself (the ("he", ...) swaps) returns the string unchanged |
| PyStrings.ReplaceInsideWords | sentiment_experiment.py:29 | matching is by case-sensitive substring: "He the" becomes "He tshe" |
| PyStrings.ReplaceAtFirstOccurrence | sentiment_experiment.py:29-32 | at the first occurrence of a non-empty pattern, everything before it is kept, that occurrence is replaced and counted once, and matching resumes after it |
| PyStrings.NonOverlapping | sentiment_experiment.py:29-32 | occurrences overlapping an earlier match are neither replaced nor counted: "aaa" with "aa" gives "ba" and a count of 1 |
| SentimentExperiment.GenerateSentencePairs | sentiment_experiment.py:14-34 | the loops produce exactly the six pairs of SentencePairs: three pronoun pairs, then three name pairs, in list order |
| SentimentExperiment.AbsentWordGivesIdenticalPairs | sentiment_experiment.py:28-32 | without "he" all three pronoun pairs are (base, base); without "John" all three name pairs are |
| SentimentExperiment.PronounPairLengths | sentiment_experiment.py:28-29 | the "she" and "they" variants are longer by one and two characters per occurrence of "he" |
| SentimentExperiment.AbsDiff | sentiment_experiment.py:44-45 | the difference is score1 - score2 or score2 - score1, whichever is non-negative, and zero exactly when the two scores are equal |
| SentimentExperiment.MaxOf | sentiment_experiment.py:51 | max(diffs) is one of the differences and bounds all of them |
| SentimentExperiment.ComputeBiasConsistency | sentiment_experiment.py:37-52 | the loop computes ConsistencyScore; the score is in [0, 1] and 1.0 for no pairs |
| SentimentExperiment.MeanWithinMax | sentiment_experiment.py:50-51 | the mean difference lies between 0 and the maximum difference |
| SentimentExperiment.ScoreBounds | sentiment_experiment.py:47-52 | the consistency score always lies in [0, 1] |
| SentimentExperiment.ScoreIsOneIff | sentiment_experiment.py:40-52 | on a non-empty list the score is 1 exactly when every pair has equal scores |
| SentimentExperiment.SingleDifferingPair | sentiment_experiment.py:47-52 | a single pair with different scores scores exactly 0 |
| SentimentExperiment.SwapInvariant | sentiment_experiment.py:44-45 | swapping the two halves of any pairs leaves the score unchanged |
| SentimentExperiment.SumDiffsReorder | sentiment_experiment.py:42-50 | reordering the pairs leaves the sum of differences unchanged |
| SentimentExperiment.MaxDiffsReorder | sentiment_experiment.py:51 | reordering the pairs leaves the maximum difference unchanged |
| SentimentExperiment.ScoreReorderInvariant | sentiment_experiment.py:37-52 | the score depends only on the multiset of pairs, not their order |
| DataProcessing.LowerChar | scripts/data_processing.py:16 | A–Z move to a–z and every other character is returned unchanged, so the result is never an upper-case ASCII letter and whitespace stays whitespace |
| DataProcessing.Lower | scripts/data_processing.py:16 | same length; each A–Z character is replaced by its a–z counterpart at the same position and every other character is kept, so no upper-case ASCII letter remains |
| DataProcessing.StripLeft | scripts/data_processing.py:16 | the result is a suffix of the input, everything removed is whitespace, and it does not start with whitespace |
| DataProcessing.StripRight | scripts/data_processing.py:16 | the result is a prefix of the input, everything removed is whitespace, and it does not end with whitespace |
| DataProcessing.Strip | scripts/data_processing.py:16 | the result is a contiguous slice of the input with only whitespace outside it, and neither end is whitespace |
| DataProcessing.StripNoUpper | scripts/data_processing.py:16 | stripping introduces no upper-case letter |
| DataProcessing.PreprocessText | scripts/data_processing.py:14-16 | the output has no upper-case ASCII letter and no leading or trailing whitespace, and is the lower-cased text with only surrounding whitespace removed |
| DataProcessing.LowerNoUpper | scripts/data_processing.py:16 | lower-casing text without upper-case letters changes nothing |
| DataProcessing.StripFixed | scripts/data_processing.py:16 | strip leaves a string unchanged exactly when neither end is whitespace |
| DataProcessing.PreprocessIdempotent | scripts/data_processing.py:14-16 | normalising twice equals normalising once |
| DataProcessing.PreprocessKeepsInnerText | scripts/data_processing.py:14-16 | a text without surrounding whitespace is only lower-cased |
| DataProcessing.FilterSize | scripts/data_processing.py:24 | a group's frame has as many rows as the group column has entries of that group |
| DataProcessing.FilterMembers | scripts/data_processing.py:24 | a group's frame holds input rows of that group only |
| DataProcessing.RepeatLength | scripts/data_processing.py:26 | k copies of a frame have k times its rows |
| DataProcessing.RepeatMembers | scripts/data_processing.py:26 | copies hold only rows of the original |
| DataProcessing.MaxCount | scripts/data_processing.py:20-21 | max_count bounds every group's size |
| DataProcessing.MaxCountAttained | scripts/data_processing.py:21 | with at least one group, max_count is the size of some group |
| DataProcessing.BalanceDataset | scripts/data_processing.py:18-27 | an empty frame gives no result; otherwise the loop returns the blocks of the groups in group order, each the group's rows repeated max_count // n times |
| DataProcessing.FilterBalanced | scripts/data_processing.py:23-27 | in the output, a listed group's rows are exactly its input rows (in order) repeated max_count // n times, and no other group appears |
| DataProcessing.BalancedGroupCount | scripts/data_processing.py:20-26 | a group with n input rows appears (max_count // n) * n times |
| DataProcessing.MultipleBounds | scripts/data_processing.py:25 | for 0 < n <= m, (m // n) * n lies in [n, m] and exceeds m - n |
| DataProcessing.BalancedGroupBounds | scripts/data_processing.py:21-26 | each group's output count is at least its input size, at most max_count, and more than max_count - n |
| DataProcessing.LargestGroupOnce | scripts/data_processing.py:21-26 | a largest group is copied exactly once |
| DataProcessing.BalancedRowsFromInput | scripts/data_processing.py:23-27 | every output row is an input row |
| DataProcessing.BalancedKeepsGroups | scripts/data_processing.py:20-27 | the output has exactly the input's groups, each appearing at least once |

## Left out

- The Streamlit pages and widgets are not modelled: `app_header`, `sentiment_experiment()`, the pages and apps, and caching (`st.cache_data`, `st.cache_resource`). They are user interface.
- Plotting is not modelled: `bar_counts`, `rate_barplot` and the histogram in `sentiment_experiment()`. It is output only.
- File and network I/O is not modelled: `load_fairface`, `load_text_dataset`, `load_image_dataset`, and `load_models` with its model downloads. None of them computes anything.
- Model inference is not modelled. A model's verdict on a sentence enters `compute_bias_consistency` only through its `score` field, so scored pairs are pairs of reals.
- Helpers.OutcomeProbabilities: the random Bernoulli draw (`rng.binomial`) and the seed are left out. The model stops at the per-row probabilities.
- Floating point is not modelled: every rate, share, weight and score is an exact real. Rounding, `NaN`, and the tolerance an IEEE result would need are not captured. A mean of nothing, which is `NaN` in pandas, appears as the branch that pandas' comparison with `NaN` takes.
- Pandas group ordering is not computed: the key order of `groupby` (sorted labels, utils/helpers.py:65 and scripts/data_processing.py:20) and of `value_counts` (descending count, utils/helpers.py:91) enters as the parameter `order`, with the requirement that it lists each distinct group once. Only `Helpers.DisparateImpactTieBreak` assumes the sorted order explicitly. Index alignment between `labels` and `group` is assumed: they are equal-length columns.
- Missing group values (`NaN`) are not modelled. `groupby` (utils/helpers.py:65) and `value_counts` (utils/helpers.py:91) drop them, so pandas computes shares over the non-missing rows only; the model's group columns have no missing entries, and every share is over the whole column.
- DataProcessing.LowerChar: only the ASCII letters A–Z are lower-cased. Python's `str.lower` also lower-cases other Unicode letters. Whitespace follows `str.isspace` in full.
- DataProcessing.BalanceDataset: rows whose group value is missing (`NaN`) are not modelled, although pandas' groupby drops them. `target_col` is accepted by the source but never used, so the model has no counterpart.
- A data-frame row is modelled as its group value plus the remaining cells. Column names, dtypes and the index renumbering done by `ignore_index` are not represented.
