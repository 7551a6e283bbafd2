# Selective-prediction evaluation, modelled in Dafny

This project models the evaluation scripts of a question-answering experiment. The experiment decides when a model should abstain rather than risk a hallucinated answer. Each evaluated question carries:

- a consistency score, where a higher score means more uncertainty;
- a ground-truth flag saying whether the question is impossible;
- the model's greedy answer and the gold answers.

The model covers three parts of the repository.

- **Answer grading and the ranked risk-coverage analysis** (`src/analyze_results.py`).
  - `normalize_text` lower-cases, strips punctuation, drops the articles "a", "an" and "the", and collapses whitespace (module `Text`).
  - `match` accepts a greedy answer when its normalized form contains, or is contained in, the normalized form of some gold answer (module `Text`).
  - The grading loop of `analyze` labels every record 1 (error: the question is impossible, or no gold answer matched) or 0 (correct), and keeps three counters (module `Grading`).
  - The rest of `analyze` (module `RankCurve`):
    - ranks the records by score;
    - builds the curve of coverage k/n against the error fraction among the k lowest scores;
    - integrates it with the trapezoidal rule (AURC);
    - reports the base error rate, the degenerate ROC-AUC branch and the accuracy on answerable questions.
- **The fixed-grid threshold sweep of `plot_results.py`** (module `GridCurve`). For each of the 100 thresholds i/99, a question is answered when its score is at most the threshold. Coverage is the answered fraction. Risk is the fraction of answered questions that are impossible, and 0 when nothing is answered.
- **The confusion partition of `inspect_results.py`** (module `Inspect`).
  - Results are split by their stored `abstain` and `is_impossible` flags into TP (correct abstain), TN (correct answer), FP (false refusal) and FN (hallucination).
  - The four sizes are reported.
  - The categories selected by the mode are sampled: "stats" selects none, "all" selects every category, a category key selects that category, and anything else selects nothing.

Failures that Python signals with an exception are `Failure` values of the `Result` type in module `Results`:

- `analyze` on empty data divides by zero at line 79;
- scikit-learn's `auc` needs at least two curve points;
- `random.sample` rejects a negative count.

Characters have their ASCII meaning throughout:

- `lower()` maps A-Z;
- the regex class `\w` is `[A-Za-z0-9_]`;
- `str.split()` splits on space and the control characters 9-13 and 28-31.

Scores and ratios are exact reals.

Some properties worth knowing:

- A greedy answer that normalizes to the empty string, for instance "The.", matches every non-empty gold list, because the empty string is a substring of every string (`Text.EmptyPredictionMatches`, `Text.TheDotMatches`).
- The source leaves the order of equal scores to `np.argsort`. The model fixes one order, and the last curve point and the base error rate are the same for every score-sorted ordering (`RankCurve.FinalPointAnyRanking`).

The code has two threshold sweeps, and the model keeps both:

- `analyze` sweeps the ranks, with one curve point per rank k, and raises on empty input;
- `plot_results` sweeps a fixed 100-point grid, where risk is 0 when nothing is answered, and it counts only impossible questions as errors.

## Model

| member | source | states |
|---|---|---|
| Text.Lower | src/analyze_results.py:17-18 | Lower-casing keeps the length, leaves no upper-case letter, maps each A-Z letter to its lower-case form (code point +32) and leaves every other character unchanged |
| Text.RemovePunctuation | src/analyze_results.py:14-16 | No punctuation character is left, and the result is never longer than the input |
| Text.RemovePunctuationMembers | src/analyze_results.py:14-16 | A character occurs in the result exactly when it occurs in the input and is not one of the 32 punctuation characters |
| Text.RemovePunctuationChar | src/analyze_results.py:15-16 | A single character is dropped when it is punctuation and kept otherwise |
| Text.RemovePunctuationAppend | src/analyze_results.py:16 | The filter keeps order: stripping a concatenation concatenates the stripped parts |
| Text.Split | src/analyze_results.py:12-13 | `split()` yields non-empty pieces without whitespace, made only of characters of the input |
| Text.SplitJoin | src/analyze_results.py:12-13 | Round trip: splitting the single-space join of whitespace-free tokens returns the same tokens |
| Text.WhiteSpaceFix | src/analyze_results.py:12-13 | `white_space_fix` leaves no leading, trailing or doubled blank and only plain spaces as blanks, keeps exactly the tokens of its input, and adds no non-space character |
| Text.WhiteSpaceFixIdempotent | src/analyze_results.py:12-13 | Fixing whitespace twice gives the same text as fixing it once |
| Text.SplitRemoveArticles | src/analyze_results.py:10-11 | On text of word characters and whitespace, the tokens after `remove_articles` are the tokens before it with every "a", "an" and "the" token removed |
| Text.Normalize | src/analyze_results.py:7-19 | Normalized text has no upper-case letter, no punctuation, and no leading, trailing or doubled blank |
| Text.NormalizePrintable | src/analyze_results.py:7-19 | Normalizing printable text yields printable text |
| Text.NormalizeTokens | src/analyze_results.py:7-19 | The tokens of the normalized text are those of the lowered, punctuation-free text with the articles removed, so no article token survives |
| Text.NormalizeIdempotent | src/analyze_results.py:7-19 | Normalizing printable text twice gives the same result as normalizing once |
| Text.NormalizeIgnoresCase | src/analyze_results.py:7-19 | Normalization gives the same result on a text and on its lower-cased form |
| Text.NormalizeIgnoresPunctuation | src/analyze_results.py:7-19 | Removing punctuation before normalizing changes nothing: the normalized form of any text ignores its punctuation |
| Text.NormalizeIgnoresLeadingThe | src/analyze_results.py:7-19 | A leading article "the " does not change the normalized form of any text |
| Text.NormalizeTheDot | src/analyze_results.py:7-19 | "The." normalizes to the empty string (its article is removed along with the period) |
| Text.SubstringIffOccurs | src/analyze_results.py:26 | The left-to-right scan modelling Python's `in` on strings succeeds exactly when the needle occurs at some index |
| Text.MatchNormalized | src/analyze_results.py:24-28 | The loop over gold answers, from position k on, returns true exactly when some gold answer at or after k has a normalized form that contains, or is contained in, the normalized prediction |
| Text.Match | src/analyze_results.py:21-28 | `match` holds exactly when some gold answer is related by containment, in either direction, to the prediction after both are normalized |
| Text.MatchSingle | src/analyze_results.py:21-28 | Against a single gold answer, `match` is containment of the two normalized strings in either direction |
| Text.MatchSymmetric | src/analyze_results.py:26 | With one gold answer, exchanging prediction and gold answer does not change the verdict |
| Text.EmptyPredictionMatches | src/analyze_results.py:23-27 | A prediction that normalizes to "" matches any non-empty list of gold answers |
| Text.TheDotMatches | src/analyze_results.py:21-28 | The greedy answer "The." is graded correct against every non-empty gold list |
| Text.NoGoldsNoMatch | src/analyze_results.py:24-28 | With no gold answers the loop finds nothing and `match` is false |
| Text.MatchIgnoresPunctuation | src/analyze_results.py:21-28 | Stripping punctuation from the prediction never changes the verdict |
| Text.MatchIgnoresLeadingThe | src/analyze_results.py:21-28 | Prefixing the prediction with "the " never changes the verdict |
| Text.CaseInsensitiveMatch | src/analyze_results.py:21-28 | Answers that lower-case to the same text match each other |
| Text.MatchParisExample | src/analyze_results.py:21-28 | "paris" matches the gold answer "Paris" |
| Grading.ErrorLabel | src/analyze_results.py:50-63 | The `is_hallucination` entry is 0 or 1, and it is 0 exactly when the question is answerable and the greedy answer matches a gold answer |
| Grading.Tally | src/analyze_results.py:42-64 | The grading loop appends one label per record in order; it counts the impossible records and the correctly answered ones; answerable plus impossible totals equal the number of records; correct answers never exceed the answerable total; the label sum plus the correct count equals the number of records |
| Grading.LabelsSum | src/analyze_results.py:50-64 | Every record either adds 1 to the label sum or is counted as correct, never both |
| RankCurve.SortByScore | src/analyze_results.py:87-88 | Ranking gives the entries in ascending score order, as a permutation of the input |
| RankCurve.ErrorsPermutation | src/analyze_results.py:87-88 | Any reordering of the labelled entries has the same number of errors |
| RankCurve.RiskCoverageCurve | src/analyze_results.py:93-107 | The loop over the cumulative error count builds exactly the reference curve |
| RankCurve.RiskCoverageCoverage | src/analyze_results.py:100-102 | Coverage rises strictly, by exactly 1/n per point, from 1/n to 1 |
| RankCurve.RiskCoverageRisks | src/analyze_results.py:103-104 | Every risk lies in [0, 1] |
| RankCurve.RiskCoverageLast | src/analyze_results.py:100-107 | The last point keeps every entry: coverage 1 and risk equal to the overall error fraction |
| RankCurve.FinalPointAnyRanking | src/analyze_results.py:87-107 | Whatever order ties are ranked in, the last point is coverage 1 with the overall error fraction of the unranked data |
| RankCurve.Trapezoid | src/analyze_results.py:111 | `auc` by the trapezoidal rule: with coverage non-decreasing and risks in [0, 1], the area lies between 0 and the covered width |
| RankCurve.TrapezoidUniform | src/analyze_results.py:111 | When consecutive coverages are 1/n apart, the trapezoidal area is the sum of (1/n)(r_k + r_k+1)/2 |
| RankCurve.AurcOfRiskCoverage | src/analyze_results.py:109-111 | For n >= 2 entries, the AURC of the rank curve is that uniform sum and lies in [0, (n-1)/n] |
| RankCurve.DistinctLabels | src/analyze_results.py:71 | More than one distinct label exists exactly when the labels are not all equal |
| RankCurve.RocAuc | src/analyze_results.py:70-74 | ROC-AUC is 0.5 when every label is the same; otherwise it is the classifier's value |
| RankCurve.Analyze | src/analyze_results.py:42-111 | Empty data fails as a division by zero and one record fails for too few curve points. From two records on, the analysis succeeds with a curve and metrics that `Summarizes` describes |
| RankCurve.SummaryFacts | src/analyze_results.py:140-147 | The reported metrics are the record count; the base error rate, which is the fraction not graded correct; ROC-AUC, 0.5 when every label is equal; the ranked curve ending at (1, base rate); its bounded AURC; and the accuracy on answerable questions, 0 when there are none |
| GridCurve.ThresholdsAscending | plot_results.py:26 | The 100 thresholds run strictly upwards from 0 to 1 |
| GridCurve.Answered | plot_results.py:33 | The answered questions at threshold t are never more than the records, and each has score at most t |
| GridCurve.AnsweredMembers | plot_results.py:33 | The answered questions at threshold t are exactly the records whose score is at most t |
| GridCurve.AnsweredMultiplicity | plot_results.py:33 | Each record occurs among the answered questions as often as in the data when its score is at most t, and not at all otherwise |
| GridCurve.AnsweredIndexCounts | plot_results.py:33-47 | The answered list has one entry per index with score at most t, and its impossible entries are the indices counted as hallucinations |
| GridCurve.Coverage | plot_results.py:35-38 | Coverage lies in [0, 1]; it is 0 without data and otherwise the number of indices with score at most t over the total |
| GridCurve.Risk | plot_results.py:40-48 | Risk lies in [0, 1]; it is 0 when no index has score at most t, and otherwise the number of impossible indices with score at most t over the number of indices with score at most t |
| GridCurve.Sweep | plot_results.py:22-51 | The loop yields 100 coverages and 100 risks, each the coverage and risk at the matching threshold |
| GridCurve.AnsweredNested | plot_results.py:30-35 | Raising the threshold keeps every answered question answered and never lowers the answered count |
| GridCurve.CoverageMonotone | plot_results.py:30-38 | Coverage never decreases along the sweep |
| GridCurve.SweepIgnoresAnswers | plot_results.py:22-48 | Coverage and risk depend only on scores and impossibility flags: data agreeing on those gives equal values |
| GridCurve.FinalThreshold | plot_results.py:26-48 | When every score is at most 1, the last threshold answers everything: coverage 1, risk equal to the fraction of impossible questions |
| Inspect.Lookup | inspect_results.py:27-32 | Looking a mode up finds the category whose key it is, and finds none when no key equals it |
| Inspect.LookupName | inspect_results.py:27-32 | Each category is found again under its own key, so the four keys are distinct |
| Inspect.Classify | inspect_results.py:22-25 | Every result belongs to one category given by its flag pair, and to no other |
| Inspect.Select | inspect_results.py:22-25 | A category list is never longer than the data, and each of its entries has the category's flag pair |
| Inspect.SelectMembers | inspect_results.py:22-25 | A category list holds exactly the results with its flag pair; for example, FN holds the answered impossible questions and FP the abstained answerable ones |
| Inspect.SelectAppend | inspect_results.py:22-25 | The filter preserves order: selecting from a concatenation concatenates the selections |
| Inspect.Disjoint | inspect_results.py:22-25 | No result lies in two categories |
| Inspect.Partition | inspect_results.py:22-25 | The four sizes add up to the number of results, and the four lists together are a permutation of the data |
| Inspect.StatsTotal | inspect_results.py:34-36 | The printed counts add up to the number of loaded results |
| Inspect.Selected | inspect_results.py:41 | A category is selected exactly when the mode is "all" or the category's key, and the selection follows the key order of the dictionary without repeats |
| Inspect.Sections | inspect_results.py:43-50 | The loop fails exactly when n is negative and some selected category is non-empty. Otherwise every selected non-empty category gets a section and every section is such a category, showing min(n, size) of its items. Selected categories in key order give sections in key order, at most one per category |
| Inspect.Run | inspect_results.py:22-50 | "stats" reports the counts with no section; every successful run reports the counts; any other mode fails exactly when n is negative and a selected category is non-empty; the sections come in key order |
| Inspect.UnknownModeSkipped | inspect_results.py:41-44 | A mode that is neither "stats", "all" nor a key inspects nothing |
| Inspect.SampleDecision | inspect_results.py:50-58 | Every item drawn from a category comes from the data; its printed decision is Abstain exactly for TP and FP, and it is impossible exactly for TP and FN |

## Left out

- File and JSON input and output, printing, plotting and argument parsing: src/analyze_results.py:30-32, 114-138 and 148-149, plot_results.py:7-14 and 53-74, inspect_results.py:6-14 and 51-67.
- `roc_auc_score` is a call into scikit-learn. Its value is the parameter `classifierAuc` of `RankCurve.Analyze`; only the branch that picks it or 0.5 is modelled.
- `np.argsort` may order equal scores in any way. The model ranks with one fixed order (earlier records first among equal scores), so intermediate curve points and the AURC are those of that order. The last point and the base error rate are proved for every order.
- Which items `random.sample` picks is not modelled. Only the count min(n, size) and the membership of any valid draw are stated.
- Text.NormalizeIdempotent: proved for printable ASCII text only, not for every string.
- Text.NormalizeTokens: proved for printable ASCII text only, not for every string.
- Text.SplitRemoveArticles: proved for text made of word characters and whitespace, which is what punctuation removal leaves of printable text.
- Unicode case mapping, the Unicode `\w` class and Unicode whitespace are replaced by their ASCII subsets.
- IEEE floating-point rounding is not modelled. This includes the representation of `np.linspace(0, 1, 100)`, whose thresholds are the exact reals i/99.
- Inspect.Run: the counts printed before a failing `random.sample` call are not part of the failure value.
- The inconsistency scorer (`calculate_inconsistency_score`) is not part of this model. Nor is the experiment runner that calls the remote model, nor the dataset scripts analyze_dataset.py, check_data.py and download_datasets.py, nor mock_demo.py.
- Missing fields: every `Item` has an `abstain` flag and a generated answer. The experiment runner's records (src/experiment_runner.py:96-104) carry neither `abstain` nor `generated_answer`, so on those records inspect_results.py raises KeyError at line 22 (and would at line 55). The model does not represent that failure.
- `plot_results.py` ignores the records' greedy answers. Its risk counts only impossible questions, and the model keeps that definition.
