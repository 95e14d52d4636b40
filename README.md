# FARM evaluation metrics, modelled in Dafny

This project models the hand-written scoring code of FARM's `farm/metrics.py`.
The code computes evaluation metrics from model predictions and gold labels.

- **BIO tag repair** (`_correct_bio_encodings`). Each sentence of tags (`"O"`, `"B-<class>"`, `"I-<class>"`) is scanned left to right by a two-state automaton. An `"I-C"` tag survives only while the automaton is active with class `C`. Every other `"I-"` tag is overwritten with `"O"` in place.
- **Prediction post-processing** (`postprocessed_seq_f1_score`). The sentinel tokens `"X"` and `"[PAD]"` become `"O"` in fresh copies of the sentences. The repair then runs on those copies, and seqeval scores the result.
- **Span exact match and overlap F1** (`squad_EM`, `squad_f1`, `squad`). Predicted and gold (start, end) token indices arrive as interleaved lists of chunks: even entries hold starts, odd entries hold ends. Exact match is the fraction of examples whose start and end both agree. F1 scoring has two branches. With a no-answer marker (`start + end <= 0`) on either side, an example scores 1 when the end indices agree and 0 otherwise. Otherwise the half-open ranges `[start, end)` are intersected and precision, recall and their harmonic mean are taken. The means of the three per-example lists are returned.
- **Accuracy and the dispatcher** (`simple_accuracy`, `compute_metrics`). Accuracy is the fraction of positions where prediction equals label. The entries may be class ids, class names or real scores. `compute_metrics` first asserts equal lengths. It then dispatches on one of eight metric names and raises `KeyError` for any other name.

Files:

- `results.dfy` holds the `Result` type.
- `bio.dfy` (module `Bio`) holds the repair automaton, its specification function `Repaired`, the in-place methods over arrays and the sentinel clean-up.
- `squad.dfy` (module `Squad`) holds span unpacking, exact match, per-example scores, means, and the two scoring loops as methods.
- `metrics.dfy` (module `Metrics`) holds accuracy and the dispatcher.

Where state changes in the source, the model is imperative. `_correct_bio_encodings` writes into nested lists, so `Bio.CorrectSentence` and `Bio.CorrectBioEncodings` write into arrays. The counting loop of `squad_EM` and the appending loop of `squad_f1` are methods with loops. Each of these methods is proved against a pure specification function, and the lemmas state the properties of that function.

The model follows the exceptions the code raises:

- A length mismatch is an `AssertionError` (`LengthMismatch`).
- An unknown name raises `KeyError` (`UnknownMetric`).
- A bad tag trips `assert False` (`InvalidTag`).
- `acc_and_f1` always raises. Its `f1_score` call (farm/metrics.py:21, binary averaging) can raise `ValueError` first, for example on multiclass labels. Whenever that call returns, line 22 adds the dict returned by `simple_accuracy` to a float and raises `TypeError`. The model returns `AccAndF1Fails`, not a working metric.

## Model

| member | source | states |
|---|---|---|
| `Bio.Next` | farm/metrics.py:71-82 | the `label_started`/`label_class` transition on one tag: "O" always makes the automaton inactive, a "B-" tag always makes it active, and an active state always holds the class of the tag just read |
| `Bio.StateAfter` | farm/metrics.py:66-82 | the state after a prefix of the sentence: inactive on the empty prefix, and, when active, holding the class of the prefix's last tag, which is not "O" |
| `Bio.Emit` | farm/metrics.py:71-82 | the tag written back at a position is the tag read, or "O" when the tag read is an "I-" tag |
| `Bio.Repaired` | farm/metrics.py:64-85 | a repaired sentence has the same length and consists of valid tags; each position keeps its tag or, for an "I-" tag only, becomes "O" |
| `Bio.RepairedAt` | farm/metrics.py:69-82 | the tag at position j is what the automaton emits for the j-th tag in the state reached after the first j tags |
| `Bio.StateFollowsOutput` | farm/metrics.py:66-82 | after j tags the automaton is inactive if tag j-1 was written as "O", and otherwise active with the class of that written tag |
| `Bio.KeptIff` | farm/metrics.py:78-82 | an "I-C" tag is kept if and only if it is not first and the tag written just before it is "B-C" or "I-C"; otherwise it becomes "O" |
| `Bio.BeginAndOutsideKept` | farm/metrics.py:71-77 | "B-" and "O" tags are never changed |
| `Bio.RepairedWellFormed` | farm/metrics.py:64-85 | after repair every "I-C" tag directly follows a "B-C" or "I-C" tag |
| `Bio.WellFormedIsFixed` | farm/metrics.py:64-85 | a sentence without orphaned "I-" tags is left unchanged |
| `Bio.RepairIsIdentityIff` | farm/metrics.py:64-85 | repair leaves a sentence unchanged if and only if it has no orphaned "I-" tag |
| `Bio.RepairIdempotent` | farm/metrics.py:64-85 | repairing twice gives the same result as repairing once |
| `Bio.RepairExample` | farm/metrics.py:64-85 | ["O","I-PER","B-PER","I-PER","I-LOC"] is repaired to ["O","O","B-PER","I-PER","O"] |
| `Bio.CorrectSentence` | farm/metrics.py:69-84 | the in-place loop with its started/class state leaves the array holding exactly the repaired sentence; it requires every tag to be "O", "B-*" or "I-*" |
| `Bio.CorrectNext` | farm/metrics.py:65-84 | one pass of the outer loop: afterwards every array among the first i+1 entries holds the repair of its original contents and every other array is untouched, also when one list object occurs twice |
| `Bio.CorrectBioEncodings` | farm/metrics.py:64-85 | returns the same list; every sentence in it now holds its repaired contents, so lengths are unchanged, even when one list object appears twice |
| `Bio.CleanSentence` | farm/metrics.py:89-92 | same length; "X" and "[PAD]" become "O" and every other token is kept |
| `Bio.CleanedAreTags` | farm/metrics.py:89-93 | the cleaned sentence passes the repair's tag check if and only if every original token is a tag or a sentinel |
| `Bio.CleanSentinels` | farm/metrics.py:89-92 | the comprehension over sentences: one cleaned sentence per input sentence, in order |
| `Bio.CleanIdempotent` | farm/metrics.py:89-92 | cleaning twice is cleaning once |
| `Bio.PostprocessPredictions` | farm/metrics.py:88-93 | the result is fresh lists holding the cleaned and repaired sentences; the caller's lists are not modified |
| `Squad.Evens` | farm/metrics.py:100 | `xs[::2]`: entry i is xs[2i], with (n+1)/2 entries |
| `Squad.Odds` | farm/metrics.py:101 | `xs[1::2]`: entry i is xs[2i+1], with n/2 entries |
| `Squad.Concat` | farm/metrics.py:100-103 | `torch.cat` of the selected chunks, in order: the result is empty if and only if every chunk is empty |
| `Squad.ConcatSplit` | farm/metrics.py:100-103 | concatenating the chunks of two lists joined together gives the two concatenations joined together, so the batch boundaries do not matter |
| `Squad.Unpack` | farm/metrics.py:100-103 | the four index columns, which `squad_f1` builds the same way at lines 115-118; with a single batch each column is that batch's start or end chunk |
| `Squad.Matches` | farm/metrics.py:106-109 | the number of exact matches among the first k examples, at most k |
| `Squad.ExactMatch` | farm/metrics.py:98-110 | the number of exact matches over the number of examples, a value in [0,1] |
| `Squad.MatchesAllIff` | farm/metrics.py:106-109 | the count equals k if and only if all of the first k examples match, and is 0 if and only if none does |
| `Squad.ExactMatchBounds` | farm/metrics.py:98-110 | the exact-match rate lies in [0,1]; it is 1 if and only if every example matches, and 0 if and only if none does |
| `Squad.SquadEM` | farm/metrics.py:98-110 | the counting loop returns the number of examples whose start and end agree, divided by the number of examples |
| `Squad.IndexRangeContents` | farm/metrics.py:131-132 | `set(range(a, b))` holds exactly the integers a <= x < b, which is max(0, b-a) of them |
| `Squad.OverlapIsSharedTokens` | farm/metrics.py:131-133 | the size of the intersection of the two token sets is max(0, min(pe,le) - max(ps,ls)) |
| `Squad.ExampleScores` | farm/metrics.py:125-144 | the per-example (precision, recall, F1) of the loop's two branches; `NoAnswerScores`, `DisjointScoresZero`, `OverlapScores` and `ExampleScoresInUnitRange` state its values |
| `Squad.NoAnswerScores` | farm/metrics.py:125-129 | with a no-answer marker on either side, precision, recall and F1 are all 1 when the end indices agree and all 0 otherwise |
| `Squad.DisjointScoresZero` | farm/metrics.py:134-137 | ranges that share no token score 0, 0, 0 |
| `Squad.OverlapScores` | farm/metrics.py:130-144 | with a shared token, precision is overlap / predicted length and recall is overlap / gold length, with no zero divisor; both lie in (0,1]; F1 is their harmonic mean, lies in (0,1] and lies between them |
| `Squad.RatioInUnitRange` | farm/metrics.py:139-140 | a positive overlap over a range length it does not exceed lies in (0,1] |
| `Squad.HarmonicMeanBounds` | farm/metrics.py:141 | the harmonic mean of two values in (0,1] lies in (0,1] and between them |
| `Squad.ExampleScoresInUnitRange` | farm/metrics.py:124-144 | every per-example precision, recall and F1 lies in [0,1] |
| `Squad.ScoresSymmetric` | farm/metrics.py:124-144 | exchanging prediction and gold exchanges precision and recall and keeps F1 |
| `Squad.ScoresExample` | farm/metrics.py:130-144 | prediction [2,5) against gold [3,5) scores precision 2/3, recall 1 and F1 0.8 |
| `Squad.SelfScoresOne` | farm/metrics.py:124-144 | a prediction equal to a gold span that is a no-answer marker or non-empty scores 1, 1, 1 |
| `Squad.EmptySpanScoresZero` | farm/metrics.py:124-144 | a prediction equal to an empty gold span (end <= start) that is not a no-answer marker scores 0, 0, 0, although it is an exact match |
| `Squad.Column` | farm/metrics.py:121-144 | the list of one score over the first k examples, in example order, with k entries |
| `Squad.ColumnAt` | farm/metrics.py:124-144 | entry i of a score list is that score of example i |
| `Squad.ColumnInUnitRange` | farm/metrics.py:121-144 | every entry of each score list lies in [0,1] |
| `Squad.SumBounds` | farm/metrics.py:145-149 | a sum of values in [0,1] lies in [0,n], and equals n if and only if every value is 1 |
| `Squad.MeanBounds` | farm/metrics.py:145-149 | a mean of values in [0,1] lies in [0,1], and is 1 if and only if every value is 1 |
| `Squad.F1Means` | farm/metrics.py:121-149 | the means of the precision, recall and F1 lists, in that order; `F1MeansInUnitRange` bounds them |
| `Squad.F1MeansInUnitRange` | farm/metrics.py:145-149 | the returned mean precision, recall and F1 each lie in [0,1] |
| `Squad.PerfectPredictionScoresOne` | farm/metrics.py:98-149 | predicting every gold span exactly, with no empty non-marker span among them, gives exact match 1 and the triple (1, 1, 1) |
| `Squad.ScoreExample` | farm/metrics.py:125-144 | the loop body, computed on token sets, yields exactly the per-example scores |
| `Squad.SquadF1` | farm/metrics.py:113-149 | the loop that appends to the three lists returns their means, in the order (precision, recall, F1) |
| `Squad.SquadScores` | farm/metrics.py:152-156 | squad succeeds if and only if both chunk lists have a start and an end entry, the start columns have the same positive length and both end columns cover it |
| `Squad.SquadScoresInUnitRange` | farm/metrics.py:152-156 | on success, exact match and the three F1 means all lie in [0,1] |
| `Metrics.CountEqual` | farm/metrics.py:13 | the number of agreeing positions among the first k, at most k |
| `Metrics.SimpleAccuracy` | farm/metrics.py:8-14 | the mean of the elementwise comparison: a number for non-empty input and NaN (the mean of an empty array) for empty input |
| `Metrics.CountEqualIff` | farm/metrics.py:13 | the count equals k if and only if the first k positions all agree, and is 0 if and only if they all differ |
| `Metrics.AccuracyBounds` | farm/metrics.py:8-14 | accuracy lies in [0,1]; it is 1 if and only if predictions equal labels, and 0 if and only if they differ everywhere |
| `Metrics.PearsonAndSpearman` | farm/metrics.py:29-36 | exactly the keys "pearson", "spearmanr" and "corr", all numbers, with "corr" the average of the other two |
| `Metrics.PostprocessedSeqF1` | farm/metrics.py:88-95 | entries that are not sentences fail with `WrongKind`; on success the only key is "f1_seq_p", holding a number |
| `Metrics.PostprocessedScoresRepairedTags` | farm/metrics.py:88-95 | post-processed scoring fails if and only if some token is neither a tag nor a sentinel; on success seqeval receives, per sentence, the repaired cleaned sentence, of the same length and well formed |
| `Metrics.ComputeMetrics` | farm/metrics.py:39-61 | unequal lengths fail with the length assertion before anything else; with equal lengths KeyError is raised if and only if the name is not one of the eight; "acc_f1" always fails |
| `Metrics.AccMetricIsFraction` | farm/metrics.py:39-44 | "acc" on entries that are all class ids, all class names or all real scores yields only the key "acc"; its value is a fraction in [0,1] that is 1 if and only if predictions equal labels, and 0 if and only if they differ everywhere, or NaN for empty input |
| `Metrics.AccOnClassNamesExample` | farm/metrics.py:8-14 | "acc" on the class names ["a","b"] against ["a","c"] yields 0.5 |
| `Metrics.SquadMetric` | farm/metrics.py:152-156 | the "squad" branch (lines 56-57): entries that are not index chunks fail with `WrongKind`; on success the keys are exactly "EM", holding a number, and "f1", holding a (precision, recall, F1) triple |
| `Metrics.SquadMetricInUnitRange` | farm/metrics.py:56-57 | "squad" succeeds exactly when the span columns are well shaped; it then yields "EM" in [0,1] and "f1" as a (precision, recall, F1) triple in [0,1] |

## Left out

- sklearn, scipy and seqeval: `matthews_corrcoef`, `f1_score`, `pearsonr`, `spearmanr` and seqeval's `f1_score` are opaque functions, given as the fields of a `Library` value. Their internals are not part of this model. Library NaN results are not modelled.
- Floating point: scores are exact reals. The only NaN modelled is accuracy over an empty input. `squad_f1` over zero examples is not modelled, because `squad` raises `ZeroDivisionError` in `squad_EM` before it is reached.
- `torch.cat`, `.cpu().numpy()` and tensor types: chunks are integer sequences, and concatenation is sequence concatenation. Overflow of 64-bit indices in `start + end` is not modelled.
- The `TypeError` retry in `simple_accuracy` (farm/metrics.py:15-16) is a representation workaround with no logical content.
- `acc_and_f1` is not a working metric: it always raises, so the model returns `AccAndF1Fails`.
- Metrics.ComputeMetrics: entries a metric cannot read are reported as `WrongKind`. For "postprocessed_seq_f1", these are entries that are not sentences; for "squad", entries that are not index chunks. Python raises for most of them, for example a `TypeError` from `torch.cat`, but a plain string given as a sentence would be iterated character by character. The model names no particular exception and does not model that iteration.
- Metrics.ComputeMetrics: "acc" is modelled only when the predictions and labels are all class ids, all class names or all real scores. Every other mix is reported as `WrongKind`, though numpy would compare it elementwise with its own type coercion: 1 equals 1.0, and a number never equals a string. Nested arrays, which numpy also compares elementwise in `simple_accuracy`, are not modelled either.
- Bio.CorrectSentence: the `assert False` for a bad tag is a precondition here. The partial in-place writes made before that assertion fires are not modelled. The only caller writes into its own local copy, so those writes cannot be observed; the public path returns `InvalidTag`. Running Python with assertions disabled is not modelled.
- Bio.CorrectBioEncodings: the outer Python list is modelled as a sequence of array references, because the outer list itself is never written.
- Squad.SquadEM: requires the exceptions of `squad_EM` not to occur. These are `torch.cat` of an empty list, the count assertion, division by zero, and reading a missing end index where the starts agree. `Squad.SquadScores` models those outcomes.
- Squad.SquadF1: requires a non-empty input with every end index present. Its exceptions are modelled in `Squad.SquadScores`, and the NaN of an empty mean is not modelled.
- The commented-out "masked_accuracy" branch (farm/metrics.py:58-59) is not code.
