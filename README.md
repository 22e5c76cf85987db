# ScreenQA metrics in Dafny

A model of the per-question scoring functions of the ScreenQA benchmark
(`code/metrics.py`), with proofs of what their scores mean.

ScreenQA scores three tasks:

- **SQA-S** (`sqa_s_metrics`): a short text answer against several reference
  answers. Answers are normalised SQuAD-style (lower-case, drop punctuation,
  replace the articles a/an/the by a space, collapse whitespace). The result is
  an exact-match flag and the best token F1 over the references. The sentinel
  `<no answer>` is handled first.
- **SQA-UIC** (`sqa_uic_metrics`): a list of UI elements against several
  reference lists. The result is an exact-match flag (the list is one of the
  references) and the best multiset F1 over the non-empty references.
- **SQA-UIC-BB** (`sqa_uic_bb_metrics`): UI elements that carry bounding
  boxes. Elements are paired by an optimal assignment over a cost matrix of
  IoU scores, and only pairs whose score reaches the IoU threshold count. The
  result is a boxes-only F1, an exact-match flag and an F1 that also requires
  equal content.

Modules:

| file | module | models |
|---|---|---|
| `seqs.dfy` | `Seqs` | Python's `max` over a non-empty list; list comprehensions with a filter; the ratio bound shared by F1 and IoU |
| `squad.dfy` | `Squad` | `normalize_squad` and its three inner helpers, `str.lower`, `str.split`, `" ".join` |
| `token_f1.dfy` | `TokenF1` | `f1_score`, and the precision/recall/F1 formula shared with `uic_bb_f1_score` |
| `boxes.dfy` | `Boxes` | `iou`, `ui_elements_match`, `uic_bb_exact_match` |
| `text_metrics.dfy` | `TextMetrics` | `sqa_s_metrics`, `sqa_uic_metrics` |
| `box_metrics.dfy` | `BoxMetrics` | `uic_bb_f1_score` (cost-matrix construction on an `array2`), `sqa_uic_bb_metrics` |

Modelling choices:

- Scores are exact `real`s. Python returns the ints `0` and `1` in the
  degenerate branches and floats elsewhere; here every F1 is a real and every
  exact-match flag an `int` in {0, 1}.
- Characters are treated as ASCII. `lower` maps `A`..`Z` only. `\w` is
  `[A-Za-z0-9_]`. `split()` separates on ASCII whitespace, which is 0x09..0x0D
  and 0x1C..0x20. `string.punctuation` is the 32 printable ASCII symbols.
- The regular expression `\b(a|an|the)\b` is modelled as a left-to-right scan.
  It remembers whether the previous character was a word character, which
  decides the opening `\b`. The closing `\b` is a check on the next character.
- Bounding boxes are integer tuples `(ymin, xmin, ymax, xmax)`. IoU is the
  exact quotient of the integer areas.
- `scipy.optimize.linear_sum_assignment` is a parameter `solve`. The model
  only assumes that it returns a one-to-one pairing of `min(rows, columns)`
  cells with indices in range (`BoxMetrics.IsSolver`). `uic_bb_f1_score` is
  modelled twice. `BoxMetrics.UicBbF1` is a function on values.
  `BoxMetrics.UicBbF1Score` is a method that fills an `array2` with the source's
  nested loops, and it is proved equal to that function.
- UI elements are compared with `==` as in the source. In `sqa_uic_metrics`
  they can be of any type with equality. In the bounding-box metrics they are
  `(box, content)` pairs.

## Model

| member | source | states |
|---|---|---|
| TextMetrics.SqaSMetrics | code/metrics.py:27-50 | exact match is 0 or 1 and F1 lies in [0, 1]; a sentinel prediction matches exactly iff some reference is the sentinel; any other prediction matches exactly iff some non-sentinel reference has the same normalised form |
| TextMetrics.SqaSNoAnswer | code/metrics.py:37-44 | sentinel prediction with a sentinel reference scores (1, 1); sentinel prediction without one scores (0, 0); any other prediction scores (0, 0) when every reference is the sentinel |
| TextMetrics.NormalizedMember | code/metrics.py:42-48 | the normalised prediction is in the list of normalised non-sentinel references iff some non-sentinel reference normalises to it |
| TextMetrics.SqaSF1IsBest | code/metrics.py:45-49 | for an answer with a non-sentinel reference, the F1 part bounds the token F1 against every non-sentinel reference and equals it for one of them |
| TextMetrics.AnswerBelowBest | code/metrics.py:42-49 | no non-sentinel reference scores a token F1 above the maximum of the per-reference F1 list |
| TextMetrics.SqaSExactMatchGivesFullF1 | code/metrics.py:45-50 | exact match implies F1 = 1 whenever the normalised prediction is not empty |
| TextMetrics.SqaSEmptyNormalizedAnswer | code/metrics.py:45-50 | an answer that normalises to "" has F1 0, and it matches exactly iff some non-sentinel reference also normalises to "" |
| TextMetrics.SqaSExactMatchWithoutTokens | code/metrics.py:45-50 | "A" scored against the single reference "an" gives (1, 0): exact match without full F1 |
| TextMetrics.SqaSIgnoresSentinelReferences | code/metrics.py:42 | removing the sentinel references first does not change an answer's scores |
| TextMetrics.BestReference | code/metrics.py:49 | the max of the per-reference F1 list bounds every reference's F1 and is attained by one of them |
| TextMetrics.AnswerTokens | code/metrics.py:45-47 | every token of a normalised answer is non-empty and whitespace-free, has no capital and no punctuation, and is not one of the articles a, an, the |
| TextMetrics.F1Each | code/metrics.py:49 | the list has one entry per reference, and entry i is the F1 against reference i |
| TextMetrics.TokensEach | code/metrics.py:46-47 | one token list per reference: the split of its normalised form |
| TextMetrics.NormalizeEach | code/metrics.py:46 | one normalised string per reference, in order |
| TextMetrics.SqaUicMetrics | code/metrics.py:53-74 | exact match is 0 or 1 and F1 lies in [0, 1]; exact match is 1 iff the prediction is one of the references; an empty prediction scores (1, 1) iff some reference is empty and (0, 0) otherwise; a non-empty prediction scores (0, 0) when every reference is empty |
| TextMetrics.SqaUicF1IsBest | code/metrics.py:69-73 | for a non-empty prediction, the F1 part bounds the F1 against every non-empty reference and equals it for one of them |
| TextMetrics.SqaUicExactMatchGivesFullF1 | code/metrics.py:72-73 | exact match implies F1 = 1 |
| TextMetrics.SqaUicF1IgnoresOrder | code/metrics.py:73 | reordering the predicted elements leaves the F1 part unchanged |
| TextMetrics.SqaUicIgnoresEmptyReferences | code/metrics.py:69 | removing the empty references first does not change a non-empty prediction's scores |
| Squad.ToLower | code/metrics.py:131 | the result is not an ASCII capital; a capital becomes the letter 32 code points above it (its lower-case form), every other character is unchanged; punctuation and whitespace are preserved both ways |
| Squad.Lower | code/metrics.py:131 | same length; position by position, a capital becomes its lower-case letter and any other character is kept |
| Squad.ReplacePunctuation | code/metrics.py:125-126 | every character of the result is a non-punctuation character of the input or comes from the replacement; every non-punctuation character of the input survives; a one-character replacement keeps the length, an empty one does not lengthen |
| Squad.ReplacePunctuationDeletes | code/metrics.py:125-132 | with the empty replacement used by `normalize_squad`, the result is exactly the non-punctuation characters of the input, in order |
| Squad.ArticleAt | code/metrics.py:123 | a non-zero result n means the first n characters are a, an or the, followed by the end or a non-word character; conversely, whenever a, an or the stands at the start followed by a word boundary, the result is non-zero |
| Squad.RemoveArticlesAfter | code/metrics.py:123 | every character of the result comes from the input or is the replacement space; the result is no longer than the input; a string without any a or t is returned unchanged; which words survive is stated by RemoveArticlesAfterKeeps, RemoveArticlesAfterLeavesNone and, token by token, RemoveArticlesTokens |
| Squad.RemoveArticles | code/metrics.py:122-123 | every character of the result comes from the input or is a space; no longer than the input; unchanged when the input has no a or t; which tokens survive is stated by RemoveArticlesTokens |
| Squad.RemoveArticlesTokens | code/metrics.py:122-123 | on text of word characters and whitespace, the tokens of the result are exactly the tokens of the input that are not a, an or the, in the same order and with the same repetitions |
| Squad.ArticleAtLeadingWord | code/metrics.py:123 | an article starts the text exactly when the leading run of word characters is a, an or the, and it then spans that whole run |
| Squad.ScanCopiesPrefix | code/metrics.py:123 | after a word character the scan copies the first j characters of the current word and goes on from there |
| Squad.ScanAfterNonWord | code/metrics.py:123 | at a non-word character or at the end, the substitution does not depend on whether a word character came before |
| Squad.RemoveArticlesAfterLeavesNone | code/metrics.py:122-123 | after the substitution no article a, an or the stands at a word boundary of the result, that is after the start or a non-word character and followed by a non-word character or the end |
| Squad.RemoveArticlesAfterKeeps | code/metrics.py:123 | a string with no article a, an or the at a word boundary comes back unchanged |
| Squad.RemoveArticlesIdempotent | code/metrics.py:122-123 | removing the articles a second time changes nothing more |
| Squad.ScanKeepsLeadingWord | code/metrics.py:123 | when the previous character is a word character the scan leaves the leading word alone, so whether an article starts the text is unchanged |
| Squad.ScanCopiesWord | code/metrics.py:123 | after a word character the scan copies the rest of the current word and the character that ends it |
| Squad.WordRun | code/metrics.py:123 | the length of the leading run of word characters, followed by a non-word character when it stops short of the end |
| Squad.WordAtByRun | code/metrics.py:123 | a word of word characters stands at the start followed by a boundary iff it is the leading word run |
| Squad.ArticleAtSameWord | code/metrics.py:123 | whether an article starts a string depends only on its leading word run |
| Squad.NoArticleAtBoundaryCons | code/metrics.py:123 | putting one character in front of a string without boundary articles keeps it free of them, given that the character and the new start create none |
| Squad.NoArticleAtBoundaryTail | code/metrics.py:123 | dropping the first character of a string without boundary articles leaves a string without them, seen after that character |
| Squad.WordLength | code/metrics.py:129 | the length of the longest whitespace-free prefix, followed by whitespace when it stops short of the end |
| Squad.Split | code/metrics.py:129 | every token is non-empty and free of whitespace, and uses only characters of the input; the list is non-empty when the input starts with a non-space; order and repetitions are pinned by SplitAtSpace and SplitJoin |
| Squad.SplitAtSpace | code/metrics.py:129 | splitting at any whitespace character concatenates the tokens of the two sides, in order and with repetitions |
| Squad.SplitTokenFirst | code/metrics.py:129 | a whitespace-free word followed by whitespace or the end is the first token, followed by the tokens of the rest |
| Squad.Join | code/metrics.py:129 | the join of a non-empty list begins with its first token, and every character is a space or a character of some token |
| Squad.SplitTokens | code/metrics.py:129 | t is a token of the split iff t is non-empty, free of whitespace and stands in the input with whitespace or an end of the input on either side |
| Squad.SplitTokensStand | code/metrics.py:129 | every token of the split stands in the input between whitespace or the ends |
| Squad.TokenStandsInSplit | code/metrics.py:129 | every whitespace-free word standing between whitespace or the ends of the input is a token of the split |
| Squad.TokenAtShift | code/metrics.py:129 | a word standing in a suffix of the input stands in the input at the shifted position, and back |
| Squad.WordLengthIs | code/metrics.py:129 | the whitespace-free prefix followed by whitespace or the end is the longest one |
| Squad.JoinShape | code/metrics.py:129 | joining whitespace-free tokens with single spaces gives a tidy string: its only whitespace is single plain spaces, none at either end |
| Squad.WordLengthOfToken | code/metrics.py:129 | a token followed by whitespace or nothing has its own length as word length |
| Squad.SplitJoin | code/metrics.py:129 | round trip: splitting the join of tokens gives the tokens back |
| Squad.WhiteSpaceFix | code/metrics.py:128-129 | the result splits into the same tokens as the input and adds no character besides the space |
| Squad.WhiteSpaceFixTidy | code/metrics.py:128-129 | the result is tidy |
| Squad.WhiteSpaceFixIdempotent | code/metrics.py:128-129 | collapsing whitespace twice is the same as once |
| Squad.Normalize | code/metrics.py:119-135 | a normalised string has no ASCII capital and no punctuation; which words it keeps is stated by NormalizeTokens |
| Squad.NormalizeShape | code/metrics.py:119-135 | a normalised string has only single plain spaces between words and none at either end |
| Squad.NormalizeDropsArticles | code/metrics.py:122-135 | no token of a normalised string is one of the articles a, an, the |
| Squad.NormalizedHasTokens | code/metrics.py:119-135 | a non-empty normalised string has at least one token |
| Squad.NormalizeLoneA | code/metrics.py:119-135 | "A" normalises to the empty string |
| Squad.NormalizeLoneAn | code/metrics.py:119-135 | "an" normalises to the empty string |
| Squad.PlainTextUnpunctuated | code/metrics.py:131-132 | lower-casing and deleting the punctuation of text made of word characters, punctuation and whitespace leaves only word characters and whitespace |
| Squad.NormalizeTokens | code/metrics.py:119-135 | on text made of word characters, punctuation and whitespace, the normalised string is the single-spaced join of the lower-cased, punctuation-free tokens that are not a, an or the, in order and with repetitions; so its tokens are exactly those |
| TokenF1.F1FromCounts | code/metrics.py:151-157 | 0 when nothing is shared, so nothing is divided by zero; otherwise 2c/(p+g); always in [0, 1]; 1 iff all predicted and all reference items are shared |
| TokenF1.HarmonicMean | code/metrics.py:154-156 | 2PR/(P+R) with P = c/p and R = c/g equals 2c/(p+g) |
| Seqs.RatioAtMostOne | code/metrics.py:154-156 | n/d lies in (0, 1] and equals 1 iff n = d; F1 and IoU both rest on it |
| TokenF1.Common | code/metrics.py:148-151 | the shared count is at most the length of either list |
| TokenF1.SubMultisetSize | code/metrics.py:148-151 | a sub-multiset is no larger, and equal in size only when equal |
| TokenF1.F1Score | code/metrics.py:138-157 | F1 lies in [0, 1]; it is 0 iff the multisets share nothing; when positive it is twice the shared count over the sum of the two lengths; it is 1 iff the prediction is non-empty and the two multisets are equal |
| TokenF1.CommonIsFull | code/metrics.py:148-151 | every item is shared iff the two lists are permutations of each other |
| TokenF1.F1ScoreSymmetric | code/metrics.py:138-157 | swapping prediction and reference does not change the score |
| TokenF1.F1ScoreIgnoresOrder | code/metrics.py:148-151 | permuting either list does not change the score |
| Boxes.IntersectionArea | code/metrics.py:168-174 | the clamped intersection area is positive iff the overlap is non-empty in both axes |
| Boxes.IntersectionInside | code/metrics.py:174-179 | a positive intersection lies in both boxes: both are proper, and the intersection is at most each area and equals an area only when the overlap is that box |
| Boxes.Iou | code/metrics.py:160-179 | IoU lies in [0, 1]; it is 0 iff the intersection area is 0; a positive IoU means both boxes are proper |
| Boxes.IouSymmetric | code/metrics.py:160-179 | IoU does not depend on argument order |
| Boxes.IouOneIffSameBox | code/metrics.py:160-179 | IoU is 1 iff the boxes are identical and proper |
| Boxes.UiElementsMatch | code/metrics.py:182-195 | a match needs equal content; no threshold above 1 is met; a positive threshold needs two proper boxes; a threshold of 0 or less compares content only; at threshold 1 the elements match iff they are identical with a proper box |
| Boxes.AllPairsMatch | code/metrics.py:211-214 | true iff the elements match position by position |
| Boxes.UicBbExactMatch | code/metrics.py:198-214 | true iff the lists have the same length and every position holds equal content with IoU at or above the threshold |
| Boxes.ExactMatchReflexive | code/metrics.py:182-214 | a list of proper boxes matches itself at any threshold up to 1 |
| Boxes.ExactMatchSymmetric | code/metrics.py:182-214 | exact match does not depend on argument order |
| Boxes.ExactMatchMonotone | code/metrics.py:182-214 | a match at one threshold is a match at every lower one |
| BoxMetrics.Thresholded | code/metrics.py:237-238 | a score that reaches the threshold is kept, one below it becomes 0, so every cell is 0 or at least the threshold |
| BoxMetrics.CostMatrix | code/metrics.py:234-238 | the matrix has one row per predicted element and one column per reference element; each cell is the thresholded score of its pair, so it is 0 or equals that pair's score and reaches the threshold |
| BoxMetrics.BuildCostMatrix | code/metrics.py:234-238 | the array filled by the nested loops has the right dimensions, equals the cost matrix cell by cell, and each cell is 0 or at least the threshold |
| BoxMetrics.Selected | code/metrics.py:242 | one selected cell per chosen pair, and entry k is the cost-matrix cell of pair k |
| BoxMetrics.CountAtLeast | code/metrics.py:243-244 | the count is at most the number of selected cells; it is 0 iff every cell is below the threshold and the full length iff every cell reaches it |
| BoxMetrics.CountAtLeastFilter | code/metrics.py:243-244 | the count is the length of the list of selected cells that reach the threshold |
| BoxMetrics.Matches | code/metrics.py:234-244 | the number of matches is at most the length of either list |
| BoxMetrics.UicBbF1 | code/metrics.py:217-250 | the score lies in [0, 1], and a score of 1 implies the two lists have the same length |
| BoxMetrics.UicBbF1Degenerate | code/metrics.py:229-232 | two empty lists score 1; exactly one empty list scores 0 |
| BoxMetrics.UicBbF1FromMatches | code/metrics.py:245-250 | for non-empty lists the score is 2m/(p+g) for m matches, p predicted and g reference elements, and it is 1 iff m equals both lengths |
| BoxMetrics.PairScores | code/metrics.py:240-242 | one raw score per chosen pair, and entry k is the score of pair k |
| BoxMetrics.MatchesCountScores | code/metrics.py:237-244 | with a positive threshold, the matches are exactly the chosen pairs whose raw score reaches the threshold |
| BoxMetrics.CountThresholded | code/metrics.py:238-244 | thresholding cells first does not change how many reach a positive threshold |
| BoxMetrics.MatchesAtNonPositiveThreshold | code/metrics.py:238-244 | with a threshold of 0 or less, every chosen pair counts, so the number of matches is the length of the shorter list |
| BoxMetrics.UicBbF1Score | code/metrics.py:217-250 | the array-based computation returns exactly the value of the specification function |
| BoxMetrics.BoxesOf | code/metrics.py:99-100 | one box per element, in order |
| BoxMetrics.BoxesEach | code/metrics.py:100 | one box list per reference, in order |
| BoxMetrics.UicBbF1Each | code/metrics.py:97-115 | one score per reference, in order |
| BoxMetrics.BestUicBbF1 | code/metrics.py:97-115 | the max over references lies in [0, 1], bounds every reference's score and is attained by one of them |
| BoxMetrics.AnyExactMatch | code/metrics.py:106 | true iff some reference matches exactly |
| BoxMetrics.ExactMatchPart | code/metrics.py:94-106 | the flag is 0 or 1, and it is 1 iff some non-empty reference matches exactly at the given threshold |
| BoxMetrics.SqaUicBbScores | code/metrics.py:77-116 | exact match is 0 or 1 and both F1s lie in [0, 1]; an empty prediction scores (1, 1, 1) iff some reference is empty and (0, 0, 0) otherwise; a non-empty prediction scores (0, 0, 0) when every reference is empty; otherwise exact match is 1 iff some non-empty reference matches exactly |
| BoxMetrics.ElementScore | code/metrics.py:111 | the element score lies in [0, 1]; it is 0 for different content; it is 1 iff the elements are identical with a proper box; it reaches a positive threshold iff the elements match at that threshold |
| BoxMetrics.SqaUicBbF1IsBest | code/metrics.py:94-115 | for a non-empty prediction, both F1 parts bound the score against every non-empty reference and equal it for one of them |
| BoxMetrics.SqaUicBbMetrics | code/metrics.py:77-116 | as written, exact match is 1 iff some non-empty reference matches at the default IoU threshold 0.1 |
| BoxMetrics.SqaUicBbExactMatchIgnoresThreshold | code/metrics.py:106 | as written, the exact-match part is the same for every IoU threshold the caller passes |
| BoxMetrics.ExactMatchThresholdCounterexample | code/metrics.py:106 | at threshold 0.5, an element with IoU 0.25 does not match its reference, yet the as-written metric reports exact match 1 and the corrected one reports 0 |
| BoxMetrics.SqaUicBbMetricsAtThreshold | code/metrics.py:77-116 | corrected: exact match is 1 iff some non-empty reference matches at the caller's IoU threshold |
| Seqs.Max | code/metrics.py:49 | the maximum is an element of the list and bounds every element |
| Seqs.MaxAtIndex | code/metrics.py:49 | the same, stated by position |
| Seqs.Filter | code/metrics.py:42 | an item is in the result iff it is in the input and satisfies the predicate; each kept item keeps its multiplicity and every other item is dropped; the result is a subsequence of the input, so order is kept |
| Seqs.FilterIdempotent | code/metrics.py:69 | filtering twice with the same predicate is the same as once |

## Left out

- BoxMetrics.IsSolver: the optimality of `linear_sum_assignment` is not modelled. The model assumes only that the solver returns a valid one-to-one pairing of min(rows, columns) cells. So the model cannot show that a perfect prediction gets bounding-box F1 1, because that needs an optimal pairing.
- The NumPy array operations (`np.zeros`, fancy indexing, boolean masks) are modelled by an `array2`, a sequence comprehension and a recursive count.
- Floating point is not modelled. IoU, precision, recall and F1 are exact reals, and the threshold 0.1 is exactly one tenth. Rounding could flip a `>=` comparison at the threshold.
- RemoveArticles: the token-level statement (RemoveArticlesTokens) covers only text of ASCII word characters and whitespace. Any other character is a word boundary that can sit inside a token (`"the,cat"` without its punctuation removed becomes `" ,cat"`), and there only the character-level contract and the boundary lemmas apply.
- RemoveArticlesAfter: as RemoveArticles, its token-level behaviour is stated only through RemoveArticlesTokens, for text of word characters and whitespace.
- Normalize: the exact token list (NormalizeTokens) is stated for text of ASCII word characters, ASCII punctuation and whitespace. For other characters, such as non-ASCII letters, only the general facts hold: no capital, no punctuation, no article token, and a tidy shape.
- Unicode is not modelled. `str.lower`, `str.split`, `\w` and `\b` are modelled on their ASCII behaviour only.
- Python's `int` vs `float` return types in the degenerate branches are not distinguished.
- Loading predictions, parsing UI elements from model output, and averaging per-question scores over a dataset are not in `code/metrics.py`. They are not part of this model.

## Findings

| source | as written | input that shows it | evidently intended | confidence | as-written member | corrected member |
|---|---|---|---|---|---|---|
| code/metrics.py:106 | `uic_bb_exact_match(prediction, gt)` is called without `iou_threshold`, so the exact-match part always uses the default 0.1 | threshold 0.5, prediction [((0,0,1,4), "OK")], references [[((0,0,1,1), "OK")]]: IoU is 0.25 < 0.5, yet exact match is 1 | the docstring promises EM@IoU, so the caller's `iou_threshold` should be passed on | high (not executed) | BoxMetrics.ExactMatchThresholdCounterexample | BoxMetrics.SqaUicBbMetricsAtThreshold |
