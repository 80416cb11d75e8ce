# Roulette block predictor — Dafny model

This project models the computational core of a small prediction service
for European roulette (`main.py`). A request carries the last five numbers
that came out. The service encodes them as a one-hot feature vector and asks
each of its trained classifiers for the probability of each of the 37
pockets. It turns each probability row into the three best blocks of five
pockets that sit next to each other on the physical wheel. The reply maps
each model's name to its blocks, or to a text marker when the model is
missing or fails.

The model has six modules:

- `Wheel` (`wheel.dfy`): the wheel order `ROULETTE_WHEEL_SEQUENCE`, its
  inverse `ROULETTE_INDEX_MAP`, and circular spans of consecutive pockets.
  Span lemmas hold for any wheel order `w` of 37 distinct pockets.
  `WheelIsPermutation` shows that the European order is one.
- `IndexErrors` (`errors.dfy`): a result or the `IndexError` of an
  out-of-bounds NumPy access, shared by the encoder and the scan.
- `FeatureEncoder` (`features.dfy`): `_prepare_features`, an in-place loop
  over an array of `37 * 5` zeros, proved equal to a specification
  function, with the one-hot properties proved about that function. A
  window longer than five whose later positions hold in-range numbers
  writes past the array, and the model stops there with an `IndexError`
  as NumPy does.
- `Ranking` (`ranking.dfy`): the stable descending sort used by `sorted(...,
  reverse=True)`. It sorts the positions of a key list. Positions with equal
  keys keep their original order. Any two stable descending orders are
  proved equal, so the model stands for Python's own sort.
- `BlockScorer` (`blocks.dfy`): `find_contiguous_blocks`. The scan loops
  over the 37 start indices and builds and scores each block. Then come the
  stable sort and the slice to `num_blocks`.
- `Handler` (`handler.dfy`): the part of `predict_roulette` after JSON
  parsing. It covers the missing-field and length-5 checks and the loop
  over the model dictionary. A model is either unavailable or a
  `predict_proba` oracle that returns a probability row or raises.

Probabilities are `real`. A probability row shorter than 37 entries makes
the scan read past its end. As in the source, the scan then stops with an
`IndexError` at the first pocket, in wheel order, that the row does not
cover, and the handler records it as an error marker.

## Model

| member | source | states |
|---|---|---|
| Wheel.IndexMapOf | main.py:29 | the dictionary built by enumerating a list has exactly the list's elements as keys, and maps each key to an index that holds it |
| Wheel.IndexMapOfDistinct | main.py:29 | for a list without repetitions, the enumerated dictionary maps each element back to its own index |
| Wheel.WheelIsPermutation | main.py:24-27 | the wheel order holds 37 distinct values, each in 0..36 |
| Wheel.WheelCoversPockets | main.py:24-27 | every pocket 0..36 occurs in any such wheel order, by counting |
| Wheel.IndexMapInvertsWheel | main.py:24-29 | `ROULETTE_INDEX_MAP` has exactly the 37 pockets as keys, `IndexMap[Sequence[i]] == i` for every index, and `Sequence[IndexMap[n]] == n` for every pocket |
| Wheel.SpanHoldsPockets | main.py:113-117 | every entry of a block built by the circular scan is a pocket number |
| Wheel.SpanDistinct | main.py:113-117 | a block of at most 37 consecutive pockets repeats no pocket |
| Wheel.SpanPlaces | main.py:114-116 | entry `i` of the block starting at `s` is the pocket at wheel index `(s + i) % 37` |
| Wheel.SpanContiguous | main.py:114-116 | a block built by the circular scan is a run: each entry is the wheel neighbour of the one before, one index further modulo 37 |
| FeatureEncoder.FeatureVector | main.py:42-49 | the encoded vector has `num_possible_outcomes * sequence_length` entries, each 0 or 1 |
| FeatureEncoder.FirstMisfit | main.py:44-49 | the least window position from `m` on that holds an in-range number at or past `sequence_length`, or the window's length when there is none |
| FeatureEncoder.PrepareFeatures | main.py:35-52 | the loop succeeds exactly when no position at or past `sequence_length` holds an in-range number, and then yields exactly the specified one-hot vector; otherwise it stops with an `IndexError` at the first such position, whose index `i * 37 + num` is not below the 185 entries |
| FeatureEncoder.OneHotExact | main.py:44-49 | entry `i * 37 + v` is 1 exactly when window position `i` holds `v`; numbers out of range set nothing |
| FeatureEncoder.OnePerPosition | main.py:44-49 | each position's slice of 37 entries holds at most one 1 |
| FeatureEncoder.OnesCountInRange | main.py:44-49 | the number of ones equals the number of in-range window entries |
| Ranking.OrderIsRanking | main.py:131 | the sort lists every position once, higher keys first and equal keys in their original order |
| Ranking.RankingUnique | main.py:131 | two lists that each hold every position once in that order are equal, so every stable descending sort gives this order |
| Ranking.TiesKeepPositions | main.py:131 | when all keys tie, the original order is the sorted order |
| BlockScorer.FirstUnreadable | main.py:121-122 | the least wheel index whose pocket's probability lies past the end of the row, or 37 when there is none |
| BlockScorer.ScoreBlock | main.py:110-122 | one pass of the inner loop builds the span from `start` and its score, or stops at the first pocket of that span whose probability cannot be read |
| BlockScorer.ScoreBlocks | main.py:105-128 | the scan succeeds exactly when `block_size` is 0 or the row covers all 37 pockets, and then builds the 37 candidates in start order; otherwise it stops at the first uncovered pocket in wheel order |
| BlockScorer.FindContiguousBlocks | main.py:91-135 | the result is the stably sorted candidates' first `min(num_blocks, 37)` blocks, each of `block_size` numbers; the error case is as for the scan |
| BlockScorer.FirstFailure | main.py:109-122 | the scan reads the pockets in wheel order before it wraps round, so its first failing read is the first uncovered pocket on the wheel |
| BlockScorer.RaisingHasCulprit | main.py:121-122 | when the row is shorter than 37, some pocket of the wheel is uncovered |
| BlockScorer.TopBlocksAreSpans | main.py:131-133 | each returned block is the span that starts at its own wheel index, and the returned start indices are distinct |
| BlockScorer.TopBlocksContiguous | main.py:109-117 | each returned block holds `block_size` pockets, none repeated when `block_size <= 37`, and entry `i` sits at wheel index `start + i` modulo 37 |
| BlockScorer.TopBlocksAreRuns | main.py:109-133 | the result has `min(num_blocks, 37)` blocks, each a run of wheel neighbours of `block_size` pockets, none repeated when `block_size <= 37` |
| BlockScorer.TopBlocksRanked | main.py:131-133 | the returned blocks come in non-increasing score order, and equal scores come in increasing start index |
| BlockScorer.TopBlocksDominate | main.py:131-133 | no block left out scores higher than any block returned |
| BlockScorer.ScoreIsSum | main.py:119-122 | on pocket numbers the range guard never skips one, so the score is the plain sum of their probabilities |
| BlockScorer.CandidateScoresAreSums | main.py:109-128 | every candidate's score is the sum of the probabilities of its pockets |
| BlockScorer.UniformKeepsScanOrder | main.py:109-133 | with equal probabilities for all pockets, the blocks come back in scan order, starting at wheel indices 0, 1, 2, ... |
| BlockScorer.CertainTop | main.py:109-133 | on a wheel order that starts at zero, a row with probability 1 on zero returns the blocks starting at wheel indices 0, 33 and 34 |
| BlockScorer.CertainOfZero | main.py:131-133 | on the European wheel that row gives `[[0,32,15,19,4],[12,35,3,26,0],[35,3,26,0,32]]` |
| Handler.Culprit | main.py:121-122 | the pocket named in the `IndexError` for a short row is a pocket the row does not cover |
| Handler.PredictRoulette | main.py:162-200 | the handler's response equals `Respond`: the validation outcome, then one entry per model, each computed from the one encoded window |
| Handler.RejectsExactlyInvalid | main.py:162-171 | a 400 response comes exactly when the field is missing, not a list, or not of length 5, with the matching message, and it does not depend on the models; otherwise the status is 200 |
| Handler.OneEntryPerModel | main.py:176-200 | an accepted request gets one entry per model, under its name and in the dictionary's order |
| Handler.OutcomeKinds | main.py:178-196 | a model gets blocks exactly when it is loaded and returns a row of at least 37 probabilities, and "Modello non disponibile" exactly when it is missing; every other marker starts with "Errore durante la previsione: ", and a raised exception's text follows that prefix |
| Handler.BlocksAreWheelRuns | main.py:186-192 | a model's entry, when it is blocks, is three runs of five distinct pockets, each pocket the wheel neighbour of the one before |

## Left out

- Model loading from Google Cloud Storage (`storage.Client`, `joblib.load`, `/tmp` downloads): the model dictionary is a parameter. Each slot is either unavailable (`None`) or an oracle for `predict_proba`.
- The classifiers' `predict_proba` and the `[0]` row selection: the oracle returns one probability row or the text of an exception.
- HTTP and CORS handling, including the `OPTIONS` preflight and response headers, and JSON parsing: the body's `last_5_numbers` member is given as missing, not a list, or a list of integers. JSON `true` and `false` are Python integers 1 and 0, so they are covered. `Absent` also stands for a body that is missing or empty.
- Window entries that are not integers are not modelled. A float below 0 or not below 37 fails the range test at main.py:45 and is skipped like an out-of-range integer. Any other float, such as 3.0 or 36.5, passes it, and NumPy rejects the float index at main.py:49. A string, list, object or `null` makes the comparison at main.py:45 raise `TypeError`. Both exceptions are raised outside the `try` and leave the handler.
- Bodies that are JSON values other than objects are not modelled. A non-empty list is searched for the element `"last_5_numbers"` and a non-empty string for that substring at main.py:162, and indexing either with the key then raises. A non-zero number makes the membership test at main.py:162 raise.
- `logging` and `traceback` calls: observability only.
- NumPy floating-point arithmetic, NaN keys in the sort, and `reshape(1, -1)`: scores are exact reals, and the feature vector is a flat sequence.
- `PRED_NUMERI`: it is never used.
- Negative `num_blocks` or `block_size` of the scan, and negative `num_possible_outcomes` or `sequence_length` of the encoder: all four are `nat` here. When the product `num_possible_outcomes * sequence_length` is negative, `np.zeros` at main.py:42 raises `ValueError`. When `num_possible_outcomes` is negative and the product is not, the range test at main.py:45 never holds and the encoder returns that many zeros. The handler always passes 3 and 5 to the scan and the defaults 37 and 5 to the encoder.
- Handler.Culprit and the handler's `IndexError` text follow numpy's wording for an out-of-bounds read ("index N is out of bounds for axis 0 with size M"). That text comes from numpy, not from this repository.
- BlockScorer.ScoreBlocks: the inner loop of the scan is the separate method `ScoreBlock`. It does the same work, one block at a time.
- A consensus or voting step across models and a block-membership feature encoding are described for the service but do not appear in `main.py`. The model follows the code and has neither. The reply holds no consensus list.
- The window entries are not checked to be pockets: as in the code, a number outside 0..36 is skipped by the encoder, not rejected.
- Handler: the model dictionary is a sequence of name and slot pairs in insertion order, and its names are distinct because it is a dictionary. Which names the loader puts in it is part of the loading that is left out.
