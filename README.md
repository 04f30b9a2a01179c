# Eco-destination recommender: a Dafny model of its core

This project models two parts of an eco-tourism place recommender:

1. The **hybrid recommendation pipeline** of `RecommenderService`.
   Item-item collaborative filtering (CF) and content-based filtering (CBF) are scored over two separately ordered item spaces. The service:
   - reconciles the CF identifiers with the place catalog when it loads;
   - for each request, builds the CF rating vector and CF score, accumulates the CBF score, realigns it into CF column order, min-max normalises both, blends them with `alpha`, masks the rated columns to minus infinity and selects the top k;
   - maps the selected columns back to catalog rows.
2. The **rupiah price helpers**: `parse_price_idr`, `format_price_idr` and `display_price`.

Files:

- `wrappers.dfy`: `Option` and `Result`.
- `price.dfy` (module `PriceIdr`): the price helpers as functions over strings. It proves the parse-after-format round trip, and includes worked examples of the word-boundary rule for thousands.
- `scoring.dfy` (module `Scoring`): each scoring step as a specification function. The loops of the source are methods proved against those functions (rating vector, CBF accumulation, realignment, rated columns, masking in place, selection top-k). It also holds lemmas on the properties those steps promise.
- `catalog.dfy` (module `Catalog`): the catalog row type, `top_rated` and `sample_places`.
- `recommender.dfy` (module `Recommender`): the class `RecommenderService`, whose fields hold the loaded state. `SanityAlignIds` reassigns those fields. `RecommendHybridForUser` is specified against `HybridScores` and the relational top-k predicate `IsTopK`. This file also holds the lemmas that combine the steps, for example that a rated place is never recommended back.

Modelling choices:

- **Scores.** Scores are reals. Minus infinity is the constructor `NegInf` of `Score`.
- **Cosine similarity.** It is taken as already computed. The service holds `cbfSim`, the cosine row of every CBF item.
- **Ratings.** The user's ratings are the items of the ratings dictionary, in insertion order. Several of them may share a CF column, and then the last write wins, as in the source.
- **Index maps.** A dictionary built as `{pid: i for i, pid in enumerate(order)}` is `IndexMap`. When an identifier repeats, the last position wins.
- **Failures.** Where the source raises, the model returns `Failure`:
  - `np.nanmin` of an empty score vector: `EmptyItemUniverse`;
  - a partition index below `-n`: `KthOutOfBounds`;
  - `reindex` over a catalog with a repeated identifier, for a selection other than the catalog's own identifier column: `DuplicateCatalogIds`;
  - a negative sample size: `NegativeSampleSize`.
- **Counts for `k <= 0`.** These are modelled exactly as numpy computes them. A negative slice bound keeps all but the last `-k` columns.

Behaviour of the code a reader might not expect, modelled as written:

- **Masked items can be returned.** The docstring of `recommend_hybrid_for_user` (backend/recommender.py:68) says rated items are masked so that they are not recommended again. The clamped count can exceed the number of unrated columns, for example when every column is rated, and then masked columns are selected too. `Recommender.RatedNeverRecommended` therefore requires that the count fits the unrated columns, and `Recommender.AllRatedStillSelected` shows the other case.
- **`top_rated` uses an unstable sort.** The default pandas sort is not stable, so its contract fixes no order among equal ratings. `Catalog.SortByRatingDesc` is one admissible order.
- **The count is monotone in `k` only for `k >= 0`.** For example, `k = -1` yields `n - 1` columns while `k = 0` yields none (`Scoring.TopCountNegativeK`).
- **`item_to_col` is rebuilt only when an identifier is dropped.** The docstring of `_sanity_align_ids` (backend/recommender.py:265) says the map is rebuilt to match the new index. The code rebuilds it only inside the branch that drops something, so otherwise the loaded map stays as it was.
- **`"10k"` gets multiplier 1.** The doc comment of `parse_price_idr` (backend/utils.py:10) lists `'10k'` among the texts it parses as rupiah amounts. The thousands multiplier, however, needs `k`, `rb` or `ribu` to stand as a separate word, so `"10k"` parses to 10 and `"10 k"` to 10000.

## Model

| member | source | states |
|---|---|---|
| PriceIdr.Strip | backend/utils.py:13 | the result is empty or begins and ends with a non-whitespace character, and everything cut off on either side is Python whitespace |
| PriceIdr.Lower | backend/utils.py:13 | `lower()` keeps the length, maps each character to its lower-case form and leaves no upper-case ASCII letter |
| PriceIdr.LowerIdempotent | backend/utils.py:13 | lower-casing twice is lower-casing once |
| PriceIdr.Normalise | backend/utils.py:13 | `strip().lower()` never lengthens the text, leaves no whitespace at either end and no upper-case letter |
| PriceIdr.NormaliseIdempotent | backend/utils.py:13 | normalising twice is normalising once, so parsing an already normalised text gives the same amount |
| PriceIdr.StandaloneWordBetween | backend/utils.py:19 | `\bw\b` finds a word of word characters that stands between non-word characters or at an end of the text |
| PriceIdr.BoundaryAtEnds | backend/utils.py:19 | at either end of the text `\b` holds exactly when the character at that end is a word character |
| PriceIdr.DecimalValue | backend/utils.py:22 | `int(digits)` is 0 exactly when every digit is `0` |
| PriceIdr.KeepDigits | backend/utils.py:21 | the digit filter yields only ASCII digits and never lengthens the text |
| PriceIdr.Multiplier | backend/utils.py:16-20 | 1,000,000 exactly when `jt` or `juta` occurs; 1,000 exactly when neither occurs and `k`, `rb` or `ribu` stands between word boundaries; otherwise 1 |
| PriceIdr.ParseNormalised | backend/utils.py:14-22 | 0 for a no-price marker, a free-of-charge word or a text without digits; otherwise the decimal value of all digits times the multiplier |
| PriceIdr.ParsePriceIdr | backend/utils.py:9-22 | None gives 0; a text is stripped and lower-cased before it is parsed; the result is never negative |
| PriceIdr.DecDigits | backend/utils.py:27-28 | the decimal digits of n: non-empty, all digits, no leading zero, denoting n |
| PriceIdr.Group | backend/utils.py:28 | a `.` stands exactly at the positions whose distance from the end is a multiple of four, the other characters are digits, both ends are digits, and removing the dots gives the digits back |
| PriceIdr.RoundHalfEven | backend/utils.py:27 | `round` lands within 0.5 of its argument, leaves whole numbers unchanged and sends an exact half to the even neighbour |
| PriceIdr.FormatRupiah | backend/utils.py:28-29 | the text is `Rp`, then `-` exactly for a negative value, then the decimal digits of the magnitude grouped in threes from the right with `.` |
| PriceIdr.FormatPriceIdr | backend/utils.py:24-31 | the text is `Rp`, a sign exactly when the rounded amount is negative, and the grouped digits of the magnitude of the half-to-even rounding of n |
| PriceIdr.DisplayPrice | backend/utils.py:33-40 | the stripped price text when it is non-blank; the formatted number when the text is blank and the number positive; `-` otherwise; never empty |
| PriceIdr.FormatRupiahParsesToMagnitude | backend/utils.py:9-29 | parsing a formatted whole amount gives its magnitude |
| PriceIdr.FormatParseRoundTrip | backend/utils.py:9-29 | for every n >= 0, parsing the formatted n gives n back |
| PriceIdr.DisplayPriceFromNumberRoundTrip | backend/utils.py:33-40 | without a price text, a positive whole price is shown as a text that parses back to it |
| PriceIdr.ParseRpExample | backend/utils.py:21-22 | `"Rp25.000"` parses to 25000 |
| PriceIdr.TenKIsTen | backend/utils.py:19 | `"10k"` parses to 10: no word boundary separates `0` and `k` |
| PriceIdr.TenSpaceKIsTenThousand | backend/utils.py:19 | `"10 k"` parses to 10000 |
| PriceIdr.OneJtIsOneMillion | backend/utils.py:17-18 | `"1 jt"` parses to 1000000 |
| PriceIdr.FreeTextIsZero | backend/utils.py:14-15 | a text containing `gratis` parses to 0 even when it has digits |
| PriceIdr.FormatExample | backend/utils.py:24-29 | 1234567 formats as `"Rp1.234.567"` |
| Scoring.CfRatingVector | backend/recommender.py:74-78 | one entry per CF column; a column no rated identifier maps to holds 0; a column holds the rating of the last rated identifier mapped to it |
| Scoring.CbfScores | backend/recommender.py:83-90 | one score per CBF row; all zeros when no rated identifier has a CBF row; for a single rating, the rated item's similarity row scaled by the rating |
| Scoring.SeenCols | backend/recommender.py:94-98 | every rated identifier with a CF column contributes its column, and every column in the set comes from such an identifier |
| Scoring.Blend | backend/recommender.py:118 | one score per column; for alpha in [0, 1] each blended score lies between the two scores it mixes, hence in [0, 1] for normalised inputs; alpha = 1 gives the CF vector and alpha = 0 the CBF vector |
| Scoring.Mask | backend/recommender.py:121-122 | one score per column, minus infinity exactly on the rated columns, the blended score everywhere else |
| Scoring.MaskScores | backend/recommender.py:118-122 | copying the blend into an array and masking it in place gives `Mask` |
| Scoring.MatVec | backend/recommender.py:79 | `item_sim.dot(v)` has one entry per matrix row; `Scoring.MatVecIdentity` and `Scoring.MatVecZero` pin the entries |
| Scoring.MatVecZero | backend/recommender.py:79 | any matrix times the zero vector gives the zero vector |
| Scoring.IndexMap | backend/recommender.py:85 | the dictionary holds exactly the identifiers of the order, each mapped to a position holding it with no later position holding it |
| Scoring.IndexMapInverts | backend/recommender.py:278 | over distinct identifiers, entry j maps back to j |
| Scoring.LastRatingAtMeaning | backend/recommender.py:75-78 | column j receives a rating exactly when some rated identifier maps to j, and the rating it receives is the last such one |
| Scoring.RatingVectorEntry | backend/recommender.py:74-78 | when no other rated identifier shares its column, a rated identifier's column holds its rating |
| Scoring.BuildRatingVector | backend/recommender.py:74-78 | the rating-vector loop produces the specified vector of length n |
| Scoring.MatVecIdentity | backend/recommender.py:79 | with the identity as similarity, the CF score equals the rating vector |
| Scoring.IdentityScenario | backend/recommender.py:72-79 | ratings {1: 5.0} over columns [1, 2, 3] with identity similarity give the CF score [5, 0, 0] |
| Scoring.CbfAtAppend | backend/recommender.py:86-90 | the CBF score of two batches of ratings is the sum of their scores, so the iteration order does not matter |
| Scoring.CbfAtUnresolved | backend/recommender.py:87-88 | rated identifiers without a CBF row contribute nothing |
| Scoring.AccumulateCbf | backend/recommender.py:83-90 | the accumulation loop produces the rating-weighted sum of similarity rows |
| Scoring.AlignToCf | backend/recommender.py:102-107 | the aligned vector has the length and order of the CF columns |
| Scoring.AlignedEntry | backend/recommender.py:102-107 | entry idx is the CBF score of the last CBF row carrying `item_ids[idx]`, or 0 when no CBF row carries it |
| Scoring.AlignCbfToCf | backend/recommender.py:102-107 | the alignment loop produces the aligned vector |
| Scoring.SeenIffRated | backend/recommender.py:94-98 | a column is masked exactly when the rating vector wrote to it |
| Scoring.CollectSeenCols | backend/recommender.py:94-98 | the loop collects the CF columns of the rated identifiers that have one |
| Scoring.SeqMin | backend/recommender.py:112 | the minimum is attained and no entry lies below it |
| Scoring.SeqMax | backend/recommender.py:112 | the maximum is attained and no entry lies above it |
| Scoring.Norm01 | backend/recommender.py:111-115 | every result lies in [0, 1); all zeros when the range is below 1e-9; the minimum maps to 0; order is preserved, and strictly so outside the degenerate branch |
| Scoring.MaskFinite | backend/recommender.py:121-122 | after masking exactly the unrated columns keep a finite score |
| Scoring.MaskInPlace | backend/recommender.py:121-122 | the masking loop sets exactly the rated columns to minus infinity and leaves every other column unchanged |
| Scoring.TopCount | backend/recommender.py:125-126 | the clamped count is min(k, n - 1) for k >= 0 and n > 1, and 1 when n = 1; n + k for 1 - n <= k < 0; a failure below that |
| Scoring.TopCountMonotone | backend/recommender.py:125-126 | for 0 <= k1 <= k2 the count never shrinks, and with several columns it stays below n |
| Scoring.TopCountNegativeK | backend/recommender.py:125-126 | k = -1 yields n - 1 columns while k = 0 yields none |
| Scoring.SelectTopK | backend/recommender.py:126-127 | the selection loop returns c distinct columns in non-increasing score order, none scoring below a column left out |
| Scoring.MaskedOnlyWhenExhausted | backend/recommender.py:121-127 | a masked column is selected only once every finite column is selected |
| Scoring.TopKAvoidsMasked | backend/recommender.py:121-127 | when the count does not exceed the number of finite columns, every selected column is finite |
| Catalog.FindPlace | backend/recommender.py:132-134 | the lookup finds a row with the identifier exactly when one exists |
| Catalog.FindPlaceUnique | backend/recommender.py:132-134 | over unique identifiers the lookup returns the identifier's own row |
| Catalog.SortByRatingDesc | backend/recommender.py:55 | the sorted catalog is in non-increasing rating order and is a permutation of the catalog |
| Catalog.HeadCount | backend/recommender.py:55 | `head(k)` keeps min(k, n) rows for k >= 0 and max(n + k, 0) rows for k < 0 |
| Catalog.TopRated | backend/recommender.py:52-55 | `head(k)` of the sorted catalog: the right number of catalog rows in non-increasing rating order, none rated below a row left out |
| Catalog.TopRatedMonotone | backend/recommender.py:52-55 | for 0 <= k1 <= k2 the result never shrinks, and it holds min(k2, n) rows |
| Catalog.TopRatedScenario | backend/recommender.py:52-55 | ratings 4.5, 3.0 and 2.0 for the places 1, 2 and 3 give the top two as [1, 2] |
| Catalog.Draw | backend/recommender.py:59 | the draw is m distinct positions of the pool |
| Catalog.SamplePlaces | backend/recommender.py:57-60 | a negative size fails; otherwise min(n, len) rows taken at distinct catalog positions |
| Recommender.KeptPositions | backend/recommender.py:271-273 | the kept positions are increasing, hold catalog identifiers, include every such position, and cover everything exactly when all identifiers are known |
| Recommender.PickKeptIsKnownInOrder | backend/recommender.py:271-277 | the rebuilt column order is the catalog identifiers of the old order in their original relative order |
| Recommender.PickKeptDistinct | backend/recommender.py:277-278 | distinct identifiers stay distinct, and the rebuilt map sends each to its new column |
| Recommender.SubMatrix | backend/recommender.py:275 | the cut matrix is square over the kept positions |
| Recommender.Join | backend/recommender.py:130-138 | fails exactly when the selected identifiers differ from the catalog's identifier column and that column repeats an identifier; otherwise one recommendation per selected column, carrying that column's identifier and score, no catalog row exactly when the catalog has no row with the identifier, a catalog row with that identifier otherwise, and the catalog's rows in order when the selection equals its identifier column |
| Recommender.RepeatedIdsReturnedAsIs | backend/recommender.py:132-134 | a catalog repeating identifier 7, asked for exactly `[7, 7]`, is not refused and hands its second row to the second selection |
| Recommender.JoinUniqueSucceeds | backend/recommender.py:132-134 | over a catalog with unique identifiers the join never fails |
| Recommender.CatalogIds | backend/recommender.py:267 | `valid_ids` holds exactly the identifiers of the catalog's identifier column |
| Recommender.Pick | backend/recommender.py:277 | one identifier per kept position, each taken from the old order; `Recommender.PickKeptIsKnownInOrder` pins the entries |
| Recommender.CfScore | backend/recommender.py:72-79 | one CF score per column (none for an empty column order); all zeros when no rated identifier has a CF column |
| Recommender.AlignedCbfScore | backend/recommender.py:83-107 | one aligned CBF score per CF column; 0 for a CF identifier without a CBF row; all zeros when no rated identifier has a CBF row |
| Recommender.HybridScores | backend/recommender.py:72-122 | the masked blend has one score per CF column, minus infinity exactly on rated columns, and a score in [0, 1] elsewhere for alpha in [0, 1] |
| Recommender.HybridAlphaOne | backend/recommender.py:118-122 | with alpha = 1 the hybrid score is the masked normalised CF score |
| Recommender.HybridAlphaZero | backend/recommender.py:118-122 | with alpha = 0 the hybrid score is the masked normalised aligned CBF score |
| Recommender.AlphaOneRanksByCf | backend/recommender.py:111-122 | with alpha = 1 two unrated columns rank as their CF scores do |
| Recommender.AlphaZeroRanksByCbf | backend/recommender.py:111-122 | with alpha = 0 two unrated columns rank as their aligned CBF scores do |
| Recommender.RatedNeverRecommended | backend/recommender.py:94-127 | when the count fits the unrated columns and the column map agrees with the column order, no rated identifier is recommended |
| Recommender.AllRatedStillSelected | backend/recommender.py:121-127 | when every column is rated, every selected column is a rated, masked one |
| Recommender.RecommenderService.constructor | backend/recommender.py:32-49 | the service over loaded artifacts, reconciled as `SanityAlignIds` states, so every CF identifier is a catalog identifier |
| Recommender.RecommenderService.SanityAlignIds | backend/recommender.py:261-278 | nothing changes when every CF identifier is known (an empty order included); otherwise the matrix is cut to the kept positions on both axes, the order keeps the known identifiers and the map is rebuilt over it; afterwards every CF identifier is a catalog identifier |
| Recommender.RecommenderService.TopRatedPlaces | backend/recommender.py:52-55 | `head(k)` of the catalog sorted by rating: the right number of rows, in non-increasing rating order, drawn from the catalog, none rated below a row left out |
| Recommender.RecommenderService.SampleOnboarding | backend/recommender.py:57-60 | a negative size fails; otherwise min(n, len) catalog rows taken at distinct positions |
| Recommender.RecommenderService.BlendedScores | backend/recommender.py:72-118 | the CF and CBF loops followed by normalisation give the specified blend |
| Recommender.RecommenderService.ScoreColumns | backend/recommender.py:72-122 | the scoring loops and the mask give `HybridScores` |
| Recommender.RecommenderService.RecommendHybridForUser | backend/recommender.py:62-139 | fails on an empty CF universe and on an out-of-bounds partition index, each exactly when it arises; never fails on a catalog with unique identifiers, and fails on a repeated identifier only as `Join` refuses it; otherwise returns the join of a top-k of the hybrid scores with the catalog |
| Recommender.RecommenderService.RecommendationsHaveRows | backend/recommender.py:130-134 | when every CF identifier is a catalog identifier, every recommendation of a successful join carries its catalog row |

## Left out

- The loaders (`_load_all`, `_load_cbf`, `_load_cf`) and their file, `joblib`, `numpy` and pandas I/O. The constructor takes the loaded catalog, CBF row order, cosine rows, CF matrix, column order and column map.
- The constructor's requirements on the loaded artifacts: each similarity matrix is square over its own order, and `item_to_col` sends identifiers below `len(item_ids)`. On an artifact that breaks these, numpy raises `IndexError` or wraps a negative index. That behaviour is not modelled.
- `cosine_similarity` and the sparse feature matrix. The cosine row of each CBF item is an input.
- The non-finite branch of `norm01` and NaN handling in `nanmin`/`nanmax`. Scores are exact reals, so the branch never arises. The `1e-9` epsilon is kept exactly.
- The rounding of `hybrid_score` to four digits. A recommendation carries the exact score.
- The column selection, `reset_index` and renaming of the metadata join. The join is modelled as a lookup of each identifier, with `None` standing for the all-NaN row of an unknown identifier.
- The tie order of `argpartition`/`argsort` and of the pandas sort. Ties are left open by the relational `IsTopK` and by the `TopRated` contract.
- The pseudo-random generator of `sample_places`. The seeded draws are the parameter `rng`. The pandas sampling algorithm itself is not modelled.
- `PriceIdr.Lower`: `str.lower()` is modelled for ASCII letters only. The `\w` of the word-boundary pattern is likewise ASCII-only.
- `PriceIdr.ParsePriceIdr`: returns the exact integer. The conversion to `float` is not modelled: it loses precision above 2^53 and raises `OverflowError` once the product passes about 1.8e308. Nor is the `ValueError` that `int(digits)` raises past Python's default limit of 4300 digits, nor `str(s)` on a non-string argument.
- `RecommenderService.RecommendHybridForUser`: an empty selection (`k = 0`) over a catalog that repeats an identifier fails with `DuplicateCatalogIds`, as current pandas refuses it; the model does not follow pandas versions that accept the empty selection there.
- `PriceIdr.FormatPriceIdr`: the `except` branch that returns `""` for NaN or infinite input is not modelled, because reals are always finite.
- `(user_ratings or {})` with `user_ratings = None` is the same as an empty ratings sequence. Identifier conversion with `int(pid)` is taken as done.
- The Flask routes, authentication, database models, seeding, password hashing, `place_to_dict` and the frontend. They are HTTP, persistence and UI plumbing outside this core.
