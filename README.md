# Movie recommender: a verified model

This project models the recommendation path of a FastAPI movie recommender service.
A request names a movie by its TMDB id. It may also give a limit, a minimum rating count, and genre and tag filters.

The service answers from a precomputed snapshot with three parts:
- a metadata table of movies, with genres, tags, rating count and average rating;
- a square item-item cosine similarity matrix;
- a map from TMDB id to row.

`_find_movie_recommendations` works in these steps:
1. It looks the id up.
2. It pairs every entry of the source's similarity row with its row number.
3. It sorts the pairs by score, descending. The sort is stable.
4. It drops the first pair by position.
5. It scans the rest in order. A movie is skipped when it fails the genre filter, the tag filter or the minimum rating count. A movie that passes is appended with its score.
6. It stops once the limit is reached.
7. It fails when nothing was accepted.
8. It orders the accepted rows by similarity score, then average rating, both descending.

`_transform_recommendations` keeps only the TMDB id and the score of each row, and `recommend` composes the two. The schemas module validates the query:
- `tmdb_id >= 1`;
- `limit` in 1..20, default 10;
- `min_rating_count >= 1`, default 50;
- genres drawn from a fixed vocabulary of 18.

The response model requires every TMDB id to be at least 1.

Modules:
- `Wrappers` (wrappers.dfy): `Option` and `Result`.
- `Errors` (wrappers.dfy): the three failures `NotFound`, `EmptyResult` and `ValidationError`.
- `Text`: Python's `strip`, `lower`, `split(sep)` and `split()`.
- `Catalog`: the snapshot and the parsing of a row's genre and tag text.
- `Ranking`: the scan order and the final ranking.
- `Service`: the scan, the engine, the projection and `recommend`.
- `Schemas`: the query and response models.
- `Controller`: the request path from query to response.
- `Scenarios`: worked examples on a four-movie snapshot.

The engine is imperative, so it is modelled as methods with loops:
- `Service.ScanCandidates` is the scan loop, with its `continue`s and its early `break`.
- `Service.FindMovieRecommendations` adds around it the lookup, the empty check and the final ranking.

Each method is proved against a specification function:
- `Service.Accepted` is the first `Quota(n)` passing candidates in scan order.
- `Service.AcceptedFor` applies `Accepted` to a source row.

The lemmas about these functions state what the source promises.

## Model

| member | source | states |
|---|---|---|
| Text.IsSpace | app/api/v1/movie_recommender/service.py:104-110 | no contract of its own: the whitespace characters of Python's `str.isspace`, which both `strip()` and `split()` use |
| Text.StripLeading | app/api/v1/movie_recommender/service.py:104 | the result is a suffix of the input, everything removed is whitespace, and the result is empty or starts with a non-whitespace character |
| Text.StripTrailing | app/api/v1/movie_recommender/service.py:104 | the result is a prefix of the input, everything removed is whitespace, and the result is empty or ends with a non-whitespace character |
| Text.Strip | app/api/v1/movie_recommender/service.py:104 | the stripped string is empty or has no whitespace at either end |
| Text.StripUnstripped | app/api/v1/movie_recommender/service.py:104 | a string with no whitespace at either end is unchanged by strip |
| Text.StripIdempotent | app/api/v1/movie_recommender/service.py:104 | stripping twice equals stripping once |
| Text.LowerChar | app/api/v1/movie_recommender/service.py:104 | an upper-case ASCII letter maps to the letter 32 code points above; every other character is kept; the result is never upper-case |
| Text.Lower | app/api/v1/movie_recommender/service.py:104 | lower-casing keeps the length and maps each character by `LowerChar` |
| Text.LowerFixesLowerCase | app/api/v1/movie_recommender/service.py:104 | a string without capitals is unchanged by lower-casing |
| Text.LowerCharNotSpace | app/api/v1/movie_recommender/service.py:104 | lower-casing never turns a non-whitespace character into whitespace |
| Text.Normalize | app/api/v1/movie_recommender/service.py:86-91 | a normalised value has no capitals and no whitespace at either end |
| Text.NormalizeIdempotent | app/api/v1/movie_recommender/service.py:86-91 | normalising twice equals normalising once |
| Text.Split | app/api/v1/movie_recommender/service.py:104 | `split(sep)` gives at least one piece and no piece contains the separator |
| Text.Join | app/api/v1/movie_recommender/service.py:104 | no contract of its own: the inverse of `split(sep)` that `Text.JoinSplit` and `Text.SplitJoin` use to pin `split(sep)` down |
| Text.JoinSplit | app/api/v1/movie_recommender/service.py:104 | joining the pieces of a split with the separator gives back the original string |
| Text.SplitPrefix | app/api/v1/movie_recommender/service.py:104 | a separator-free prefix becomes part of the first piece |
| Text.SplitJoin | app/api/v1/movie_recommender/service.py:104 | splitting a join of separator-free pieces gives back the pieces |
| Text.Words | app/api/v1/movie_recommender/service.py:110 | `split()` gives non-empty, whitespace-free words; a string that starts with a non-space starts its first word |
| Text.WordsPrefix | app/api/v1/movie_recommender/service.py:110 | a word followed by whitespace or the end is the first word |
| Text.WordsSkipsSpace | app/api/v1/movie_recommender/service.py:110 | leading whitespace of any length is dropped: it never starts or forms a word |
| Text.WordsCollapseRun | app/api/v1/movie_recommender/service.py:110 | a run of whitespace of any length after a word separates it from the rest exactly as one space does |
| Text.WordsUnwords | app/api/v1/movie_recommender/service.py:110 | splitting a space-join of non-empty, whitespace-free words gives back the words |
| Catalog.NormalizeNonEmpty | app/api/v1/movie_recommender/service.py:104 | x is in the result if and only if some piece that is non-empty before trimming normalises to x |
| Catalog.NormalizeNonEmptyCons | app/api/v1/movie_recommender/service.py:104 | a non-empty piece in front contributes its normal form in front, the order of the pieces is kept |
| Catalog.ParseGenres | app/api/v1/movie_recommender/service.py:103-107 | a missing genre value gives no genres |
| Catalog.ParseGenresMembers | app/api/v1/movie_recommender/service.py:103-107 | x is a genre of the row if and only if some non-empty `\|`-piece of the text normalises to x |
| Catalog.ParseTags | app/api/v1/movie_recommender/service.py:109-113 | a missing tag value gives no tags |
| Catalog.ParseTagsMembers | app/api/v1/movie_recommender/service.py:109-113 | x is a tag of the row if and only if some whitespace-separated word lower-cases to x |
| Ranking.Enumerate | app/api/v1/movie_recommender/service.py:95 | one pair `(j, row[j])` per entry, in row order |
| Ranking.InsertByScore | app/api/v1/movie_recommender/service.py:96-98 | insertion adds exactly one element (multiset) and puts it or the old head first |
| Ranking.SortByScoreDesc | app/api/v1/movie_recommender/service.py:96-98 | the sort is a permutation of its input |
| Ranking.InsertKeepsOrder | app/api/v1/movie_recommender/service.py:96-98 | inserting a pair with a smaller index than all others keeps the strict scan order |
| Ranking.SortIsStableDescending | app/api/v1/movie_recommender/service.py:96-98 | on ascending indices the sort orders by score descending, and equal scores keep their index order (stability) |
| Ranking.DropFirst | app/api/v1/movie_recommender/service.py:96-98 | `[1:]` removes exactly the first element by position |
| Ranking.ScanOrder | app/api/v1/movie_recommender/service.py:95-98 | no contract of its own: the scan order, the stable descending sort with its first pair dropped; `Ranking.ScanOrderEntries`, `Ranking.DroppedIsFirstMaximum` and `Ranking.SourceNeverScanned` state what it visits |
| Ranking.OrderedEntriesDistinct | app/api/v1/movie_recommender/service.py:95-98 | strictly ordered pairs of one row name distinct rows |
| Ranking.SortedRowMembers | app/api/v1/movie_recommender/service.py:95-98 | the sorted row holds exactly the pairs `(j, row[j])` |
| Ranking.SortedRowEntries | app/api/v1/movie_recommender/service.py:95-98 | the sorted row is strictly ordered, holds exactly the pairs `(j, row[j])`, and each row appears once |
| Ranking.SortedHeadIsFirstMaximum | app/api/v1/movie_recommender/service.py:96-98 | the head of the sort is the lowest index holding the highest score |
| Ranking.DroppedIsFirstMaximum | app/api/v1/movie_recommender/service.py:96-98 | exactly one pair is removed, and it is the first maximum of the row |
| Ranking.HeadScansFirst | app/api/v1/movie_recommender/service.py:96-98 | the head of a strictly ordered sequence comes no later than any of its elements |
| Ranking.DropFirstKeeps | app/api/v1/movie_recommender/service.py:96-98 | dropping the head keeps strict order and keeps members among the row's pairs |
| Ranking.ScanOrderEntries | app/api/v1/movie_recommender/service.py:95-100 | the scan visits pairs `(j, row[j])` in strict scan order, each row at most once |
| Ranking.ScanOrderInRange | app/api/v1/movie_recommender/service.py:100-101 | every scanned index is a row of the matrix, so `iloc` never fails |
| Ranking.SourceNeverScanned | app/api/v1/movie_recommender/service.py:96-98 | when the diagonal is the strict maximum of its row, the source is never scanned and every other row is |
| Ranking.PositionalDropKeepsSourceOnTie | app/api/v1/movie_recommender/service.py:96-98 | on row `[1.0, 1.0]` with source 1, the source is kept and row 0 is dropped |
| Ranking.ExcludeSource | app/api/v1/movie_recommender/service.py:96-98 | the index exclusion keeps exactly the pairs whose index is not the source |
| Ranking.ScanOrderExcludingSource | app/api/v1/movie_recommender/service.py:96-98 | no contract of its own: the corrected scan order, excluding the source by index; `Ranking.ExcludingSourceScansAllOthers` states what it visits |
| Ranking.ExcludingSourceScansAllOthers | app/api/v1/movie_recommender/service.py:96-98 | excluding by index never scans the source and scans every other row, ties or not |
| Ranking.ExcludeAbsent | app/api/v1/movie_recommender/service.py:96-98 | excluding an index that does not occur changes nothing |
| Ranking.DropFirstAgreesWithExclusion | app/api/v1/movie_recommender/service.py:96-98 | under a strict diagonal maximum, the positional drop and the index exclusion give the same scan |
| Ranking.RankedBefore | app/api/v1/movie_recommender/service.py:133-135 | no contract of its own: the order of `sort_values` on (similarityScore, averageRating), both descending; equal pairs may go either way |
| Ranking.Ranked | app/api/v1/movie_recommender/service.py:133-135 | no contract of its own: every adjacent pair is in `RankedBefore` order |
| Ranking.InsertRanked | app/api/v1/movie_recommender/service.py:133-135 | insertion adds exactly one element (multiset) |
| Ranking.Rank | app/api/v1/movie_recommender/service.py:133-135 | the final ordering is a permutation of the accepted rows |
| Ranking.InsertRankedKeepsOrder | app/api/v1/movie_recommender/service.py:133-135 | insertion into a ranked list keeps it ranked |
| Ranking.RankIsRanked | app/api/v1/movie_recommender/service.py:133-135 | every adjacent pair is ordered by score descending, then average rating descending |
| Service.NormalizeTargets | app/api/v1/movie_recommender/service.py:86-91 | the filter is empty exactly when it was not given or given empty |
| Service.NormalizeTargetsMembers | app/api/v1/movie_recommender/service.py:86-91 | x is a normalised target exactly when some given target normalises to x |
| Service.SharesAny | app/api/v1/movie_recommender/service.py:115-119 | no contract of its own: some target is among the candidate's genres or tags (the `any(...)` of each filter) |
| Service.Passes | app/api/v1/movie_recommender/service.py:115-122 | no contract of its own: the three tests of the scan, each skipped when its filter is empty; `Service.AllPassingSound` and `Service.AcceptedExactly` state its role |
| Service.Quota | app/api/v1/movie_recommender/service.py:127-128 | the scan stops after `n` acceptances when `n >= 1`, and after exactly one when `n < 1` |
| Service.Attach | app/api/v1/movie_recommender/service.py:123-124 | no contract of its own: the copied row with its `similarityScore` set |
| Service.Keep | app/api/v1/movie_recommender/service.py:100-124 | no contract of its own: what one scan step appends, the row when it passes and nothing otherwise |
| Service.AllPassing | app/api/v1/movie_recommender/service.py:100-125 | no contract of its own: every passing candidate in scan order; `Service.AllPassingSound`, `Service.AllPassingComplete` and `Service.AllPassingSplit` characterise it |
| Service.Accepted | app/api/v1/movie_recommender/service.py:100-128 | at most `Quota(n)` rows are accepted |
| Service.AcceptedFor | app/api/v1/movie_recommender/service.py:93-128 | at most `Quota(n)` rows are accepted from a source's row |
| Service.AllPassingSplit | app/api/v1/movie_recommender/service.py:100-125 | the passing rows of a concatenation are the concatenation of the passing rows |
| Service.AllPassingStep | app/api/v1/movie_recommender/service.py:100-125 | one more step of the scan appends what that candidate contributes |
| Service.AllPassingSound | app/api/v1/movie_recommender/service.py:115-125 | every passing row passes all three filters and is a scanned candidate with its own row and score |
| Service.AllPassingComplete | app/api/v1/movie_recommender/service.py:115-125 | every candidate that passes the filters is among the passing rows |
| Service.AcceptedAtStop | app/api/v1/movie_recommender/service.py:127-128 | once `Quota(n)` candidates of a prefix pass, the accepted rows are exactly those |
| Service.AcceptedSound | app/api/v1/movie_recommender/service.py:115-125 | everything accepted passes the filters and is a scanned candidate with its score attached |
| Service.NotPassedElsewhere | app/api/v1/movie_recommender/service.py:100-125 | with distinct rows, a candidate's entry comes from no other scan position |
| Service.AllPassingAround | app/api/v1/movie_recommender/service.py:100-125 | the passing rows split around any scan position |
| Service.AcceptedExactly | app/api/v1/movie_recommender/service.py:100-128 | a candidate is accepted if and only if it passes and fewer than `Quota(n)` earlier candidates pass, so no passing candidate is skipped for a later one |
| Service.AcceptedForSound | app/api/v1/movie_recommender/service.py:93-125 | every accepted row carries its own metadata and the source row's score, passes every filter, and is not the source under a strict diagonal maximum |
| Service.ScanCandidates | app/api/v1/movie_recommender/service.py:100-128 | the loop returns exactly the accepted rows, the first `Quota(n)` passing candidates in scan order |
| Service.FindMovieRecommendations | app/api/v1/movie_recommender/service.py:81-135 | fails only with NotFound or EmptyResult; NotFound if and only if the id is absent; EmptyResult if and only if nothing is accepted; success whenever the id is present and something is accepted, and then a permutation of the accepted rows in (score desc, rating desc) order, 1 to `Quota(n)` long, each row with its metadata and the matrix score, rating count at least the minimum, sharing a target genre and tag when filters are given, and the source absent under a strict diagonal maximum |
| Service.TransformRecommendations | app/api/v1/movie_recommender/service.py:155-169 | the projection keeps length and order, and each entry carries its row's TMDB id and score |
| Service.TransformKeepsScoreOrder | app/api/v1/movie_recommender/service.py:133-169 | the projection of a ranked list has non-increasing scores |
| Service.TransformConcat | app/api/v1/movie_recommender/service.py:155-169 | the projection of a concatenation is the concatenation of the projections |
| Service.TransformMultiset | app/api/v1/movie_recommender/service.py:155-169 | rows that are a permutation of each other project to entries that are a permutation of each other |
| Service.TransformPermutation | app/api/v1/movie_recommender/service.py:211-222 | projecting a permutation of the accepted rows gives exactly the projections of the accepted rows, each as often as its row (multiset equality), hence one entry per accepted row |
| Service.ProjectionIdsPositive | app/api/v1/movie_recommender/service.py:211-222 | the projection of a permutation of the accepted rows has only TMDB ids of at least 1 exactly when every accepted row has |
| Service.ProjectionOmitsSource | app/api/v1/movie_recommender/service.py:96-98 | with unique TMDB ids and a strict diagonal maximum, no entry names the source movie |
| Service.Recommend | app/api/v1/movie_recommender/service.py:171-224 | fails only with NotFound or EmptyResult; NotFound if and only if the id is absent; EmptyResult if and only if nothing is accepted; success whenever the id is present and something is accepted, and then the entries are the projection of a permutation of the accepted rows in (score desc, rating desc) order, scores non-increasing, 1 to `Quota(limit)` long, and the source id absent under a strict diagonal maximum and unique ids |
| Schemas.AllowedGenresDistinct | app/api/v1/movie_recommender/schemas.py:6-25 | the vocabulary `AllowedGenres` (the eighteen genres of `ALLOWED_GENRES`, in order) has eighteen entries, none repeated |
| Schemas.QueryConstants | app/api/v1/movie_recommender/schemas.py:34-38 | the constants `DefaultLimit`, `MaxLimit` and `DefaultMinRatingCount`: the default `limit` is 10 with upper bound 20 and the default `min_rating_count` is 50, and both defaults lie within their own bounds |
| Schemas.AllAllowed | app/api/v1/movie_recommender/schemas.py:45-46 | no contract of its own: every genre of the set is in the vocabulary; `Schemas.ValidateGenres` states its role |
| Schemas.ValidateGenres | app/api/v1/movie_recommender/schemas.py:42-49 | succeeds if and only if every genre is in the vocabulary (exact, case-sensitive), returning the set unchanged, and fails with ValidationError otherwise |
| Schemas.WithDefaults | app/api/v1/movie_recommender/schemas.py:34-38 | no contract of its own: an omitted `limit` becomes 10 and an omitted `min_rating_count` 50; `Schemas.DefaultsAreValid` states it |
| Schemas.ValidQuery | app/api/v1/movie_recommender/schemas.py:33-43 | no contract of its own: `tmdb_id >= 1`, `1 <= limit <= 20`, `min_rating_count >= 1` and allowed genres |
| Schemas.ValidateQuery | app/api/v1/movie_recommender/schemas.py:28-49 | succeeds if and only if the query with defaults filled in meets every bound and the genre vocabulary, returning that query, and fails with ValidationError otherwise |
| Schemas.DefaultsAreValid | app/api/v1/movie_recommender/schemas.py:34-38 | omitted limit and minimum rating count become 10 and 50, and such a query is valid exactly when `tmdb_id >= 1` |
| Schemas.ValidateRecommendation | app/api/v1/movie_recommender/schemas.py:52-56 | an entry is accepted if and only if its TMDB id is at least 1, and then unchanged |
| Schemas.BuildResponse | app/api/v1/movie_recommender/schemas.py:63-66 | the response is built if and only if every entry has a TMDB id of at least 1, and then holds the entries unchanged |
| Controller.PlainWordIsNormal | app/api/v1/movie_recommender/schemas.py:6-25 | a word of lower-case letters, hyphens and apostrophes is unchanged by normalisation |
| Controller.EarlyGenresArePlain | app/api/v1/movie_recommender/schemas.py:6-15 | the first nine allowed genres are plain lower-case words |
| Controller.LateGenresArePlain | app/api/v1/movie_recommender/schemas.py:15-25 | the last nine allowed genres are plain lower-case words |
| Controller.AllowedGenresAreNormal | app/api/v1/movie_recommender/schemas.py:6-25 | every allowed genre is unchanged by strip and lower |
| Controller.ValidatedGenresReachFilterUnchanged | app/api/v1/movie_recommender/service.py:86-88 | a validated genre filter reaches the genre test exactly as given |
| Controller.RecommendForQuery | app/api/v1/movie_recommender/controller.py:35-66 | an invalid query gives ValidationError; a valid query with an unknown id gives NotFound; with a known id, EmptyResult exactly when nothing is accepted, success when something is accepted and every accepted TMDB id is at least 1, ValidationError when some accepted id is below 1; a success holds the projection of a permutation of the accepted rows in (score desc, rating desc) order, 1 to 20 entries, with TMDB ids of at least 1 |
| Scenarios.FourItemsScanOrder | app/api/v1/movie_recommender/service.py:95-98 | on row `[1.0, 0.9, 0.5, 0.2]` the scan visits rows 1, 2, 3 |
| Scenarios.FourItemsPassing | app/api/v1/movie_recommender/service.py:121-125 | with minimum 50 ratings, rows 1 and 3 pass and row 2 (10 ratings) does not |
| Scenarios.ScanSkipsRarelyRated | app/api/v1/movie_recommender/service.py:100-128 | with limit 2 and minimum 50, the scan accepts rows 1 and 3, passing over the higher-scored row 2 |
| Scenarios.NoGenreDataFailsGenreFilter | app/api/v1/movie_recommender/service.py:103-118 | a movie without genre data fails every non-empty genre filter |
| Scenarios.GenreNormalizes | app/api/v1/movie_recommender/service.py:104 | a genre name with no whitespace at its ends normalises to its lower-cased form |
| Scenarios.OneGenreParsed | app/api/v1/movie_recommender/service.py:103-107 | a genre text with one name and no `\|` parses to that name, normalised |
| Scenarios.TwoPiecesSplit | app/api/v1/movie_recommender/service.py:104 | two `\|`-free names joined by `\|` split back into the two names |
| Scenarios.TwoPiecesNormalized | app/api/v1/movie_recommender/service.py:104 | two non-empty pieces normalise one by one, in order |
| Scenarios.TwoGenresParsed | app/api/v1/movie_recommender/service.py:103-107 | a genre text `a\|b` parses to the two names, each normalised |
| Scenarios.GenreFilterMisses | app/api/v1/movie_recommender/service.py:115-118 | a movie whose genre list lacks every requested genre fails a non-empty genre filter |
| Scenarios.ComedyDramaParsed | app/api/v1/movie_recommender/service.py:103-107 | the text `Comedy\|Drama` parses to `comedy` and `drama` |
| Scenarios.DramaParsed | app/api/v1/movie_recommender/service.py:103-107 | the text `Drama` parses to `drama` |
| Scenarios.ComedyDramaIsNotHorror | app/api/v1/movie_recommender/service.py:103-118 | a movie labelled `Comedy\|Drama` fails the `horror` filter |
| Scenarios.DramaIsNotHorror | app/api/v1/movie_recommender/service.py:103-118 | a movie labelled `Drama` fails the `horror` filter |
| Scenarios.HorrorFailsEveryCandidate | app/api/v1/movie_recommender/service.py:103-118 | no candidate of the example passes the `horror` filter: two are labelled otherwise and one has no genre data |
| Scenarios.HorrorNothingPasses | app/api/v1/movie_recommender/service.py:115-118 | with a `horror` filter the scan of the example's candidates keeps nothing |
| Scenarios.HorrorNothingScanned | app/api/v1/movie_recommender/service.py:95-118 | the scan of the example's row 0 lets nothing through a `horror` filter |
| Scenarios.HorrorRequestIsEmpty | app/api/v1/movie_recommender/service.py:130-131 | asking for horror films similar to movie 0 leaves nothing accepted, the EmptyResult case |
| Scenarios.TieBrokenByAverageRating | app/api/v1/movie_recommender/service.py:133-135 | every ranked reordering of two rows tied at score 0.7 puts the one rated 4.2 before the one rated 3.9 |
| Scenarios.RankBreaksTieByAverageRating | app/api/v1/movie_recommender/service.py:133-135 | `Rank` orders the two tied rows that way from either input order |

## Left out

- Loading the pickled model, the application lifespan, the routers, the configuration and the health endpoints are not part of this model. The snapshot is a parameter.
- `_read_data_from_model` (service.py:10-32) only reads three fields of a dictionary. The model passes the three parts directly.
- The `async`/`await` structure is not modelled. Every call here is a plain sequential computation.
- Scores, `averageRating` and `ratingCount` are mathematical numbers. Floating-point rounding, NaN and infinities of these pandas columns are not modelled. A NaN `ratingCount` would pass the test at service.py:121, whose comparison is then false. `sort_values` would put a NaN `averageRating` last (service.py:133-135).
- Neither is the 5-digit rounding of `similarity_score` in the JSON serialiser (schemas.py:58-60), which only affects output formatting.
- A snapshot is assumed well formed: a square matrix with one row per movie, and index values that are rows (`Catalog.WellFormed`, a precondition). It is a property of the offline step that builds the snapshot; the service never checks it.
- `Text.LowerChar` lower-cases ASCII letters only. Python's full Unicode case mapping is not modelled.
- Ranking.Rank: pandas `sort_values` leaves the order of rows equal in both keys unspecified. `Rank` is one valid order. The engine's contract states only what every valid order shares: a permutation of the accepted rows, with adjacent pairs in (score desc, rating desc) order.
- The pandas DataFrame is modelled as a sequence of records:
  - an accepted row is a `ScoredMovie`, the copied record with its attached score and its own row index;
  - the projection is a sequence of `Recommendation` values.
- Genre and tag filters are modelled as sets, as the query model delivers them. A list given directly to the service would behave the same, since only `any(...)` membership reads it.
- `extra="forbid"` on the query model is not modelled: the model's query datatype has no room for unknown fields.
- A missing `tmdb_id` is not modelled: the raw query datatype always carries one, so the ValidationError for the absent required field (schemas.py:33) has no counterpart; only its `ge=1` bound is.
- Error messages, HTTP status codes and exception types are reduced to the three `Error` values.
- Service.Keep: a scanned pair with no metadata row contributes nothing, where `iloc` would raise. `Ranking.ScanOrderInRange` proves that no such pair is scanned in a well-formed snapshot.
- Service.ScanCandidates: the scan loop is its own method, separate from `FindMovieRecommendations`. The source has them in one function; the split keeps each proof small and does not change behaviour.
- The validation bounds are those schemas.py:33-38 declares: `tmdb_id >= 1`, `1 <= limit <= 20` and `min_rating_count >= 1` (`ge=1`), so a minimum of 0 is refused.
- Genres and tags are parsed inside the scan, once per candidate and request, as service.py:103-113 does; no parsed form is stored in the snapshot.

## Findings

| source | as written | input that shows it | evidently intended | confidence | as-written member | corrected member |
|---|---|---|---|---|---|---|
| app/api/v1/movie_recommender/service.py:96-98 | the source movie is removed by position: `[1:]` drops whichever pair the stable descending sort puts first | similarity row `[1.0, 1.0]` for source row 1: the sort keeps row 0 first, so row 0 is dropped and the source itself is scanned and can be recommended | remove the source movie's own row, by index, wherever it lands in the sort | not executed | Ranking.PositionalDropKeepsSourceOnTie | Ranking.ExcludingSourceScansAllOthers |

The engine (`Service.FindMovieRecommendations`, `Service.Recommend`) keeps the positional drop, because that is what the service does. The corrected scan order `Ranking.ScanOrderExcludingSource` stands beside it with its property proved. Since `Service.ScanCandidates` takes any candidate order, a corrected engine would feed it that order instead. `Ranking.SourceNeverScanned` and `Ranking.DropFirstAgreesWithExclusion` prove that the positional drop is correct whenever the source's diagonal score is strictly the largest of its row (`Ranking.DiagonalIsStrictMax`). `Ranking.PositionalDropKeepsSourceOnTie` shows that a tie with a lower index breaks it. Nothing in the service guarantees the premise, since the matrix is built offline. Examples of rows that break it:
- a vector parallel to the source's (a duplicate or any positive multiple) at a lower index ties the diagonal, the stable sort keeps the lower index first, and `[1:]` drops that row instead of the source;
- in floating point the diagonal need not come out as the largest entry, and then any index whose score rounds above it sorts first and is dropped;
- an all-zero row ties every entry.

A tie with a higher index also falls outside the premise, although there the stable sort still puts the source first and the drop stays correct.
