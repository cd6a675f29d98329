/**
 * Request and response schemas: the numeric bounds and defaults of the query
 * parameters, the closed genre vocabulary, and the TMDB id bound of a
 * recommendation in the response.
 */
module Schemas {
  import opened Wrappers
  import opened Errors
  import opened Catalog

  /** The only genre values a request may filter by, compared exactly (case-sensitively). */
  const AllowedGenres: seq<string> := [
    "action", "adventure", "animation", "children's", "comedy", "crime",
    "documentary", "drama", "fantasy", "film-noir", "horror", "musical",
    "mystery", "romance", "sci-fi", "thriller", "war", "western"
  ]

  const DefaultLimit: int := 10
  const MaxLimit: int := 20
  const DefaultMinRatingCount: int := 50

  predicate AllAllowed(genres: set<string>) {
    forall g :: g in genres ==> g in AllowedGenres
  }

  /** The vocabulary lists eighteen genres, none of them twice. */
  lemma AllowedGenresDistinct()
    ensures |AllowedGenres| == 18
    ensures forall i, j :: 0 <= i < j < |AllowedGenres| ==> AllowedGenres[i] != AllowedGenres[j]
  {
  }

  /**
   * The query defaults: `limit` 10 within its bounds 1..20, and
   * `min_rating_count` 50 within its lower bound 1, so validating the defaults
   * (`validate_default=True`) never rejects them.
   */
  lemma QueryConstants()
    ensures DefaultLimit == 10 && MaxLimit == 20 && DefaultMinRatingCount == 50
    ensures 1 <= DefaultLimit <= MaxLimit && DefaultMinRatingCount >= 1
  {
  }

  /**
   * `validate_genres`: visits the genres one by one and rejects the set at the
   * first one outside the vocabulary; otherwise returns the set unchanged.
   */
  method ValidateGenres(genres: set<string>) returns (r: Result<set<string>, Error>)
    ensures r.Success? <==> AllAllowed(genres)
    ensures r.Success? ==> r.value == genres
    ensures r.Failure? ==> r.error == ValidationError
  {
    var remaining := genres;
    while remaining != {}
      invariant remaining <= genres
      invariant forall g :: g in genres - remaining ==> g in AllowedGenres
      decreases remaining
    {
      var genre :| genre in remaining;
      if genre !in AllowedGenres {
        return Failure(ValidationError);
      }
      remaining := remaining - {genre};
    }
    return Success(genres);
  }

  /** The query string as received; an absent parameter is `None`. */
  datatype RawQuery = RawQuery(
    tmdbId: int,
    limit: Option<int>,
    minRatingCount: Option<int>,
    tags: Option<set<string>>,
    genres: Option<set<string>>)

  /** `GetRecommendationsQuery` once its defaults are filled in. */
  datatype GetRecommendationsQuery = GetRecommendationsQuery(
    tmdbId: int,
    limit: int,
    minRatingCount: int,
    tags: Option<set<string>>,
    genres: Option<set<string>>)

  function WithDefaults(raw: RawQuery): GetRecommendationsQuery {
    GetRecommendationsQuery(
      raw.tmdbId,
      raw.limit.GetOr(DefaultLimit),
      raw.minRatingCount.GetOr(DefaultMinRatingCount),
      raw.tags,
      raw.genres)
  }

  /** The field constraints: `tmdb_id >= 1`, `1 <= limit <= 20`, `min_rating_count >= 1`, allowed genres. */
  predicate ValidQuery(q: GetRecommendationsQuery) {
    && q.tmdbId >= 1
    && 1 <= q.limit <= MaxLimit
    && q.minRatingCount >= 1
    && (q.genres.Some? ==> AllAllowed(q.genres.value))
  }

  /**
   * Builds the query model: fills the defaults (which are validated too) and
   * rejects it when any field breaks its constraint.
   */
  method ValidateQuery(raw: RawQuery) returns (r: Result<GetRecommendationsQuery, Error>)
    ensures r.Success? <==> ValidQuery(WithDefaults(raw))
    ensures r.Success? ==> r.value == WithDefaults(raw)
    ensures r.Failure? ==> r.error == ValidationError
  {
    var q := WithDefaults(raw);
    if !(q.tmdbId >= 1 && 1 <= q.limit <= MaxLimit && q.minRatingCount >= 1) {
      return Failure(ValidationError);
    }
    if q.genres.Some? {
      var checked := ValidateGenres(q.genres.value);
      if checked.Failure? {
        return Failure(checked.error);
      }
    }
    return Success(q);
  }

  /** A query that gives only the TMDB id gets limit 10 and minimum rating count 50, and is valid when the id is. */
  lemma DefaultsAreValid(tmdbId: int)
    ensures WithDefaults(RawQuery(tmdbId, None, None, None, None)).limit == 10
    ensures WithDefaults(RawQuery(tmdbId, None, None, None, None)).minRatingCount == 50
    ensures ValidQuery(WithDefaults(RawQuery(tmdbId, None, None, None, None))) <==> tmdbId >= 1
  {
  }

  /** `Recommendation(**rec)`: the response model accepts an entry only when its TMDB id is at least 1. */
  function ValidateRecommendation(rec: Recommendation): (r: Result<Recommendation, Error>)
    ensures r.Success? <==> rec.tmdbId >= 1
    ensures r.Success? ==> r.value == rec
  {
    if rec.tmdbId >= 1 then Success(rec) else Failure(ValidationError)
  }

  /** `GetRecommendationsResponse`: every entry validated; the list is returned unchanged when all are valid. */
  function BuildResponse(recs: seq<Recommendation>): (r: Result<seq<Recommendation>, Error>)
    ensures r.Success? <==> forall i :: 0 <= i < |recs| ==> recs[i].tmdbId >= 1
    ensures r.Success? ==> r.value == recs
    ensures r.Failure? ==> r.error == ValidationError
  {
    if recs == [] then Success([])
    else
      match ValidateRecommendation(recs[0])
      case Failure(e) => Failure(e)
      case Success(head) =>
        match BuildResponse(recs[1..])
        case Failure(e) => Failure(e)
        case Success(tail) => Success([head] + tail)
  }
}
