/**
 * The request path of the recommendation endpoint: validate the query, run
 * the service, and validate every entry of the response.
 */
module Controller {
  import opened Wrappers
  import opened Errors
  import opened Text
  import opened Catalog
  import opened Ranking
  import opened Service
  import opened Schemas

  /** A non-empty word of lower-case letters, hyphens and apostrophes. */
  predicate PlainWord(s: string) {
    forall i :: 0 <= i < |s| ==> 'a' <= s[i] <= 'z' || s[i] == '-' || s[i] == '\''
  }

  lemma PlainWordIsNormal(s: string)
    requires PlainWord(s)
    ensures Normalize(s) == s
  {
    StripUnstripped(s);
    LowerFixesLowerCase(s);
  }

  /** The vocabulary is checked in two halves (entries 0..8 and 9..17) only to keep each proof small. */
  lemma EarlyGenresArePlain()
    ensures forall k :: 0 <= k < 9 ==> PlainWord(AllowedGenres[k])
  {
  }

  lemma LateGenresArePlain()
    ensures forall k :: 9 <= k < |AllowedGenres| ==> PlainWord(AllowedGenres[k])
  {
  }

  /** Every allowed genre is already stripped and lower-case, so normalising it changes nothing. */
  lemma AllowedGenresAreNormal()
    ensures forall g :: g in AllowedGenres ==> Normalize(g) == g
  {
    EarlyGenresArePlain();
    LateGenresArePlain();
    forall g | g in AllowedGenres
      ensures Normalize(g) == g
    {
      var k :| 0 <= k < |AllowedGenres| && AllowedGenres[k] == g;
      PlainWordIsNormal(g);
    }
  }

  /** A genre filter that passed validation reaches the genre test exactly as it was given. */
  lemma ValidatedGenresReachFilterUnchanged(genres: set<string>)
    requires AllAllowed(genres)
    ensures NormalizeTargets(Some(genres)) == genres
  {
    AllowedGenresAreNormal();
    NormalizeTargetsMembers(Some(genres));
    forall x | x in genres
      ensures x in NormalizeTargets(Some(genres))
    {
      assert Normalize(x) == x;
    }
  }

  /**
   * `MovieRecommenderController.recommend` behind its query model: an invalid
   * query is refused before the catalog is consulted; a valid one is answered
   * by the service, whose entries become the response when every TMDB id is at
   * least 1.
   */
  method RecommendForQuery(model: TrainedModel, raw: RawQuery)
    returns (r: Result<seq<Recommendation>, Error>)
    requires WellFormed(model)
    ensures !ValidQuery(WithDefaults(raw)) ==> r == Failure(ValidationError)
    ensures ValidQuery(WithDefaults(raw)) && raw.tmdbId !in model.tmdbIdToIndex ==>
      r == Failure(NotFound(raw.tmdbId))
    ensures ValidQuery(WithDefaults(raw)) && raw.tmdbId in model.tmdbIdToIndex ==>
      var q := WithDefaults(raw);
      var src := model.tmdbIdToIndex[q.tmdbId];
      var f := Filters(NormalizeTargets(q.genres), NormalizeTargets(q.tags), q.minRatingCount);
      var acc := AcceptedFor(model, src, f, q.limit);
      && (r == Failure(EmptyResult(q.tmdbId)) <==> acc == [])
      && (acc != [] && (forall x :: x in acc ==> x.movie.tmdbId >= 1) ==> r.Success?)
      && (acc != [] && (exists x :: x in acc && x.movie.tmdbId < 1) ==> r == Failure(ValidationError))
      && (r.Success? ==>
            exists p :: multiset(p) == multiset(acc) && Ranked(p) && r.value == TransformRecommendations(p))
    ensures r.Success? ==>
      && ValidQuery(WithDefaults(raw))
      && 1 <= |r.value| <= MaxLimit
      && forall i :: 0 <= i < |r.value| ==> r.value[i].tmdbId >= 1
  {
    var q :- ValidateQuery(raw);
    var recs :- Recommend(q.tmdbId, model, q.tags, q.genres, q.limit, q.minRatingCount);
    ghost var f := Filters(NormalizeTargets(q.genres), NormalizeTargets(q.tags), q.minRatingCount);
    ghost var acc := AcceptedFor(model, model.tmdbIdToIndex[q.tmdbId], f, q.limit);
    ghost var p :| multiset(p) == multiset(acc) && Ranked(p) && recs == TransformRecommendations(p);
    ProjectionIdsPositive(p, acc);
    r := BuildResponse(recs);
  }
}
