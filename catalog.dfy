/**
 * The precomputed snapshot the recommender serves from: the movie metadata
 * table, the item-item cosine similarity matrix and the TMDB id to row map,
 * together with the parsing of a row's genre and tag text.
 */
module Catalog {
  import opened Wrappers
  import opened Text

  /** Similarity scores are only ever compared, never computed on. */
  type Score = real

  /**
   * One row of the metadata table. `genres` and `tags` are `None` where the
   * table holds a missing value (`pd.notna` is false).
   */
  datatype Movie = Movie(
    tmdbId: int,
    genres: Option<string>,
    tags: Option<string>,
    ratingCount: int,
    averageRating: real)

  /** The loaded model: metadata rows, similarity matrix and id-to-row index. */
  datatype TrainedModel = TrainedModel(
    movies: seq<Movie>,
    cosineSim: seq<seq<Score>>,
    tmdbIdToIndex: map<int, nat>)

  /**
   * What the offline pipeline guarantees of a snapshot: the matrix is square
   * with one row per movie, and every index value is a row of both.
   */
  predicate WellFormed(m: TrainedModel) {
    && |m.cosineSim| == |m.movies|
    && (forall i :: 0 <= i < |m.cosineSim| ==> |m.cosineSim[i]| == |m.movies|)
    && (forall id :: id in m.tmdbIdToIndex ==> m.tmdbIdToIndex[id] < |m.movies|)
  }

  /** A copied metadata row with the `similarityScore` column the scan attaches. */
  datatype ScoredMovie = ScoredMovie(row: nat, movie: Movie, similarityScore: Score)

  /** One entry of the response: the `tmdb_id` and `similarity_score` keys. */
  datatype Recommendation = Recommendation(tmdbId: int, similarityScore: Score)

  /** `[p.strip().lower() for p in ps if p]`: the test for emptiness is on the raw piece. */
  function NormalizeNonEmpty(ps: seq<string>): (r: seq<string>)
    ensures forall x :: x in r <==> exists p :: p in ps && p != [] && Normalize(p) == x
  {
    if ps == [] then []
    else
      var rest := NormalizeNonEmpty(ps[1..]);
      assert forall p :: p in ps[1..] ==> p in ps;
      assert forall p :: p in ps ==> p == ps[0] || p in ps[1..];
      if ps[0] != [] then [Normalize(ps[0])] + rest else rest
  }

  /** A non-empty piece in front contributes its normal form in front. */
  lemma NormalizeNonEmptyCons(p: string, ps: seq<string>)
    requires p != []
    ensures NormalizeNonEmpty([p] + ps) == [Normalize(p)] + NormalizeNonEmpty(ps)
  {
    assert ([p] + ps)[1..] == ps;
  }

  /**
   * The genre list of a row: the text split on `|`, pieces that are empty
   * before trimming dropped, the rest trimmed and lower-cased.
   */
  function ParseGenres(genres: Option<string>): (r: seq<string>)
    ensures genres.None? ==> r == []
  {
    match genres
    case None => []
    case Some(s) => NormalizeNonEmpty(Split(s, '|'))
  }

  /** A genre is listed exactly when some non-empty `|`-separated piece normalises to it. */
  lemma ParseGenresMembers(genres: Option<string>)
    ensures forall x :: x in ParseGenres(genres) <==>
      genres.Some? && exists p :: p in Split(genres.value, '|') && p != [] && Normalize(p) == x
  {
  }

  /**
   * The tag list of a row: the text split on runs of whitespace, each word
   * lower-cased (trimming a word changes nothing).
   */
  function ParseTags(tags: Option<string>): (r: seq<string>)
    ensures tags.None? ==> r == []
  {
    match tags
    case None => []
    case Some(s) => NormalizeNonEmpty(Words(s))
  }

  /** A tag is listed exactly when some whitespace-separated word lower-cases to it. */
  lemma ParseTagsMembers(tags: Option<string>)
    ensures forall x :: x in ParseTags(tags) <==>
      tags.Some? && exists w :: w in Words(tags.value) && Lower(w) == x
  {
    if tags.Some? {
      var ws := Words(tags.value);
      forall w | w in ws ensures w != [] && Normalize(w) == Lower(w) {
        StripUnstripped(w);
      }
    }
  }
}
