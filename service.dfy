/**
 * The recommendation engine: resolve the TMDB id, scan its similarity row in
 * stable descending order past the first entry, keep the candidates that pass
 * the genre, tag and rating-count filters until the limit is reached, rank
 * the survivors and project them to (tmdbId, similarityScore).
 */
module Service {
  import opened Wrappers
  import opened Errors
  import opened Text
  import opened Catalog
  import opened Ranking

  /** The request filters after normalisation; an empty set means "no filter". */
  datatype Filters = Filters(genres: set<string>, tags: set<string>, minRatingCount: int)

  /**
   * `[t.strip().lower() for t in targets] if targets else []`, as a set: only
   * membership is used. It is empty, and so filters nothing, exactly when the
   * request gave no values.
   */
  function NormalizeTargets(targets: Option<set<string>>): (r: set<string>)
    ensures r == {} <==> (targets.None? || targets.value == {})
  {
    match targets
    case None => {}
    case Some(ts) =>
      var r := set t | t in ts :: Normalize(t);
      assert ts != {} ==> var t :| t in ts; Normalize(t) in r;
      r
  }

  /** The normalised filter holds the normal form of each requested value and nothing else. */
  lemma NormalizeTargetsMembers(targets: Option<set<string>>)
    ensures forall x :: x in NormalizeTargets(targets) <==>
      targets.Some? && exists t :: t in targets.value && Normalize(t) == x
  {
  }

  /** `any(t in values for t in targets)`. */
  predicate SharesAny(targets: set<string>, values: seq<string>) {
    exists t :: t in targets && t in values
  }

  /** The three tests of the scan; failing any one of them skips the candidate. */
  predicate Passes(m: Movie, f: Filters) {
    && (f.genres == {} || SharesAny(f.genres, ParseGenres(m.genres)))
    && (f.tags == {} || SharesAny(f.tags, ParseTags(m.tags)))
    && m.ratingCount >= f.minRatingCount
  }

  /**
   * How many acceptances end the scan. The limit is tested only after an
   * append, so a limit below 1 still admits one movie.
   */
  function Quota(n: int): (q: nat)
    ensures q >= 1 && n <= q
    ensures n >= 1 ==> q == n
    ensures n < 1 ==> q == 1
  {
    if n >= 1 then n else 1
  }

  predicate InCatalog(cands: seq<Candidate>, movies: seq<Movie>) {
    forall k :: 0 <= k < |cands| ==> cands[k].index < |movies|
  }

  /** The copied row of a candidate with its `similarityScore` set. */
  function Attach(c: Candidate, movies: seq<Movie>): ScoredMovie
    requires c.index < |movies|
  {
    ScoredMovie(c.index, movies[c.index], c.score)
  }

  /**
   * What one step of the scan appends: the candidate's row when it passes,
   * nothing otherwise. A pair with no metadata row is never kept; in a
   * well-formed snapshot there is none (`ScanOrderInRange`).
   */
  function Keep(c: Candidate, movies: seq<Movie>, f: Filters): seq<ScoredMovie> {
    if c.index < |movies| && Passes(movies[c.index], f) then [Attach(c, movies)] else []
  }

  /** Every candidate that passes the filters, in scan order, with its score attached. */
  function AllPassing(cands: seq<Candidate>, movies: seq<Movie>, f: Filters): seq<ScoredMovie>
    decreases |cands|
  {
    if cands == [] then []
    else AllPassing(cands[..|cands| - 1], movies, f) + Keep(cands[|cands| - 1], movies, f)
  }

  /** What the scan keeps: the first `Quota(n)` passing candidates, or all of them when fewer pass. */
  function Accepted(cands: seq<Candidate>, movies: seq<Movie>, f: Filters, n: int): (r: seq<ScoredMovie>)
    ensures |r| <= Quota(n)
  {
    var all := AllPassing(cands, movies, f);
    if |all| <= Quota(n) then all else all[..Quota(n)]
  }

  /** The acceptances of the scan over the similarity row of source row `src`. */
  function AcceptedFor(model: TrainedModel, src: nat, f: Filters, n: int): (r: seq<ScoredMovie>)
    requires WellFormed(model) && src < |model.movies|
    ensures |r| <= Quota(n)
  {
    Accepted(ScanOrder(model.cosineSim[src]), model.movies, f, n)
  }

  // ------------------------------------------------------------ lemmas about the scan

  lemma {:induction false} AllPassingSplit(a: seq<Candidate>, b: seq<Candidate>, movies: seq<Movie>, f: Filters)
    ensures AllPassing(a + b, movies, f) == AllPassing(a, movies, f) + AllPassing(b, movies, f)
    decreases |b|
  {
    if b == [] {
      assert a + b == a;
    } else {
      var b' := b[..|b| - 1];
      AllPassingSplit(a, b', movies, f);
      assert (a + b)[..|a + b| - 1] == a + b';
      assert (a + b)[|a + b| - 1] == b[|b| - 1];
    }
  }

  /** One more step of the scan appends what that step keeps. */
  lemma AllPassingStep(cands: seq<Candidate>, i: nat, movies: seq<Movie>, f: Filters)
    requires i < |cands|
    ensures AllPassing(cands[..i + 1], movies, f) == AllPassing(cands[..i], movies, f) + Keep(cands[i], movies, f)
  {
    assert cands[..i + 1][..i] == cands[..i];
    assert cands[..i + 1][i] == cands[i];
  }

  /** Every passing entry is a passing candidate with its own row and score. */
  lemma {:induction false} AllPassingSound(cands: seq<Candidate>, movies: seq<Movie>, f: Filters)
    requires InCatalog(cands, movies)
    ensures forall x :: x in AllPassing(cands, movies, f) ==>
      Passes(x.movie, f) && exists k :: 0 <= k < |cands| && x == Attach(cands[k], movies)
    decreases |cands|
  {
    if cands != [] {
      var init := cands[..|cands| - 1];
      AllPassingSound(init, movies, f);
      forall x | x in AllPassing(init, movies, f)
        ensures exists k :: 0 <= k < |cands| && x == Attach(cands[k], movies)
      {
        var k :| 0 <= k < |init| && x == Attach(init[k], movies);
        assert cands[k] == init[k];
      }
    }
  }

  /** Every candidate that passes the filters is among the passing entries. */
  lemma {:induction false} AllPassingComplete(cands: seq<Candidate>, movies: seq<Movie>, f: Filters)
    requires InCatalog(cands, movies)
    ensures forall k :: 0 <= k < |cands| && Passes(movies[cands[k].index], f) ==>
      Attach(cands[k], movies) in AllPassing(cands, movies, f)
    decreases |cands|
  {
    if cands != [] {
      var init := cands[..|cands| - 1];
      AllPassingComplete(init, movies, f);
      forall k | 0 <= k < |cands| - 1 ensures cands[k] == init[k] { }
    }
  }

  /** Once `Quota(n)` candidates of a prefix pass, the scan has accepted exactly those. */
  lemma AcceptedAtStop(cands: seq<Candidate>, j: nat, movies: seq<Movie>, f: Filters, n: int)
    requires j <= |cands|
    requires |AllPassing(cands[..j], movies, f)| == Quota(n)
    ensures Accepted(cands, movies, f, n) == AllPassing(cands[..j], movies, f)
  {
    AllPassingSplit(cands[..j], cands[j..], movies, f);
    assert cands[..j] + cands[j..] == cands;
  }

  /** Everything accepted is a passing candidate, carrying that candidate's row, movie and score. */
  lemma AcceptedSound(cands: seq<Candidate>, movies: seq<Movie>, f: Filters, n: int)
    requires InCatalog(cands, movies)
    ensures forall x :: x in Accepted(cands, movies, f, n) ==>
      Passes(x.movie, f) && exists c :: c in cands && x == Attach(c, movies)
  {
    AllPassingSound(cands, movies, f);
    var all := AllPassing(cands, movies, f);
    forall x | x in Accepted(cands, movies, f, n)
      ensures Passes(x.movie, f) && exists c :: c in cands && x == Attach(c, movies)
    {
      assert x in all;
      var k :| 0 <= k < |cands| && x == Attach(cands[k], movies);
      assert cands[k] in cands;
    }
  }

  /** With distinct rows, a candidate's entry cannot come from any other position of the scan. */
  lemma NotPassedElsewhere(cands: seq<Candidate>, movies: seq<Movie>, f: Filters, p: nat)
    requires InCatalog(cands, movies) && p < |cands|
    requires forall i, j :: 0 <= i < j < |cands| ==> cands[i].index != cands[j].index
    ensures Attach(cands[p], movies) !in AllPassing(cands[..p], movies, f)
    ensures Attach(cands[p], movies) !in AllPassing(cands[p + 1..], movies, f)
  {
    var x := Attach(cands[p], movies);
    var before, after := cands[..p], cands[p + 1..];
    AllPassingSound(before, movies, f);
    AllPassingSound(after, movies, f);
    forall k | 0 <= k < |before| ensures x != Attach(before[k], movies) {
      assert before[k] == cands[k];
    }
    forall k | 0 <= k < |after| ensures x != Attach(after[k], movies) {
      assert after[k] == cands[p + 1 + k];
    }
  }

  /** The passing entries of the whole scan, split around position `p`. */
  lemma AllPassingAround(cands: seq<Candidate>, movies: seq<Movie>, f: Filters, p: nat)
    requires p < |cands|
    ensures AllPassing(cands, movies, f) ==
      AllPassing(cands[..p], movies, f) + Keep(cands[p], movies, f) + AllPassing(cands[p + 1..], movies, f)
  {
    var before, here, after := cands[..p], cands[p..p + 1], cands[p + 1..];
    assert cands == before + here + after;
    AllPassingSplit(before, here, movies, f);
    AllPassingSplit(before + here, after, movies, f);
    assert here[..0] == [];
    assert AllPassing(here, movies, f) == Keep(cands[p], movies, f);
  }

  /**
   * The scan keeps exactly the first passing candidates in scan order: the
   * candidate at position `p` is accepted if and only if it passes and fewer
   * than `Quota(n)` candidates before it pass. No passing candidate is skipped
   * in favour of a later one.
   */
  lemma AcceptedExactly(cands: seq<Candidate>, movies: seq<Movie>, f: Filters, n: int, p: nat)
    requires InCatalog(cands, movies) && p < |cands|
    requires forall i, j :: 0 <= i < j < |cands| ==> cands[i].index != cands[j].index
    ensures Attach(cands[p], movies) in Accepted(cands, movies, f, n) <==>
      Passes(movies[cands[p].index], f) && |AllPassing(cands[..p], movies, f)| < Quota(n)
  {
    var x := Attach(cands[p], movies);
    AllPassingAround(cands, movies, f, p);
    NotPassedElsewhere(cands, movies, f, p);
    var a, h, b := AllPassing(cands[..p], movies, f), Keep(cands[p], movies, f), AllPassing(cands[p + 1..], movies, f);
    var all := a + h + b;
    var q := Quota(n);
    var acc := Accepted(cands, movies, f, n);
    if Passes(movies[cands[p].index], f) {
      assert h == [x];
      if |a| < q {
        assert all[|a|] == x;
        assert acc[|a|] == x;
      } else {
        assert acc == a[..q];
        InPrefix(a, q, x);
      }
    } else {
      assert h == [];
      assert x !in all;
      InPrefix(all, |acc|, x);
    }
  }

  lemma InPrefix<T>(s: seq<T>, k: nat, x: T)
    requires k <= |s| && x !in s
    ensures x !in s[..k]
  {
  }

  /**
   * Everything the scan of a source row accepts is a copied metadata row
   * carrying the source row's score for it, and passes every filter; when the
   * diagonal score is the strict maximum of its row, the source is not among them.
   */
  lemma AcceptedForSound(model: TrainedModel, src: nat, f: Filters, n: int)
    requires WellFormed(model) && src < |model.movies|
    ensures forall x :: x in AcceptedFor(model, src, f, n) ==>
      && x.row < |model.movies|
      && x.movie == model.movies[x.row]
      && x.similarityScore == model.cosineSim[src][x.row]
      && x.movie.ratingCount >= f.minRatingCount
      && (f.genres != {} ==> SharesAny(f.genres, ParseGenres(x.movie.genres)))
      && (f.tags != {} ==> SharesAny(f.tags, ParseTags(x.movie.tags)))
    ensures DiagonalIsStrictMax(model.cosineSim[src], src) ==>
      forall x :: x in AcceptedFor(model, src, f, n) ==> x.row != src
  {
    var row := model.cosineSim[src];
    ScanOrderEntries(row);
    AcceptedSound(ScanOrder(row), model.movies, f, n);
    if DiagonalIsStrictMax(row, src) {
      SourceNeverScanned(row, src);
    }
  }

  // ------------------------------------------------------------ the engine

  /**
   * The scan loop of `_find_movie_recommendations`: visits the candidates in
   * order, skips each one that fails the genre, tag or rating-count test,
   * appends the others with their score, and stops once the limit is reached.
   */
  method ScanCandidates(
    similarityScores: seq<Candidate>,
    movies: seq<Movie>,
    targetGenresLower: set<string>,
    targetTagsLower: set<string>,
    minRatingCount: int,
    nRecommendations: int)
    returns (recommendations: seq<ScoredMovie>)
    requires InCatalog(similarityScores, movies)
    ensures recommendations ==
      Accepted(similarityScores, movies, Filters(targetGenresLower, targetTagsLower, minRatingCount), nRecommendations)
  {
    recommendations := [];
    ghost var f := Filters(targetGenresLower, targetTagsLower, minRatingCount);
    var i := 0;
    while i < |similarityScores|
      invariant i <= |similarityScores|
      invariant recommendations == AllPassing(similarityScores[..i], movies, f)
      invariant |recommendations| < Quota(nRecommendations)
    {
      var candidate := similarityScores[i];
      var movie := movies[candidate.index];
      var genres := ParseGenres(movie.genres);
      var tags := ParseTags(movie.tags);
      AllPassingStep(similarityScores, i, movies, f);
      assert Keep(candidate, movies, f) ==
        if Passes(movie, f) then [ScoredMovie(candidate.index, movie, candidate.score)] else [];
      i := i + 1;

      if targetGenresLower != {} && !SharesAny(targetGenresLower, genres) {
        continue;
      }
      if targetTagsLower != {} && !SharesAny(targetTagsLower, tags) {
        continue;
      }
      if movie.ratingCount < minRatingCount {
        continue;
      }

      recommendations := recommendations + [ScoredMovie(candidate.index, movie, candidate.score)];
      if |recommendations| >= nRecommendations {
        AcceptedAtStop(similarityScores, i, movies, f, nRecommendations);
        break;
      }
    }
    if |recommendations| < Quota(nRecommendations) {
      // the scan ran to the end of the row
      assert similarityScores[..i] == similarityScores;
    }
  }

  /**
   * `_find_movie_recommendations`: fails with NotFound when the id is not in
   * the index and with EmptyResult when nothing passes; otherwise returns the
   * accepted rows ranked by (similarity score, average rating), descending.
   */
  method FindMovieRecommendations(
    tmdbId: int,
    model: TrainedModel,
    nRecommendations: int,
    targetGenres: Option<set<string>>,
    targetTags: Option<set<string>>,
    minRatingCount: int)
    returns (r: Result<seq<ScoredMovie>, Error>)
    requires WellFormed(model)
    ensures r.Failure? ==> r.error == NotFound(tmdbId) || r.error == EmptyResult(tmdbId)
    ensures r == Failure(NotFound(tmdbId)) <==> tmdbId !in model.tmdbIdToIndex
    ensures tmdbId in model.tmdbIdToIndex ==>
      var src := model.tmdbIdToIndex[tmdbId];
      var f := Filters(NormalizeTargets(targetGenres), NormalizeTargets(targetTags), minRatingCount);
      var acc := AcceptedFor(model, src, f, nRecommendations);
      && (r == Failure(EmptyResult(tmdbId)) <==> acc == [])
      && (acc != [] ==> r.Success?)
      && (r.Success? ==> multiset(r.value) == multiset(acc) && Ranked(r.value))
    ensures r.Success? ==>
      var src := model.tmdbIdToIndex[tmdbId];
      var genres, tags := NormalizeTargets(targetGenres), NormalizeTargets(targetTags);
      && tmdbId in model.tmdbIdToIndex
      && 1 <= |r.value| <= Quota(nRecommendations)
      && (forall x :: x in r.value ==>
            && x.row < |model.movies|
            && x.movie == model.movies[x.row]
            && x.similarityScore == model.cosineSim[src][x.row]
            && x.movie.ratingCount >= minRatingCount
            && (genres != {} ==> SharesAny(genres, ParseGenres(x.movie.genres)))
            && (tags != {} ==> SharesAny(tags, ParseTags(x.movie.tags))))
      && (DiagonalIsStrictMax(model.cosineSim[src], src) ==> forall x :: x in r.value ==> x.row != src)
  {
    if tmdbId !in model.tmdbIdToIndex {
      return Failure(NotFound(tmdbId));
    }

    var targetGenresLower := NormalizeTargets(targetGenres);
    var targetTagsLower := NormalizeTargets(targetTags);
    var movieIndex := model.tmdbIdToIndex[tmdbId];
    var similarityScores := ScanOrder(model.cosineSim[movieIndex]);
    ScanOrderInRange(model.cosineSim[movieIndex]);

    var recommendations := ScanCandidates(
      similarityScores, model.movies, targetGenresLower, targetTagsLower, minRatingCount, nRecommendations);

    if recommendations == [] {
      return Failure(EmptyResult(tmdbId));
    }

    var ranked := Rank(recommendations);
    RankIsRanked(recommendations);
    AcceptedForSound(model, movieIndex, Filters(targetGenresLower, targetTagsLower, minRatingCount), nRecommendations);
    forall x | x in ranked ensures x in recommendations {
      assert x in multiset(recommendations);
    }
    r := Success(ranked);
  }

  /** Scores in a projected list never increase from one entry to the next. */
  predicate ScoresNonIncreasing(out: seq<Recommendation>) {
    forall i :: 0 <= i < |out| - 1 ==> out[i].similarityScore >= out[i + 1].similarityScore
  }

  /** `_transform_recommendations`: keeps only the `tmdbId` and `similarityScore` columns, row by row. */
  function TransformRecommendations(recs: seq<ScoredMovie>): (out: seq<Recommendation>)
    ensures |out| == |recs|
    ensures forall i :: 0 <= i < |recs| ==>
      out[i].tmdbId == recs[i].movie.tmdbId && out[i].similarityScore == recs[i].similarityScore
  {
    if recs == [] then []
    else [Recommendation(recs[0].movie.tmdbId, recs[0].similarityScore)] + TransformRecommendations(recs[1..])
  }

  /** The projection of a ranked list keeps its scores in descending order. */
  lemma TransformKeepsScoreOrder(recs: seq<ScoredMovie>)
    requires Ranked(recs)
    ensures ScoresNonIncreasing(TransformRecommendations(recs))
  {
  }

  /** The projection of a concatenation is the concatenation of the projections. */
  lemma TransformConcat(a: seq<ScoredMovie>, b: seq<ScoredMovie>)
    ensures TransformRecommendations(a + b) == TransformRecommendations(a) + TransformRecommendations(b)
  {
    var l, r := TransformRecommendations(a + b), TransformRecommendations(a) + TransformRecommendations(b);
    forall i | 0 <= i < |l| ensures l[i] == r[i] {
      if i < |a| {
        assert (a + b)[i] == a[i];
      } else {
        assert (a + b)[i] == b[i - |a|];
      }
    }
  }

  /** Rearranging the rows rearranges their projections the same way: the projection respects multisets. */
  lemma {:induction false} TransformMultiset(recs: seq<ScoredMovie>, acc: seq<ScoredMovie>)
    requires multiset(recs) == multiset(acc)
    ensures multiset(TransformRecommendations(recs)) == multiset(TransformRecommendations(acc))
    decreases |recs|
  {
    if recs == [] {
      assert |acc| == |multiset(acc)| == 0;
      assert acc == [];
    } else {
      var x := recs[0];
      assert x in multiset(acc);
      var i :| 0 <= i < |acc| && acc[i] == x;
      var before, after := acc[..i], acc[i + 1..];
      RemoveAt(acc, i);
      RemoveAt(recs, 0);
      assert recs[..0] + recs[1..] == recs[1..];
      TransformMultiset(recs[1..], before + after);
      var y := TransformRecommendations([x]);
      var tb, ta, tr := TransformRecommendations(before), TransformRecommendations(after), TransformRecommendations(recs[1..]);
      assert multiset(tr) == multiset(tb) + multiset(ta) by {
        TransformConcat(before, after);
        assert multiset(tb + ta) == multiset(tb) + multiset(ta);
      }
      assert multiset(TransformRecommendations(acc)) == multiset(tb) + multiset(y) + multiset(ta) by {
        TransformConcat(before + [x], after);
        TransformConcat(before, [x]);
        assert multiset(tb + y + ta) == multiset(tb) + multiset(y) + multiset(ta);
      }
      assert multiset(TransformRecommendations(recs)) == multiset(y) + multiset(tr) by {
        TransformConcat([x], recs[1..]);
        assert multiset(y + tr) == multiset(y) + multiset(tr);
      }
      Reassociate(multiset(TransformRecommendations(recs)), multiset(TransformRecommendations(acc)),
        multiset(y), multiset(tr), multiset(tb), multiset(ta));
    }
  }

  lemma Reassociate<T>(left: multiset<T>, right: multiset<T>, y: multiset<T>, tr: multiset<T>, tb: multiset<T>, ta: multiset<T>)
    requires left == y + tr && tr == tb + ta && right == tb + y + ta
    ensures left == right
  {
  }

  /** Taking out position `i` removes one occurrence of its element. */
  lemma RemoveAt<T>(s: seq<T>, i: nat)
    requires i < |s|
    ensures s == s[..i] + [s[i]] + s[i + 1..]
    ensures multiset(s[..i] + s[i + 1..]) == multiset(s) - multiset{s[i]}
  {
    assert s == s[..i] + [s[i]] + s[i + 1..];
  }

  /** Projecting a permutation of the accepted rows gives one entry per accepted row, each from one of them. */
  lemma TransformPermutation(recs: seq<ScoredMovie>, acc: seq<ScoredMovie>)
    requires multiset(recs) == multiset(acc)
    ensures multiset(TransformRecommendations(recs)) == multiset(TransformRecommendations(acc))
    ensures |TransformRecommendations(recs)| == |acc|
    ensures forall y :: y in TransformRecommendations(recs) ==>
      exists x :: x in acc && y == Recommendation(x.movie.tmdbId, x.similarityScore)
  {
    TransformMultiset(recs, acc);
    assert |multiset(recs)| == |multiset(acc)|;
    var out := TransformRecommendations(recs);
    forall y | y in out ensures exists x :: x in acc && y == Recommendation(x.movie.tmdbId, x.similarityScore) {
      var i :| 0 <= i < |out| && out[i] == y;
      assert recs[i] in multiset(acc);
    }
  }

  /** Every entry names a TMDB id of at least 1, as the response model demands. */
  predicate PositiveIds(out: seq<Recommendation>) {
    forall i :: 0 <= i < |out| ==> out[i].tmdbId >= 1
  }

  /** The projection of a permutation of `acc` has only ids of at least 1 exactly when every row of `acc` does. */
  lemma ProjectionIdsPositive(p: seq<ScoredMovie>, acc: seq<ScoredMovie>)
    requires multiset(p) == multiset(acc)
    ensures PositiveIds(TransformRecommendations(p)) <==> (forall x :: x in acc ==> x.movie.tmdbId >= 1)
  {
    var out := TransformRecommendations(p);
    assert |out| == |p|;
    assert PositiveIds(out) ==> (forall x :: x in acc ==> x.movie.tmdbId >= 1) by {
      if PositiveIds(out) {
        forall x | x in acc ensures x.movie.tmdbId >= 1 {
          assert x in multiset(p);
          var i :| 0 <= i < |p| && p[i] == x;
          assert out[i].tmdbId == x.movie.tmdbId && out[i].tmdbId >= 1;
        }
      }
    }
    assert (forall x :: x in acc ==> x.movie.tmdbId >= 1) ==> PositiveIds(out) by {
      if forall x :: x in acc ==> x.movie.tmdbId >= 1 {
        forall i | 0 <= i < |out| ensures out[i].tmdbId >= 1 {
          assert out[i].tmdbId == p[i].movie.tmdbId;
          assert p[i] in multiset(acc);
          assert p[i] in acc;
        }
      }
    }
  }

  /** No two rows of the metadata table share a TMDB id. */
  predicate UniqueIds(movies: seq<Movie>) {
    forall i, j :: 0 <= i < j < |movies| ==> movies[i].tmdbId != movies[j].tmdbId
  }

  /**
   * With unique TMDB ids and a strictly maximal diagonal, no projection of an
   * accepted row names the source movie.
   */
  lemma ProjectionOmitsSource(model: TrainedModel, src: nat, f: Filters, n: int, out: seq<Recommendation>)
    requires WellFormed(model) && src < |model.movies|
    requires DiagonalIsStrictMax(model.cosineSim[src], src) && UniqueIds(model.movies)
    requires forall y :: y in out ==>
      exists x :: x in AcceptedFor(model, src, f, n) && y == Recommendation(x.movie.tmdbId, x.similarityScore)
    ensures forall y :: y in out ==> y.tmdbId != model.movies[src].tmdbId
  {
    AcceptedForSound(model, src, f, n);
    forall y | y in out ensures y.tmdbId != model.movies[src].tmdbId {
      var x :| x in AcceptedFor(model, src, f, n) && y == Recommendation(x.movie.tmdbId, x.similarityScore);
      assert x.row != src && x.movie == model.movies[x.row];
    }
  }

  /**
   * `recommend`: the scan followed by the projection. The ranked output never
   * names the source movie when its diagonal score is the strict maximum of its
   * row and TMDB ids are unique.
   */
  method Recommend(
    tmdbId: int,
    model: TrainedModel,
    tags: Option<set<string>>,
    genres: Option<set<string>>,
    limit: int,
    minRatingCount: int)
    returns (r: Result<seq<Recommendation>, Error>)
    requires WellFormed(model)
    ensures r.Failure? ==> r.error == NotFound(tmdbId) || r.error == EmptyResult(tmdbId)
    ensures r == Failure(NotFound(tmdbId)) <==> tmdbId !in model.tmdbIdToIndex
    ensures tmdbId in model.tmdbIdToIndex ==>
      var src := model.tmdbIdToIndex[tmdbId];
      var f := Filters(NormalizeTargets(genres), NormalizeTargets(tags), minRatingCount);
      var acc := AcceptedFor(model, src, f, limit);
      && (r == Failure(EmptyResult(tmdbId)) <==> acc == [])
      && (acc != [] ==> r.Success?)
      && (r.Success? ==>
            exists p :: multiset(p) == multiset(acc) && Ranked(p) && r.value == TransformRecommendations(p))
      && (r.Success? ==>
            && |r.value| == |acc|
            && ScoresNonIncreasing(r.value)
            && forall y :: y in r.value ==>
                 exists x :: x in acc && y == Recommendation(x.movie.tmdbId, x.similarityScore))
    ensures r.Success? ==>
      var src := model.tmdbIdToIndex[tmdbId];
      && tmdbId in model.tmdbIdToIndex
      && 1 <= |r.value| <= Quota(limit)
      && (DiagonalIsStrictMax(model.cosineSim[src], src) && UniqueIds(model.movies)
            && model.movies[src].tmdbId == tmdbId
          ==> forall y :: y in r.value ==> y.tmdbId != tmdbId)
  {
    var found := FindMovieRecommendations(tmdbId, model, limit, genres, tags, minRatingCount);
    if found.Failure? {
      return Failure(found.error);
    }
    var out := TransformRecommendations(found.value);
    TransformKeepsScoreOrder(found.value);
    ghost var src := model.tmdbIdToIndex[tmdbId];
    ghost var f := Filters(NormalizeTargets(genres), NormalizeTargets(tags), minRatingCount);
    TransformPermutation(found.value, AcceptedFor(model, src, f, limit));
    if DiagonalIsStrictMax(model.cosineSim[src], src) && UniqueIds(model.movies) {
      ProjectionOmitsSource(model, src, f, limit, out);
    }
    r := Success(out);
  }
}
