/**
 * Worked examples of the engine on small literal snapshots.
 */
module Scenarios {
  import opened Wrappers
  import opened Text
  import opened Catalog
  import opened Ranking
  import opened Service

  const Comedy: string := "Comedy"
  const Drama: string := "Drama"

  /** Genre text as the metadata table stores it: `"Comedy|Drama"`, `"Drama"`, or missing. */
  const Item0: Movie := Movie(100, Some(Comedy + "|" + Drama), None, 200, 3.5)
  const Item1: Movie := Movie(101, Some(Comedy + "|" + Drama), None, 100, 3.0)
  const Item2: Movie := Movie(102, Some(Drama), None, 10, 4.5)
  const Item3: Movie := Movie(103, None, None, 60, 2.5)

  /** Four movies; only the row of movie 0 matters below. */
  const FourItems: TrainedModel := TrainedModel(
    [Item0, Item1, Item2, Item3],
    [[1.0, 0.9, 0.5, 0.2],
     [0.9, 1.0, 0.0, 0.0],
     [0.5, 0.0, 1.0, 0.0],
     [0.2, 0.0, 0.0, 1.0]],
    map[100 := 0, 101 := 1, 102 := 2, 103 := 3])

  /** The scan order of movie 0's row: every other movie, most similar first. */
  lemma FourItemsScanOrder()
    ensures ScanOrder(FourItems.cosineSim[0]) ==
      [Candidate(1, 0.9), Candidate(2, 0.5), Candidate(3, 0.2)]
  {
    var c0, c1, c2, c3 := Candidate(0, 1.0), Candidate(1, 0.9), Candidate(2, 0.5), Candidate(3, 0.2);
    assert Enumerate(FourItems.cosineSim[0]) == [c0, c1, c2, c3];
    assert SortByScoreDesc([c3]) == [c3];
    assert SortByScoreDesc([c2, c3]) == [c2, c3];
    assert SortByScoreDesc([c1, c2, c3]) == [c1, c2, c3];
  }

  lemma FourItemsWellFormed()
    ensures WellFormed(FourItems)
  {
  }

  /** Of the three candidates only movie 2 has fewer than 50 ratings. */
  lemma FourItemsPassing(s: seq<Candidate>)
    requires s == [Candidate(1, 0.9), Candidate(2, 0.5), Candidate(3, 0.2)]
    ensures AllPassing(s, FourItems.movies, Filters({}, {}, 50)) ==
      [ScoredMovie(1, Item1, 0.9), ScoredMovie(3, Item3, 0.2)]
  {
    var movies := FourItems.movies;
    var f := Filters({}, {}, 50);
    assert Passes(Item1, f) && !Passes(Item2, f) && Passes(Item3, f);
    AllPassingStep(s, 0, movies, f);
    AllPassingStep(s, 1, movies, f);
    AllPassingStep(s, 2, movies, f);
    assert s[..0] == [] && s[..3] == s;
  }

  /**
   * With limit 2 and a minimum of 50 ratings, the scan passes over movie 2
   * (score 0.5, only 10 ratings) and keeps movies 1 and 3.
   */
  lemma ScanSkipsRarelyRated()
    ensures WellFormed(FourItems)
    ensures AcceptedFor(FourItems, 0, Filters({}, {}, 50), 2) ==
      [ScoredMovie(1, Item1, 0.9), ScoredMovie(3, Item3, 0.2)]
  {
    FourItemsWellFormed();
    FourItemsScanOrder();
    FourItemsPassing(ScanOrder(FourItems.cosineSim[0]));
  }

  /** A movie without genre data fails every genre filter. */
  lemma NoGenreDataFailsGenreFilter(m: Movie, f: Filters)
    requires m.genres.None? && f.genres != {}
    ensures !Passes(m, f)
  {
    assert ParseGenres(m.genres) == [];
  }

  /** A genre name with no whitespace at its ends normalises to its lower-cased form. */
  lemma GenreNormalizes(g: string, lg: string)
    requires g != [] && !IsSpace(g[0]) && !IsSpace(g[|g| - 1])
    requires Lower(g) == lg
    ensures Normalize(g) == lg
  {
    StripUnstripped(g);
  }

  /** A genre text with one name and no `|` is that name, normalised. */
  lemma OneGenreParsed(g: string, lg: string)
    requires '|' !in g && g != [] && !IsSpace(g[0]) && !IsSpace(g[|g| - 1])
    requires Lower(g) == lg
    ensures ParseGenres(Some(g)) == [lg]
  {
    SplitJoin([g], '|');
    assert Join([g], '|') == g;
    GenreNormalizes(g, lg);
  }

  /** Two `|`-free names joined by `|` split back into the two names. */
  lemma TwoPiecesSplit(a: string, b: string)
    requires '|' !in a && '|' !in b
    ensures Split(a + "|" + b, '|') == [a, b]
  {
    var ps := [a, b];
    assert Join(ps, '|') == a + "|" + b by {
      assert Join(ps[1..], '|') == b;
    }
    SplitJoin(ps, '|');
  }

  /** Two non-empty pieces normalise one by one. */
  lemma TwoPiecesNormalized(a: string, b: string)
    requires a != [] && b != []
    ensures NormalizeNonEmpty([a, b]) == [Normalize(a), Normalize(b)]
  {
    NormalizeNonEmptyCons(b, []);
    NormalizeNonEmptyCons(a, [b]);
    assert [b] + [] == [b] && [a] + [b] == [a, b];
  }

  /** A genre text `a|b` is the two names, each normalised. */
  lemma TwoGenresParsed(a: string, b: string, la: string, lb: string)
    requires '|' !in a && a != [] && !IsSpace(a[0]) && !IsSpace(a[|a| - 1])
    requires '|' !in b && b != [] && !IsSpace(b[0]) && !IsSpace(b[|b| - 1])
    requires Lower(a) == la && Lower(b) == lb
    ensures ParseGenres(Some(a + "|" + b)) == [la, lb]
  {
    TwoPiecesSplit(a, b);
    TwoPiecesNormalized(a, b);
    GenreNormalizes(a, la);
    GenreNormalizes(b, lb);
  }

  /** A movie whose genre list lacks every requested genre fails the genre filter. */
  lemma GenreFilterMisses(m: Movie, f: Filters, gs: seq<string>)
    requires ParseGenres(m.genres) == gs
    requires f.genres != {} && forall g :: g in f.genres ==> g !in gs
    ensures !Passes(m, f)
  {
  }

  lemma LowerComedy()
    ensures Lower(Comedy) == "comedy"
  {
  }

  lemma LowerDrama()
    ensures Lower(Drama) == "drama"
  {
  }

  lemma ComedyDramaParsed()
    ensures ParseGenres(Some(Comedy + "|" + Drama)) == ["comedy", "drama"]
  {
    LowerComedy();
    LowerDrama();
    TwoGenresParsed(Comedy, Drama, "comedy", "drama");
  }

  lemma DramaParsed()
    ensures ParseGenres(Some(Drama)) == ["drama"]
  {
    LowerDrama();
    OneGenreParsed(Drama, "drama");
  }

  lemma ComedyDramaIsNotHorror(m: Movie, f: Filters)
    requires m.genres == Some(Comedy + "|" + Drama) && f.genres == {"horror"}
    ensures !Passes(m, f)
  {
    ComedyDramaParsed();
    GenreFilterMisses(m, f, ["comedy", "drama"]);
  }

  lemma DramaIsNotHorror(m: Movie, f: Filters)
    requires m.genres == Some(Drama) && f.genres == {"horror"}
    ensures !Passes(m, f)
  {
    DramaParsed();
    GenreFilterMisses(m, f, ["drama"]);
  }

  /** No candidate of the example is a horror film: two are labelled otherwise and one has no genre data. */
  lemma HorrorFailsEveryCandidate(f: Filters)
    requires f.genres == {"horror"}
    ensures !Passes(Item1, f) && !Passes(Item2, f) && !Passes(Item3, f)
  {
    ComedyDramaIsNotHorror(Item1, f);
    DramaIsNotHorror(Item2, f);
    NoGenreDataFailsGenreFilter(Item3, f);
  }

  /** Filtering on horror lets no candidate of the example through. */
  lemma HorrorNothingPasses(s: seq<Candidate>, f: Filters)
    requires s == [Candidate(1, 0.9), Candidate(2, 0.5), Candidate(3, 0.2)]
    requires f.genres == {"horror"}
    ensures AllPassing(s, FourItems.movies, f) == []
  {
    var movies := FourItems.movies;
    HorrorFailsEveryCandidate(f);
    assert s[..0] == [] && s[..3] == s;
    AllPassingStep(s, 0, movies, f);
    assert AllPassing(s[..1], movies, f) == [];
    AllPassingStep(s, 1, movies, f);
    assert AllPassing(s[..2], movies, f) == [];
    AllPassingStep(s, 2, movies, f);
  }

  lemma HorrorNothingScanned(model: TrainedModel, f: Filters)
    requires model == FourItems && f.genres == {"horror"}
    ensures AllPassing(ScanOrder(model.cosineSim[0]), model.movies, f) == []
  {
    FourItemsScanOrder();
    HorrorNothingPasses(ScanOrder(model.cosineSim[0]), f);
  }

  /** So asking for horror films similar to movie 0 ends in `EmptyResult`. */
  lemma HorrorRequestIsEmpty(model: TrainedModel, f: Filters, n: int)
    requires model == FourItems && f.genres == {"horror"}
    ensures WellFormed(model)
    ensures AcceptedFor(model, 0, f, n) == []
  {
    FourItemsWellFormed();
    HorrorNothingScanned(model, f);
  }

  /**
   * Two rows tied at 0.7: every ranked reordering of them, whichever order the
   * sort leaves, puts the one rated 4.2 ahead of the one rated 3.9.
   */
  lemma TieBrokenByAverageRating(a: ScoredMovie, b: ScoredMovie, p: seq<ScoredMovie>)
    requires a == ScoredMovie(1, Movie(201, None, None, 80, 4.2), 0.7)
    requires b == ScoredMovie(2, Movie(202, None, None, 90, 3.9), 0.7)
    requires multiset(p) == multiset([a, b]) && Ranked(p)
    ensures p == [a, b]
  {
    assert |p| == |multiset(p)| == 2;
    assert p[0] in multiset(p) && p[1] in multiset(p);
    assert p == [p[0], p[1]];
  }

  /** `Rank`, the order the model picks, is therefore that order, whatever the input order. */
  lemma RankBreaksTieByAverageRating(a: ScoredMovie, b: ScoredMovie)
    requires a == ScoredMovie(1, Movie(201, None, None, 80, 4.2), 0.7)
    requires b == ScoredMovie(2, Movie(202, None, None, 90, 3.9), 0.7)
    ensures Rank([b, a]) == [a, b] && Rank([a, b]) == [a, b]
  {
    RankIsRanked([b, a]);
    RankIsRanked([a, b]);
    assert multiset([b, a]) == multiset([a, b]);
    TieBrokenByAverageRating(a, b, Rank([b, a]));
    TieBrokenByAverageRating(a, b, Rank([a, b]));
  }
}
