/**
 * The two orderings of the recommender: the scan order of a similarity row
 * (Python's stable `sorted(..., reverse=True)` on the score, then `[1:]`),
 * and the final ranking by (similarity score, average rating), both descending.
 */
module Ranking {
  import opened Catalog

  /** One `(index, score)` pair of `enumerate(similarity_matrix[movie_index])`. */
  datatype Candidate = Candidate(index: nat, score: Score)

  /** `list(enumerate(row))`. */
  function Enumerate(row: seq<Score>): (r: seq<Candidate>)
    ensures |r| == |row|
    ensures forall j :: 0 <= j < |row| ==> r[j] == Candidate(j, row[j])
  {
    seq(|row|, j requires 0 <= j < |row| => Candidate(j, row[j]))
  }

  /** A pair the stable descending sort puts first: higher score, or equal score and earlier index. */
  predicate ScansBefore(a: Candidate, b: Candidate) {
    a.score > b.score || (a.score == b.score && a.index < b.index)
  }

  predicate StrictlyOrdered(s: seq<Candidate>) {
    forall i, j :: 0 <= i < j < |s| ==> ScansBefore(s[i], s[j])
  }

  predicate IndexAscending(s: seq<Candidate>) {
    forall i, j :: 0 <= i < j < |s| ==> s[i].index < s[j].index
  }

  /** Inserts `c` before the first element whose score does not exceed its own. */
  function InsertByScore(c: Candidate, s: seq<Candidate>): (r: seq<Candidate>)
    ensures |r| == |s| + 1
    ensures multiset(r) == multiset(s) + multiset{c}
    ensures s != [] ==> r[0] == c || r[0] == s[0]
  {
    if s == [] || c.score >= s[0].score then [c] + s
    else
      assert s == [s[0]] + s[1..];
      [s[0]] + InsertByScore(c, s[1..])
  }

  /**
   * The stable descending sort of the pairs by score. Elements come in
   * front-to-back, each placed ahead of equal scores that follow it, so equal
   * scores keep their original order.
   */
  function SortByScoreDesc(s: seq<Candidate>): (r: seq<Candidate>)
    ensures |r| == |s|
    ensures multiset(r) == multiset(s)
  {
    if s == [] then []
    else
      assert s == [s[0]] + s[1..];
      InsertByScore(s[0], SortByScoreDesc(s[1..]))
  }

  lemma {:induction false} InsertKeepsOrder(c: Candidate, s: seq<Candidate>)
    requires StrictlyOrdered(s)
    requires forall k :: 0 <= k < |s| ==> c.index < s[k].index
    ensures StrictlyOrdered(InsertByScore(c, s))
  {
    if s != [] && c.score < s[0].score {
      var rest := InsertByScore(c, s[1..]);
      InsertKeepsOrder(c, s[1..]);
      forall m | 0 <= m < |rest| ensures ScansBefore(s[0], rest[m]) {
        assert rest[m] in multiset(rest);
        if rest[m] != c {
          assert rest[m] in s[1..];
        }
      }
    }
  }

  /** With ascending indices (as `enumerate` gives), the sort is strictly ordered by (score desc, index asc). */
  lemma {:induction false} SortIsStableDescending(s: seq<Candidate>)
    requires IndexAscending(s)
    ensures StrictlyOrdered(SortByScoreDesc(s))
  {
    if s != [] {
      var sorted := SortByScoreDesc(s[1..]);
      SortIsStableDescending(s[1..]);
      forall k | 0 <= k < |sorted| ensures s[0].index < sorted[k].index {
        assert sorted[k] in multiset(s[1..]);
      }
      InsertKeepsOrder(s[0], sorted);
    }
  }

  /** `[1:]`: drops the first element by position, whatever it is. */
  function DropFirst(s: seq<Candidate>): (r: seq<Candidate>)
    ensures s == [] ==> r == []
    ensures s != [] ==> s == [s[0]] + r
  {
    if s == [] then [] else s[1..]
  }

  /** The order in which the scan visits the candidates of a similarity row. */
  function ScanOrder(row: seq<Score>): seq<Candidate> {
    DropFirst(SortByScoreDesc(Enumerate(row)))
  }

  /** Row `m` holds a maximum of `row`, and no earlier row holds the same maximum. */
  predicate IsFirstMaximum(row: seq<Score>, m: nat) {
    && m < |row|
    && (forall j :: 0 <= j < |row| ==> row[j] <= row[m])
    && (forall j :: 0 <= j < m ==> row[j] < row[m])
  }

  /** The source's diagonal score is strictly greater than every other score of its row. */
  predicate DiagonalIsStrictMax(row: seq<Score>, src: nat) {
    src < |row| && forall j :: 0 <= j < |row| && j != src ==> row[j] < row[src]
  }

  /** Pairs of one row that are strictly ordered name distinct rows. */
  lemma OrderedEntriesDistinct(s: seq<Candidate>, row: seq<Score>)
    requires StrictlyOrdered(s)
    requires forall c :: c in s ==> c.index < |row| && c.score == row[c.index]
    ensures forall i, j :: 0 <= i < j < |s| ==> s[i].index != s[j].index
  {
    forall i, j | 0 <= i < j < |s|
      ensures s[i].index != s[j].index
    {
      assert s[i] in s && s[j] in s;
      assert ScansBefore(s[i], s[j]);
    }
  }

  lemma SortedRowMembers(row: seq<Score>)
    ensures forall c :: c in SortByScoreDesc(Enumerate(row)) <==> c.index < |row| && c.score == row[c.index]
  {
    var e := Enumerate(row);
    var sorted := SortByScoreDesc(e);
    forall c ensures c in sorted <==> c.index < |row| && c.score == row[c.index] {
      assert c in sorted <==> c in multiset(e);
      if c.index < |row| && c.score == row[c.index] {
        assert e[c.index] == c;
      }
    }
  }

  /** The sorted row holds exactly the pairs `(j, row[j])`, each once, strictly ordered. */
  lemma SortedRowEntries(row: seq<Score>)
    ensures var sorted := SortByScoreDesc(Enumerate(row));
            && StrictlyOrdered(sorted)
            && (forall c :: c in sorted <==> c.index < |row| && c.score == row[c.index])
            && (forall i, j :: 0 <= i < j < |sorted| ==> sorted[i].index != sorted[j].index)
  {
    SortIsStableDescending(Enumerate(row));
    SortedRowMembers(row);
    OrderedEntriesDistinct(SortByScoreDesc(Enumerate(row)), row);
  }

  /** The head of the sorted row is the first maximum of the row. */
  lemma SortedHeadIsFirstMaximum(row: seq<Score>)
    requires row != []
    ensures var d := SortByScoreDesc(Enumerate(row))[0];
            IsFirstMaximum(row, d.index) && d.score == row[d.index]
  {
    var sorted := SortByScoreDesc(Enumerate(row));
    SortIsStableDescending(Enumerate(row));
    SortedRowMembers(row);
    var d := sorted[0];
    assert d in sorted;
    forall j | 0 <= j < |row| ensures row[j] <= row[d.index] && (j < d.index ==> row[j] < row[d.index]) {
      HeadScansFirst(sorted, Candidate(j, row[j]));
    }
  }

  /**
   * Exactly one pair is removed before the scan: the first maximum of the row,
   * the lowest index holding the highest score. Every other pair is scanned.
   */
  lemma DroppedIsFirstMaximum(row: seq<Score>)
    requires row != []
    ensures var d := SortByScoreDesc(Enumerate(row))[0];
            && IsFirstMaximum(row, d.index) && d.score == row[d.index]
            && multiset(ScanOrder(row)) + multiset{d} == multiset(Enumerate(row))
  {
    SortedHeadIsFirstMaximum(row);
    var sorted := SortByScoreDesc(Enumerate(row));
    assert sorted == [sorted[0]] + ScanOrder(row);
  }

  /** The head of a strictly ordered sequence is, or scans before, each of its elements. */
  lemma HeadScansFirst(s: seq<Candidate>, c: Candidate)
    requires StrictlyOrdered(s) && c in s
    ensures s[0] == c || ScansBefore(s[0], c)
  {
    var k :| 0 <= k < |s| && s[k] == c;
    if k != 0 {
      assert ScansBefore(s[0], s[k]);
    }
  }

  /** Dropping the head keeps a sequence strictly ordered and keeps its members among the row's pairs. */
  lemma DropFirstKeeps(s: seq<Candidate>, row: seq<Score>)
    requires StrictlyOrdered(s)
    requires forall c :: c in s ==> c.index < |row| && c.score == row[c.index]
    ensures StrictlyOrdered(DropFirst(s))
    ensures forall c :: c in DropFirst(s) ==> c.index < |row| && c.score == row[c.index]
  {
    var d := DropFirst(s);
    if s != [] {
      forall c | c in d ensures c in s {
        var k :| 0 <= k < |d| && d[k] == c;
        assert s[k + 1] == c;
      }
    }
  }

  /** The scan visits the pairs `(j, row[j])` of the row, each at most once, in strict scan order. */
  lemma ScanOrderEntries(row: seq<Score>)
    ensures var s := ScanOrder(row);
            && StrictlyOrdered(s)
            && (forall c :: c in s ==> c.index < |row| && c.score == row[c.index])
            && (forall i, j :: 0 <= i < j < |s| ==> s[i].index != s[j].index)
  {
    SortIsStableDescending(Enumerate(row));
    SortedRowMembers(row);
    DropFirstKeeps(SortByScoreDesc(Enumerate(row)), row);
    OrderedEntriesDistinct(ScanOrder(row), row);
  }

  /** Every pair the scan visits names a row of the similarity row. */
  lemma ScanOrderInRange(row: seq<Score>)
    ensures forall k :: 0 <= k < |ScanOrder(row)| ==> ScanOrder(row)[k].index < |row|
  {
    ScanOrderEntries(row);
    var s := ScanOrder(row);
    forall k | 0 <= k < |s| ensures s[k].index < |row| {
      assert s[k] in s;
    }
  }

  /**
   * When the diagonal score is the strict maximum of its row, the positional
   * drop removes exactly the source: the source row is never scanned and every
   * other row is.
   */
  lemma SourceNeverScanned(row: seq<Score>, src: nat)
    requires DiagonalIsStrictMax(row, src)
    ensures forall c :: c in ScanOrder(row) ==> c.index != src
    ensures forall j :: 0 <= j < |row| && j != src ==> Candidate(j, row[j]) in ScanOrder(row)
  {
    SortedHeadIsFirstMaximum(row);
    var sorted := SortByScoreDesc(Enumerate(row));
    var s := ScanOrder(row);
    assert sorted[0].index == src;
    SortedRowEntries(row);
    assert sorted == [sorted[0]] + s;
    forall c | c in s ensures c.index != src {
      var k :| 0 <= k < |s| && s[k] == c;
      assert sorted[k + 1] == c;
    }
    forall j | 0 <= j < |row| && j != src ensures Candidate(j, row[j]) in s {
      assert Candidate(j, row[j]) in sorted;
    }
  }

  // ------------------------------------------------------------ the tie case

  /** A row in which row 0 ties the source's diagonal score: the positional drop removes row 0 and keeps the source. */
  lemma PositionalDropKeepsSourceOnTie()
    ensures ScanOrder([1.0, 1.0]) == [Candidate(1, 1.0)]
    ensures !DiagonalIsStrictMax([1.0, 1.0], 1)
  {
    var e := Enumerate([1.0, 1.0]);
    assert e == [Candidate(0, 1.0), Candidate(1, 1.0)];
    assert e[1..] == [Candidate(1, 1.0)];
    assert SortByScoreDesc(e[1..][1..]) == [];
    assert SortByScoreDesc(e[1..]) == [Candidate(1, 1.0)];
    assert SortByScoreDesc(e) == [Candidate(0, 1.0), Candidate(1, 1.0)];
  }

  /** Exclusion of the source by index equality, independent of sort position. */
  function ExcludeSource(s: seq<Candidate>, src: nat): (r: seq<Candidate>)
    ensures forall c :: c in r <==> c in s && c.index != src
  {
    if s == [] then []
    else
      var rest := ExcludeSource(s[1..], src);
      assert forall c :: c in s <==> c == s[0] || c in s[1..];
      if s[0].index == src then rest else [s[0]] + rest
  }

  /** The scan order with the source excluded by index: sort, then drop the source's pair wherever it is. */
  function ScanOrderExcludingSource(row: seq<Score>, src: nat): seq<Candidate> {
    ExcludeSource(SortByScoreDesc(Enumerate(row)), src)
  }

  /** Excluding by index never scans the source and scans every other row, ties or not. */
  lemma ExcludingSourceScansAllOthers(row: seq<Score>, src: nat)
    ensures forall c :: c in ScanOrderExcludingSource(row, src) ==>
      c.index != src && c.index < |row| && c.score == row[c.index]
    ensures forall j :: 0 <= j < |row| && j != src ==> Candidate(j, row[j]) in ScanOrderExcludingSource(row, src)
  {
    SortedRowEntries(row);
  }

  lemma {:induction false} ExcludeAbsent(s: seq<Candidate>, src: nat)
    requires forall k :: 0 <= k < |s| ==> s[k].index != src
    ensures ExcludeSource(s, src) == s
  {
    if s != [] {
      ExcludeAbsent(s[1..], src);
    }
  }

  /** When the diagonal is the strict maximum, the positional drop and the index exclusion agree. */
  lemma DropFirstAgreesWithExclusion(row: seq<Score>, src: nat)
    requires DiagonalIsStrictMax(row, src)
    ensures ScanOrder(row) == ScanOrderExcludingSource(row, src)
  {
    var sorted := SortByScoreDesc(Enumerate(row));
    DroppedIsFirstMaximum(row);
    SourceNeverScanned(row, src);
    var s := ScanOrder(row);
    forall k | 0 <= k < |s| ensures s[k].index != src {
      assert s[k] in s;
    }
    ExcludeAbsent(s, src);
    assert sorted == [sorted[0]] + s;
  }

  // ------------------------------------------------------------ final ranking

  /** `sort_values(by=["similarityScore", "averageRating"], ascending=[False, False])` puts `a` no later than `b`. */
  predicate RankedBefore(a: ScoredMovie, b: ScoredMovie) {
    || a.similarityScore > b.similarityScore
    || (a.similarityScore == b.similarityScore && a.movie.averageRating >= b.movie.averageRating)
  }

  /** Every adjacent pair is in (score desc, rating desc) order. */
  predicate Ranked(s: seq<ScoredMovie>) {
    forall i :: 0 <= i < |s| - 1 ==> RankedBefore(s[i], s[i + 1])
  }

  function InsertRanked(x: ScoredMovie, s: seq<ScoredMovie>): (r: seq<ScoredMovie>)
    ensures |r| == |s| + 1
    ensures multiset(r) == multiset(s) + multiset{x}
    ensures s != [] ==> r[0] == x || r[0] == s[0]
  {
    if s == [] || RankedBefore(x, s[0]) then [x] + s
    else
      assert s == [s[0]] + s[1..];
      [s[0]] + InsertRanked(x, s[1..])
  }

  /**
   * One ordering `sort_values` may produce. pandas leaves the order of rows
   * equal in both keys unspecified; this one is as good as any other.
   */
  function Rank(s: seq<ScoredMovie>): (r: seq<ScoredMovie>)
    ensures |r| == |s|
    ensures multiset(r) == multiset(s)
  {
    if s == [] then []
    else
      assert s == [s[0]] + s[1..];
      InsertRanked(s[0], Rank(s[1..]))
  }

  lemma {:induction false} InsertRankedKeepsOrder(x: ScoredMovie, s: seq<ScoredMovie>)
    requires Ranked(s)
    ensures Ranked(InsertRanked(x, s))
  {
    if s != [] && !RankedBefore(x, s[0]) {
      InsertRankedKeepsOrder(x, s[1..]);
    }
  }

  /** The ranking is a permutation in (score desc, rating desc) order. */
  lemma {:induction false} RankIsRanked(s: seq<ScoredMovie>)
    ensures Ranked(Rank(s))
  {
    if s != [] {
      RankIsRanked(s[1..]);
      InsertRankedKeepsOrder(s[0], Rank(s[1..]));
    }
  }
}
