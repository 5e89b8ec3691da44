/**
 * Ranking: every catalog row paired with its similarity score, the rows whose slug
 * was watched dropped, the rest ordered by score and cut to `topN`; and the result
 * variant that tells a ranked list from the fallback listing.
 */
module Ranking {
  import opened Common
  import opened Sorting
  import opened Catalog

  /** A ranked result row: the display fields, the genres and the row's similarity score. */
  datatype ScoredEntry = ScoredEntry(
    slug: string,
    name: string,
    posterUrl: string,
    thumbUrl: string,
    year: int,
    genresSlugs: seq<string>,
    similarity: real)

  /** What a recommendation call returns: a scored ranking, or the reduced fallback listing. */
  datatype Recommendation = Ranked(ranked: seq<ScoredEntry>) | Fallback(listing: seq<Listing>)

  function ToScored(e: CatalogEntry, score: real): ScoredEntry {
    ScoredEntry(e.slug, e.name, e.posterUrl, e.thumbUrl, e.year, e.genresSlugs, score)
  }

  function SimilarityOf(e: ScoredEntry): real {
    e.similarity
  }

  /** The table with its similarity column: row `i` carries score `scores[i]`. */
  function ScoredRows(table: seq<CatalogEntry>, scores: seq<real>): seq<ScoredEntry>
    requires |scores| == |table|
  {
    seq(|table|, i requires 0 <= i < |table| => ToScored(table[i], scores[i]))
  }

  function Unwatched(watched: set<string>): ScoredEntry -> bool {
    (e: ScoredEntry) => e.slug !in watched
  }

  /** The rows left after the exclusion mask, in table order. */
  function Candidates(table: seq<CatalogEntry>, scores: seq<real>, watched: set<string>): seq<ScoredEntry>
    requires |scores| == |table|
  {
    Filter(ScoredRows(table, scores), Unwatched(watched))
  }

  /**
   * Ranks the candidates by score, highest first, and keeps the first `topN`; when the
   * exclusion leaves nothing, the fallback listing instead.
   */
  function Rank(table: seq<CatalogEntry>, scores: seq<real>, watched: set<string>, topN: nat): Recommendation
    requires |scores| == |table|
  {
    var candidates := Candidates(table, scores, watched);
    if candidates == [] then Fallback(FallbackListing(table, topN))
    else
      var sorted := SortDesc(candidates, SimilarityOf);
      Ranked(sorted[..Min(topN, |sorted|)])
  }

  /** A candidate is exactly an unwatched table row carrying its own row's score. */
  lemma CandidatesAreUnwatchedRows(table: seq<CatalogEntry>, scores: seq<real>, watched: set<string>)
    requires |scores| == |table|
    ensures forall e :: e in Candidates(table, scores, watched) <==>
      exists i :: 0 <= i < |table| && table[i].slug !in watched && e == ToScored(table[i], scores[i])
    ensures Candidates(table, scores, watched) == [] <==> forall i :: 0 <= i < |table| ==> table[i].slug in watched
  {
    var rows := ScoredRows(table, scores);
    var c := Candidates(table, scores, watched);
    FilterMembers(rows, Unwatched(watched));
    forall e | e in c ensures exists i :: 0 <= i < |table| && table[i].slug !in watched && e == ToScored(table[i], scores[i]) {
      var i :| 0 <= i < |rows| && rows[i] == e;
    }
    forall i | 0 <= i < |table| && table[i].slug !in watched ensures ToScored(table[i], scores[i]) in c {
      assert rows[i] in rows;
    }
    if c != [] {
      assert c[0] in c;
    }
  }

  /** The fallback variant is returned exactly when every row is watched, and it is the fallback listing. */
  lemma RankFallbackWhenAllWatched(table: seq<CatalogEntry>, scores: seq<real>, watched: set<string>, topN: nat)
    requires |scores| == |table|
    ensures Rank(table, scores, watched, topN).Fallback? <==> forall i :: 0 <= i < |table| ==> table[i].slug in watched
    ensures Rank(table, scores, watched, topN).Fallback? ==> Rank(table, scores, watched, topN).listing == FallbackListing(table, topN)
  {
    CandidatesAreUnwatchedRows(table, scores, watched);
  }

  /** A ranked result holds `min(topN, number of unwatched rows)` entries and repeats no row more often than the candidates do. */
  lemma RankedLength(table: seq<CatalogEntry>, scores: seq<real>, watched: set<string>, topN: nat)
    requires |scores| == |table|
    requires Rank(table, scores, watched, topN).Ranked?
    ensures |Rank(table, scores, watched, topN).ranked| == Min(topN, |Candidates(table, scores, watched)|)
    ensures multiset(Rank(table, scores, watched, topN).ranked) <= multiset(Candidates(table, scores, watched))
  {
    var c := Candidates(table, scores, watched);
    var sorted := SortDesc(c, SimilarityOf);
    var n := Min(topN, |sorted|);
    var r := Rank(table, scores, watched, topN).ranked;
    SortDescSortedPermutation(c, SimilarityOf);
    assert r == sorted[..n];
    PrefixSubMultiset(sorted, n);
  }

  /** Every entry of a ranked result is an unwatched table row carrying its own row's score. */
  lemma RankedExcludesWatched(table: seq<CatalogEntry>, scores: seq<real>, watched: set<string>, topN: nat)
    requires |scores| == |table|
    requires Rank(table, scores, watched, topN).Ranked?
    ensures forall k :: 0 <= k < |Rank(table, scores, watched, topN).ranked| ==>
      Rank(table, scores, watched, topN).ranked[k].slug !in watched &&
      exists i :: 0 <= i < |table| && Rank(table, scores, watched, topN).ranked[k] == ToScored(table[i], scores[i])
  {
    var c := Candidates(table, scores, watched);
    var r := Rank(table, scores, watched, topN).ranked;
    RankedLength(table, scores, watched, topN);
    forall k | 0 <= k < |r| ensures r[k].slug !in watched && exists i :: 0 <= i < |table| && r[k] == ToScored(table[i], scores[i]) {
      assert r[k] in multiset(r);
      assert r[k] in c;
      CandidatesAreUnwatchedRows(table, scores, watched);
    }
  }

  /**
   * A ranked result is ordered by score, highest first, and is a true top-N: every
   * unwatched row it leaves out scores no higher than any row it keeps.
   */
  lemma RankedIsTopN(table: seq<CatalogEntry>, scores: seq<real>, watched: set<string>, topN: nat)
    requires |scores| == |table|
    requires Rank(table, scores, watched, topN).Ranked?
    ensures forall j, k :: 0 <= j < k < |Rank(table, scores, watched, topN).ranked| ==>
      Rank(table, scores, watched, topN).ranked[j].similarity >= Rank(table, scores, watched, topN).ranked[k].similarity
    ensures forall x, k ::
              x in multiset(Candidates(table, scores, watched)) - multiset(Rank(table, scores, watched, topN).ranked) &&
              0 <= k < |Rank(table, scores, watched, topN).ranked| ==>
              x.similarity <= Rank(table, scores, watched, topN).ranked[k].similarity
  {
    var c := Candidates(table, scores, watched);
    var sorted := SortDesc(c, SimilarityOf);
    var n := Min(topN, |sorted|);
    var r := Rank(table, scores, watched, topN).ranked;
    SortDescSortedPermutation(c, SimilarityOf);
    assert r == sorted[..n];
    forall j, k | 0 <= j < k < |r| ensures r[j].similarity >= r[k].similarity {
      assert r[j] == sorted[j] && r[k] == sorted[k];
      assert SimilarityOf(sorted[j]) >= SimilarityOf(sorted[k]);
    }
    PrefixDominates(sorted, n, SimilarityOf);
  }
}
