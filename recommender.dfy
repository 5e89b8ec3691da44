/**
 * The content-based recommender: the shared catalog state (table and text model,
 * replaced together by a load), the recommendation pipeline with its four fallback
 * exits, and the request handler with its single reload attempt.
 */
module Recommender {
  import opened Common
  import opened History
  import opened Catalog
  import opened Profile
  import opened Ranking

  /**
   * The fitted text model together with the catalog's feature matrix, seen only through
   * what the pipeline asks of them: the similarity of a profile text to table row `i`.
   */
  type SimilarityModel = (string, nat) -> real

  /** The number of recommendations the request handler asks for. */
  const DefaultTopN: nat := 10

  /** The outcome of reading the catalog collection. */
  datatype CatalogSource =
    | Unavailable                      // no database client
    | ReadFailed                       // the stream raised
    | Documents(docs: seq<CatalogDoc>) // every document of the collection, in stream order

  /** What the request handler answers: a caller error, "not ready", or recommendations. */
  datatype Response = BadRequest | NotReady | Recommendations(result: Recommendation)

  /** The profile text: the features joined by single spaces. */
  function JoinWithSpaces(parts: seq<string>): string {
    if parts == [] then ""
    else if |parts| == 1 then parts[0]
    else parts[0] + " " + JoinWithSpaces(parts[1..])
  }

  /** One similarity score per table row, for the given profile text. */
  function ProfileScores(model: SimilarityModel, text: string, rows: nat): (r: seq<real>)
    ensures |r| == rows
    ensures forall i :: 0 <= i < rows ==> r[i] == model(text, i)
  {
    seq(rows, i requires 0 <= i < rows => model(text, i))
  }

  /**
   * The state a load leaves: the table of non-metadata documents with its fitted model,
   * or the empty table with no model when the database is missing, the read raises,
   * the collection has no movies, or fitting raises.
   */
  function LoadOutcome(source: CatalogSource, fit: seq<CatalogEntry> -> Option<SimilarityModel>): (seq<CatalogEntry>, Option<SimilarityModel>) {
    match source
    case Unavailable => ([], None)
    case ReadFailed => ([], None)
    case Documents(docs) =>
      var rows := CatalogRows(docs);
      if rows == [] then ([], None)
      else match fit(rows)
        case None => ([], None)
        case Some(m) => (rows, Some(m))
  }

  /**
   * A load never leaves a table without a model or a model without a table; a non-empty
   * table is exactly the collection's non-metadata entries, and every failure empties both.
   */
  lemma LoadOutcomeConsistent(source: CatalogSource, fit: seq<CatalogEntry> -> Option<SimilarityModel>)
    ensures LoadOutcome(source, fit).1.Some? <==> LoadOutcome(source, fit).0 != []
    ensures LoadOutcome(source, fit).0 != [] <==>
      source.Documents? && CatalogRows(source.docs) != [] && fit(CatalogRows(source.docs)).Some?
    ensures LoadOutcome(source, fit).0 != [] ==>
      LoadOutcome(source, fit).0 == CatalogRows(source.docs) &&
      forall e :: e in LoadOutcome(source, fit).0 ==> exists d :: d in source.docs && d.id != MetadataDocId && d.entry == e
  {
    if source.Documents? {
      CatalogRowsSkipMetadata(source.docs);
    }
  }

  /**
   * The recommendation pipeline as a whole. With no model or an empty table, with no
   * profile records, or with no profile record found in the catalog, the fallback listing;
   * otherwise the ranking of the table against the profile text, which itself falls back
   * when every row is watched.
   */
  function Recommended(
    table: seq<CatalogEntry>, model: Option<SimilarityModel>, history: seq<WatchRecord>,
    topN: nat, minDur: int, maxProfile: nat): Recommendation
  {
    if model.None? || table == [] then Fallback(FallbackListing(table, topN))
    else
      var profile := ProfileList(history, minDur, maxProfile);
      if profile == [] then Fallback(FallbackListing(table, topN))
      else
        var features := Features(table, profile);
        if features == [] then Fallback(FallbackListing(table, topN))
        else Rank(table, ProfileScores(model.value, JoinWithSpaces(features), |table|), WatchedSlugs(profile), topN)
  }

  /** Every fallback exit returns the same listing: the first `topN` rows in load order, reduced shape. */
  lemma FallbackIsLeadingRows(
    table: seq<CatalogEntry>, model: Option<SimilarityModel>, history: seq<WatchRecord>,
    topN: nat, minDur: int, maxProfile: nat)
    requires Recommended(table, model, history, topN, minDur, maxProfile).Fallback?
    ensures Recommended(table, model, history, topN, minDur, maxProfile).listing == FallbackListing(table, topN)
    ensures |Recommended(table, model, history, topN, minDur, maxProfile).listing| == Min(topN, |table|)
  {
    if model.Some? && table != [] {
      var profile := ProfileList(history, minDur, maxProfile);
      if profile != [] && Features(table, profile) != [] {
        var scores := ProfileScores(model.value, JoinWithSpaces(Features(table, profile)), |table|);
        RankFallbackWhenAllWatched(table, scores, WatchedSlugs(profile), topN);
      }
    }
  }

  /** A history with no record watched long enough, or a zero profile size, yields the fallback listing. */
  lemma NoQualifyingHistoryFallsBack(
    table: seq<CatalogEntry>, model: Option<SimilarityModel>, history: seq<WatchRecord>,
    topN: nat, minDur: int, maxProfile: nat)
    requires Eligible(history, minDur) == [] || maxProfile == 0
    ensures Recommended(table, model, history, topN, minDur, maxProfile) == Fallback(FallbackListing(table, topN))
  {
    ProfileListShape(history, minDur, maxProfile);
  }

  /**
   * When the profile has records but none of them is found in the catalog, the result is
   * the fallback listing, however many slugs the records carry.
   */
  lemma UnresolvedProfileFallsBack(
    table: seq<CatalogEntry>, model: Option<SimilarityModel>, history: seq<WatchRecord>,
    topN: nat, minDur: int, maxProfile: nat)
    requires forall r :: r in ProfileList(history, minDur, maxProfile) ==> !Resolves(table, r)
    ensures Recommended(table, model, history, topN, minDur, maxProfile) == Fallback(FallbackListing(table, topN))
  {
    FeaturesEmptyIff(table, ProfileList(history, minDur, maxProfile));
  }

  /**
   * The ranked variant comes back exactly when the state is ready, some profile record is
   * found in the catalog, and some table row is not watched.
   */
  lemma RankedExactlyWhen(
    table: seq<CatalogEntry>, model: Option<SimilarityModel>, history: seq<WatchRecord>,
    topN: nat, minDur: int, maxProfile: nat)
    ensures Recommended(table, model, history, topN, minDur, maxProfile).Ranked? <==>
      model.Some? && table != [] &&
      (exists r :: r in ProfileList(history, minDur, maxProfile) && Resolves(table, r)) &&
      (exists i :: 0 <= i < |table| && table[i].slug !in WatchedSlugs(ProfileList(history, minDur, maxProfile)))
  {
    var profile := ProfileList(history, minDur, maxProfile);
    FeaturesEmptyIff(table, profile);
    if model.Some? && table != [] && Features(table, profile) != [] {
      var scores := ProfileScores(model.value, JoinWithSpaces(Features(table, profile)), |table|);
      RankFallbackWhenAllWatched(table, scores, WatchedSlugs(profile), topN);
    }
  }

  /**
   * A ranked result never recommends a profile record's slug, found in the catalog or
   * not; each entry is an unwatched table row carrying the model's score for that row;
   * and it holds `min(topN, number of unwatched rows)` entries.
   */
  lemma RankedExcludesProfile(
    table: seq<CatalogEntry>, model: Option<SimilarityModel>, history: seq<WatchRecord>,
    topN: nat, minDur: int, maxProfile: nat)
    requires Recommended(table, model, history, topN, minDur, maxProfile).Ranked?
    ensures var ranked := Recommended(table, model, history, topN, minDur, maxProfile).ranked;
      var profile := ProfileList(history, minDur, maxProfile);
      var text := JoinWithSpaces(Features(table, profile));
      && model.Some?
      && (forall k, r :: 0 <= k < |ranked| && r in profile && r.slug.Some? && r.slug.value != "" ==> ranked[k].slug != r.slug.value)
      && (forall k :: 0 <= k < |ranked| ==>
            exists i :: 0 <= i < |table| && ranked[k] == ToScored(table[i], model.value(text, i)))
      && |ranked| == Min(topN, |Candidates(table, ProfileScores(model.value, text, |table|), WatchedSlugs(profile))|)
  {
    var profile := ProfileList(history, minDur, maxProfile);
    var text := JoinWithSpaces(Features(table, profile));
    var scores := ProfileScores(model.value, text, |table|);
    var watched := WatchedSlugs(profile);
    var ranked := Rank(table, scores, watched, topN).ranked;
    RankedExcludesWatched(table, scores, watched, topN);
    RankedLength(table, scores, watched, topN);
    WatchedSlugsMembers(profile);
    forall k, r | 0 <= k < |ranked| && r in profile && r.slug.Some? && r.slug.value != "" ensures ranked[k].slug != r.slug.value {
      assert r.slug.value in watched;
    }
  }

  /** A ranked result is ordered by score, highest first, and no unwatched row left out scores higher than one kept. */
  lemma RankedIsOrdered(
    table: seq<CatalogEntry>, model: Option<SimilarityModel>, history: seq<WatchRecord>,
    topN: nat, minDur: int, maxProfile: nat)
    requires Recommended(table, model, history, topN, minDur, maxProfile).Ranked?
    ensures var ranked := Recommended(table, model, history, topN, minDur, maxProfile).ranked;
      forall j, k :: 0 <= j < k < |ranked| ==> ranked[j].similarity >= ranked[k].similarity
  {
    var profile := ProfileList(history, minDur, maxProfile);
    var scores := ProfileScores(model.value, JoinWithSpaces(Features(table, profile)), |table|);
    RankedIsTopN(table, scores, WatchedSlugs(profile), topN);
  }

  /**
   * A user whose only history record was watched long enough and is found in a catalog
   * that has another title gets a ranked list without that record's title.
   */
  lemma SingleWatchedMovieIsRanked(
    table: seq<CatalogEntry>, model: SimilarityModel, r: WatchRecord,
    topN: nat, minDur: int, maxProfile: nat)
    requires r.totalWatchedDurationSeconds >= minDur && maxProfile >= 1
    requires Resolves(table, r)
    requires exists i :: 0 <= i < |table| && table[i].slug != r.slug.value
    ensures Recommended(table, Some(model), [r], topN, minDur, maxProfile).Ranked?
    ensures forall k :: 0 <= k < |Recommended(table, Some(model), [r], topN, minDur, maxProfile).ranked| ==>
      Recommended(table, Some(model), [r], topN, minDur, maxProfile).ranked[k].slug != r.slug.value
  {
    SingleRecordProfile(r, minDur, maxProfile);
    var profile := ProfileList([r], minDur, maxProfile);
    assert r in profile;
    var i :| 0 <= i < |table| && table[i].slug != r.slug.value;
    assert table[i].slug !in WatchedSlugs(profile);
    RankedExactlyWhen(table, Some(model), [r], topN, minDur, maxProfile);
    if Recommended(table, Some(model), [r], topN, minDur, maxProfile).Ranked? {
      RankedExcludesProfile(table, Some(model), [r], topN, minDur, maxProfile);
    }
  }

  /**
   * The process-wide recommender state: the catalog table and its text model, which a
   * load replaces together.
   */
  class RecommenderService {
    var table: seq<CatalogEntry>
    var model: Option<SimilarityModel>

    /** A model exists exactly when the table is not empty. */
    ghost predicate Valid()
      reads this
    {
      model.Some? <==> table != []
    }

    /** Ready to rank: a table and a model. */
    predicate Ready()
      reads this
    {
      table != [] && model.Some?
    }

    /** The state before the first load: an empty table and no model. */
    constructor ()
      ensures Valid() && table == [] && model.None?
    {
      table := [];
      model := None;
    }

    /** Reads the catalog and fits the model; any failure leaves an empty table and no model. Returns the new table. */
    method Load(source: CatalogSource, fit: seq<CatalogEntry> -> Option<SimilarityModel>) returns (loaded: seq<CatalogEntry>)
      modifies this
      ensures Valid()
      ensures (table, model) == LoadOutcome(source, fit)
      ensures loaded == table
    {
      match source {
        case Unavailable =>
          table, model := [], None;
        case ReadFailed =>
          table, model := [], None;
        case Documents(docs) =>
          var rows := CollectCatalogRows(docs);
          table := rows;
          if rows != [] {
            var fitted := fit(rows);
            if fitted.Some? {
              model := fitted;
            } else {
              table, model := [], None;
            }
          } else {
            model := None;
          }
      }
      loaded := table;
    }

    /** Recommends for one user against the current state, leaving the state as it is. */
    method Recommend(userId: string, store: HistoryStore, topN: nat, minDur: int, maxProfile: nat) returns (r: Recommendation)
      ensures r == Recommended(table, model, HistoryOf(store, userId), topN, minDur, maxProfile)
    {
      if model.None? || |table| == 0 {
        return Fallback(FallbackListing(table, topN));
      }
      var history := ReadHistory(store, userId);
      var profile := BuildProfileList(history, minDur, maxProfile);
      if |profile| == 0 {
        return Fallback(FallbackListing(table, topN));
      }
      var watched, features := CollectProfile(table, profile);
      if |features| == 0 {
        return Fallback(FallbackListing(table, topN));
      }
      var scores := ProfileScores(model.value, JoinWithSpaces(features), |table|);
      r := Rank(table, scores, watched, topN);
    }

    /**
     * The recommendation request: a missing or empty user id is a caller error and touches
     * nothing; a state that is not ready is reloaded once, and "not ready" is the answer
     * if the table is still empty; otherwise the top ten for the default profile settings.
     */
    method HandleRecommend(
      userId: Option<string>, source: CatalogSource, fit: seq<CatalogEntry> -> Option<SimilarityModel>,
      store: HistoryStore) returns (resp: Response)
      requires Valid()
      modifies this
      ensures Valid()
      ensures (userId.None? || userId.value == "") ==> resp == BadRequest && unchanged(this)
      ensures userId.Some? && userId.value != "" && old(Ready()) ==>
        unchanged(this) &&
        resp == Recommendations(Recommended(table, model, HistoryOf(store, userId.value),
                                            DefaultTopN, DefaultMinWatchSeconds, DefaultMaxProfileMovies))
      ensures userId.Some? && userId.value != "" && !old(Ready()) ==>
        (table, model) == LoadOutcome(source, fit) &&
        resp == (if table == [] then NotReady
                 else Recommendations(Recommended(table, model, HistoryOf(store, userId.value),
                                                  DefaultTopN, DefaultMinWatchSeconds, DefaultMaxProfileMovies)))
    {
      if userId.None? || userId.value == "" {
        return BadRequest;
      }
      if |table| == 0 || model.None? {
        var loaded := Load(source, fit);
        if |loaded| == 0 {
          return NotReady;
        }
      }
      var r := Recommend(userId.value, store, DefaultTopN, DefaultMinWatchSeconds, DefaultMaxProfileMovies);
      resp := Recommendations(r);
    }
  }

  /** A catalog with no movies: the handler reloads once and answers "not ready". */
  method EmptyCatalogIsNotReady(store: HistoryStore) {
    var service := new RecommenderService();
    var noFit := (rows: seq<CatalogEntry>) => None;
    var meta := CatalogDoc(MetadataDocId, CatalogEntry("", "", "", "", 0, [], ""));
    var loaded := service.Load(Documents([meta]), noFit);
    assert [meta][..0] == [];
    assert loaded == [];
    var resp := service.HandleRecommend(Some("u1"), Documents([]), noFit, store);
    assert resp == NotReady;
    resp := service.HandleRecommend(None, Documents([]), noFit, store);
    assert resp == BadRequest;
  }
}
