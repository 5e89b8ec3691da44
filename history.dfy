/**
 * The watch-history reader: raw history documents of one user, normalised into
 * records whose duration and completion fields are always present.
 */
module History {
  import opened Common

  /** A watch-history document as stored: every field may be missing. */
  datatype HistoryDoc = HistoryDoc(
    movieId: Option<string>,
    title: Option<string>,
    genres: Option<seq<string>>,
    slug: Option<string>,
    posterUrl: Option<string>,
    thumbUrl: Option<string>,
    year: Option<int>,
    lastWatchedEpisodeSlug: Option<string>,
    lastWatchedEpisodeName: Option<string>,
    totalWatchedDurationSeconds: Option<int>,
    isFullyWatched: Option<bool>)

  /** A normalised history record: genres, duration and completion always have a value. */
  datatype WatchRecord = WatchRecord(
    movieId: Option<string>,
    title: Option<string>,
    genres: seq<string>,
    slug: Option<string>,
    posterUrl: Option<string>,
    thumbUrl: Option<string>,
    year: Option<int>,
    lastWatchedEpisodeSlug: Option<string>,
    lastWatchedEpisodeName: Option<string>,
    totalWatchedDurationSeconds: int,
    isFullyWatched: bool)

  /** Where history is read from: whether the store client exists, and each user's documents. */
  datatype HistoryStore = HistoryStore(available: bool, docsOf: string -> seq<HistoryDoc>)

  /**
   * One record per document. Absent genres become the empty list, an absent duration 0,
   * an absent completion flag false; every other field is copied as it is, present or not.
   */
  function Normalize(d: HistoryDoc): (r: WatchRecord)
    ensures r.totalWatchedDurationSeconds == (if d.totalWatchedDurationSeconds.Some? then d.totalWatchedDurationSeconds.value else 0)
    ensures r.isFullyWatched <==> d.isFullyWatched == Some(true)
    ensures r.genres == (if d.genres.Some? then d.genres.value else [])
    ensures r.slug == d.slug && r.movieId == d.movieId && r.title == d.title && r.year == d.year
  {
    WatchRecord(
      d.movieId, d.title, d.genres.GetOr([]), d.slug, d.posterUrl, d.thumbUrl, d.year,
      d.lastWatchedEpisodeSlug, d.lastWatchedEpisodeName,
      d.totalWatchedDurationSeconds.GetOr(0), d.isFullyWatched.GetOr(false))
  }

  /** The history a read returns: nothing when the store is unavailable, else every document normalised. */
  function HistoryOf(store: HistoryStore, userId: string): seq<WatchRecord> {
    if store.available then Map(store.docsOf(userId), Normalize) else []
  }

  /** Reads and normalises the user's history documents one by one, in stream order. */
  method ReadHistory(store: HistoryStore, userId: string) returns (history: seq<WatchRecord>)
    ensures history == HistoryOf(store, userId)
    ensures !store.available ==> history == []
    ensures store.available ==> |history| == |store.docsOf(userId)|
  {
    history := [];
    if !store.available {
      return;
    }
    var docs := store.docsOf(userId);
    var i := 0;
    while i < |docs|
      invariant 0 <= i <= |docs|
      invariant history == Map(docs[..i], Normalize)
    {
      history := history + [Normalize(docs[i])];
      i := i + 1;
    }
  }
}
