# Content-based movie recommender — Dafny model

This project models the decision logic of a small content-based movie recommender
service (`app.py`). The service keeps the movie catalog in memory, together with a
text model fitted over each movie's `combined_features` text. For a user it:

1. reads the user's watch history;
2. keeps the records watched for at least 60 seconds;
3. orders them by watched duration, longest first, and keeps at most 50;
4. builds a profile text from the catalog text of those records;
5. scores every catalog row against that text;
6. drops the rows the user has watched;
7. returns the ten best-scoring rows.

Four degenerate cases return a "fallback" listing instead: the first rows of the
catalog in load order, with fewer fields. A request handler guards all of this. It
rejects a request without a user id. It reloads the catalog once when the state is
not ready, and answers "not ready" if the catalog is still empty.

Modules:

- `Common`: `Option`, `Min`, and the order-preserving `Filter` and `Map` on sequences, with their lemmas.
- `Sorting`: a stable insertion sort by a real key, largest first. `SortDesc` is the function and `SortDescInPlace` the same algorithm on an array. Lemmas prove it sorted, a permutation, stable, and that a prefix keeps the largest keys.
- `History`: raw history documents, the defaulting into `WatchRecord`, and the reading loop.
- `Catalog`: catalog entries, the loader's skipping of the `metadata` document, lookup of the first row with a slug, and the fallback listing.
- `Profile`: the duration filter, the profile list (sorted in place, then cut), the set of watched slugs, and the features list.
- `Ranking`: the scored rows, the exclusion of watched slugs, the ranking cut to `topN`, and the `Ranked | Fallback` result.
- `Recommender`: the whole pipeline as the function `Recommended` with its lemmas, the load outcome, and the class `RecommenderService`. The class holds the shared `(table, model)` state and has `Load`, `Recommend` and `HandleRecommend`.

Abstractions:

- The TF-IDF vectorizer and the cosine similarity are floating-point library calls. Here they are one value of type `SimilarityModel = (string, nat) -> real`: the score of a profile text against table row `i`.
- Fitting is a parameter `fit: seq<CatalogEntry> -> Option<SimilarityModel>`. `None` stands for a fit that raises.
- The database is input data: `CatalogSource` (no client, a read that raises, or the documents) and `HistoryStore` (whether a client exists, and each user's history documents).

Where the code and a plain description of the design differ, the model follows the code:

- A profile record's slug joins the exclusion set even when no catalog row has that slug. Only records with a missing or empty slug add nothing.
- The ranked list's sort (`sort_values` with its default algorithm) is not stable. So no lemma promises any order among equal scores. The model's `Rank` happens to pick one permitted order (table order among ties). Its lemmas state only what every permitted order has: scores never increase, and the entries are a top-N of the unwatched rows.
- The profile sort (`list.sort`) is stable, and `ProfileListStable` proves that.

## Model

| member | source | states |
|---|---|---|
| `History.Normalize` | app.py:61-79 | An absent duration becomes 0, an absent completion flag false, absent genres the empty list; slug, id, title and year are copied whether present or not |
| `History.ReadHistory` | app.py:50-84 | With no store client the history is empty; otherwise one normalised record per stored document, in stream order |
| `Catalog.CatalogRowsSkipMetadata` | app.py:104-106 | The table holds an entry exactly when some non-metadata document carries it; its length is the number of non-metadata documents; with no metadata document it is every document, with only metadata documents it is empty |
| `Catalog.CollectCatalogRows` | app.py:101-108 | The loader's loop yields exactly the non-metadata documents' entries in stream order |
| `Catalog.FirstIndex` | app.py:159-161 | Finds the first table row with the slug (no earlier row has it), or reports that no row has it |
| `Catalog.FallbackListing` | app.py:133 | The fallback listing has `min(topN, |table|)` items, item `i` being row `i` of the table in the reduced shape (slug, name, poster, thumb, year) |
| `Profile.EligibleMembers` | app.py:140-143 | A record is eligible exactly when it is in the history and was watched at least the threshold; eligibility adds no records |
| `Profile.EligibleMonotone` | app.py:141-143 | Raising the threshold gives exactly the lower threshold's eligible records that pass the higher one, so never more |
| `Profile.FilterEligible` | app.py:140-143 | The filtering loop returns exactly the eligible records in history order |
| `Profile.ProfileListShape` | app.py:145-147 | The profile list has `min(maxProfile, |eligible|)` records, all eligible history records, in non-increasing duration |
| `Profile.ProfileListKeepsLongest` | app.py:145-147 | Every eligible record cut from the profile list was watched no longer than any record kept |
| `Profile.ProfileListStable` | app.py:145 | For each duration, the profile's records of that duration are a prefix of the eligible records of that duration (equal durations keep history order) |
| `Profile.BuildProfileList` | app.py:140-147 | Filtering, the in-place stable sort and the slice yield the profile list |
| `Sorting.SortDescInPlace` | app.py:145 | The in-place sort leaves the array equal to the stable descending sort of its old contents |
| `Sorting.SortDescSortedPermutation` | app.py:145 | The sort's result is ordered by key, largest first, and is a permutation of its input |
| `Sorting.SortDescStable` | app.py:145 | For every key value, the sorted elements with that key appear in input order |
| `Profile.SingleRecordProfile` | app.py:140-157 | A history of one record watched long enough, with room for at least one profile record, gives a profile of exactly that record, and its usable slug is the whole exclusion set |
| `Profile.WatchedSlugsMembers` | app.py:154-157 | A slug is in the exclusion set exactly when it is non-empty and some profile record carries it, resolved in the catalog or not |
| `Profile.FeaturesOfResolved` | app.py:159-163 | There is one feature text per profile record found in the catalog, in profile order, each the text of the first catalog row with that record's slug |
| `Profile.FeaturesEmptyIff` | app.py:159-169 | The features list is empty exactly when no profile record is found in the catalog |
| `Profile.CollectProfile` | app.py:154-165 | The loop over the profile list returns exactly the exclusion set and the features list |
| `Recommender.ProfileScores` | app.py:171-176 | One score per table row, the score of row `i` being the model's similarity for the profile text and row `i` |
| `Ranking.CandidatesAreUnwatchedRows` | app.py:175-178 | A candidate is exactly an unwatched table row paired with its own score; there are none exactly when every row's slug is watched |
| `Ranking.RankFallbackWhenAllWatched` | app.py:178-182 | Ranking returns the fallback variant exactly when every table row is watched, and then it is the fallback listing |
| `Ranking.RankedLength` | app.py:184 | A ranked result has `min(topN, number of unwatched rows)` entries and is a sub-multiset of the candidates |
| `Ranking.RankedExcludesWatched` | app.py:175-186 | Every ranked entry has an unwatched slug and is some table row with that row's own score |
| `Ranking.RankedIsTopN` | app.py:184 | Ranked scores never increase, and every unwatched row left out scores no higher than any entry kept |
| `Recommender.LoadOutcomeConsistent` | app.py:93-121 | After a load a model exists exactly when the table is non-empty; the table is non-empty exactly when the documents were read, some are movies and the fit succeeded; a non-empty table is the non-metadata entries |
| `Recommender.FallbackIsLeadingRows` | app.py:131-182 | Whichever of the four exits produced a fallback, it is the first `min(topN, |table|)` rows in load order in the reduced shape |
| `Recommender.NoQualifyingHistoryFallsBack` | app.py:147-151 | No record watched long enough, or a profile size of zero, gives the fallback listing |
| `Recommender.UnresolvedProfileFallsBack` | app.py:159-169 | When no profile record is found in the catalog, the result is the fallback listing |
| `Recommender.RankedExactlyWhen` | app.py:131-184 | The ranked variant comes back exactly when the state is ready, some profile record is found in the catalog and some table row is not watched |
| `Recommender.RankedExcludesProfile` | app.py:154-186 | A ranked result contains no profile record's slug (resolved or not); each entry is a table row with the model's score for that row; it has `min(topN, unwatched rows)` entries |
| `Recommender.RankedIsOrdered` | app.py:184-186 | A ranked result's scores never increase from first to last |
| `Recommender.SingleWatchedMovieIsRanked` | app.py:140-186 | One qualifying history record found in a catalog with another title gives a ranked list without that title |
| `Recommender.RecommenderService.constructor` | app.py:45-47 | The initial state is an empty table with no model |
| `Recommender.RecommenderService.Load` | app.py:87-123 | A load replaces table and model together with the load outcome (empty table and no model on every failure) and returns the new table |
| `Recommender.RecommenderService.Recommend` | app.py:126-186 | The recommender computes exactly the pipeline function for the current state and the user's history, and changes no state |
| `Recommender.RecommenderService.HandleRecommend` | app.py:200-215 | A missing or empty user id answers a caller error and changes nothing; a ready state is used as it is; otherwise one load, then "not ready" if the table is empty, else the top 10 with threshold 60 s and profile size 50 |

`Recommender.EmptyCatalogIsNotReady` is a client of the class with no contract. It walks through the empty-catalog case: a load of a collection holding only the metadata document, then a request that reloads once and gets "not ready", then a request without a user id.

## Left out

- Firestore and Firebase access (credentials, `firestore.client()`, the collection streams): the database is input data, `CatalogSource` and `HistoryStore`.
- TF-IDF fitting and cosine similarity: floating-point library calls. They are the abstract `SimilarityModel` and the `fit` parameter. English stop words and `min_df=5` are not modelled, so it is not modelled which catalogs make fitting fail; `fit` returns `None` for those.
- A history stream that raises partway: the source returns the records read so far. It depends on where the stream fails, so only a store with no client (empty history) is modelled.
- Document fields present with a null value: `dict.get` then returns `None` instead of the default, and the duration comparison would raise. Only absent fields are modelled.
- Catalog rows missing a field: pandas fills these with NaN. The model's entries always have every field.
- `Recommender.RecommenderService.Recommend`: on an empty table with no columns, the source's fallback slice raises a `KeyError` instead of returning an empty listing. The handler never calls it in that state (it answers "not ready" first). The model returns the empty listing.
- `Ranking.Rank`: the default `sort_values` sort is not stable, so the source fixes no order among equal scores. The model picks table order; no contract promises it.
- Flask routing, CORS, JSON parsing of the request (a body that is not JSON, a `userId` that is not a string), the JSON shape of the answers and their HTTP status codes. Only the routing decision itself is the `Response` datatype.
- Logging output and the unused imports.
- Concurrency: the source has none. A load replaces the table and the model in one step of a sequential program.
- A negative `top_n` or `max_movies_for_profile`: not reachable from the handler and modelled as `nat`.
