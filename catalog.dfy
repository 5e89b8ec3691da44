/**
 * The catalog table: the entries the loader keeps from the catalog collection,
 * the lookup of an entry by slug, and the fallback listing.
 */
module Catalog {
  import opened Common

  /** One catalog row, in the table's load order. */
  datatype CatalogEntry = CatalogEntry(
    slug: string,
    name: string,
    posterUrl: string,
    thumbUrl: string,
    year: int,
    genresSlugs: seq<string>,
    combinedFeatures: string)

  /** A document of the catalog collection: its id and its fields. */
  datatype CatalogDoc = CatalogDoc(id: string, entry: CatalogEntry)

  /** The reduced shape of a fallback result: no genres, no similarity. */
  datatype Listing = Listing(slug: string, name: string, posterUrl: string, thumbUrl: string, year: int)

  /** The id of the collection's bookkeeping document, which is not a movie. */
  const MetadataDocId: string := "metadata"

  predicate IsMovieDoc(d: CatalogDoc) {
    d.id != MetadataDocId
  }

  function EntryOf(d: CatalogDoc): CatalogEntry {
    d.entry
  }

  /** The table the loader builds from a stream of documents: every document but the metadata one. */
  function CatalogRows(docs: seq<CatalogDoc>): seq<CatalogEntry> {
    Map(Filter(docs, IsMovieDoc), EntryOf)
  }

  /** Which entries make it into the table, and how many. */
  lemma CatalogRowsSkipMetadata(docs: seq<CatalogDoc>)
    ensures forall e :: e in CatalogRows(docs) <==> exists d :: d in docs && d.id != MetadataDocId && d.entry == e
    ensures |CatalogRows(docs)| == |Filter(docs, IsMovieDoc)|
    ensures (forall d :: d in docs ==> d.id != MetadataDocId) ==> CatalogRows(docs) == Map(docs, EntryOf)
    ensures (forall d :: d in docs ==> d.id == MetadataDocId) ==> CatalogRows(docs) == []
  {
    var movies := Filter(docs, IsMovieDoc);
    FilterMembers(docs, IsMovieDoc);
    forall e | e in CatalogRows(docs) ensures exists d :: d in docs && d.id != MetadataDocId && d.entry == e {
      var k :| 0 <= k < |movies| && CatalogRows(docs)[k] == e;
      assert movies[k] in movies;
    }
    forall e | exists d :: d in docs && d.id != MetadataDocId && d.entry == e ensures e in CatalogRows(docs) {
      var d :| d in docs && d.id != MetadataDocId && d.entry == e;
      var k :| 0 <= k < |movies| && movies[k] == d;
      assert CatalogRows(docs)[k] == e;
    }
    if forall d :: d in docs ==> d.id != MetadataDocId {
      FilterAllKept(docs, IsMovieDoc);
    }
    if forall d :: d in docs ==> d.id == MetadataDocId {
      if movies != [] {
        assert movies[0] in movies;
      }
    }
  }

  /** The loader's loop: keeps each non-metadata document's fields, in stream order. */
  method CollectCatalogRows(docs: seq<CatalogDoc>) returns (rows: seq<CatalogEntry>)
    ensures rows == CatalogRows(docs)
  {
    rows := [];
    var i := 0;
    while i < |docs|
      invariant 0 <= i <= |docs|
      invariant rows == CatalogRows(docs[..i])
    {
      assert docs[..i + 1] == docs[..i] + [docs[i]];
      FilterSnoc(docs[..i], docs[i], IsMovieDoc);
      MapAppend(Filter(docs[..i], IsMovieDoc), if IsMovieDoc(docs[i]) then [docs[i]] else [], EntryOf);
      if docs[i].id != MetadataDocId {
        rows := rows + [docs[i].entry];
      }
      i := i + 1;
    }
    assert docs[..|docs|] == docs;
  }

  /** The index of the first row with the given slug, if any (a boolean mask, then its first hit). */
  function FirstIndex(table: seq<CatalogEntry>, slug: string): (r: Option<nat>)
    ensures r.Some? ==> r.value < |table| && table[r.value].slug == slug
    ensures r.Some? ==> forall k :: 0 <= k < r.value ==> table[k].slug != slug
    ensures r.None? <==> forall k :: 0 <= k < |table| ==> table[k].slug != slug
  {
    if table == [] then None
    else if table[0].slug == slug then Some(0)
    else match FirstIndex(table[1..], slug)
      case None => None
      case Some(i) => Some(i + 1)
  }

  function ToListing(e: CatalogEntry): Listing {
    Listing(e.slug, e.name, e.posterUrl, e.thumbUrl, e.year)
  }

  /** The fallback result: the first `topN` rows in load order, in the reduced shape. */
  function FallbackListing(table: seq<CatalogEntry>, topN: nat): (r: seq<Listing>)
    ensures |r| == Min(topN, |table|)
    ensures forall i :: 0 <= i < |r| ==> r[i] == ToListing(table[i])
  {
    Map(table[..Min(topN, |table|)], ToListing)
  }
}
