/**
 * Profile building: from a user's normalised history, the records that count
 * (watched long enough, longest first, at most a fixed number of them), the set
 * of their slugs to exclude from ranking, and the catalog text of each one that
 * resolves to a catalog row.
 */
module Profile {
  import opened Common
  import opened Sorting
  import opened History
  import opened Catalog

  /** Default threshold below which a play is not part of the taste profile. */
  const DefaultMinWatchSeconds: int := 60
  /** Default number of records that may shape the profile. */
  const DefaultMaxProfileMovies: nat := 50

  /** The sort key of the profile list. */
  function DurationKey(r: WatchRecord): real {
    r.totalWatchedDurationSeconds as real
  }

  function WatchedLongEnough(minDur: int): WatchRecord -> bool {
    (r: WatchRecord) => r.totalWatchedDurationSeconds >= minDur
  }

  /** The history records watched for at least `minDur` seconds, in history order. */
  function Eligible(history: seq<WatchRecord>, minDur: int): seq<WatchRecord> {
    Filter(history, WatchedLongEnough(minDur))
  }

  lemma EligibleMembers(history: seq<WatchRecord>, minDur: int)
    ensures forall r :: r in Eligible(history, minDur) <==> r in history && r.totalWatchedDurationSeconds >= minDur
    ensures multiset(Eligible(history, minDur)) <= multiset(history)
  {
    FilterMembers(history, WatchedLongEnough(minDur));
    FilterSubMultiset(history, WatchedLongEnough(minDur));
  }

  /**
   * Raising the threshold never lets more records through: the records eligible at the
   * higher threshold are exactly those of the lower threshold's list that pass it.
   */
  lemma EligibleMonotone(history: seq<WatchRecord>, lower: int, higher: int)
    requires lower <= higher
    ensures Eligible(Eligible(history, lower), higher) == Eligible(history, higher)
    ensures multiset(Eligible(history, higher)) <= multiset(Eligible(history, lower))
    ensures |Eligible(history, higher)| <= |Eligible(history, lower)|
  {
    FilterNarrower(history, WatchedLongEnough(lower), WatchedLongEnough(higher));
    FilterSubMultiset(Eligible(history, lower), WatchedLongEnough(higher));
  }

  /** The loop that keeps the records watched long enough. */
  method FilterEligible(history: seq<WatchRecord>, minDur: int) returns (eligible: seq<WatchRecord>)
    ensures eligible == Eligible(history, minDur)
  {
    eligible := [];
    var i := 0;
    while i < |history|
      invariant 0 <= i <= |history|
      invariant eligible == Eligible(history[..i], minDur)
    {
      assert history[..i + 1] == history[..i] + [history[i]];
      FilterSnoc(history[..i], history[i], WatchedLongEnough(minDur));
      if history[i].totalWatchedDurationSeconds >= minDur {
        eligible := eligible + [history[i]];
      }
      i := i + 1;
    }
    assert history[..|history|] == history;
  }

  /** The profile list: eligible records, longest watched first, cut to `maxProfile`. */
  function ProfileList(history: seq<WatchRecord>, minDur: int, maxProfile: nat): seq<WatchRecord> {
    var sorted := SortDesc(Eligible(history, minDur), DurationKey);
    sorted[..Min(maxProfile, |sorted|)]
  }

  /**
   * The profile list has `min(maxProfile, |eligible|)` records, all of them eligible
   * history records, ordered by duration with the longest first.
   */
  lemma ProfileListShape(history: seq<WatchRecord>, minDur: int, maxProfile: nat)
    ensures |ProfileList(history, minDur, maxProfile)| == Min(maxProfile, |Eligible(history, minDur)|)
    ensures SortedDesc(ProfileList(history, minDur, maxProfile), DurationKey)
    ensures multiset(ProfileList(history, minDur, maxProfile)) <= multiset(Eligible(history, minDur))
    ensures forall r :: r in ProfileList(history, minDur, maxProfile) ==> r in history && r.totalWatchedDurationSeconds >= minDur
  {
    var e := Eligible(history, minDur);
    var sorted := SortDesc(e, DurationKey);
    var p := ProfileList(history, minDur, maxProfile);
    SortDescSortedPermutation(e, DurationKey);
    var n := Min(maxProfile, |sorted|);
    assert SortedDesc(p, DurationKey) by {
      forall i, j | 0 <= i < j < |p| ensures DurationKey(p[i]) >= DurationKey(p[j]) {
        assert p[i] == sorted[i] && p[j] == sorted[j];
      }
    }
    PrefixSubMultiset(sorted, n);
    forall r | r in p ensures r in history && r.totalWatchedDurationSeconds >= minDur {
      assert r in multiset(p);
      assert r in multiset(e);
      EligibleMembers(history, minDur);
    }
  }

  /** A history of one record watched long enough gives a profile of that record alone, with its slug excluded. */
  lemma SingleRecordProfile(r: WatchRecord, minDur: int, maxProfile: nat)
    requires r.totalWatchedDurationSeconds >= minDur && maxProfile >= 1
    ensures ProfileList([r], minDur, maxProfile) == [r]
    ensures UsableSlug(r).Some? ==> WatchedSlugs([r]) == {r.slug.value}
  {
    assert Eligible([r], minDur) == [r] by {
      FilterSnoc([], r, WatchedLongEnough(minDur));
      assert [] + [r] == [r];
    }
    assert SortDesc([r], DurationKey) == [r] by {
      assert [r][..0] == [];
      assert SortDesc([], DurationKey) == [];
      assert Insert([], r, DurationKey) == [r];
    }
    assert [r][..0] == [];
  }

  /** The eligible records the cut leaves out were watched no longer than any record it keeps. */
  lemma ProfileListKeepsLongest(history: seq<WatchRecord>, minDur: int, maxProfile: nat)
    ensures forall x, k ::
              x in multiset(Eligible(history, minDur)) - multiset(ProfileList(history, minDur, maxProfile)) &&
              0 <= k < |ProfileList(history, minDur, maxProfile)| ==>
              x.totalWatchedDurationSeconds <= ProfileList(history, minDur, maxProfile)[k].totalWatchedDurationSeconds
  {
    var e := Eligible(history, minDur);
    var sorted := SortDesc(e, DurationKey);
    var p := ProfileList(history, minDur, maxProfile);
    var n := Min(maxProfile, |sorted|);
    SortDescSortedPermutation(e, DurationKey);
    PrefixDominates(sorted, n, DurationKey);
    forall x: WatchRecord, k | x in multiset(e) - multiset(p) && 0 <= k < |p|
      ensures x.totalWatchedDurationSeconds <= p[k].totalWatchedDurationSeconds
    {
      assert DurationKey(x) <= DurationKey(sorted[k]);
    }
  }

  /**
   * Equal durations keep their history order: for each duration, the profile's records of
   * that duration are a prefix of the eligible records of that duration.
   */
  lemma ProfileListStable(history: seq<WatchRecord>, minDur: int, maxProfile: nat)
    ensures forall d :: Filter(ProfileList(history, minDur, maxProfile), HasKey(DurationKey, d)) <= Filter(Eligible(history, minDur), HasKey(DurationKey, d))
  {
    var e := Eligible(history, minDur);
    var sorted := SortDesc(e, DurationKey);
    var p := ProfileList(history, minDur, maxProfile);
    var n := Min(maxProfile, |sorted|);
    assert sorted == p + sorted[n..];
    forall d ensures Filter(p, HasKey(DurationKey, d)) <= Filter(e, HasKey(DurationKey, d)) {
      SortDescStable(e, DurationKey, d);
      FilterAppend(p, sorted[n..], HasKey(DurationKey, d));
    }
  }

  /** Builds the profile list as the source does: filter, stable in-place sort, slice. */
  method BuildProfileList(history: seq<WatchRecord>, minDur: int, maxProfile: nat) returns (profile: seq<WatchRecord>)
    ensures profile == ProfileList(history, minDur, maxProfile)
  {
    var eligible := FilterEligible(history, minDur);
    var a := new WatchRecord[|eligible|](i requires 0 <= i < |eligible| => eligible[i]);
    assert a[..] == eligible;
    SortDescInPlace(a, DurationKey);
    profile := a[..Min(maxProfile, a.Length)];
  }

  /** The slug of a record when it has one that is not empty. */
  function UsableSlug(r: WatchRecord): Option<string> {
    if r.slug.Some? && r.slug.value != "" then r.slug else None
  }

  /** The slugs of the profile records: the exclusion set, whether or not they resolve in the catalog. */
  function WatchedSlugs(profile: seq<WatchRecord>): set<string> {
    if profile == [] then {}
    else
      var last := profile[|profile| - 1];
      WatchedSlugs(profile[..|profile| - 1]) + (if UsableSlug(last).Some? then {UsableSlug(last).value} else {})
  }

  /** A slug is excluded exactly when some profile record carries it and it is not empty. */
  lemma {:induction false} WatchedSlugsMembers(profile: seq<WatchRecord>)
    ensures forall s :: s in WatchedSlugs(profile) <==> s != "" && exists r :: r in profile && r.slug == Some(s)
  {
    if profile != [] {
      var init, last := profile[..|profile| - 1], profile[|profile| - 1];
      assert profile == init + [last];
      WatchedSlugsMembers(init);
    }
  }

  /** A record contributes catalog text when it has a usable slug that some catalog row carries. */
  predicate Resolves(table: seq<CatalogEntry>, r: WatchRecord) {
    UsableSlug(r).Some? && FirstIndex(table, UsableSlug(r).value).Some?
  }

  function ResolvesIn(table: seq<CatalogEntry>): WatchRecord -> bool {
    (r: WatchRecord) => Resolves(table, r)
  }

  /** The text of the first catalog row that carries the record's slug. */
  function FeatureOf(table: seq<CatalogEntry>, r: WatchRecord): string
    requires Resolves(table, r)
  {
    table[FirstIndex(table, UsableSlug(r).value).value].combinedFeatures
  }

  /** The features list as the loop builds it, record by record. */
  function Features(table: seq<CatalogEntry>, profile: seq<WatchRecord>): seq<string> {
    if profile == [] then []
    else
      var last := profile[|profile| - 1];
      Features(table, profile[..|profile| - 1]) + (if Resolves(table, last) then [FeatureOf(table, last)] else [])
  }

  /** One text per profile record that resolves, in profile order, each from the first catalog row with its slug. */
  lemma {:induction false} FeaturesOfResolved(table: seq<CatalogEntry>, profile: seq<WatchRecord>)
    ensures |Features(table, profile)| == |Filter(profile, ResolvesIn(table))|
    ensures forall k :: 0 <= k < |Features(table, profile)| ==>
      Resolves(table, Filter(profile, ResolvesIn(table))[k]) &&
      Features(table, profile)[k] == FeatureOf(table, Filter(profile, ResolvesIn(table))[k])
  {
    if profile != [] {
      var init, last := profile[..|profile| - 1], profile[|profile| - 1];
      FeaturesOfResolved(table, init);
      var f, r := Features(table, profile), Filter(profile, ResolvesIn(table));
      var f0, r0 := Features(table, init), Filter(init, ResolvesIn(table));
      assert ResolvesIn(table)(last) == Resolves(table, last);
      if Resolves(table, last) {
        assert f == f0 + [FeatureOf(table, last)];
        assert r == r0 + [last];
        forall k | 0 <= k < |f| ensures Resolves(table, r[k]) && f[k] == FeatureOf(table, r[k]) {
          if k < |f0| {
            assert f[k] == f0[k] && r[k] == r0[k];
          }
        }
      } else {
        assert f == f0 && r == r0;
      }
    }
  }

  /** The features list is empty exactly when no profile record resolves in the catalog. */
  lemma FeaturesEmptyIff(table: seq<CatalogEntry>, profile: seq<WatchRecord>)
    ensures Features(table, profile) == [] <==> forall r :: r in profile ==> !Resolves(table, r)
  {
    var resolved := Filter(profile, ResolvesIn(table));
    FeaturesOfResolved(table, profile);
    FilterMembers(profile, ResolvesIn(table));
    if resolved != [] {
      assert resolved[0] in resolved;
    }
  }

  /** The loop over the profile list: collects the exclusion set and the features list together. */
  method CollectProfile(table: seq<CatalogEntry>, profile: seq<WatchRecord>) returns (watched: set<string>, features: seq<string>)
    ensures watched == WatchedSlugs(profile)
    ensures features == Features(table, profile)
  {
    watched := {};
    features := [];
    var i := 0;
    while i < |profile|
      invariant 0 <= i <= |profile|
      invariant watched == WatchedSlugs(profile[..i])
      invariant features == Features(table, profile[..i])
    {
      assert profile[..i + 1][..i] == profile[..i];
      var slug := profile[i].slug;
      if slug.Some? && slug.value != "" {
        watched := watched + {slug.value};
        var row := FirstIndex(table, slug.value);
        if row.Some? {
          features := features + [table[row.value].combinedFeatures];
        }
      }
      i := i + 1;
    }
    assert profile[..|profile|] == profile;
  }
}
