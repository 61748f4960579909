/**
 * The series fetcher with its file cache, and the combiner that fetches every
 * series of the catalog into one long table.
 *
 * The cache folder is a map from file path to the series stored in that file;
 * the remote FRED source is a map from series id to the series it returns, and
 * an id it does not know makes the remote call raise.
 */
module FetchFred {
  import opened Wrappers
  import opened Tables
  import opened Paths
  import opened Ordering

  /** The default cache folder of `get_or_fetch_series`. */
  const RawFolder: string := "data/raw"

  /** The cache files, by path. */
  type Store = map<string, RawSeries>

  /** `Path(folder) / f"{series_id}.csv"`: the path the writer, the reader and the
      existence test all use. */
  function CachePath(folder: string, seriesId: string): string
  {
    Join(folder, seriesId + ".csv")
  }

  /** Within one folder, each series id has its own cache file. */
  lemma CachePathInjective(folder: string, a: string, b: string)
    requires CachePath(folder, a) == CachePath(folder, b)
    ensures a == b
  {
    JoinInjective(folder, a + ".csv", b + ".csv");
    assert a == (a + ".csv")[..|a|];
    assert b == (b + ".csv")[..|b|];
  }

  /** The cache after `save_series_to_csv(series, series_id, folder)`. */
  function Saved(store: Store, series: RawSeries, seriesId: string, folder: string): Store
  {
    store[CachePath(folder, seriesId) := series]
  }

  /** `load_series_from_csv(series_id, folder)`; reading a missing file raises. */
  function Loaded(store: Store, seriesId: string, folder: string): Result<RawSeries, Error>
  {
    var p := CachePath(folder, seriesId);
    if p in store then Success(store[p]) else Failure(FileNotFound(p))
  }

  /** The reader looks where the writer wrote: loading a saved series gives it back. */
  lemma LoadAfterSave(store: Store, series: RawSeries, seriesId: string, folder: string)
    ensures Loaded(Saved(store, series, seriesId, folder), seriesId, folder) == Success(series)
  {
  }

  /** Saving one series leaves what every other id of the folder loads as it was. */
  lemma SaveKeepsOthers(store: Store, series: RawSeries, seriesId: string, other: string, folder: string)
    requires other != seriesId
    ensures Loaded(Saved(store, series, seriesId, folder), other, folder) == Loaded(store, other, folder)
  {
    if CachePath(folder, other) == CachePath(folder, seriesId) {
      CachePathInjective(folder, other, seriesId);
    }
  }

  /** What `get_or_fetch_series(series_id, folder)` returns, given the cache and the
      remote source: the cached series if its file exists, else the remote one. */
  function Resolve(store: Store, remote: map<string, RawSeries>, folder: string, seriesId: string): (r: Result<RawSeries, Error>)
    ensures r.Failure? <==> CachePath(folder, seriesId) !in store && seriesId !in remote
    ensures r.Failure? ==> r.error == FetchFailed(seriesId)
  {
    if CachePath(folder, seriesId) in store then Loaded(store, seriesId, folder)
    else if seriesId in remote then Success(remote[seriesId])
    else Failure(FetchFailed(seriesId))
  }

  /** Caching what the remote source returned on a miss changes no answer of the
      fetcher in that folder, for any series id. */
  lemma SaveFetchedKeepsResolve(store: Store, remote: map<string, RawSeries>, folder: string, seriesId: string, id: string)
    requires CachePath(folder, seriesId) !in store && seriesId in remote
    ensures Resolve(Saved(store, remote[seriesId], seriesId, folder), remote, folder, id) == Resolve(store, remote, folder, id)
  {
    if CachePath(folder, id) == CachePath(folder, seriesId) {
      CachePathInjective(folder, id, seriesId);
    }
  }

  /** Both caches make the fetcher give the same answer for every series id of `folder`. */
  ghost predicate Agrees(store: Store, store': Store, remote: map<string, RawSeries>, folder: string)
  {
    forall id :: Resolve(store, remote, folder, id) == Resolve(store', remote, folder, id)
  }

  /** `store'` keeps every file of `store` unchanged and adds only cache files of `folder`,
      each holding what the remote source returns for its series id. */
  ghost predicate OnlyCaches(store: Store, store': Store, remote: map<string, RawSeries>, folder: string)
  {
    && (forall p :: p in store ==> p in store' && store'[p] == store[p])
    && (forall p :: p in store' && p !in store ==>
          exists id :: p == CachePath(folder, id) && id in remote && store'[p] == remote[id])
  }

  /** The files `store'` has that `store` has not. */
  ghost function Added(store: Store, store': Store): set<string>
  {
    store'.Keys - store.Keys
  }

  /** Two rounds of caching are one: files kept by both are kept, and files added by
      either are cache files of fetched series. */
  lemma OnlyCachesCompose(a: Store, b: Store, c: Store, remote: map<string, RawSeries>, folder: string)
    requires OnlyCaches(a, b, remote, folder) && OnlyCaches(b, c, remote, folder)
    ensures OnlyCaches(a, c, remote, folder)
    ensures |Added(a, c)| == |Added(a, b)| + |Added(b, c)|
  {
    forall p | p in c && p !in a
      ensures exists id :: p == CachePath(folder, id) && id in remote && c[p] == remote[id]
    {
      if p in b {
        var id :| p == CachePath(folder, id) && id in remote && b[p] == remote[id];
        assert c[p] == remote[id];
      }
    }
    AddedSplit(a.Keys, b.Keys, c.Keys);
  }

  /** The files added over two rounds are those of the first round and those of the second. */
  lemma AddedSplit(a: set<string>, b: set<string>, c: set<string>)
    requires a <= b <= c
    ensures |c - a| == |b - a| + |c - b|
  {
    assert c - a == (b - a) + (c - b);
    assert (b - a) * (c - b) == {};
  }

  /** Starting from cache `st0` after `c0` remote calls, the cache is `st` after `c`:
      every answer is as before, only fetched series were cached, and each remote call
      cached one file. */
  ghost predicate CachedSince(st0: Store, c0: nat, st: Store, c: nat, remote: map<string, RawSeries>)
  {
    && Agrees(st, st0, remote, RawFolder)
    && OnlyCaches(st0, st, remote, RawFolder)
    && c == c0 + |Added(st0, st)|
  }

  /** One more successful call, or a failed one (`f == 1`), extends `CachedSince`. */
  lemma CachedSinceStep(st0: Store, c0: nat, st1: Store, c1: nat, st2: Store, c2: nat, f: nat, remote: map<string, RawSeries>)
    requires CachedSince(st0, c0, st1, c1, remote)
    requires Agrees(st2, st1, remote, RawFolder) && OnlyCaches(st1, st2, remote, RawFolder)
    requires c2 == c1 + |Added(st1, st2)| + f
    ensures Agrees(st2, st0, remote, RawFolder) && OnlyCaches(st0, st2, remote, RawFolder)
    ensures c2 == c0 + |Added(st0, st2)| + f
  {
    OnlyCachesCompose(st0, st1, st2, remote, RawFolder);
  }

  /** Every entry of `entries` has its cache file in `store`. */
  ghost predicate AllCached(entries: seq<CatalogEntry>, store: Store)
  {
    forall k :: 0 <= k < |entries| ==> CachePath(RawFolder, entries[k].seriesId) in store
  }

  /** Every file added since `st0` is the cache file of one of `entries`. */
  ghost predicate AddedFrom(st0: Store, store: Store, entries: seq<CatalogEntry>)
  {
    forall p :: p in Added(st0, store) ==>
      exists k :: 0 <= k < |entries| && p == CachePath(RawFolder, entries[k].seriesId)
  }

  /** What both loops of `fetch_all_macro_data` keep once the entries `visited` are
      fetched without error into the frames `rows`: the cache grew only by fetched series,
      each visited entry is cached, every added file belongs to a visited entry, and
      `rows` are the combiner's frames for `visited`. */
  ghost predicate Visited(st0: Store, c0: nat, st: Store, c: nat, remote: map<string, RawSeries>,
                          visited: seq<CatalogEntry>, rows: seq<seq<MacroRow>>)
  {
    && CachedSince(st0, c0, st, c, remote)
    && AllCached(visited, st)
    && AddedFrom(st0, st, visited)
    && EntryFrames(visited, st0, remote) == Success(rows)
  }

  /** Visiting `entry` keeps the earlier entries cached and adds at most its own file. */
  lemma VisitStep(st0: Store, st1: Store, st2: Store, before: seq<CatalogEntry>, entry: CatalogEntry)
    requires AllCached(before, st1) && AddedFrom(st0, st1, before)
    requires forall p :: p in st1 ==> p in st2
    requires Added(st1, st2) <= {CachePath(RawFolder, entry.seriesId)}
    ensures AllCached(before, st2)
    ensures AddedFrom(st0, st2, before + [entry])
  {
    var visited := before + [entry];
    forall p | p in Added(st0, st2)
      ensures exists k :: 0 <= k < |visited| && p == CachePath(RawFolder, visited[k].seriesId)
    {
      if p in st1 {
        assert p in Added(st0, st1);
        var k :| 0 <= k < |before| && p == CachePath(RawFolder, before[k].seriesId);
        assert visited[k] == before[k];
      } else {
        assert p in Added(st1, st2);
        assert visited[|before|] == entry;
      }
    }
  }

  /** A visited entry whose file is now cached extends the cached prefix. */
  lemma AllCachedSnoc(before: seq<CatalogEntry>, entry: CatalogEntry, store: Store)
    requires AllCached(before, store) && CachePath(RawFolder, entry.seriesId) in store
    ensures AllCached(before + [entry], store)
  {
    forall k | 0 <= k < |before + [entry]|
      ensures CachePath(RawFolder, (before + [entry])[k].seriesId) in store
    {
      if k < |before| {
        assert (before + [entry])[k] == before[k];
      }
    }
  }

  /** One call of the inner loop of `fetch_all_macro_data`, for `entry`, moved the cache
      from `st1` to `st2` and answered `got`: the facts both loops keep carry over to
      `before + [entry]`, and a failure is the one the combiner reports. */
  lemma VisitCountry(st0: Store, c0: nat, st1: Store, c1: nat, st2: Store, c2: nat,
                     before: seq<CatalogEntry>, entry: CatalogEntry, visited: seq<CatalogEntry>, rows: seq<seq<MacroRow>>,
                     got: Result<RawSeries, Error>, remote: map<string, RawSeries>)
    requires Visited(st0, c0, st1, c1, remote, before, rows)
    requires visited == before + [entry]
    requires got == Resolve(st1, remote, RawFolder, entry.seriesId)
    requires got.Success? ==> CachePath(RawFolder, entry.seriesId) in st2
    requires Agrees(st2, st1, remote, RawFolder) && OnlyCaches(st1, st2, remote, RawFolder)
    requires Added(st1, st2) <= {CachePath(RawFolder, entry.seriesId)}
    requires c2 == c1 + |Added(st1, st2)| + if got.Failure? then 1 else 0
    ensures got.Success? ==> Visited(st0, c0, st2, c2, remote, visited, rows + [TagMacro(got.value, entry.country, entry.seriesType)])
    ensures got.Failure? ==> CachedSince(st0, c0 + 1, st2, c2, remote)
    ensures got.Failure? ==> AddedFrom(st0, st2, visited)
    ensures got.Failure? ==> AllCached(before, st2)
    ensures got.Failure? ==> Resolve(st0, remote, RawFolder, entry.seriesId).Failure?
    ensures got.Failure? ==> got.error == FetchFailed(entry.seriesId)
    ensures got.Failure? ==> EntryFrames(visited, st0, remote) == Failure(got.error)
  {
    CachedSinceStep(st0, c0, st1, c1, st2, c2, if got.Failure? then 1 else 0, remote);
    assert got == Resolve(st0, remote, RawFolder, entry.seriesId);
    VisitStep(st0, st1, st2, before, entry);
    EntryFramesStep(before, entry, st0, remote, rows);
    if got.Success? {
      AllCachedSnoc(before, entry, st2);
    }
  }

  /** Files added for a prefix of the entries are added for all of them. */
  lemma AddedFromPrefix(st0: Store, store: Store, a: seq<CatalogEntry>, b: seq<CatalogEntry>)
    requires a <= b && AddedFrom(st0, store, a)
    ensures AddedFrom(st0, store, b)
  {
    forall p | p in Added(st0, store)
      ensures exists k :: 0 <= k < |b| && p == CachePath(RawFolder, b[k].seriesId)
    {
      var k :| 0 <= k < |a| && p == CachePath(RawFolder, a[k].seriesId);
      assert b[k] == a[k];
    }
  }

  /** When the entry after the cached prefix `before` cannot be had, some entry fails and
      every entry before it is cached. */
  lemma FailureAfterCachedPrefix(entries: seq<CatalogEntry>, before: seq<CatalogEntry>, entry: CatalogEntry,
                                 st0: Store, store: Store, remote: map<string, RawSeries>)
    requires before + [entry] <= entries
    requires AllCached(before, store)
    requires Resolve(st0, remote, RawFolder, entry.seriesId).Failure?
    requires AddedFrom(st0, store, before + [entry])
    ensures exists k :: 0 <= k < |entries| && Resolve(st0, remote, RawFolder, entries[k].seriesId).Failure? &&
              (forall k' :: 0 <= k' < k ==> CachePath(RawFolder, entries[k'].seriesId) in store) &&
              AddedFrom(st0, store, entries[..k + 1])
  {
    var k := |before|;
    assert entries[k] == (before + [entry])[k] == entry;
    forall k' | 0 <= k' < k ensures CachePath(RawFolder, entries[k'].seriesId) in store {
      assert entries[k'] == (before + [entry])[k'] == before[k'];
    }
    AddedFromTake(st0, store, before, entry, entries);
  }

  /** Files added only for `before + [entry]`, a prefix of `entries`, are added for the
      first `|before| + 1` entries. */
  lemma AddedFromTake(st0: Store, store: Store, before: seq<CatalogEntry>, entry: CatalogEntry, entries: seq<CatalogEntry>)
    requires before + [entry] <= entries
    requires AddedFrom(st0, store, before + [entry])
    ensures AddedFrom(st0, store, entries[..|before| + 1])
  {
    var visited := entries[..|before| + 1];
    forall p | p in Added(st0, store)
      ensures exists i :: 0 <= i < |visited| && p == CachePath(RawFolder, visited[i].seriesId)
    {
      var i :| 0 <= i < |before + [entry]| && p == CachePath(RawFolder, (before + [entry])[i].seriesId);
      assert visited[i] == entries[i] == (before + [entry])[i];
    }
  }

  /** A file cache in front of the remote source, as `get_or_fetch_series` uses it. */
  class SeriesCache {
    var store: Store
    const remote: map<string, RawSeries>
    /** The number of remote calls made so far. */
    ghost var fetchCount: nat

    constructor (files: Store, remote: map<string, RawSeries>)
      ensures store == files && this.remote == remote && fetchCount == 0
    {
      store := files;
      this.remote := remote;
      fetchCount := 0;
    }

    /** `get_fred_series`: one call to the remote source, which raises for an unknown id. */
    method GetFredSeries(seriesId: string) returns (r: Result<RawSeries, Error>)
      modifies this`fetchCount
      ensures fetchCount == old(fetchCount) + 1
      ensures seriesId in remote ==> r == Success(remote[seriesId])
      ensures seriesId !in remote ==> r == Failure(FetchFailed(seriesId))
    {
      fetchCount := fetchCount + 1;
      if seriesId in remote {
        r := Success(remote[seriesId]);
      } else {
        r := Failure(FetchFailed(seriesId));
      }
    }

    /** `save_series_to_csv`: writes the series' file, replacing any earlier one. */
    method SaveSeriesToCsv(series: RawSeries, seriesId: string, folder: string)
      modifies this`store
      ensures store == Saved(old(store), series, seriesId, folder)
    {
      store := store[CachePath(folder, seriesId) := series];
    }

    /** `load_series_from_csv`: reads the series' file. */
    method LoadSeriesFromCsv(seriesId: string, folder: string) returns (r: Result<RawSeries, Error>)
      ensures r == Loaded(store, seriesId, folder)
    {
      var p := CachePath(folder, seriesId);
      if p in store {
        r := Success(store[p]);
      } else {
        r := Failure(FileNotFound(p));
      }
    }

    /** `get_or_fetch_series`: on a hit, the cached series and no remote call; on a miss,
        exactly one remote call whose result is cached under the same path and returned. */
    method GetOrFetchSeries(seriesId: string, folder: string) returns (r: Result<RawSeries, Error>)
      modifies this`store, this`fetchCount
      ensures r == Resolve(old(store), remote, folder, seriesId)
      ensures CachePath(folder, seriesId) in old(store) ==>
                store == old(store) && fetchCount == old(fetchCount)
      ensures CachePath(folder, seriesId) !in old(store) ==>
                fetchCount == old(fetchCount) + 1 &&
                store == if r.Success? then Saved(old(store), r.value, seriesId, folder) else old(store)
      ensures r.Success? ==> CachePath(folder, seriesId) in store
      ensures Agrees(store, old(store), remote, folder)
      ensures OnlyCaches(old(store), store, remote, folder)
      ensures Added(old(store), store) <= {CachePath(folder, seriesId)}
      ensures fetchCount == old(fetchCount) + |Added(old(store), store)| + if r.Failure? then 1 else 0
    {
      var p := CachePath(folder, seriesId);
      if p in store {
        r := LoadSeriesFromCsv(seriesId, folder);
      } else {
        r := GetFredSeries(seriesId);
        if r.Success? {
          SaveSeriesToCsv(r.value, seriesId, folder);
          assert Added(old(store), store) == {p};
          forall id
            ensures Resolve(store, remote, folder, id) == Resolve(old(store), remote, folder, id)
          {
            SaveFetchedKeepsResolve(old(store), remote, folder, seriesId, id);
          }
        }
      }
    }

    /** `fetch_all_macro_data`: fetches every series of the catalog in order, tags its
        rows with country and series type, concatenates and sorts. A fetch error ends
        the run; series cached before it stay cached. Writing the table is left out. */
    method FetchAllMacroData(catalog: Catalog) returns (r: Result<seq<MacroRow>, Error>)
      modifies this`store, this`fetchCount
      ensures r == CombineSpec(catalog, old(store), remote)
      ensures Agrees(store, old(store), remote, RawFolder)
      ensures OnlyCaches(old(store), store, remote, RawFolder)
      ensures r.Failure? && r.error.FetchFailed? ==> fetchCount == old(fetchCount) + |Added(old(store), store)| + 1
      ensures r.Success? || r == Failure(NoObjectsToConcatenate) ==> fetchCount == old(fetchCount) + |Added(old(store), store)|
      ensures r.Success? ==>
                forall k :: 0 <= k < |Entries(catalog)| ==> CachePath(RawFolder, Entries(catalog)[k].seriesId) in store
      ensures forall p :: p in Added(old(store), store) ==>
                exists k :: 0 <= k < |Entries(catalog)| && p == CachePath(RawFolder, Entries(catalog)[k].seriesId)
      ensures r.Failure? && r.error.FetchFailed? ==>
                exists k :: 0 <= k < |Entries(catalog)| && Resolve(old(store), remote, RawFolder, Entries(catalog)[k].seriesId).Failure? &&
                  (forall k' :: 0 <= k' < k ==> CachePath(RawFolder, Entries(catalog)[k'].seriesId) in store) &&
                  AddedFrom(old(store), store, Entries(catalog)[..k + 1])
    {
      ghost var st0 := store;
      ghost var count0 := fetchCount;
      var rows: seq<seq<MacroRow>> := [];
      var i := 0;
      while i < |catalog|
        invariant 0 <= i <= |catalog|
        invariant Visited(st0, count0, store, fetchCount, remote, Entries(catalog[..i]), rows)
      {
        var seriesType := catalog[i].0;
        var countryMap := catalog[i].1;
        ghost var done := Entries(catalog[..i]);
        var failed: Option<Error>;
        var j: nat;
        ghost var before: seq<CatalogEntry>;
        rows, failed, j, before := FetchSeriesType(seriesType, countryMap, rows, st0, count0, done);
        if failed.Some? {
          ghost var entry := CatalogEntry(seriesType, countryMap[j].0, countryMap[j].1);
          TypeEntriesStep(done, seriesType, countryMap, j);
          EntriesPrefix(catalog, i, j + 1);
          EntryFramesFailurePrefix(before + [entry], Entries(catalog), st0, remote);
          AddedFromPrefix(st0, store, before + [entry], Entries(catalog));
          FailureAfterCachedPrefix(Entries(catalog), before, entry, st0, store, remote);
          return Failure(failed.value);
        }
        EntriesStep(catalog, i);
        i := i + 1;
      }
      assert catalog[..i] == catalog;
      if rows == [] {
        return Failure(NoObjectsToConcatenate);
      }
      r := Success(SortBy(Concat(rows), MacroKey));
    }

    /** The inner loop of `fetch_all_macro_data`: fetches the series of every country of
        one series type, visited after the entries `done`, and appends their tagged frames
        to `rows0`. A fetch error stops the loop at country `j` and is returned in
        `failed`; the entries `before` it stay fetched and cached. */
    method FetchSeriesType(seriesType: string, countryMap: seq<(string, string)>, rows0: seq<seq<MacroRow>>,
                           ghost st0: Store, ghost count0: nat, ghost done: seq<CatalogEntry>)
      returns (rows: seq<seq<MacroRow>>, failed: Option<Error>, j: nat, ghost before: seq<CatalogEntry>)
      modifies this`store, this`fetchCount
      requires Visited(st0, count0, store, fetchCount, remote, done, rows0)
      ensures failed.None? ==> Visited(st0, count0, store, fetchCount, remote, done + TypeEntries(seriesType, countryMap), rows)
      ensures failed.Some? ==> j < |countryMap| && before == done + TypeEntries(seriesType, countryMap[..j])
      ensures failed.Some? ==> CachedSince(st0, count0 + 1, store, fetchCount, remote)
      ensures failed.Some? ==> AllCached(before, store)
      ensures failed.Some? ==> j < |countryMap| && AddedFrom(st0, store, before + [CatalogEntry(seriesType, countryMap[j].0, countryMap[j].1)])
      ensures failed.Some? ==> j < |countryMap| && Resolve(st0, remote, RawFolder, countryMap[j].1).Failure?
      ensures failed.Some? ==> j < |countryMap| && failed.value == FetchFailed(countryMap[j].1)
      ensures failed.Some? ==>
                j < |countryMap| &&
                EntryFrames(before + [CatalogEntry(seriesType, countryMap[j].0, countryMap[j].1)], st0, remote) == Failure(failed.value)
    {
      rows := rows0;
      failed := None;
      j := 0;
      before := done;
      assert countryMap[..0] == [];
      while j < |countryMap|
        invariant 0 <= j <= |countryMap|
        invariant failed.None?
        invariant before == done + TypeEntries(seriesType, countryMap[..j])
        invariant Visited(st0, count0, store, fetchCount, remote, before, rows)
      {
        var country := countryMap[j].0;
        var seriesId := countryMap[j].1;
        ghost var st1 := store;
        ghost var c1 := fetchCount;
        var series := GetOrFetchSeries(seriesId, RawFolder);
        ghost var entry := CatalogEntry(seriesType, country, seriesId);
        TypeEntriesStep(done, seriesType, countryMap, j);
        VisitCountry(st0, count0, st1, c1, store, fetchCount, before, entry, before + [entry], rows, series, remote);
        if series.Failure? {
          failed := Some(series.error);
          return;
        }
        rows := rows + [TagMacro(series.value, country, seriesType)];
        before := before + [entry];
        j := j + 1;
      }
      assert countryMap[..j] == countryMap;
    }
  }

  /** Two calls for the same series: the path the first call writes on a miss is the path
      the second one tests, so the second is a hit, makes no remote call and returns the
      same series. When the first fetch fails nothing is cached and the second call fails
      the same way after a second remote call. */
  method FetchTwice(cache: SeriesCache, seriesId: string, folder: string) returns (first: Result<RawSeries, Error>, second: Result<RawSeries, Error>)
    modifies cache`store, cache`fetchCount
    ensures second == first
    ensures first.Success? && CachePath(folder, seriesId) in old(cache.store) ==>
              cache.fetchCount == old(cache.fetchCount) && cache.store == old(cache.store)
    ensures first.Success? && CachePath(folder, seriesId) !in old(cache.store) ==>
              cache.fetchCount == old(cache.fetchCount) + 1 &&
              cache.store == Saved(old(cache.store), first.value, seriesId, folder)
    ensures first.Failure? ==> cache.fetchCount == old(cache.fetchCount) + 2 && cache.store == old(cache.store)
  {
    first := cache.GetOrFetchSeries(seriesId, folder);
    second := cache.GetOrFetchSeries(seriesId, folder);
  }

  /** The nested catalog (series type, then country, then series id), in dict order. */
  type Catalog = seq<(string, seq<(string, string)>)>

  /** One (series type, country, series id) triple of the catalog. */
  datatype CatalogEntry = CatalogEntry(seriesType: string, country: string, seriesId: string)

  /** The entries under one series type, in order. */
  function TypeEntries(seriesType: string, countries: seq<(string, string)>): seq<CatalogEntry>
    decreases |countries|
  {
    if countries == [] then []
    else
      var last := countries[|countries| - 1];
      TypeEntries(seriesType, countries[..|countries| - 1]) + [CatalogEntry(seriesType, last.0, last.1)]
  }

  /** The entries of the whole catalog, in the order the nested loops visit them. */
  function Entries(catalog: Catalog): seq<CatalogEntry>
    decreases |catalog|
  {
    if catalog == [] then []
    else
      var last := catalog[|catalog| - 1];
      Entries(catalog[..|catalog| - 1]) + TypeEntries(last.0, last.1)
  }

  /** Visiting country `j` of a series type, after the entries `done`, appends its entry. */
  lemma TypeEntriesStep(done: seq<CatalogEntry>, seriesType: string, countries: seq<(string, string)>, j: nat)
    requires j < |countries|
    ensures TypeEntries(seriesType, countries[..j + 1]) ==
              TypeEntries(seriesType, countries[..j]) + [CatalogEntry(seriesType, countries[j].0, countries[j].1)]
    ensures done + TypeEntries(seriesType, countries[..j + 1]) ==
              done + TypeEntries(seriesType, countries[..j]) + [CatalogEntry(seriesType, countries[j].0, countries[j].1)]
  {
    assert countries[..j + 1][..j] == countries[..j];
  }

  lemma EntriesStep(catalog: Catalog, i: nat)
    requires i < |catalog|
    ensures Entries(catalog[..i + 1]) == Entries(catalog[..i]) + TypeEntries(catalog[i].0, catalog[i].1)
  {
    assert catalog[..i + 1][..i] == catalog[..i];
  }

  lemma {:induction false} TypeEntriesMember(seriesType: string, countries: seq<(string, string)>, e: CatalogEntry)
    ensures e in TypeEntries(seriesType, countries) <==>
              exists j :: 0 <= j < |countries| && e == CatalogEntry(seriesType, countries[j].0, countries[j].1)
    decreases |countries|
  {
    if countries != [] {
      var init := countries[..|countries| - 1];
      TypeEntriesMember(seriesType, init, e);
      if exists j :: 0 <= j < |countries| && e == CatalogEntry(seriesType, countries[j].0, countries[j].1) {
        var j :| 0 <= j < |countries| && e == CatalogEntry(seriesType, countries[j].0, countries[j].1);
        if j < |init| {
          assert init[j] == countries[j];
        }
      }
      if e in TypeEntries(seriesType, init) {
        var j :| 0 <= j < |init| && e == CatalogEntry(seriesType, init[j].0, init[j].1);
        assert countries[j] == init[j];
      }
    }
  }

  /** Every visited entry is some country of some series type of the catalog. */
  lemma {:induction false} EntriesSound(catalog: Catalog, e: CatalogEntry)
    requires e in Entries(catalog)
    ensures exists i, j :: 0 <= i < |catalog| && 0 <= j < |catalog[i].1| &&
                           e == CatalogEntry(catalog[i].0, catalog[i].1[j].0, catalog[i].1[j].1)
    decreases |catalog|
  {
    var n := |catalog| - 1;
    var init := catalog[..n];
    var last := TypeEntries(catalog[n].0, catalog[n].1);
    assert Entries(catalog) == Entries(init) + last;
    if e in Entries(init) {
      EntriesSound(init, e);
      var i, j :| 0 <= i < |init| && 0 <= j < |init[i].1| &&
                  e == CatalogEntry(init[i].0, init[i].1[j].0, init[i].1[j].1);
      assert catalog[i] == init[i];
      assert 0 <= i < |catalog| && 0 <= j < |catalog[i].1| &&
             e == CatalogEntry(catalog[i].0, catalog[i].1[j].0, catalog[i].1[j].1);
    } else {
      TypeEntriesMember(catalog[n].0, catalog[n].1, e);
      var j :| 0 <= j < |catalog[n].1| && e == CatalogEntry(catalog[n].0, catalog[n].1[j].0, catalog[n].1[j].1);
      assert 0 <= n < |catalog| && 0 <= j < |catalog[n].1| &&
             e == CatalogEntry(catalog[n].0, catalog[n].1[j].0, catalog[n].1[j].1);
    }
  }

  /** Every country of every series type of the catalog is visited. */
  lemma {:induction false} EntriesComplete(catalog: Catalog, i: nat, j: nat)
    requires i < |catalog| && j < |catalog[i].1|
    ensures CatalogEntry(catalog[i].0, catalog[i].1[j].0, catalog[i].1[j].1) in Entries(catalog)
    decreases |catalog|
  {
    var e := CatalogEntry(catalog[i].0, catalog[i].1[j].0, catalog[i].1[j].1);
    var n := |catalog| - 1;
    var init := catalog[..n];
    var last := TypeEntries(catalog[n].0, catalog[n].1);
    assert Entries(catalog) == Entries(init) + last;
    if i < n {
      assert init[i] == catalog[i];
      EntriesComplete(init, i, j);
      assert e in Entries(init);
    } else {
      TypeEntriesMember(catalog[n].0, catalog[n].1, e);
      assert e in last;
    }
  }

  /** An entry is visited exactly when it is some country of some series type of the catalog. */
  lemma EntriesMember(catalog: Catalog, e: CatalogEntry)
    ensures e in Entries(catalog) <==>
              exists i, j :: 0 <= i < |catalog| && 0 <= j < |catalog[i].1| &&
                             e == CatalogEntry(catalog[i].0, catalog[i].1[j].0, catalog[i].1[j].1)
  {
    if e in Entries(catalog) {
      EntriesSound(catalog, e);
    }
    if exists i, j :: 0 <= i < |catalog| && 0 <= j < |catalog[i].1| &&
                      e == CatalogEntry(catalog[i].0, catalog[i].1[j].0, catalog[i].1[j].1) {
      var i, j :| 0 <= i < |catalog| && 0 <= j < |catalog[i].1| &&
                  e == CatalogEntry(catalog[i].0, catalog[i].1[j].0, catalog[i].1[j].1);
      EntriesComplete(catalog, i, j);
    }
  }

  lemma {:induction false} TypeEntriesPrefix(seriesType: string, countries: seq<(string, string)>, j: nat)
    requires j <= |countries|
    ensures TypeEntries(seriesType, countries[..j]) <= TypeEntries(seriesType, countries)
    decreases |countries|
  {
    if j < |countries| {
      var init := countries[..|countries| - 1];
      assert init[..j] == countries[..j];
      TypeEntriesPrefix(seriesType, init, j);
    } else {
      assert countries[..j] == countries;
    }
  }

  lemma {:induction false} CatalogPrefix(catalog: Catalog, i: nat)
    requires i <= |catalog|
    ensures Entries(catalog[..i]) <= Entries(catalog)
    decreases |catalog|
  {
    if i < |catalog| {
      var init := catalog[..|catalog| - 1];
      assert init[..i] == catalog[..i];
      CatalogPrefix(init, i);
    } else {
      assert catalog[..i] == catalog;
    }
  }

  /** The entries visited up to country `j` of series type `i` are a prefix of all entries. */
  lemma EntriesPrefix(catalog: Catalog, i: nat, j: nat)
    requires i < |catalog| && j <= |catalog[i].1|
    ensures Entries(catalog[..i]) + TypeEntries(catalog[i].0, catalog[i].1[..j]) <= Entries(catalog)
  {
    TypeEntriesPrefix(catalog[i].0, catalog[i].1, j);
    assert catalog[..i + 1][..i] == catalog[..i];
    assert Entries(catalog[..i + 1]) == Entries(catalog[..i]) + TypeEntries(catalog[i].0, catalog[i].1);
    CatalogPrefix(catalog, i + 1);
  }

  /** `series.to_frame(name="value").reset_index()` with `country` and `series_type` set. */
  function TagMacro(series: RawSeries, country: string, seriesType: string): seq<MacroRow>
    decreases |series|
  {
    if series == [] then []
    else [MacroRow(series[0].date, series[0].value, country, seriesType)] + TagMacro(series[1..], country, seriesType)
  }

  /** Tagging keeps every row of the series, in order, and adds the two tags. */
  lemma {:induction false} TagMacroAt(series: RawSeries, country: string, seriesType: string, m: nat)
    requires m < |series|
    ensures |TagMacro(series, country, seriesType)| == |series|
    ensures TagMacro(series, country, seriesType)[m] == MacroRow(series[m].date, series[m].value, country, seriesType)
    decreases |series|
  {
    TagMacroLength(series, country, seriesType);
    if m > 0 {
      TagMacroAt(series[1..], country, seriesType, m - 1);
    }
  }

  lemma {:induction false} TagMacroLength(series: RawSeries, country: string, seriesType: string)
    ensures |TagMacro(series, country, seriesType)| == |series|
    decreases |series|
  {
    if series != [] {
      TagMacroLength(series[1..], country, seriesType);
    }
  }

  /** The frames the loops of `fetch_all_macro_data` append, against the cache as it was
      before the run; the error of the first series that cannot be fetched. */
  function EntryFrames(entries: seq<CatalogEntry>, store: Store, remote: map<string, RawSeries>): Result<seq<seq<MacroRow>>, Error>
    decreases |entries|
  {
    if entries == [] then Success([])
    else
      var e := entries[|entries| - 1];
      match EntryFrames(entries[..|entries| - 1], store, remote)
      case Failure(err) => Failure(err)
      case Success(frames) =>
        match Resolve(store, remote, RawFolder, e.seriesId)
        case Failure(err) => Failure(err)
        case Success(series) => Success(frames + [TagMacro(series, e.country, e.seriesType)])
  }

  /** The sort columns `["series_type", "country", "date"]`. */
  function MacroKey(row: MacroRow): SortKey
  {
    [StrPart(row.seriesType), StrPart(row.country), IntPart(row.date)]
  }

  /** What `fetch_all_macro_data` computes from the cache it starts with. */
  function CombineSpec(catalog: Catalog, store: Store, remote: map<string, RawSeries>): Result<seq<MacroRow>, Error>
  {
    match EntryFrames(Entries(catalog), store, remote)
    case Failure(err) => Failure(err)
    case Success(frames) =>
      if frames == [] then Failure(NoObjectsToConcatenate) else Success(SortBy(Concat(frames), MacroKey))
  }

  /** Visiting one more entry appends its tagged series, or fails with its fetch error. */
  lemma EntryFramesStep(before: seq<CatalogEntry>, e: CatalogEntry, store: Store, remote: map<string, RawSeries>, rows: seq<seq<MacroRow>>)
    requires EntryFrames(before, store, remote) == Success(rows)
    ensures var got := Resolve(store, remote, RawFolder, e.seriesId);
            EntryFrames(before + [e], store, remote) ==
              if got.Success? then Success(rows + [TagMacro(got.value, e.country, e.seriesType)]) else Failure(got.error)
  {
    assert (before + [e])[..|before|] == before;
  }

  /** Once a run has failed, visiting further entries does not change the error. */
  lemma {:induction false} EntryFramesFailurePrefix(a: seq<CatalogEntry>, b: seq<CatalogEntry>, store: Store, remote: map<string, RawSeries>)
    requires a <= b && EntryFrames(a, store, remote).Failure?
    ensures EntryFrames(b, store, remote) == EntryFrames(a, store, remote)
    decreases |b|
  {
    if |a| < |b| {
      var init := b[..|b| - 1];
      assert a <= init;
      EntryFramesFailurePrefix(a, init, store, remote);
    } else {
      assert a == b;
    }
  }

  /** The run succeeds exactly when every entry's series can be had. */
  lemma {:induction false} EntryFramesSucceeds(entries: seq<CatalogEntry>, store: Store, remote: map<string, RawSeries>)
    ensures EntryFrames(entries, store, remote).Success? <==>
              forall k :: 0 <= k < |entries| ==> Resolve(store, remote, RawFolder, entries[k].seriesId).Success?
    decreases |entries|
  {
    if entries != [] {
      var n := |entries| - 1;
      var init := entries[..n];
      EntryFramesSucceeds(init, store, remote);
      assert forall k :: 0 <= k < n ==> init[k] == entries[k];
    }
  }

  /** A successful run holds one frame per entry, in entry order, each the entry's
      series tagged with the entry's country and series type. */
  lemma {:induction false} EntryFramesAt(entries: seq<CatalogEntry>, store: Store, remote: map<string, RawSeries>, k: nat)
    requires EntryFrames(entries, store, remote).Success?
    requires k < |entries|
    ensures Resolve(store, remote, RawFolder, entries[k].seriesId).Success?
    ensures var frames := EntryFrames(entries, store, remote).value;
            |frames| == |entries| &&
            frames[k] == TagMacro(Resolve(store, remote, RawFolder, entries[k].seriesId).value,
                                  entries[k].country, entries[k].seriesType)
    decreases |entries|
  {
    var n := |entries| - 1;
    var init := entries[..n];
    var e := entries[n];
    var prev := EntryFrames(init, store, remote);
    assert prev.Success?;
    var got := Resolve(store, remote, RawFolder, e.seriesId);
    assert got.Success?;
    var frames := EntryFrames(entries, store, remote).value;
    assert frames == prev.value + [TagMacro(got.value, e.country, e.seriesType)];
    EntryFramesLengthIsCount(init, store, remote);
    if k < n {
      EntryFramesAt(init, store, remote, k);
      assert init[k] == entries[k];
      assert frames[k] == prev.value[k];
    }
  }

  lemma {:induction false} EntryFramesLengthIsCount(entries: seq<CatalogEntry>, store: Store, remote: map<string, RawSeries>)
    requires EntryFrames(entries, store, remote).Success?
    ensures |EntryFrames(entries, store, remote).value| == |entries|
    decreases |entries|
  {
    if entries != [] {
      EntryFramesLengthIsCount(entries[..|entries| - 1], store, remote);
    }
  }

  /** The error of a failed run is that of the first entry whose series cannot be had. */
  lemma {:induction false} EntryFramesFirstFailure(entries: seq<CatalogEntry>, store: Store, remote: map<string, RawSeries>, k: nat)
    requires k < |entries|
    requires Resolve(store, remote, RawFolder, entries[k].seriesId).Failure?
    requires forall k' :: 0 <= k' < k ==> Resolve(store, remote, RawFolder, entries[k'].seriesId).Success?
    ensures EntryFrames(entries, store, remote) == Failure(FetchFailed(entries[k].seriesId))
  {
    var pre := entries[..k + 1];
    assert pre[..k] == entries[..k];
    assert forall k' :: 0 <= k' < k ==> entries[..k][k'] == entries[k'];
    EntryFramesSucceeds(entries[..k], store, remote);
    EntryFramesFailurePrefix(pre, entries, store, remote);
  }

  /** The total length of the series of `entries` that can be had. */
  function SeriesLengthSum(entries: seq<CatalogEntry>, store: Store, remote: map<string, RawSeries>): nat
    decreases |entries|
  {
    if entries == [] then 0
    else
      var e := entries[|entries| - 1];
      SeriesLengthSum(entries[..|entries| - 1], store, remote) +
      match Resolve(store, remote, RawFolder, e.seriesId)
      case Success(series) => |series|
      case Failure(_) => 0
  }

  lemma {:induction false} EntryFramesLength(entries: seq<CatalogEntry>, store: Store, remote: map<string, RawSeries>)
    requires EntryFrames(entries, store, remote).Success?
    ensures |Concat(EntryFrames(entries, store, remote).value)| == SeriesLengthSum(entries, store, remote)
    decreases |entries|
  {
    if entries != [] {
      var init := entries[..|entries| - 1];
      EntryFramesLength(init, store, remote);
      var frames := EntryFrames(init, store, remote).value;
      var f := EntryFrames(entries, store, remote).value;
      var e := entries[|entries| - 1];
      var got := Resolve(store, remote, RawFolder, e.seriesId);
      assert got.Success?;
      assert f == frames + [TagMacro(got.value, e.country, e.seriesType)];
      TagMacroLength(got.value, e.country, e.seriesType);
      assert f[..|f| - 1] == frames;
    }
  }

  /** Every combined row comes from some catalog entry: it carries that entry's country
      and series type, and its date and value are a row of that entry's series. */
  lemma EntryFramesRowOrigin(entries: seq<CatalogEntry>, store: Store, remote: map<string, RawSeries>, row: MacroRow)
    requires EntryFrames(entries, store, remote).Success?
    requires row in Concat(EntryFrames(entries, store, remote).value)
    ensures exists k :: 0 <= k < |entries| && entries[k].country == row.country &&
                        entries[k].seriesType == row.seriesType &&
                        Resolve(store, remote, RawFolder, entries[k].seriesId).Success? &&
                        RawRow(row.date, row.value) in Resolve(store, remote, RawFolder, entries[k].seriesId).value
  {
    var frames := EntryFrames(entries, store, remote).value;
    ConcatMember(frames, row);
    var k :| 0 <= k < |frames| && row in frames[k];
    EntryFramesLengthIsCount(entries, store, remote);
    EntryFramesAt(entries, store, remote, k);
    var series := Resolve(store, remote, RawFolder, entries[k].seriesId).value;
    var m :| 0 <= m < |frames[k]| && frames[k][m] == row;
    TagMacroLength(series, entries[k].country, entries[k].seriesType);
    TagMacroAt(series, entries[k].country, entries[k].seriesType, m);
    assert series[m] == RawRow(row.date, row.value);
  }

  /** On success the combined table is sorted by (series type, country, date), is a
      permutation of the concatenated frames, has one row per row of every catalog
      series, and each row is tagged with the catalog entry it came from. */
  lemma CombineSpecSuccess(catalog: Catalog, store: Store, remote: map<string, RawSeries>)
    requires CombineSpec(catalog, store, remote).Success?
    ensures SortedBy(CombineSpec(catalog, store, remote).value, MacroKey)
    ensures EntryFrames(Entries(catalog), store, remote).Success?
    ensures multiset(CombineSpec(catalog, store, remote).value)
              == multiset(Concat(EntryFrames(Entries(catalog), store, remote).value))
    ensures |CombineSpec(catalog, store, remote).value| == SeriesLengthSum(Entries(catalog), store, remote)
    ensures forall row :: row in CombineSpec(catalog, store, remote).value ==>
              exists e :: e in Entries(catalog) && e.country == row.country && e.seriesType == row.seriesType
  {
    var rows := CombineSpec(catalog, store, remote).value;
    var entries := Entries(catalog);
    var frames := EntryFrames(entries, store, remote).value;
    EntryFramesLength(entries, store, remote);
    forall row | row in rows
      ensures exists e :: e in entries && e.country == row.country && e.seriesType == row.seriesType
    {
      assert row in multiset(Concat(frames));
      EntryFramesRowOrigin(entries, store, remote, row);
      var k :| 0 <= k < |entries| && entries[k].country == row.country && entries[k].seriesType == row.seriesType;
      assert entries[k] in entries;
    }
  }

  /** The combiner fails exactly when the catalog has no entry (nothing to concatenate)
      or some catalog series can be neither loaded nor fetched. */
  lemma CombineSpecFailure(catalog: Catalog, store: Store, remote: map<string, RawSeries>)
    ensures CombineSpec(catalog, store, remote).Failure? <==>
              Entries(catalog) == [] ||
              exists k :: 0 <= k < |Entries(catalog)| && Resolve(store, remote, RawFolder, Entries(catalog)[k].seriesId).Failure?
    ensures CombineSpec(catalog, store, remote) == Failure(NoObjectsToConcatenate) <==> Entries(catalog) == []
  {
    var entries := Entries(catalog);
    EntryFramesSucceeds(entries, store, remote);
    if EntryFrames(entries, store, remote).Failure? {
      var k :| 0 <= k < |entries| && Resolve(store, remote, RawFolder, entries[k].seriesId).Failure?;
      FirstFailing(entries, store, remote, k);
    }
  }

  /** Some failing index has no failing index before it. */
  lemma {:induction false} FirstFailing(entries: seq<CatalogEntry>, store: Store, remote: map<string, RawSeries>, k: nat)
    requires k < |entries| && Resolve(store, remote, RawFolder, entries[k].seriesId).Failure?
    ensures EntryFrames(entries, store, remote).Failure? && EntryFrames(entries, store, remote).error.FetchFailed?
    decreases k
  {
    if exists k' :: 0 <= k' < k && Resolve(store, remote, RawFolder, entries[k'].seriesId).Failure? {
      var k' :| 0 <= k' < k && Resolve(store, remote, RawFolder, entries[k'].seriesId).Failure?;
      FirstFailing(entries, store, remote, k');
    } else {
      EntryFramesFirstFailure(entries, store, remote, k);
    }
  }
}
