/**
 * The series cleaner: keep the first row of each date, then drop the rows whose
 * value is missing, then call the value column `cpi`; and the name of the file
 * the cleaned series is written to.
 */
module CleanFredSeries {
  import opened Wrappers
  import opened Tables
  import opened Paths
  import opened FetchFred

  /** The default output folder of `clean_and_save_series`. */
  const DefaultOutputFolder: string := "data/processed"

  /** Some row of `s` has date `d`. */
  predicate HasDate(s: RawSeries, d: Date)
  {
    exists i :: 0 <= i < |s| && s[i].date == d
  }

  /** Row `i` is the first row with its date: the rows `duplicated(keep='first')` does not flag. */
  predicate IsFirstOccurrence(s: RawSeries, i: int)
  {
    0 <= i < |s| && forall j :: 0 <= j < i ==> s[j].date != s[i].date
  }

  /** Row `i` survives cleaning: it is the first of its date and its value is present. */
  predicate Kept(s: RawSeries, i: int)
  {
    IsFirstOccurrence(s, i) && s[i].value.Some?
  }

  /** `df[~df.index.duplicated(keep='first')]`. */
  function DedupFirst(s: RawSeries): RawSeries
    decreases |s|
  {
    if s == [] then []
    else
      var init, last := s[..|s| - 1], s[|s| - 1];
      DedupFirst(init) + if HasDate(init, last.date) then [] else [last]
  }

  /** `.dropna()`: its result has a value in every row. */
  function DropMissing(s: RawSeries): (r: RawSeries)
    ensures forall k :: 0 <= k < |r| ==> r[k].value.Some?
    decreases |s|
  {
    if s == [] then []
    else
      var init, last := s[..|s| - 1], s[|s| - 1];
      DropMissing(init) + if last.value.Some? then [last] else []
  }

  /** `.rename(columns={"value": "cpi"})` on a frame without missing values. */
  function Relabel(s: RawSeries): seq<CpiRow>
    requires forall k :: 0 <= k < |s| ==> s[k].value.Some?
    decreases |s|
  {
    if s == [] then []
    else
      var last := s[|s| - 1];
      Relabel(s[..|s| - 1]) + [CpiRow(last.date, last.value.value)]
  }

  /** The cleaning step of `clean_and_save_series`: de-duplicate first, then drop missing values. */
  function Clean(raw: RawSeries): seq<CpiRow>
  {
    Relabel(DropMissing(DedupFirst(raw)))
  }

  /** The positions of the rows that survive cleaning, in increasing order. */
  function KeptIndices(s: RawSeries): seq<nat>
    decreases |s|
  {
    if s == [] then []
    else KeptIndices(s[..|s| - 1]) + if Kept(s, |s| - 1) then [|s| - 1] else []
  }

  /** The earlier rows of a series are judged the same with or without its last row. */
  lemma KeptInPrefix(s: RawSeries, i: nat)
    requires i < |s| - 1
    ensures Kept(s, i) <==> Kept(s[..|s| - 1], i)
  {
    var init := s[..|s| - 1];
    assert forall j :: 0 <= j <= i ==> init[j] == s[j];
  }

  /** The last row is the first of its date exactly when no earlier row has that date. */
  lemma LastIsFirstOccurrence(s: RawSeries)
    requires s != []
    ensures IsFirstOccurrence(s, |s| - 1) <==> !HasDate(s[..|s| - 1], s[|s| - 1].date)
  {
    var init := s[..|s| - 1];
    assert forall j :: 0 <= j < |init| ==> init[j] == s[j];
  }

  /** Cleaning a series with one more row appends that row, relabelled, exactly when it is kept. */
  lemma CleanSnoc(s: RawSeries)
    requires s != []
    ensures Clean(s) == Clean(s[..|s| - 1]) +
              if Kept(s, |s| - 1) then [CpiRow(s[|s| - 1].date, s[|s| - 1].value.value)] else []
  {
    var init, last := s[..|s| - 1], s[|s| - 1];
    LastIsFirstOccurrence(s);
    var d := DedupFirst(init);
    var m := DropMissing(d);
    if HasDate(init, last.date) {
      assert DedupFirst(s) == d;
    } else {
      assert DedupFirst(s) == d + [last];
      assert (d + [last])[..|d|] == d;
      if last.value.Some? {
        assert DropMissing(d + [last]) == m + [last];
        assert (m + [last])[..|m|] == m;
        assert Relabel(m + [last]) == Relabel(m) + [CpiRow(last.date, last.value.value)];
      } else {
        assert DropMissing(d + [last]) == m;
      }
    }
  }

  /** `KeptIndices` lists exactly the kept positions, in strictly increasing order. */
  lemma {:induction false} KeptIndicesSpec(s: RawSeries)
    ensures forall k :: 0 <= k < |KeptIndices(s)| ==> KeptIndices(s)[k] < |s| && Kept(s, KeptIndices(s)[k])
    ensures forall k1, k2 :: 0 <= k1 < k2 < |KeptIndices(s)| ==> KeptIndices(s)[k1] < KeptIndices(s)[k2]
    ensures forall i :: 0 <= i < |s| && Kept(s, i) ==> i in KeptIndices(s)
    decreases |s|
  {
    if s != [] {
      var n := |s| - 1;
      var init := s[..n];
      KeptIndicesSpec(init);
      var prev := KeptIndices(init);
      forall k | 0 <= k < |prev| ensures Kept(s, prev[k]) {
        KeptInPrefix(s, prev[k]);
      }
      forall i | 0 <= i < n && Kept(s, i) ensures i in prev {
        KeptInPrefix(s, i);
      }
    }
  }

  /** The cleaned series is the kept rows, in order, with their values as `cpi`. */
  lemma {:induction false} CleanIsKeptRows(s: RawSeries)
    ensures var idx := KeptIndices(s);
            |Clean(s)| == |idx| &&
            forall k :: 0 <= k < |idx| ==>
              idx[k] < |s| && s[idx[k]].value.Some? && Clean(s)[k] == CpiRow(s[idx[k]].date, s[idx[k]].value.value)
    decreases |s|
  {
    if s != [] {
      var n := |s| - 1;
      var init := s[..n];
      CleanIsKeptRows(init);
      CleanSnoc(s);
      KeptIndicesSpec(init);
      assert forall j :: 0 <= j < n ==> init[j] == s[j];
    }
  }

  /** The output is an order-preserving selection of the input: the k-th cleaned row is
      the raw row at the k-th kept position, same date and same value. */
  lemma CleanSubsequence(s: RawSeries)
    ensures var idx := KeptIndices(s);
            && |Clean(s)| == |idx|
            && (forall k1, k2 :: 0 <= k1 < k2 < |idx| ==> idx[k1] < idx[k2])
            && (forall k :: 0 <= k < |idx| ==>
                  idx[k] < |s| && s[idx[k]] == RawRow(Clean(s)[k].date, Some(Clean(s)[k].cpi)))
  {
    CleanIsKeptRows(s);
    KeptIndicesSpec(s);
  }

  /** Two first occurrences of the same date are the same row. */
  lemma FirstOccurrenceUnique(s: RawSeries, i: nat, j: nat)
    requires IsFirstOccurrence(s, i) && IsFirstOccurrence(s, j) && s[i].date == s[j].date
    ensures i == j
  {
  }

  /** After cleaning, no two rows share a date. */
  lemma CleanNoDuplicateDates(s: RawSeries)
    ensures forall k1, k2 :: 0 <= k1 < k2 < |Clean(s)| ==> Clean(s)[k1].date != Clean(s)[k2].date
  {
    CleanIsKeptRows(s);
    KeptIndicesSpec(s);
  }

  /** A row is in the cleaned series exactly when the first raw row of its date carries
      its value. */
  lemma CleanMember(s: RawSeries, d: Date, v: real)
    ensures CpiRow(d, v) in Clean(s) <==>
              exists i :: IsFirstOccurrence(s, i) && s[i] == RawRow(d, Some(v))
  {
    CleanIsKeptRows(s);
    KeptIndicesSpec(s);
    var idx := KeptIndices(s);
    if CpiRow(d, v) in Clean(s) {
      var k :| 0 <= k < |Clean(s)| && Clean(s)[k] == CpiRow(d, v);
      assert IsFirstOccurrence(s, idx[k]) && s[idx[k]] == RawRow(d, Some(v));
    }
    if exists i :: IsFirstOccurrence(s, i) && s[i] == RawRow(d, Some(v)) {
      var i :| IsFirstOccurrence(s, i) && s[i] == RawRow(d, Some(v));
      assert Kept(s, i);
      var k :| 0 <= k < |idx| && idx[k] == i;
      assert Clean(s)[k] == CpiRow(d, v);
    }
  }

  /** De-duplication runs before missing values are dropped: when the first row of a date
      has no value the date is gone from the output, even if a later row of that date has one. */
  lemma FirstMissingDropsDate(s: RawSeries, i: nat)
    requires IsFirstOccurrence(s, i) && s[i].value.None?
    ensures forall k :: 0 <= k < |Clean(s)| ==> Clean(s)[k].date != s[i].date
  {
    CleanIsKeptRows(s);
    KeptIndicesSpec(s);
    var idx := KeptIndices(s);
    forall k | 0 <= k < |Clean(s)| ensures Clean(s)[k].date != s[i].date {
      if Clean(s)[k].date == s[i].date {
        FirstOccurrenceUnique(s, idx[k], i);
      }
    }
  }

  /** The same case on a two-row input: the missing first row hides the later value. */
  lemma FirstMissingExample()
    ensures Clean([RawRow(1, None), RawRow(1, Some(2.0))]) == []
  {
    var s := [RawRow(1, None), RawRow(1, Some(2.0))];
    FirstMissingDropsDate(s, 0);
    CleanSubsequence(s);
  }

  /** A cleaned frame read back as a raw series: its `cpi` values as present values. */
  function AsRaw(c: seq<CpiRow>): (s: RawSeries)
    decreases |c|
  {
    if c == [] then [] else AsRaw(c[..|c| - 1]) + [RawRow(c[|c| - 1].date, Some(c[|c| - 1].cpi))]
  }

  lemma {:induction false} AsRawAt(c: seq<CpiRow>, k: nat)
    requires k < |c|
    ensures |AsRaw(c)| == |c| && AsRaw(c)[k] == RawRow(c[k].date, Some(c[k].cpi))
    decreases |c|
  {
    AsRawLength(c);
    if k < |c| - 1 {
      AsRawAt(c[..|c| - 1], k);
    }
  }

  lemma {:induction false} AsRawLength(c: seq<CpiRow>)
    ensures |AsRaw(c)| == |c|
    decreases |c|
  {
    if c != [] {
      AsRawLength(c[..|c| - 1]);
    }
  }

  /** A series that already has distinct dates and no missing value cleans to itself. */
  lemma {:induction false} CleanKeepsCleanSeries(c: seq<CpiRow>)
    requires forall k1, k2 :: 0 <= k1 < k2 < |c| ==> c[k1].date != c[k2].date
    ensures Clean(AsRaw(c)) == c
    decreases |c|
  {
    if c != [] {
      var n := |c| - 1;
      var init := c[..n];
      CleanAsRawSnoc(c);
      CleanKeepsCleanSeries(init);
      assert c == init + [c[n]];
    }
  }

  /** The last row of a series with distinct dates survives cleaning it read back. */
  lemma CleanAsRawSnoc(c: seq<CpiRow>)
    requires c != []
    requires forall k1, k2 :: 0 <= k1 < k2 < |c| ==> c[k1].date != c[k2].date
    ensures Clean(AsRaw(c)) == Clean(AsRaw(c[..|c| - 1])) + [c[|c| - 1]]
  {
    var n := |c| - 1;
    var s := AsRaw(c);
    var init := c[..n];
    assert s == AsRaw(init) + [RawRow(c[n].date, Some(c[n].cpi))];
    AsRawLength(c);
    assert s[..n] == AsRaw(init);
    assert IsFirstOccurrence(s, n) by {
      forall j | 0 <= j < n ensures s[j].date != s[n].date {
        AsRawAt(c, j);
      }
    }
    CleanSnoc(s);
  }

  /** Cleaning is idempotent: cleaning the cleaned series again gives it back unchanged. */
  lemma CleanIdempotent(s: RawSeries)
    ensures Clean(AsRaw(Clean(s))) == Clean(s)
  {
    CleanNoDuplicateDates(s);
    CleanKeepsCleanSeries(Clean(s));
  }

  /** The file name `clean_and_save_series` writes: the country file name when a non-empty
      country name is given, and `<series_id>.csv` otherwise. */
  function CleanedFileName(seriesId: string, countryName: Option<string>): string
  {
    if countryName.Some? && countryName.value != "" then CountryFileName(countryName.value)
    else seriesId + ".csv"
  }

  /** The two shapes of the cleaned file's name; the country part has no spaces and no
      upper-case ASCII letters. */
  lemma CleanedFileNameShape(seriesId: string, countryName: Option<string>)
    ensures countryName.Some? && countryName.value != "" ==>
              var slug := AsciiLower(ReplaceSpaces(countryName.value));
              && CleanedFileName(seriesId, countryName) == slug + "_core_cpi.csv"
              && |slug| == |countryName.value|
              && forall i :: 0 <= i < |slug| ==> slug[i] != ' ' && !('A' <= slug[i] <= 'Z')
    ensures !(countryName.Some? && countryName.value != "") ==>
              CleanedFileName(seriesId, countryName) == seriesId + ".csv"
  {
    if countryName.Some? && countryName.value != "" {
      var name := countryName.value;
      SlugIsNormal(name);
    }
  }

  /** What `clean_and_save_series` writes: a path and the cleaned table. */
  datatype SavedFile = SavedFile(path: string, table: seq<CpiRow>)

  /** `clean_and_save_series`: fetches the series through the cache (a fetch error
      propagates), cleans it and names its output file. The CSV write itself is left out. */
  method CleanAndSaveSeries(cache: SeriesCache, seriesId: string, countryName: Option<string>, outputFolder: string)
    returns (r: Result<SavedFile, Error>)
    modifies cache`store, cache`fetchCount
    ensures match Resolve(old(cache.store), cache.remote, RawFolder, seriesId)
            case Failure(e) => r == Failure(e)
            case Success(raw) =>
              r == Success(SavedFile(Join(outputFolder, CleanedFileName(seriesId, countryName)), Clean(raw)))
    ensures CachePath(RawFolder, seriesId) in old(cache.store) ==>
              cache.store == old(cache.store) && cache.fetchCount == old(cache.fetchCount)
    ensures CachePath(RawFolder, seriesId) !in old(cache.store) ==>
              cache.fetchCount == old(cache.fetchCount) + 1 &&
              cache.store == if seriesId in cache.remote
                             then Saved(old(cache.store), cache.remote[seriesId], seriesId, RawFolder)
                             else old(cache.store)
    ensures Agrees(cache.store, old(cache.store), cache.remote, RawFolder)
  {
    var series := cache.GetOrFetchSeries(seriesId, RawFolder);
    if series.Failure? {
      return Failure(series.error);
    }
    var df := Clean(series.value);
    var filename := CleanedFileName(seriesId, countryName);
    r := Success(SavedFile(Join(outputFolder, filename), df));
  }
}
