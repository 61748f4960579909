/**
 * The long-format merger: for each country, read its cleaned file if it exists,
 * tag the rows with the country, keep the columns `date`, `country`, `cpi`,
 * concatenate and sort by (date, country).
 */
module MergeFredSeries {
  import opened Wrappers
  import opened Tables
  import opened Paths
  import opened Ordering
  import opened CleanFredSeries

  /** The default input folder of `merge_series_long`. */
  const DefaultInputFolder: string := "data/processed/individual"

  /** The processed files: cleaned tables by file path. */
  type Disk = map<string, seq<CpiRow>>

  /** `Path(input_folder) / f"{slug}_core_cpi.csv"`, where the merger looks for a country. */
  function CountryPath(folder: string, country: string): string
  {
    Join(folder, CountryFileName(country))
  }

  /** `df["country"] = country` followed by `df[["date", "country", "cpi"]]`. */
  function TagCountry(rows: seq<CpiRow>, country: string): seq<LongRow>
    decreases |rows|
  {
    if rows == [] then []
    else [LongRow(rows[0].date, country, rows[0].cpi)] + TagCountry(rows[1..], country)
  }

  lemma {:induction false} TagCountryLength(rows: seq<CpiRow>, country: string)
    ensures |TagCountry(rows, country)| == |rows|
    decreases |rows|
  {
    if rows != [] {
      TagCountryLength(rows[1..], country);
    }
  }

  /** Tagging keeps every row, in order, with the given country added. */
  lemma {:induction false} TagCountryAt(rows: seq<CpiRow>, country: string, m: nat)
    requires m < |rows|
    ensures |TagCountry(rows, country)| == |rows|
    ensures TagCountry(rows, country)[m] == LongRow(rows[m].date, country, rows[m].cpi)
    decreases |rows|
  {
    TagCountryLength(rows, country);
    if m > 0 {
      TagCountryAt(rows[1..], country, m - 1);
    }
  }

  /** The list `records` after the loop over `countries`: one tagged frame per country
      whose file exists, in order; a country without a file adds nothing. */
  function Frames(countries: seq<string>, folder: string, disk: Disk): seq<seq<LongRow>>
    decreases |countries|
  {
    if countries == [] then []
    else
      var c := countries[|countries| - 1];
      var p := CountryPath(folder, c);
      Frames(countries[..|countries| - 1], folder, disk) + if p in disk then [TagCountry(disk[p], c)] else []
  }

  /** The sort columns `["date", "country"]`. */
  function LongKey(row: LongRow): SortKey
  {
    [IntPart(row.date), StrPart(row.country)]
  }

  /** What `merge_series_long` returns: `pd.concat` raises when no file was found. */
  function MergeSpec(countries: seq<string>, folder: string, disk: Disk): Result<seq<LongRow>, Error>
  {
    var frames := Frames(countries, folder, disk);
    if frames == [] then Failure(NoObjectsToConcatenate) else Success(SortBy(Concat(frames), LongKey))
  }

  /** `merge_series_long(series_dict, input_folder)`, iterating the dict's keys in order. */
  method MergeSeriesLong(countries: seq<string>, inputFolder: string, disk: Disk) returns (r: Result<seq<LongRow>, Error>)
    ensures r == MergeSpec(countries, inputFolder, disk)
  {
    var records: seq<seq<LongRow>> := [];
    for i := 0 to |countries|
      invariant records == Frames(countries[..i], inputFolder, disk)
    {
      assert countries[..i + 1][..i] == countries[..i];
      var country := countries[i];
      var path := Join(inputFolder, CountryFileName(country));
      if path !in disk {
        continue;
      }
      var df := TagCountry(disk[path], country);
      records := records + [df];
    }
    assert countries[..|countries|] == countries;
    if records == [] {
      return Failure(NoObjectsToConcatenate);
    }
    var merged := Concat(records);
    r := Success(SortBy(merged, LongKey));
  }

  /** The rows in the existing files of `countries`, counted per country. */
  function ExistingRowCount(countries: seq<string>, folder: string, disk: Disk): nat
    decreases |countries|
  {
    if countries == [] then 0
    else
      var p := CountryPath(folder, countries[|countries| - 1]);
      ExistingRowCount(countries[..|countries| - 1], folder, disk) + if p in disk then |disk[p]| else 0
  }

  /** The loop over a list of countries is the loop over its first part, then its second. */
  lemma {:induction false} FramesAppend(a: seq<string>, b: seq<string>, folder: string, disk: Disk)
    ensures Frames(a + b, folder, disk) == Frames(a, folder, disk) + Frames(b, folder, disk)
    decreases |b|
  {
    if b == [] {
      assert a + b == a;
    } else {
      var b' := b[..|b| - 1];
      assert (a + b)[..|a + b| - 1] == a + b';
      FramesAppend(a, b', folder, disk);
    }
  }

  /** A country whose file is absent adds no frame to the loop over any list it sits in. */
  lemma FramesSkipMissing(pre: seq<string>, c: string, post: seq<string>, folder: string, disk: Disk)
    requires CountryPath(folder, c) !in disk
    ensures Frames(pre + [c] + post, folder, disk) == Frames(pre + post, folder, disk)
  {
    FramesAppend(pre + [c], post, folder, disk);
    FramesAppend(pre, [c], folder, disk);
    FramesAppend(pre, post, folder, disk);
    assert [c][..0] == [];
    assert Frames([c], folder, disk) == [];
  }

  /** A country whose file is absent is skipped and the loop goes on: the merge is that of
      the other countries, before and after it. */
  lemma SkipMissingCountry(pre: seq<string>, c: string, post: seq<string>, folder: string, disk: Disk)
    requires CountryPath(folder, c) !in disk
    ensures MergeSpec(pre + [c] + post, folder, disk) == MergeSpec(pre + post, folder, disk)
  {
    FramesSkipMissing(pre, c, post, folder, disk);
  }

  /** No frame is collected exactly when no country's file exists. */
  lemma {:induction false} FramesEmpty(countries: seq<string>, folder: string, disk: Disk)
    ensures Frames(countries, folder, disk) == [] <==>
              forall c :: c in countries ==> CountryPath(folder, c) !in disk
    decreases |countries|
  {
    if countries != [] {
      var init := countries[..|countries| - 1];
      FramesEmpty(init, folder, disk);
      assert countries == init + [countries[|countries| - 1]];
    }
  }

  /** The merge fails, rather than returning an empty table, exactly when no country's
      file exists. */
  lemma MergeFailsIffNoFile(countries: seq<string>, folder: string, disk: Disk)
    ensures MergeSpec(countries, folder, disk).Failure? <==>
              forall c :: c in countries ==> CountryPath(folder, c) !in disk
    ensures MergeSpec(countries, folder, disk).Failure? ==>
              MergeSpec(countries, folder, disk).error == NoObjectsToConcatenate
  {
    FramesEmpty(countries, folder, disk);
  }

  lemma {:induction false} FramesRowCount(countries: seq<string>, folder: string, disk: Disk)
    ensures |Concat(Frames(countries, folder, disk))| == ExistingRowCount(countries, folder, disk)
    decreases |countries|
  {
    if countries != [] {
      var init := countries[..|countries| - 1];
      var c := countries[|countries| - 1];
      var p := CountryPath(folder, c);
      FramesRowCount(init, folder, disk);
      var prev := Frames(init, folder, disk);
      if p in disk {
        var f := TagCountry(disk[p], c);
        assert (prev + [f])[..|prev|] == prev;
        assert Concat(prev + [f]) == Concat(prev) + f;
        TagCountryLength(disk[p], c);
      } else {
        assert Frames(countries, folder, disk) == prev;
      }
    }
  }

  /** Every collected row carries the country whose file it was read from, with a date
      and a value from that file. */
  lemma {:induction false} FramesRowOrigin(countries: seq<string>, folder: string, disk: Disk, row: LongRow)
    requires row in Concat(Frames(countries, folder, disk))
    ensures row.country in countries
    ensures CountryPath(folder, row.country) in disk
    ensures CpiRow(row.date, row.cpi) in disk[CountryPath(folder, row.country)]
    decreases |countries|
  {
    assert countries != [];
    var init := countries[..|countries| - 1];
    var c := countries[|countries| - 1];
    var p := CountryPath(folder, c);
    var prev := Frames(init, folder, disk);
    if p in disk {
      var f := TagCountry(disk[p], c);
      assert Concat(prev + [f]) == Concat(prev) + f by {
        assert (prev + [f])[..|prev|] == prev;
      }
      if row in f {
        var m :| 0 <= m < |f| && f[m] == row;
        TagCountryLength(disk[p], c);
        TagCountryAt(disk[p], c, m);
        return;
      }
      assert row in Concat(prev);
    } else {
      assert Frames(countries, folder, disk) == prev;
    }
    FramesRowOrigin(init, folder, disk, row);
    assert row.country in init;
  }

  /** A successful merge is sorted by (date, country), is a permutation of the collected
      rows, has as many rows as the existing files together, and tags every row with the
      country whose file holds it. */
  lemma MergeSuccess(countries: seq<string>, folder: string, disk: Disk)
    requires MergeSpec(countries, folder, disk).Success?
    ensures SortedBy(MergeSpec(countries, folder, disk).value, LongKey)
    ensures multiset(MergeSpec(countries, folder, disk).value) == multiset(Concat(Frames(countries, folder, disk)))
    ensures |MergeSpec(countries, folder, disk).value| == ExistingRowCount(countries, folder, disk)
    ensures forall row :: row in MergeSpec(countries, folder, disk).value ==>
                 && row.country in countries
                 && CountryPath(folder, row.country) in disk
                 && CpiRow(row.date, row.cpi) in disk[CountryPath(folder, row.country)]
  {
    var rows := MergeSpec(countries, folder, disk).value;
    var all := Concat(Frames(countries, folder, disk));
    FramesRowCount(countries, folder, disk);
    forall row | row in rows
      ensures row.country in countries && CountryPath(folder, row.country) in disk
      ensures CpiRow(row.date, row.cpi) in disk[CountryPath(folder, row.country)]
    {
      assert row in multiset(all);
      FramesRowOrigin(countries, folder, disk, row);
    }
  }

  /** A country whose file is absent has no row in the merged table. */
  lemma MissingCountryHasNoRows(countries: seq<string>, folder: string, disk: Disk, c: string)
    requires CountryPath(folder, c) !in disk
    requires MergeSpec(countries, folder, disk).Success?
    ensures forall row :: row in MergeSpec(countries, folder, disk).value ==> row.country != c
  {
    MergeSuccess(countries, folder, disk);
  }

  /** The cleaner's file name for a non-empty country name is the merger's. */
  lemma CleanerPathIsMergerPath(seriesId: string, name: string, folder: string)
    requires name != ""
    ensures Join(folder, CleanedFileName(seriesId, Some(name))) == CountryPath(folder, name)
  {
  }

  /** Merging one country whose file exists collects that file's rows, tagged. */
  lemma MergeOne(name: string, folder: string, disk: Disk)
    requires CountryPath(folder, name) in disk
    ensures MergeSpec([name], folder, disk) == Success(SortBy(TagCountry(disk[CountryPath(folder, name)], name), LongKey))
  {
    var frame := TagCountry(disk[CountryPath(folder, name)], name);
    assert [name][..0] == [];
    assert Frames([name], folder, disk) == [frame];
    assert Concat([frame]) == frame by {
      assert [frame][..0] == [];
    }
  }

  /** The cleaner and the merger name a country's file the same way: a table the cleaner
      saves for a non-empty country name in a folder is what the merger reads from that
      folder for the same name. */
  lemma CleanedFileFoundByMerger(seriesId: string, name: string, folder: string, table: seq<CpiRow>, disk: Disk)
    requires name != ""
    ensures MergeSpec([name], folder, disk[Join(folder, CleanedFileName(seriesId, Some(name))) := table]).Success?
    ensures MergeSpec([name], folder, disk[Join(folder, CleanedFileName(seriesId, Some(name))) := table]).value
              == SortBy(TagCountry(table, name), LongKey)
  {
    CleanerPathIsMergerPath(seriesId, name, folder);
    var disk' := disk[CountryPath(folder, name) := table];
    MergeOne(name, folder, disk');
  }

  /** With their default folders, the merger never reads the file the cleaner wrote for
      the same country: the cleaner writes under `data/processed`, the merger reads
      `data/processed/individual`. */
  lemma DefaultFoldersMiss(seriesId: string, name: string)
    requires name != ""
    ensures CountryPath(DefaultInputFolder, name) != Join(DefaultOutputFolder, CleanedFileName(seriesId, Some(name)))
  {
    var f := CountryFileName(name);
    assert |Join(DefaultInputFolder, f)| == |DefaultInputFolder| + 1 + |f|;
    assert |Join(DefaultOutputFolder, f)| == |DefaultOutputFolder| + 1 + |f|;
  }
}
