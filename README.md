# Core CPI pipeline: cleaning, merging and fetching macro series

This project models, in Dafny, the data-wrangling core of a small pipeline. The pipeline
fetches quarterly macroeconomic series (core CPI and GDP for ten countries) from the FRED
economic-data service and prepares them for a dashboard. The model covers three steps:

- **Series cleaner** (`clean_and_save_series`). It keeps the first row of each date. Then
  it drops the rows whose value is missing. Then it renames the value column `cpi`. It
  names the output file after the country: `new_zealand_core_cpi.csv` for
  "New Zealand". With no country name, or an empty one, the file is `<series_id>.csv`.
- **Long-format merger** (`merge_series_long`). For each country it looks for the
  country's cleaned file and skips the country when the file is absent. It tags the rows
  with the country and keeps the columns `date`, `country` and `cpi`. It concatenates the
  frames and sorts by `(date, country)`. When no file exists, `pd.concat` of the empty
  list raises, so the merge fails rather than returning an empty table.
- **Cached fetcher and macro combiner** (`get_or_fetch_series`, `fetch_all_macro_data`).
  The fetcher returns the series stored at `folder/<series_id>.csv` when that file exists,
  without calling the remote service. Otherwise it calls the service once, stores the
  result under that path and returns it. The combiner fetches every series of the nested
  catalog (series type, then country, then series id). It tags each series' rows with
  `country` and `series_type`, concatenates them and sorts by
  `(series_type, country, date)`.

Modules follow the source files: `FetchFred` (fetch_fred.py), `CleanFredSeries`
(clean_fred_series.py) and `MergeFredSeries` (merge_fred_series.py). Four shared modules
support them:

- `Wrappers`: Option and Result.
- `Tables`: the row types, the errors and `pd.concat`.
- `Ordering`: Python's string order, lexicographic sort keys, and a sort standing in for
  `sort_values`.
- `Paths`: pathlib's `/`, the country slug and the country file name. The cleaner and the
  merger share these, so both build a country's file name from one definition.

The file system is modelled as maps from a file path to the table in that file. The
remote FRED service is a map from series id to series; an id it does not know makes the
call raise (`FetchFailed`). The cache is a class `SeriesCache` with a `store` map field,
the remote map as a constant, and a ghost `fetchCount` of remote calls. Dates are
integers, since only their order matters. Strings are sequences of characters.

Two behaviours of the code worth knowing:

- A merge that finds no file does not return an empty table. `pd.concat` of the empty
  list raises at merge_fred_series.py:25, so `MergeSpec` returns
  `Failure(NoObjectsToConcatenate)`.
- The cleaner's default output folder is `data/processed` (clean_fred_series.py:6). The
  merger's default input folder is `data/processed/individual`
  (merge_fred_series.py:4). So with the defaults and the same country name, the merger
  looks for a path other than the one the cleaner wrote.
  `MergeFredSeries.DefaultFoldersMiss` proves this. With the same folder on both sides,
  `MergeFredSeries.CleanedFileFoundByMerger` proves the merger finds the file.

## Model

| member | source | states |
|---|---|---|
| `Tables.ConcatAppend` | scripts/data/merge_fred_series.py:25 | concatenating a list of frames made of two parts is concatenating each part, then joining the results |
| `Tables.ConcatMember` | scripts/data/fetch_fred.py:52 | a row is in the concatenation exactly when it is in one of the frames |
| `Ordering.StrLeTotal` | scripts/data/merge_fred_series.py:26 | any two strings are ordered one way or the other by Python's string order |
| `Ordering.StrLeTransitive` | scripts/data/merge_fred_series.py:26 | Python's string order is transitive |
| `Ordering.StrLeAntisymmetric` | scripts/data/merge_fred_series.py:26 | two strings ordered both ways are equal |
| `Ordering.KeyLeTotal` | scripts/data/merge_fred_series.py:26 | the lexicographic order on sort-column values is total |
| `Ordering.KeyLeTransitive` | scripts/data/fetch_fred.py:54 | the lexicographic order on sort-column values is transitive |
| `Ordering.Insert` | scripts/data/merge_fred_series.py:26 | inserting into a sorted list gives a sorted list holding the old elements and the new one |
| `Ordering.SortBy` | scripts/data/merge_fred_series.py:26 | `sort_values` gives a list sorted by the key columns that is a permutation of its input, of the same length |
| `Paths.JoinInjective` | scripts/data/fetch_fred.py:20 | within one folder, different file names give different paths |
| `Paths.ReplaceSpacesAt` | scripts/data/clean_fred_series.py:24 | `replace(' ', '_')` keeps the length and turns exactly the spaces into underscores |
| `Paths.AsciiLowerAt` | scripts/data/clean_fred_series.py:24 | `lower()` keeps the length and lowercases each ASCII letter in place |
| `Paths.SlugAt` | scripts/data/merge_fred_series.py:13 | slug character i is `_` for a space, the lower-case letter for an upper-case ASCII letter, and is otherwise unchanged |
| `Paths.SlugIsNormal` | scripts/data/clean_fred_series.py:24 | a slug has the name's length, no spaces and no upper-case ASCII letters |
| `FetchFred.CachePathInjective` | scripts/data/fetch_fred.py:30 | within one folder each series id has its own cache file |
| `FetchFred.LoadAfterSave` | scripts/data/fetch_fred.py:16-27 | loading a series after saving it returns the saved series |
| `FetchFred.SaveKeepsOthers` | scripts/data/fetch_fred.py:16-27 | saving one series changes what no other id in the folder loads |
| `FetchFred.SaveFetchedKeepsResolve` | scripts/data/fetch_fred.py:29-38 | caching a missed series changes the fetcher's answer for no id of that folder |
| `FetchFred.Resolve` | scripts/data/fetch_fred.py:29-38 | the fetcher fails exactly when the series has no cache file and the remote does not know its id, and the failure is then always the remote fetch error |
| `FetchFred.SeriesCache.GetFredSeries` | scripts/data/fetch_fred.py:11-14 | one remote call: the counter goes up by one; a known id returns its series, an unknown id fails |
| `FetchFred.SeriesCache.SaveSeriesToCsv` | scripts/data/fetch_fred.py:16-22 | the store afterwards is the old store with the series at its cache path |
| `FetchFred.SeriesCache.LoadSeriesFromCsv` | scripts/data/fetch_fred.py:24-27 | returns the series at the cache path, or FileNotFound when the file is absent |
| `FetchFred.SeriesCache.GetOrFetchSeries` | scripts/data/fetch_fred.py:29-38 | hit: returns the stored series, with store and counter unchanged. Miss: exactly one remote call, whose series is stored under `folder/<id>.csv` and returned, with nothing else added. A failed fetch stores nothing. The fetcher's answer for every id of the folder is unchanged. Old files are kept, and the only file added is the fetched series' cache file |
| `FetchFred.FetchTwice` | scripts/data/fetch_fred.py:29-38 | a second call for the same id returns what the first returned. After a successful first call there is exactly one remote call on a miss and none on a hit. The store afterwards is the old store on a hit, or the old store plus the fetched series on a miss. A failed first fetch leaves the store as it was, after two remote calls |
| `FetchFred.SeriesCache.FetchAllMacroData` | scripts/data/fetch_fred.py:41-54 | returns exactly `CombineSpec` of the catalog against the cache it started with. Afterwards the cache answers every id as before, keeps every old file unchanged, and has gained only `data/raw/<id>.csv` files, each holding the remote series for its id. There is one remote call per added file, plus one when a fetch failed. On success every catalog entry's cache file exists; every added file belongs to a catalog entry; on a fetch error the failing entry had no cache file when the run began and is unknown to the remote, every entry before it is cached, and every added file belongs to an entry up to the failing one: the run stops there, and no later entry is fetched or cached |
| `FetchFred.SeriesCache.FetchSeriesType` | scripts/data/fetch_fred.py:45-50 | the inner loop over one series type's countries: when no fetch fails, every visited entry is cached, only their files were added, one remote call per added file, and the frames are the combiner's; when country `j` fails, the entries before it are cached, its own id is unknown to both cache and remote, one extra remote call was made, and the error is the combiner's |
| `FetchFred.VisitCountry` | scripts/data/fetch_fred.py:46-50 | one `get_or_fetch_series` call of the loops keeps every loop fact: on success the entry is cached and its tagged frame appended; on failure the entries before it are still cached, one remote call is counted, and the error is the entry's `FetchFailed` |
| `FetchFred.VisitStep` | scripts/data/fetch_fred.py:46 | a call that adds at most the entry's own cache file keeps earlier entries cached, and every added file still belongs to a visited entry |
| `FetchFred.AddedFromPrefix` | scripts/data/fetch_fred.py:44-46 | files added for some of the catalog's entries are added for catalog entries |
| `FetchFred.FailureAfterCachedPrefix` | scripts/data/fetch_fred.py:44-46 | a failing entry after a cached prefix of the catalog is an entry whose fetch fails, with every entry before it cached and every added file belonging to an entry up to it |
| `FetchFred.AddedFromTake` | scripts/data/fetch_fred.py:44-46 | files added only for the entries up to the failing one are added for that prefix of the catalog's entries |
| `FetchFred.OnlyCachesCompose` | scripts/data/fetch_fred.py:44-46 | two rounds of caching, one after the other, keep every old file and add only fetched series' cache files; their added files add up |
| `FetchFred.EntriesMember` | scripts/data/fetch_fred.py:44-45 | the nested loops visit exactly the (series type, country, id) triples of the catalog |
| `FetchFred.EntriesSound` | scripts/data/fetch_fred.py:44-45 | every visited entry is a (series type, country, id) triple of the catalog |
| `FetchFred.EntriesComplete` | scripts/data/fetch_fred.py:44-45 | every (series type, country, id) triple of the catalog is visited |
| `FetchFred.TagMacroAt` | scripts/data/fetch_fred.py:47-49 | tagging keeps each row's date and value, in order, and adds the country and series type |
| `FetchFred.EntryFramesStep` | scripts/data/fetch_fred.py:46-50 | visiting one more entry appends its tagged series, or fails with its fetch error |
| `FetchFred.EntryFramesFailurePrefix` | scripts/data/fetch_fred.py:46 | once a fetch has failed, the run's outcome is that failure whatever follows |
| `FetchFred.EntryFramesSucceeds` | scripts/data/fetch_fred.py:44-50 | the loops succeed exactly when every catalog series can be loaded or fetched |
| `FetchFred.EntryFramesAt` | scripts/data/fetch_fred.py:46-50 | a successful run holds one frame per entry, in entry order, each the entry's series tagged with its country and type |
| `FetchFred.EntryFramesFirstFailure` | scripts/data/fetch_fred.py:44-46 | a failed run reports the first entry whose series cannot be had |
| `FetchFred.EntryFramesLength` | scripts/data/fetch_fred.py:44-52 | the concatenated rows number the sum of the lengths of all catalog series |
| `FetchFred.EntryFramesRowOrigin` | scripts/data/fetch_fred.py:47-52 | every concatenated row carries the country and series type of an entry, and its date and value are a row of that entry's series |
| `FetchFred.CombineSpecSuccess` | scripts/data/fetch_fred.py:52-54 | the combined table is sorted by (series_type, country, date), is a permutation of the concatenated rows, has their total count, and every row's tags name a catalog entry |
| `FetchFred.CombineSpecFailure` | scripts/data/fetch_fred.py:44-52 | the combiner fails exactly when the catalog has no entry or some series can be neither loaded nor fetched; the empty-concat error occurs exactly when the catalog has no (series type, country, id) entry, which includes a catalog whose series types all map to no country |
| `CleanFredSeries.DropMissing` | scripts/data/clean_fred_series.py:19 | after `dropna` every row has a value |
| `CleanFredSeries.KeptInPrefix` | scripts/data/clean_fred_series.py:19 | whether an earlier row is kept does not depend on rows after it |
| `CleanFredSeries.CleanSnoc` | scripts/data/clean_fred_series.py:18-20 | one more raw row adds itself, relabelled, to the output when it is the first of its date with a present value, and adds nothing otherwise |
| `CleanFredSeries.KeptIndicesSpec` | scripts/data/clean_fred_series.py:19 | the kept positions are exactly those first of their date with a present value, listed in strictly increasing order |
| `CleanFredSeries.CleanIsKeptRows` | scripts/data/clean_fred_series.py:18-20 | the cleaned series is the kept rows, in order, each with its raw value as `cpi` |
| `CleanFredSeries.CleanSubsequence` | scripts/data/clean_fred_series.py:18-20 | the output is an order-preserving subsequence of the input, each row equal to the raw row at its position, relabelled |
| `CleanFredSeries.CleanNoDuplicateDates` | scripts/data/clean_fred_series.py:19 | no two cleaned rows share a date |
| `CleanFredSeries.CleanMember` | scripts/data/clean_fred_series.py:19 | (d, v) is in the output exactly when the first raw row of date d has value v |
| `CleanFredSeries.FirstMissingDropsDate` | scripts/data/clean_fred_series.py:19 | when the first row of a date has no value, that date is absent from the output even if a later row of that date has one |
| `CleanFredSeries.FirstMissingExample` | scripts/data/clean_fred_series.py:19 | [(1, missing), (1, 2.0)] cleans to the empty series |
| `CleanFredSeries.AsRawAt` | scripts/data/clean_fred_series.py:20 | a cleaned frame read back as a raw series has the same dates, with each `cpi` as a present value |
| `CleanFredSeries.CleanKeepsCleanSeries` | scripts/data/clean_fred_series.py:18-20 | a series with distinct dates and no missing value cleans to itself |
| `CleanFredSeries.CleanAsRawSnoc` | scripts/data/clean_fred_series.py:19 | in a series with distinct dates and no missing value, the last row survives cleaning |
| `CleanFredSeries.CleanIdempotent` | scripts/data/clean_fred_series.py:18-20 | cleaning an already cleaned series returns it unchanged |
| `CleanFredSeries.CleanedFileNameShape` | scripts/data/clean_fred_series.py:24 | with a non-empty country name the file is `lower(replace(name, ' ', '_')) + "_core_cpi.csv"`, its slug free of spaces and upper-case ASCII letters; otherwise `<series_id>.csv` |
| `CleanFredSeries.CleanAndSaveSeries` | scripts/data/clean_fred_series.py:6-28 | a fetch error propagates. Otherwise the cleaned raw series is returned with the path `output_folder/<file name>` it is saved to. On a cache hit, store and counter are unchanged. On a miss there is one remote call, and the store gains `data/raw/<id>.csv` exactly when the remote knows the id |
| `MergeFredSeries.TagCountryAt` | scripts/data/merge_fred_series.py:21-22 | each row keeps its date and cpi, in order, and gets the country column |
| `MergeFredSeries.MergeSeriesLong` | scripts/data/merge_fred_series.py:4-27 | the loop with `continue` on absent files computes exactly `MergeSpec` |
| `MergeFredSeries.FramesAppend` | scripts/data/merge_fred_series.py:12-23 | the loop over a concatenated country list collects the frames of each part in turn |
| `MergeFredSeries.FramesSkipMissing` | scripts/data/merge_fred_series.py:16-18 | a country whose file is absent adds no frame wherever it sits in the list |
| `MergeFredSeries.SkipMissingCountry` | scripts/data/merge_fred_series.py:16-18 | a country whose file is absent is skipped and the loop goes on: the merge equals that of the other countries |
| `MergeFredSeries.FramesEmpty` | scripts/data/merge_fred_series.py:16-23 | no frame is collected exactly when no country's file exists |
| `MergeFredSeries.MergeFailsIffNoFile` | scripts/data/merge_fred_series.py:25 | the merge fails, with the empty-concat error, exactly when no country's file exists |
| `MergeFredSeries.FramesRowCount` | scripts/data/merge_fred_series.py:20-25 | the concatenated rows number the sum of the row counts of the existing files |
| `MergeFredSeries.FramesRowOrigin` | scripts/data/merge_fred_series.py:20-23 | every collected row names a listed country whose file exists and holds that row's date and cpi |
| `MergeFredSeries.MergeSuccess` | scripts/data/merge_fred_series.py:20-26 | the merged table is sorted by (date, country), is a permutation of the collected rows, has the existing files' total row count, and every row's country is the key whose file holds that row |
| `MergeFredSeries.MissingCountryHasNoRows` | scripts/data/merge_fred_series.py:16-18 | a country whose file is absent has no row in the merged table |
| `MergeFredSeries.MergeOne` | scripts/data/merge_fred_series.py:12-26 | merging one country whose file exists returns that file's rows, tagged with the country and sorted |
| `MergeFredSeries.CleanedFileFoundByMerger` | scripts/data/merge_fred_series.py:13 | a table the cleaner saves for a non-empty country name is what the merger reads, from the same folder, for that name |
| `MergeFredSeries.DefaultFoldersMiss` | scripts/data/merge_fred_series.py:4 | with the default folders (`data/processed` for the cleaner, `data/processed/individual` for the merger) and the same country name, the merger's path is not the one the cleaner wrote |

## Left out

- Reading and writing CSV is left out: the encoding, pandas' date parsing, float
  formatting and `mkdir`. A cache hit returns exactly the series that was stored. The
  model does not capture a CSV round trip that loses precision.
- `CleanFredSeries.CleanAndSaveSeries` returns the path and table it would write. The
  write itself is not modelled.
- `FetchFred.SeriesCache.FetchAllMacroData` returns the combined table. The Python
  function returns nothing and writes that table to
  `data/processed/merged/core_macro_long.csv`; the write is not modelled.
- The fredapi HTTP call, the API key from dotenv and `print` logging are left out. The
  remote service is an abstract map, and every way it can raise is one error,
  `FetchFailed`.
- `FetchFred.SeriesCache.GetFredSeries`: the remote's answer for an id is fixed for a
  whole run, so a transient fredapi or network error is modelled as a permanent one. This
  is what makes `FetchFred.FetchTwice`'s failure clause hold.
- `Paths.Join` models `Path(folder) / name` for a relative name only. It does not model
  pathlib's normalisation (repeated separators, `.` segments) or an absolute second
  operand.
- `Paths.AsciiLower` lowercases ASCII letters only. Python's `str.lower` also lowercases
  non-ASCII letters. The catalog's country names are ASCII.
- `Ordering.SortBy` is a stable insertion sort. Its contract states only what holds
  whatever pandas' sort algorithm does: the output is sorted and is a permutation of the
  input. The order pandas gives to rows with equal keys is not modelled.
- The name of the date column is not modelled. It comes from the series index's name,
  which depends on whether the series came from the cache or from fredapi. The model
  assumes it is `date` in every frame.
- `MergeFredSeries.MergeSeriesLong` takes the dict's keys as a list in their order. A
  dict's keys are distinct, but the model does not need that.
- The command-line entry points (`argparse` in clean_fred_series.py, the `__main__`
  blocks) are left out.
- The batch runners (scripts/run/batch_clean_fred.py, scripts/run/merge_to_long.py,
  scripts/run_fetch.py) and scripts/data/series_metadata.py are not part of this model.
  They only loop over the catalog.
- The static catalog in scripts/config/series_list.py is not encoded. The combiner takes
  any catalog of that shape.
- The OLS trend fit, the year-over-year column, the dashboard (app/core_cpi_app.py) and
  the notebook (notebooks/eda.py) are not part of this model. They are floating-point numerics, a foreign
  least-squares solver and UI code.
