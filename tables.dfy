/**
 * The tables the pipeline passes around, one row type per frame shape,
 * and the concatenation of frames (`pd.concat`).
 */
module Tables {
  import opened Wrappers

  /** A date; only its order matters to this model (days since an epoch). */
  type Date = int

  /** One observation of a raw series: `value` is None where the source has NaN. */
  datatype RawRow = RawRow(date: Date, value: Option<real>)

  /** A series as returned by the fetcher, in index order, possibly with repeated dates. */
  type RawSeries = seq<RawRow>

  /** One row of a cleaned per-country file: columns `date` and `cpi`. */
  datatype CpiRow = CpiRow(date: Date, cpi: real)

  /** One row of the merged long table: columns `date`, `country`, `cpi`. */
  datatype LongRow = LongRow(date: Date, country: string, cpi: real)

  /** One row of the combined macro table: columns `date`, `value`, `country`, `series_type`. */
  datatype MacroRow = MacroRow(date: Date, value: Option<real>, country: string, seriesType: string)

  /** The exceptions the core raises. */
  datatype Error =
    | FetchFailed(seriesId: string)      // the remote call for this series raised
    | FileNotFound(path: string)         // reading a file that does not exist
    | NoObjectsToConcatenate             // `pd.concat` of an empty list

  /** `pd.concat(frames)`: the frames' rows, frame after frame. */
  function Concat<T>(frames: seq<seq<T>>): seq<T>
    decreases |frames|
  {
    if frames == [] then [] else Concat(frames[..|frames| - 1]) + frames[|frames| - 1]
  }

  /** Concatenation distributes over appending lists of frames. */
  lemma {:induction false} ConcatAppend<T>(a: seq<seq<T>>, b: seq<seq<T>>)
    ensures Concat(a + b) == Concat(a) + Concat(b)
    decreases |b|
  {
    if b == [] {
      assert a + b == a;
    } else {
      var b' := b[..|b| - 1];
      assert (a + b)[..|a + b| - 1] == a + b';
      ConcatAppend(a, b');
    }
  }

  /** A row is in the concatenation exactly when it is in one of the frames. */
  lemma {:induction false} ConcatMember<T>(frames: seq<seq<T>>, x: T)
    ensures x in Concat(frames) <==> exists k :: 0 <= k < |frames| && x in frames[k]
    decreases |frames|
  {
    if frames != [] {
      var init := frames[..|frames| - 1];
      ConcatMember(init, x);
      if x in Concat(frames) && x !in frames[|frames| - 1] {
        var k :| 0 <= k < |init| && x in init[k];
        assert frames[k] == init[k];
      }
      if exists k :: 0 <= k < |frames| && x in frames[k] {
        var k :| 0 <= k < |frames| && x in frames[k];
        if k < |init| {
          assert init[k] == frames[k];
        }
      }
    }
  }
}
