/**
 * The validator's decision pipeline. It reads no `model` column, its
 * `filter` keeps the region and quality stages but checks no signature,
 * and its whole-file load returns the rows unfiltered; `decide` takes
 * `algo`, `lat` and `lon` but does not use them.
 */
module Validator {
  import opened Wrappers
  import opened Selection
  import opened Records
  import opened Aggregation
  import opened Location

  /** The region and the quality test `has_verified_metrics` applies to each row. */
  datatype Env = Env(region: Region, quality: Record -> bool)

  /** `pd.concat` of an empty list: a file with no row groups. */
  datatype LoadError = NothingToConcatenate

  /** A row as read without the `model` column. */
  function Project(r: Record): (p: Record)
    ensures p.model.None?
    ensures p.name == r.name && p.cellId == r.cellId && p.temperature == r.temperature
    ensures p.(model := r.model) == r
  {
    r.(model := None)
  }

  function Projected(rows: seq<Record>): (ps: seq<Record>)
    ensures |ps| == |rows|
    ensures forall i :: 0 <= i < |rows| ==> ps[i] == Project(rows[i])
  {
    seq(|rows|, i requires 0 <= i < |rows| => Project(rows[i]))
  }

  lemma ProjectedConcat(a: seq<Record>, b: seq<Record>)
    ensures Projected(a + b) == Projected(a) + Projected(b)
  {
    assert forall i :: 0 <= i < |a + b| ==> Projected(a + b)[i] == (Projected(a) + Projected(b))[i];
  }

  /** `filter(chunk)`: the region stage, then the quality stage, as one selection. */
  function Filter(env: Env, chunk: seq<Record>): (kept: seq<Record>)
    ensures kept == Select(chunk, InRegionPassing(env.region, env.quality))
    ensures IsSubsequence(kept, chunk)
  {
    var geo := InRegion(Cells(env.region));
    SelectSelect(chunk, geo, env.quality, InRegionPassing(env.region, env.quality));
    SelectIsSubsequence(chunk, InRegionPassing(env.region, env.quality));
    Select(GeoFilter(env.region, chunk), env.quality)
  }

  /** Each row group projected and filtered, in file order. */
  function FilteredGroups(env: Env, groups: seq<seq<Record>>): (fs: seq<seq<Record>>)
    ensures |fs| == |groups|
    ensures forall k :: 0 <= k < |groups| ==> fs[k] == Filter(env, Projected(groups[k]))
  {
    seq(|groups|, k requires 0 <= k < |groups| => Filter(env, Projected(groups[k])))
  }

  lemma FilteredGroupsSnoc(env: Env, groups: seq<seq<Record>>, group: seq<Record>)
    ensures FilteredGroups(env, groups + [group]) == FilteredGroups(env, groups) + [Filter(env, Projected(group))]
  {
    var whole, parts := FilteredGroups(env, groups + [group]), FilteredGroups(env, groups) + [Filter(env, Projected(group))];
    assert forall k :: 0 <= k < |whole| ==> whole[k] == parts[k];
  }

  /** The low-memory load: the concatenation of the filtered row groups. */
  function LoadChunked(env: Env, file: seq<seq<Record>>): (r: Result<seq<Record>, LoadError>)
    ensures r.Err? <==> |file| == 0
    ensures r.Ok? ==> forall i :: 0 <= i < |r.value| ==> r.value[i].model.None?
    ensures r.Ok? ==> r.value == Select(Projected(Flatten(file)), InRegionPassing(env.region, env.quality))
  {
    if |file| == 0 then Err(NothingToConcatenate)
    else
      var rows := Flatten(FilteredGroups(env, file));
      assert forall i :: 0 <= i < |rows| ==> rows[i] in rows;
      FilteredIsSelected(env, file);
      Ok(rows)
  }

  /** Filtering each projected row group and concatenating is filtering the projected file. */
  lemma FilteredIsSelected(env: Env, file: seq<seq<Record>>)
    ensures Flatten(FilteredGroups(env, file)) == Select(Projected(Flatten(file)), InRegionPassing(env.region, env.quality))
  {
    var keep := InRegionPassing(env.region, env.quality);
    var projected := seq(|file|, k requires 0 <= k < |file| => Projected(file[k]));
    ProjectedFlatten(file);
    SelectFlatten(projected, keep);
    assert FilteredGroups(env, file)
        == seq(|projected|, k requires 0 <= k < |projected| => Select(projected[k], keep));
  }

  /** `load_df(path, low_mem)`: the whole-file branch does not filter; neither reads `model`. */
  function LoadSpec(env: Env, file: seq<seq<Record>>, lowMem: bool): (r: Result<seq<Record>, LoadError>)
    ensures r.Ok? ==> forall i :: 0 <= i < |r.value| ==> r.value[i].model.None?
    ensures !lowMem ==> r == Ok(Projected(Flatten(file)))
    ensures lowMem ==> (r.Err? <==> |file| == 0)
    ensures lowMem && r.Ok? ==> r.value == Select(Projected(Flatten(file)), InRegionPassing(env.region, env.quality))
  {
    if lowMem then LoadChunked(env, file) else Ok(Projected(Flatten(file)))
  }

  method LoadDf(env: Env, file: seq<seq<Record>>, lowMem: bool) returns (r: Result<seq<Record>, LoadError>)
    ensures r == LoadSpec(env, file, lowMem)
  {
    if !lowMem {
      return Ok(Projected(Flatten(file)));
    }
    var processed: seq<seq<Record>> := [];
    for i := 0 to |file|
      invariant processed == FilteredGroups(env, file[..i])
    {
      var chunk := Projected(file[i]);
      var processedChunk := Filter(env, chunk);
      assert file[..i + 1] == file[..i] + [file[i]];
      FilteredGroupsSnoc(env, file[..i], file[i]);
      processed := processed + [processedChunk];
    }
    assert file[..|file|] == file;
    if processed == [] {
      return Err(NothingToConcatenate);
    }
    r := Ok(Flatten(processed));
  }

  lemma {:induction false} ProjectedFlatten(file: seq<seq<Record>>)
    ensures Flatten(seq(|file|, k requires 0 <= k < |file| => Projected(file[k]))) == Projected(Flatten(file))
  {
    if file != [] {
      var n := |file|;
      var pre := file[..n - 1];
      ProjectedFlatten(pre);
      ProjectedConcat(Flatten(pre), file[n - 1]);
      var all := seq(n, k requires 0 <= k < n => Projected(file[k]));
      assert all[..n - 1] == seq(n - 1, k requires 0 <= k < n - 1 => Projected(pre[k]));
    }
  }

  /** The chunked load is the whole-file rows with the filter applied. */
  lemma ChunkedIsFilteredWhole(env: Env, file: seq<seq<Record>>)
    requires |file| > 0
    ensures LoadSpec(env, file, true) == Ok(Select(LoadSpec(env, file, false).value, InRegionPassing(env.region, env.quality)))
  {
  }

  /**
   * The two modes agree exactly when every row passes the region and
   * quality tests; otherwise the whole-file load keeps rows the chunked
   * load drops.
   */
  lemma ModesAgreeIff(env: Env, file: seq<seq<Record>>)
    requires |file| > 0
    ensures var rows := LoadSpec(env, file, false).value;
      (LoadSpec(env, file, true) == LoadSpec(env, file, false)) <==>
      (forall i :: 0 <= i < |rows| ==> rows[i].cellId in Cells(env.region) && env.quality(rows[i]))
  {
    ChunkedIsFilteredWhole(env, file);
    SelectKeepsAllIff(LoadSpec(env, file, false).value, InRegionPassing(env.region, env.quality));
  }

  /** `decide`'s value on a file and mode; `None` stands for the NaN of an empty frame. */
  function DecideSpec(env: Env, file: seq<seq<Record>>, lowMem: bool): (r: Result<Option<real>, LoadError>)
    ensures r.Err? <==> lowMem && |file| == 0
    ensures r.Ok? ==> (r.value.Some? <==> LoadSpec(env, file, lowMem).value != [])
  {
    match LoadSpec(env, file, lowMem)
    case Err(e) => Err(e)
    case Ok(rows) => Ok(MeanOfMeans(rows))
  }

  /** `decide(path, algo, low_mem, lat, lon)`: `algo`, `lat` and `lon` do not reach the result. */
  method Decide<Algo>(env: Env, file: seq<seq<Record>>, algo: Algo, lowMem: bool, lat: Option<real>, lon: Option<real>)
    returns (r: Result<Option<real>, LoadError>)
    ensures r == DecideSpec(env, file, lowMem)
  {
    var df := LoadDf(env, file, lowMem);
    if df.Err? {
      return Err(df.error);
    }
    r := Ok(MeanOfMeans(df.value));
  }
}
