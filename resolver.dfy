/**
 * The resolver's decision pipeline: `filter` runs the region, quality and
 * signature stages over a frame, `load_df` applies it to the whole file or
 * to each row group in turn, and `decide` averages the per-device mean
 * temperatures of what survives.
 *
 * A file is its sequence of row groups; reading the whole file sees their
 * rows end to end.
 */
module Resolver {
  import opened Wrappers
  import opened Selection
  import opened Devices
  import opened Records
  import opened Aggregation
  import opened Location
  import opened Signatures

  /**
   * What the pipeline depends on besides the file: the region, the quality
   * test `has_verified_metrics` applies to each row, and the cryptographic
   * primitives.
   */
  datatype Env = Env(region: Region, quality: Record -> bool, crypto: Primitives)

  /** The exceptions that escape `load_df`. */
  datatype LoadError =
    | DivisionByZero        // the participation percentage of a frame with no region devices
    | NothingToConcatenate  // `pd.concat` of an empty list: a file with no row groups

  /** The number of distinct device names, `len(df['name'].unique())`. */
  function DeviceCount(rows: seq<Record>): (n: nat)
    ensures n == 0 <==> rows == []
  {
    assert rows != [] ==> Names(rows)[0] in Distinct(Names(rows));
    |Distinct(Names(rows))|
  }

  /** Rows drawn from `rows` name no device that `rows` does not. */
  lemma DeviceCountSubset(sub: seq<Record>, rows: seq<Record>)
    requires forall r :: r in sub ==> r in rows
    ensures DeviceCount(sub) <= DeviceCount(rows)
  {
    var a, b := Elements(Names(sub)), Elements(Names(rows));
    forall x | x in a
      ensures x in b
    {
      var i :| 0 <= i < |sub| && Names(sub)[i] == x;
      NamesOf(rows, sub[i]);
    }
    assert b == a + (b - a);
    DistinctSize(Names(sub));
    DistinctSize(Names(rows));
  }

  /** A row passes all three stages. */
  function Admitted(env: Env): Record -> bool
  {
    (r: Record) => InRegion(Cells(env.region))(r) && env.quality(r) && Verified(env.crypto)(r)
  }

  /** The three stages in a row select once, by the conjunction of their tests. */
  lemma StagesCompose(env: Env, chunk: seq<Record>)
    ensures Select(Select(GeoFilter(env.region, chunk), env.quality), Verified(env.crypto))
         == Select(chunk, Admitted(env))
  {
    var geo := InRegion(Cells(env.region));
    SelectSelect(chunk, geo, env.quality, InRegionPassing(env.region, env.quality));
    SelectSelect(chunk, InRegionPassing(env.region, env.quality), Verified(env.crypto), Admitted(env));
  }

  /**
   * `filter(chunk)`: region, then quality, then signatures; the percentage
   * it logs divides by the number of region devices, so a frame with none
   * raises.
   */
  function FilterSpec(env: Env, chunk: seq<Record>): (r: Result<seq<Record>, LoadError>)
    ensures r.Err? <==> GeoFilter(env.region, chunk) == []
    ensures r.Err? ==> r.error == DivisionByZero
    ensures r.Ok? ==> r.value == Select(chunk, Admitted(env))
  {
    var geo := GeoFilter(env.region, chunk);
    var data := Select(Select(geo, env.quality), Verified(env.crypto));
    StagesCompose(env, chunk);
    if DeviceCount(geo) == 0 then Err(DivisionByZero) else Ok(data)
  }

  /**
   * The participation percentage: verified devices over region devices,
   * times 100. It lies in [0, 100] and is 0 exactly when nothing survives.
   */
  function Participation(env: Env, chunk: seq<Record>): (pct: real)
    requires GeoFilter(env.region, chunk) != []
    ensures 0.0 <= pct <= 100.0
    ensures pct == 0.0 <==> FilterSpec(env, chunk).value == []
  {
    var geo := GeoFilter(env.region, chunk);
    var data := FilterSpec(env, chunk).value;
    var n, d := DeviceCount(data), DeviceCount(geo);
    StagesCompose(env, chunk);
    assert data == Select(Select(geo, env.quality), Verified(env.crypto));
    DeviceCountSubset(data, geo);
    PercentBounds(n, d);
    (n * 100) as real / d as real
  }

  lemma PercentBounds(n: nat, d: nat)
    requires 0 < d && n <= d
    ensures 0.0 <= (n * 100) as real / d as real <= 100.0
    ensures (n * 100) as real / d as real == 0.0 <==> n == 0
  {
    var q := (n * 100) as real / d as real;
    assert q * d as real == (n * 100) as real;
  }

  /**
   * The body of `filter` as it runs: the three stages, `verify` as its loop
   * does it, and the percentage.
   */
  method Filter(env: Env, chunk: seq<Record>) returns (r: Result<seq<Record>, LoadError>, participation: real)
    ensures r == FilterSpec(env, chunk)
    ensures r.Ok? ==> participation == Participation(env, chunk)
  {
    var geoFiltered := GeoFilter(env.region, chunk);
    var weatherVerified := Select(geoFiltered, env.quality);
    var dataVerified, _ := Verify(env.crypto, weatherVerified);
    if DeviceCount(geoFiltered) == 0 {
      return Err(DivisionByZero), 0.0;
    }
    participation := Participation(env, chunk);
    r := Ok(dataVerified);
  }

  /** The filter keeps input rows, unchanged and in order, and each stage only removes rows. */
  lemma FilterSubsequence(env: Env, chunk: seq<Record>)
    requires FilterSpec(env, chunk).Ok?
    ensures var out := FilterSpec(env, chunk).value;
      var geo := GeoFilter(env.region, chunk);
      var weather := Select(geo, env.quality);
      IsSubsequence(out, weather) && IsSubsequence(weather, geo) && IsSubsequence(geo, chunk)
      && IsSubsequence(out, chunk)
  {
    var out := FilterSpec(env, chunk).value;
    var geo := GeoFilter(env.region, chunk);
    var weather := Select(geo, env.quality);
    StagesCompose(env, chunk);
    SelectIsSubsequence(weather, Verified(env.crypto));
    SelectIsSubsequence(geo, env.quality);
    GeoFilterSubsequence(env.region, chunk);
    SubsequenceTransitive(out, weather, geo);
    SubsequenceTransitive(out, geo, chunk);
  }

  /** A row survives exactly when it is in the region, passes the quality test and its signature verifies. */
  lemma FilterMembership(env: Env, chunk: seq<Record>, r: Record)
    requires FilterSpec(env, chunk).Ok?
    ensures r in FilterSpec(env, chunk).value <==>
      r in chunk && r.cellId in Cells(env.region) && env.quality(r) && RowVerified(env.crypto, r)
  {
  }

  // -------------------------------------------------------- loading

  function FilterOf(env: Env): seq<Record> -> Result<seq<Record>, LoadError>
  {
    chunk => FilterSpec(env, chunk)
  }

  /** `filter` over row groups in order; the first group that raises stops the load. */
  function FilterGroups(env: Env, groups: seq<seq<Record>>): (r: Result<seq<seq<Record>>, LoadError>)
    ensures r.Ok? <==> forall k :: 0 <= k < |groups| ==> GeoFilter(env.region, groups[k]) != []
    ensures r.Ok? ==> |r.value| == |groups|
    ensures r.Ok? ==> forall k :: 0 <= k < |groups| ==> r.value[k] == Select(groups[k], Admitted(env))
    ensures r.Err? ==> r.error == DivisionByZero
  {
    MapResult(groups, FilterOf(env))
  }

  /** Filtering one more row group that passes extends the list of filtered groups by its result. */
  lemma FilterGroupsSnoc(env: Env, groups: seq<seq<Record>>, group: seq<Record>)
    requires FilterGroups(env, groups).Ok? && FilterSpec(env, group).Ok?
    ensures FilterGroups(env, groups + [group]) == Ok(FilterGroups(env, groups).value + [FilterSpec(env, group).value])
  {
    var all := groups + [group];
    assert forall k :: 0 <= k < |all| ==> GeoFilter(env.region, all[k]) != [] by {
      forall k | 0 <= k < |all| ensures GeoFilter(env.region, all[k]) != [] {
        if k < |groups| { assert all[k] == groups[k]; }
      }
    }
    var whole, parts := FilterGroups(env, all).value, FilterGroups(env, groups).value + [FilterSpec(env, group).value];
    assert forall k :: 0 <= k < |whole| ==> whole[k] == parts[k] by {
      forall k | 0 <= k < |whole| ensures whole[k] == parts[k] {
        if k < |groups| { assert all[k] == groups[k]; }
      }
    }
  }

  /** A row group with no region rows stops the chunked load with the division error. */
  lemma ChunkedStops(env: Env, file: seq<seq<Record>>, i: nat)
    requires i < |file| && FilterSpec(env, file[i]).Err?
    ensures LoadChunked(env, file) == Err(DivisionByZero)
  {
    assert !FilterGroups(env, file).Ok?;
  }

  /**
   * The low-memory load: every row group filtered, then concatenated; it
   * fails when the file has no row groups or some group has no region rows.
   */
  function LoadChunked(env: Env, file: seq<seq<Record>>): (r: Result<seq<Record>, LoadError>)
    ensures r.Err? <==> |file| == 0 || exists k :: 0 <= k < |file| && GeoFilter(env.region, file[k]) == []
    ensures r.Err? && |file| == 0 ==> r.error == NothingToConcatenate
  {
    match FilterGroups(env, file)
    case Err(e) => Err(e)
    case Ok(processed) => if processed == [] then Err(NothingToConcatenate) else Ok(Flatten(processed))
  }

  /** `load_df(path, low_mem)`. */
  function LoadSpec(env: Env, file: seq<seq<Record>>, lowMem: bool): (r: Result<seq<Record>, LoadError>)
    ensures r.Ok? ==> r.value == Select(Flatten(file), Admitted(env))
    ensures !lowMem ==> (r.Err? <==> GeoFilter(env.region, Flatten(file)) == [])
    ensures lowMem ==> (r.Err? <==> |file| == 0 || exists k :: 0 <= k < |file| && GeoFilter(env.region, file[k]) == [])
  {
    assert LoadChunked(env, file).Ok? ==> LoadChunked(env, file) == FilterSpec(env, Flatten(file)) by {
      if LoadChunked(env, file).Ok? { ModesAgree(env, file); }
    }
    if lowMem then LoadChunked(env, file) else FilterSpec(env, Flatten(file))
  }

  method LoadDf(env: Env, file: seq<seq<Record>>, lowMem: bool) returns (r: Result<seq<Record>, LoadError>)
    ensures r == LoadSpec(env, file, lowMem)
  {
    if !lowMem {
      var whole, _ := Filter(env, Flatten(file));
      return whole;
    }
    var processed: seq<seq<Record>> := [];
    for i := 0 to |file|
      invariant FilterGroups(env, file[..i]) == Ok(processed)
    {
      assert file[..i + 1][..i] == file[..i];
      var chunk, _ := Filter(env, file[i]);
      if chunk.Err? {
        ChunkedStops(env, file, i);
        return Err(chunk.error);
      }
      FilterGroupsSnoc(env, file[..i], file[i]);
      processed := processed + [chunk.value];
    }
    assert file[..|file|] == file;
    if processed == [] {
      return Err(NothingToConcatenate);
    }
    r := Ok(Flatten(processed));
  }

  /**
   * Both loading modes keep the same rows whenever the chunked load
   * succeeds: each stage tests one row at a time.
   */
  lemma ModesAgree(env: Env, file: seq<seq<Record>>)
    requires LoadChunked(env, file).Ok?
    ensures FilterSpec(env, Flatten(file)) == LoadChunked(env, file)
  {
    var processed := FilterGroups(env, file).value;
    var keep := Admitted(env);
    var selected := seq(|file|, k requires 0 <= k < |file| => Select(file[k], keep));
    assert processed == selected;
    SelectFlatten(file, keep);
    var geo0 := GeoFilter(env.region, file[0]);
    assert geo0 != [];
    assert geo0[0] in Flatten(file);
    assert geo0[0] in GeoFilter(env.region, Flatten(file));
  }

  // -------------------------------------------------------- decision

  /** `decide(path, low_mem)`: `None` stands for the NaN of an empty frame. */
  function DecideSpec(env: Env, file: seq<seq<Record>>, lowMem: bool): (r: Result<Option<real>, LoadError>)
    ensures r.Err? <==> LoadSpec(env, file, lowMem).Err?
    ensures r.Ok? ==> (r.value.Some? <==> LoadSpec(env, file, lowMem).value != [])
  {
    match LoadSpec(env, file, lowMem)
    case Err(e) => Err(e)
    case Ok(rows) => Ok(MeanOfMeans(rows))
  }

  method Decide(env: Env, file: seq<seq<Record>>, lowMem: bool) returns (r: Result<Option<real>, LoadError>)
    ensures r == DecideSpec(env, file, lowMem)
  {
    var df := LoadDf(env, file, lowMem);
    if df.Err? {
      return Err(df.error);
    }
    r := Ok(MeanOfMeans(df.value));
  }

  /** When the chunked load succeeds, the decision does not depend on the loading mode. */
  lemma DecisionIndependentOfMode(env: Env, file: seq<seq<Record>>)
    requires LoadChunked(env, file).Ok?
    ensures DecideSpec(env, file, true) == DecideSpec(env, file, false)
  {
    ModesAgree(env, file);
  }

  /** The decision lies between the coldest and the warmest surviving reading. */
  lemma DecisionWithinReadings(env: Env, file: seq<seq<Record>>, lowMem: bool)
    requires LoadSpec(env, file, lowMem).Ok? && LoadSpec(env, file, lowMem).value != []
    ensures var rows := LoadSpec(env, file, lowMem).value;
      MinTemperature(rows) <= DecideSpec(env, file, lowMem).value.value <= MaxTemperature(rows)
  {
    MeanOfMeansWithinRange(LoadSpec(env, file, lowMem).value);
  }
}
