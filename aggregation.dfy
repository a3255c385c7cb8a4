/**
 * The decision statistic: `df.groupby('name')['temperature'].mean()` gives
 * one mean per device, and the mean of that column is the decision.
 */
module Aggregation {
  import opened Wrappers
  import opened Selection
  import opened Devices
  import opened Averages
  import opened Records

  function TemperatureOf(r: Record): real
  {
    r.temperature
  }

  function IsDevice(device: string): Record -> bool
  {
    (r: Record) => r.name == device
  }

  /** The group keys, one per device, in order of first appearance. */
  function DeviceNames(rows: seq<Record>): (keys: seq<string>)
    ensures NoDuplicates(keys)
    ensures forall d :: d in keys <==> d in Names(rows)
    ensures forall d :: d in keys ==> Readings(rows, d) != []
  {
    forall d | d in Names(rows)
      ensures Readings(rows, d) != []
    {
      ReadingsNonEmpty(rows, d);
    }
    Distinct(Names(rows))
  }

  /** One device's group of rows. */
  function Readings(rows: seq<Record>, device: string): seq<Record>
  {
    Select(rows, IsDevice(device))
  }

  /** A row is in a device's group exactly when it is one of the rows and carries that name. */
  lemma ReadingsOf(rows: seq<Record>, device: string, r: Record)
    ensures r in Readings(rows, device) <==> r in rows && r.name == device
    ensures IsSubsequence(Readings(rows, device), rows)
  {
    SelectIsSubsequence(rows, IsDevice(device));
  }

  lemma ReadingsNonEmpty(rows: seq<Record>, device: string)
    requires device in Names(rows)
    ensures Readings(rows, device) != []
  {
    var i :| 0 <= i < |rows| && Names(rows)[i] == device;
    assert rows[i] in Readings(rows, device);
  }

  /** The mean temperature of one device that has rows. */
  function DeviceMean(rows: seq<Record>, device: string): (m: real)
    requires device in Names(rows)
    ensures Readings(rows, device) != []
    ensures MinTemperature(Readings(rows, device)) <= m <= MaxTemperature(Readings(rows, device))
  {
    var readings := Readings(rows, device);
    ReadingsNonEmpty(rows, device);
    MeanOfBounds(readings, TemperatureOf, MinTemperature(readings), MaxTemperature(readings));
    MeanOf(readings, TemperatureOf)
  }

  function DeviceMeanOf(rows: seq<Record>): string --> real
  {
    device requires device in Names(rows) => DeviceMean(rows, device)
  }

  /**
   * The mean over devices of each device's mean temperature. With no rows
   * pandas returns NaN, which is `None` here.
   */
  function MeanOfMeans(rows: seq<Record>): (r: Option<real>)
    ensures r.Some? <==> rows != []
  {
    if rows == [] then None
    else
      assert rows[0].name in Names(rows);
      Some(MeanOf(DeviceNames(rows), DeviceMeanOf(rows)))
  }

  // ------------------------------------------------------------ properties

  /**
   * Each device weighs the same: readings 10 and 20 from one device and 30
   * from another give (15 + 30) / 2 = 22.5, not (10 + 20 + 30) / 3 = 20.
   */
  lemma MeanOfMeansExample()
    ensures MeanOfMeans([Sample("d1", 10.0), Sample("d1", 20.0), Sample("d2", 30.0)]) == Some(22.5)
  {
    var rows := [Sample("d1", 10.0), Sample("d1", 20.0), Sample("d2", 30.0)];
    ExampleSum(rows);
    assert |DeviceNames(rows)| == 2;
  }

  lemma ExampleSum(rows: seq<Record>)
    requires rows == [Sample("d1", 10.0), Sample("d1", 20.0), Sample("d2", 30.0)]
    ensures DeviceNames(rows) == ["d1", "d2"]
    ensures SumOf(DeviceNames(rows), DeviceMeanOf(rows)) == 45.0
  {
    var devices := DeviceNames(rows);
    ExampleDevices(rows);
    ExampleMeans(rows);
    var f := DeviceMeanOf(rows);
    assert f("d1") == 15.0 && f("d2") == 30.0;
    assert devices[1..] == ["d2"] && devices[1..][1..] == [];
    assert SumOf(["d2"], f) == 30.0;
  }

  lemma ExampleDevices(rows: seq<Record>)
    requires rows == [Sample("d1", 10.0), Sample("d1", 20.0), Sample("d2", 30.0)]
    ensures DeviceNames(rows) == ["d1", "d2"]
  {
    var ns := Names(rows);
    assert ns == ["d1", "d1", "d2"];
    assert ns[..1] == ["d1"] && ns[..1][..0] == [];
    assert Distinct(ns[..1]) == ["d1"];
    assert ns[..2][..1] == ns[..1];
    assert Distinct(ns[..2]) == ["d1"];
  }

  lemma ExampleMeans(rows: seq<Record>)
    requires rows == [Sample("d1", 10.0), Sample("d1", 20.0), Sample("d2", 30.0)]
    ensures "d1" in Names(rows) && DeviceMean(rows, "d1") == 15.0
    ensures "d2" in Names(rows) && DeviceMean(rows, "d2") == 30.0
  {
    var a, b, c := rows[0], rows[1], rows[2];
    assert rows[1..] == [b, c] && [b, c][1..] == [c] && [c][1..] == [];
    assert Names(rows)[0] == "d1" && Names(rows)[2] == "d2";
    var one, two := IsDevice("d1"), IsDevice("d2");
    assert Select([c], one) == [] && Select([c], two) == [c];
    assert Select([b, c], one) == [b] && Select([b, c], two) == [c];
    assert Readings(rows, "d1") == [a, b];
    assert Readings(rows, "d2") == [c];
    assert [a, b][1..] == [b] && [b][1..] == [];
    assert SumOf([b], TemperatureOf) == 20.0;
    assert SumOf([a, b], TemperatureOf) == 30.0;
    assert SumOf([c], TemperatureOf) == 30.0;
  }

  /** A row with the given name and temperature; the other columns do not matter here. */
  function Sample(name: string, temperature: real): Record
  {
    Record(name, None, "", "", "", "", 0.0, 0.0, 0.0, 0, temperature)
  }

  /** The decision does not depend on the order of the rows. */
  lemma MeanOfMeansPermutation(a: seq<Record>, b: seq<Record>)
    requires multiset(a) == multiset(b)
    ensures MeanOfMeans(a) == MeanOfMeans(b)
  {
    if a != [] {
      assert |a| == |multiset(a)| == |multiset(b)| == |b|;
      forall d
        ensures d in Names(a) <==> d in Names(b)
      {
        if d in Names(a) {
          SameNames(a, b, d);
        }
        if d in Names(b) {
          SameNames(b, a, d);
        }
      }
      var da, db := DeviceNames(a), DeviceNames(b);
      SameElementsPermutation(da, db);
      forall i | 0 <= i < |da|
        ensures DeviceMeanOf(a).requires(da[i]) && DeviceMeanOf(b).requires(da[i])
        ensures DeviceMeanOf(a)(da[i]) == DeviceMeanOf(b)(da[i])
      {
        var d := da[i];
        SelectPermutation(a, b, IsDevice(d));
        var ra, rb := Readings(a, d), Readings(b, d);
        assert |ra| == |multiset(ra)| == |multiset(rb)| == |rb|;
        SumOfPermutation(ra, rb, TemperatureOf);
      }
      SumOfCongruent(da, DeviceMeanOf(a), DeviceMeanOf(b));
      SumOfPermutation(da, db, DeviceMeanOf(b));
      assert |da| == |multiset(da)| == |multiset(db)| == |db|;
    }
  }

  lemma SameNames(a: seq<Record>, b: seq<Record>, d: string)
    requires multiset(a) == multiset(b)
    requires d in Names(a)
    ensures d in Names(b)
  {
    var i :| 0 <= i < |a| && Names(a)[i] == d;
    assert a[i] in multiset(b);
    NamesOf(b, a[i]);
  }

  /** Any bounds on the surviving temperatures also bound the decision. */
  lemma MeanOfMeansBounds(rows: seq<Record>, lo: real, hi: real)
    requires rows != []
    requires forall i :: 0 <= i < |rows| ==> lo <= rows[i].temperature <= hi
    ensures lo <= MeanOfMeans(rows).value <= hi
  {
    var devices := DeviceNames(rows);
    forall i | 0 <= i < |devices|
      ensures DeviceMeanOf(rows).requires(devices[i])
      ensures lo <= DeviceMeanOf(rows)(devices[i]) <= hi
    {
      var group := Readings(rows, devices[i]);
      ReadingsNonEmpty(rows, devices[i]);
      forall k | 0 <= k < |group|
        ensures lo <= TemperatureOf(group[k]) <= hi
      {
        assert group[k] in rows;
      }
      MeanOfBounds(group, TemperatureOf, lo, hi);
    }
    assert rows[0].name in Names(rows);
    MeanOfBounds(devices, DeviceMeanOf(rows), lo, hi);
  }

  function MinTemperature(rows: seq<Record>): (t: real)
    requires rows != []
    ensures forall i :: 0 <= i < |rows| ==> t <= rows[i].temperature
    ensures exists i :: 0 <= i < |rows| && t == rows[i].temperature
  {
    if |rows| == 1 then rows[0].temperature
    else
      var m := MinTemperature(rows[1..]);
      assert forall i :: 1 <= i < |rows| ==> rows[i] == rows[1..][i - 1];
      if rows[0].temperature <= m then rows[0].temperature else m
  }

  function MaxTemperature(rows: seq<Record>): (t: real)
    requires rows != []
    ensures forall i :: 0 <= i < |rows| ==> rows[i].temperature <= t
    ensures exists i :: 0 <= i < |rows| && t == rows[i].temperature
  {
    if |rows| == 1 then rows[0].temperature
    else
      var m := MaxTemperature(rows[1..]);
      assert forall i :: 1 <= i < |rows| ==> rows[i] == rows[1..][i - 1];
      if rows[0].temperature >= m then rows[0].temperature else m
  }

  /** The decision lies between the lowest and the highest surviving temperature. */
  lemma MeanOfMeansWithinRange(rows: seq<Record>)
    requires rows != []
    ensures MinTemperature(rows) <= MeanOfMeans(rows).value <= MaxTemperature(rows)
  {
    MeanOfMeansBounds(rows, MinTemperature(rows), MaxTemperature(rows));
  }
}
