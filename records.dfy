/** The telemetry row: the eleven columns both decision modules read. */
module Records {
  import opened Wrappers

  /**
   * One submission. `packet` is the `ws_packet_b64` column and `signature`
   * the `ws_packet_sig` column. `model` is `None` when the column is not
   * read (the validator) or holds no value.
   */
  datatype Record = Record(
    name: string,
    model: Option<string>,
    cellId: string,
    publicKey: string,
    packet: string,
    signature: string,
    lat: real,
    lon: real,
    qodScore: real,
    polScore: int,
    temperature: real)

  /** The `name` column. */
  function Names(rows: seq<Record>): (names: seq<string>)
    ensures |names| == |rows|
    ensures forall i :: 0 <= i < |rows| ==> names[i] == rows[i].name
  {
    seq(|rows|, i requires 0 <= i < |rows| => rows[i].name)
  }

  lemma NamesConcat(a: seq<Record>, b: seq<Record>)
    ensures Names(a + b) == Names(a) + Names(b)
  {
  }

  /** A name is in the column exactly when some row carries it. */
  lemma NamesOf(rows: seq<Record>, r: Record)
    requires r in rows
    ensures r.name in Names(rows)
  {
    var i :| 0 <= i < |rows| && rows[i] == r;
    assert Names(rows)[i] == r.name;
  }
}
