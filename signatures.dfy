/**
 * Per-record signature verification: the model-code dispatch table, the
 * three verification schemes (`m5`, `helium`, `d1`) and the `verify` loop
 * that builds one mask entry per row and the list of device names seen.
 *
 * The cryptographic calls (ECDSA over P-256 with SHA-256, RSASSA-PKCS1-v1_5
 * of RFC 8017 section 8.2, SHA-256, base64url of RFC 4648 section 5) are
 * fields of `Primitives`; what is modelled exactly is which characters and
 * bytes each scheme cuts out and hands to them.
 */
module Signatures {
  import opened Wrappers
  import opened Positional
  import opened Encoding
  import opened Selection
  import opened Devices
  import opened Records

  datatype EcPoint = EcPoint(x: nat, y: nat)
  datatype EcSignature = EcSignature(r: nat, s: nat)
  datatype RsaNumbers = RsaNumbers(n: nat, e: nat)

  /**
   * The library calls a scheme makes.
   * - urlsafeB64Decode: `base64.urlsafe_b64decode`; `None` when it raises.
   * - ecPublicKeyValid: whether `EllipticCurvePublicNumbers(x, y, SECP256R1()).public_key()` succeeds.
   * - ecdsaVerify: whether `verify(encode_dss_signature(r, s), message, ECDSA(SHA256()))`
   *   returns rather than raising InvalidSignature.
   * - sha256: the SHA-256 digest.
   * - rsaPublicKeyValid: whether `RSAPublicNumbers(e, n).public_key()` succeeds.
   * - rsaVerifyPrehashed: whether PKCS#1 v1.5 verification of a signature over a
   *   SHA-256 digest returns rather than raising InvalidSignature.
   */
  datatype Primitives = Primitives(
    urlsafeB64Decode: string -> Option<Bytes>,
    ecPublicKeyValid: EcPoint -> bool,
    ecdsaVerify: (EcPoint, EcSignature, Bytes) -> bool,
    sha256: Bytes -> Bytes,
    rsaPublicKeyValid: RsaNumbers -> bool,
    rsaVerifyPrehashed: (RsaNumbers, Bytes, Bytes) -> bool)

  /** The exceptions a scheme can raise before it reaches the verify call. */
  datatype Failure = InvalidHex | InvalidBase64 | InvalidKey | NonAsciiPacket

  /** A scheme either returns a boolean or raises. */
  datatype Verdict = Returned(valid: bool) | Raised(failure: Failure)

  datatype Scheme = M5 | Helium | D1

  /** `type_to_fn`. */
  const TypeToFn: map<string, Scheme> :=
    map["WS1000" := M5, "WS1001" := M5, "WS2001" := Helium, "WS2000" := Helium, "WG1200" := D1]

  /** `type_to_fn.get(model)`: exactly five model codes have a scheme. */
  function Dispatch(model: Option<string>): (s: Option<Scheme>)
    ensures s == Some(M5) <==> model == Some("WS1000") || model == Some("WS1001")
    ensures s == Some(Helium) <==> model == Some("WS2000") || model == Some("WS2001")
    ensures s == Some(D1) <==> model == Some("WG1200")
    ensures s.None? <==> model !in {Some("WS1000"), Some("WS1001"), Some("WS2000"), Some("WS2001"), Some("WG1200")}
  {
    match model
    case Some(code) => if code in TypeToFn then Some(TypeToFn[code]) else None
    case None => None
  }

  // -------------------------------------------------------- field parsing

  lemma HexSplit(s: string, lo: nat, mid: nat, hi: nat)
    requires lo <= mid <= hi
    ensures IsHex(Slice(s, lo, hi)) <==> IsHex(Slice(s, lo, mid)) && IsHex(Slice(s, mid, hi))
  {
    var whole, left, right := Slice(s, lo, hi), Slice(s, lo, mid), Slice(s, mid, hi);
    if mid <= |s| {
      assert whole == left + right;
    } else {
      assert right == [] && whole == left;
    }
  }

  /** At most 64 hex digits: one 256-bit coordinate. */
  function HexWord(digits: string): (v: Option<nat>)
    requires |digits| <= 64
    ensures v.Some? <==> digits != [] && IsHex(digits)
    ensures v.Some? ==> v.value < Pow(2, 256)
  {
    FieldWidths();
    PowMonotone(16, |digits|, 64);
    ParseHex(digits)
  }

  /** At most 32 big-endian bytes: one 256-bit signature component. */
  function ByteWord(bytes: Bytes): (v: nat)
    requires |bytes| <= 32
    ensures v < Pow(2, 256)
    ensures bytes == [] ==> v == 0
  {
    FieldWidths();
    PowMonotone(256, |bytes|, 32);
    BigEndian(bytes)
  }

  /** At most 512 hex digits: a 2048-bit RSA modulus. */
  function HexModulus(digits: string): (v: Option<nat>)
    requires |digits| <= 512
    ensures v.Some? <==> digits != [] && IsHex(digits)
    ensures v.Some? ==> v.value < Pow(2, 2048)
  {
    ModulusWidth();
    PowMonotone(16, |digits|, 512);
    ParseHex(digits)
  }

  lemma ModulusWidth()
    ensures Pow(16, 512) == Pow(2, 2048)
  {
    FieldWidths();
    PowPow(16, 64, 8);
    PowPow(2, 256, 8);
  }

  /**
   * The P-256 point of an EC key: x from hex characters [0, 64), y from
   * [64, 128); anything after 128 characters is ignored.
   */
  function ParseEcKey(publicKey: string): (r: Result<EcPoint, Failure>)
    ensures r.Ok? <==> |publicKey| > 64 && IsHex(Slice(publicKey, 0, 128))
    ensures r.Err? ==> r.error == InvalidHex
    ensures r.Ok? ==> r.value.x < Pow(2, 256) && r.value.y < Pow(2, 256)
    ensures r.Ok? ==> Some(r.value.x) == ParseHex(Slice(publicKey, 0, 64)) && Some(r.value.y) == ParseHex(Slice(publicKey, 64, 128))
  {
    HexSplit(publicKey, 0, 64, 128);
    var x, y := HexWord(Slice(publicKey, 0, 64)), HexWord(Slice(publicKey, 64, 128));
    if x.None? || y.None? then Err(InvalidHex) else Ok(EcPoint(x.value, y.value))
  }

  /**
   * The (r, s) pair of a raw ECDSA signature: big-endian bytes [0, 32) and
   * [32, 64); missing bytes make a component 0, extra bytes are ignored.
   */
  function ParseEcSignature(raw: Bytes): (sig: EcSignature)
    ensures sig.r < Pow(2, 256) && sig.s < Pow(2, 256)
    ensures |raw| <= 32 ==> sig.s == 0
    ensures raw == [] ==> sig.r == 0
    ensures sig.r == BigEndian(Slice(raw, 0, 32)) && sig.s == BigEndian(Slice(raw, 32, 64))
  {
    EcSignature(ByteWord(Slice(raw, 0, 32)), ByteWord(Slice(raw, 32, 64)))
  }

  /**
   * The RSA numbers of a `d1` key: the modulus from hex characters [0, 512),
   * the exponent from everything after; a key of at most 512 characters has
   * an empty exponent, which `int(..., 16)` rejects.
   */
  function ParseRsaKey(publicKey: string): (r: Result<RsaNumbers, Failure>)
    ensures r.Ok? <==> |publicKey| > 512 && IsHex(publicKey)
    ensures r.Err? ==> r.error == InvalidHex
    ensures r.Ok? ==> r.value.n < Pow(2, 2048)
    ensures r.Ok? ==> Some(r.value.n) == ParseHex(publicKey[..512]) && Some(r.value.e) == ParseHex(publicKey[512..])
  {
    assert |publicKey| > 512 ==> publicKey == Slice(publicKey, 0, 512) + SliceFrom(publicKey, 512);
    var n, e := HexModulus(Slice(publicKey, 0, 512)), ParseHex(SliceFrom(publicKey, 512));
    if n.None? || e.None? then Err(InvalidHex) else Ok(RsaNumbers(n.value, e.value))
  }

  // -------------------------------------------------------- the schemes

  /** The key and signature of an ECDSA scheme decode without raising. */
  predicate EcdsaInputsDecode(p: Primitives, publicKey: string, signature: string)
  {
    && ParseEcKey(publicKey).Ok?
    && p.ecPublicKeyValid(ParseEcKey(publicKey).value)
    && p.urlsafeB64Decode(signature).Some?
  }

  /** ECDSA P-256 / SHA-256 accepts `message` under the row's key and signature. */
  predicate EcdsaAccepts(p: Primitives, publicKey: string, signature: string, message: Bytes)
  {
    && EcdsaInputsDecode(p, publicKey, signature)
    && p.ecdsaVerify(ParseEcKey(publicKey).value,
                     ParseEcSignature(p.urlsafeB64Decode(signature).value), message)
  }

  /** `m5`: the signed message is the UTF-8 text of the base64 packet, not its decoding. */
  function M5Verify(p: Primitives, publicKey: string, packet: string, signature: string): (v: Verdict)
    ensures v.Raised? <==> !EcdsaInputsDecode(p, publicKey, signature)
    ensures v == Returned(true) <==> EcdsaAccepts(p, publicKey, signature, Utf8Encode(packet))
  {
    match ParseEcKey(publicKey)
    case Err(f) => Raised(f)
    case Ok(point) =>
      if !p.ecPublicKeyValid(point) then Raised(InvalidKey)
      else
        match p.urlsafeB64Decode(signature)
        case None => Raised(InvalidBase64)
        case Some(raw) =>
          Returned(p.ecdsaVerify(point, ParseEcSignature(raw), Utf8Encode(packet)))
  }

  /** `helium`: the same key and signature, but the signed message is the decoded packet. */
  function HeliumVerify(p: Primitives, publicKey: string, packet: string, signature: string): (v: Verdict)
    ensures v.Raised? <==> !EcdsaInputsDecode(p, publicKey, signature) || p.urlsafeB64Decode(packet).None?
    ensures v == Returned(true) <==>
      p.urlsafeB64Decode(packet).Some? && EcdsaAccepts(p, publicKey, signature, p.urlsafeB64Decode(packet).value)
  {
    match ParseEcKey(publicKey)
    case Err(f) => Raised(f)
    case Ok(point) =>
      if !p.ecPublicKeyValid(point) then Raised(InvalidKey)
      else
        match p.urlsafeB64Decode(signature)
        case None => Raised(InvalidBase64)
        case Some(raw) =>
          match p.urlsafeB64Decode(packet)
          case None => Raised(InvalidBase64)
          case Some(message) => Returned(p.ecdsaVerify(point, ParseEcSignature(raw), message))
  }

  /**
   * `d1`: RSA PKCS#1 v1.5 over the SHA-256 digest of the ASCII packet text;
   * the signature bytes are passed whole.
   */
  function D1Verify(p: Primitives, publicKey: string, packet: string, signature: string): (v: Verdict)
    ensures |publicKey| <= 512 ==> v == Raised(InvalidHex)
    ensures v == Returned(true) <==>
      && ParseRsaKey(publicKey).Ok?
      && p.rsaPublicKeyValid(ParseRsaKey(publicKey).value)
      && p.urlsafeB64Decode(signature).Some?
      && IsAscii(packet)
      && p.rsaVerifyPrehashed(ParseRsaKey(publicKey).value, p.urlsafeB64Decode(signature).value,
                              p.sha256(AsciiEncode(packet).value))
  {
    match ParseRsaKey(publicKey)
    case Err(f) => Raised(f)
    case Ok(numbers) =>
      if !p.rsaPublicKeyValid(numbers) then Raised(InvalidKey)
      else
        match p.urlsafeB64Decode(signature)
        case None => Raised(InvalidBase64)
        case Some(raw) =>
          match AsciiEncode(packet)
          case None => Raised(NonAsciiPacket)
          case Some(text) => Returned(p.rsaVerifyPrehashed(numbers, raw, p.sha256(text)))
  }

  function RunScheme(scheme: Scheme, p: Primitives, r: Record): Verdict
  {
    match scheme
    case M5 => M5Verify(p, r.publicKey, r.packet, r.signature)
    case Helium => HeliumVerify(p, r.publicKey, r.packet, r.signature)
    case D1 => D1Verify(p, r.publicKey, r.packet, r.signature)
  }

  /**
   * The mask entry of one row: False for an unknown model, False when the
   * scheme raises, otherwise what the scheme returns.
   */
  function RowVerified(p: Primitives, r: Record): (ok: bool)
    ensures Dispatch(r.model).None? ==> !ok
    ensures Dispatch(r.model) == Some(M5) ==>
      (ok <==> EcdsaAccepts(p, r.publicKey, r.signature, Utf8Encode(r.packet)))
    ensures Dispatch(r.model) == Some(Helium) ==>
      (ok <==> p.urlsafeB64Decode(r.packet).Some?
               && EcdsaAccepts(p, r.publicKey, r.signature, p.urlsafeB64Decode(r.packet).value))
    ensures Dispatch(r.model) == Some(D1) ==>
      (ok <==> D1Verify(p, r.publicKey, r.packet, r.signature) == Returned(true))
  {
    match Dispatch(r.model)
    case None => false
    case Some(scheme) => RunScheme(scheme, p, r) == Returned(true)
  }

  function Verified(p: Primitives): Record -> bool
  {
    r => RowVerified(p, r)
  }

  // -------------------------------------------------------- the loop

  /**
   * The body of `verify`'s loop for one row: look the model up, give False
   * for an unsupported model, run the scheme and give False if it raises.
   */
  method CheckRow(p: Primitives, record: Record) returns (ok: bool)
    ensures ok == RowVerified(p, record)
    ensures Dispatch(record.model).None? ==> !ok
  {
    var fn := Dispatch(record.model);
    if fn.None? {
      return false;
    }
    var outcome := RunScheme(fn.value, p, record);
    match outcome {
      case Returned(valid) => ok := valid;
      case Raised(_) => ok := false;
    }
  }

  /**
   * `verify(df)`: one mask entry per row, then `df.loc[mask]`; `devices`
   * collects each name once, verified or not.
   */
  method Verify(p: Primitives, rows: seq<Record>) returns (verified: seq<Record>, devices: seq<string>)
    ensures verified == Select(rows, Verified(p))
    ensures devices == Distinct(Names(rows))
  {
    var mask: seq<bool> := [];
    devices := [];
    for i := 0 to |rows|
      invariant |mask| == i
      invariant forall k :: 0 <= k < i ==> mask[k] == RowVerified(p, rows[k])
      invariant devices == Distinct(Names(rows[..i]))
    {
      var record := rows[i];
      assert rows[..i + 1] == rows[..i] + [record];
      NamesConcat(rows[..i], [record]);
      DistinctSnoc(Names(rows[..i]), record.name);
      if record.name !in devices {
        devices := devices + [record.name];
      }
      var ok := CheckRow(p, record);
      MaskStep(p, rows, mask, ok);
      mask := mask + [ok];
    }
    assert rows[..|rows|] == rows;
    MaskOfVerdicts(p, rows, mask);
    verified := Mask(rows, mask);
  }

  lemma MaskStep(p: Primitives, rows: seq<Record>, mask: seq<bool>, ok: bool)
    requires |mask| < |rows| && ok == RowVerified(p, rows[|mask|])
    requires forall k :: 0 <= k < |mask| ==> mask[k] == RowVerified(p, rows[k])
    ensures forall k :: 0 <= k <= |mask| ==> (mask + [ok])[k] == RowVerified(p, rows[k])
  {
  }

  lemma MaskOfVerdicts(p: Primitives, rows: seq<Record>, mask: seq<bool>)
    requires |mask| == |rows|
    requires forall k :: 0 <= k < |rows| ==> mask[k] == RowVerified(p, rows[k])
    ensures Mask(rows, mask) == Select(rows, Verified(p))
  {
    MaskIsSelect(rows, mask, Verified(p));
  }

  // -------------------------------------------------------- properties

  /** A row whose model has no scheme never survives. */
  lemma UnsupportedModelDropped(p: Primitives, rows: seq<Record>, r: Record)
    requires Dispatch(r.model).None?
    ensures r !in Select(rows, Verified(p))
  {
  }

  /** A row that is rejected, for whatever reason, leaves the rows around it as they would be without it. */
  lemma RejectionIsLocal(p: Primitives, before: seq<Record>, r: Record, after: seq<Record>)
    requires !RowVerified(p, r)
    ensures Select(before + [r] + after, Verified(p)) == Select(before, Verified(p)) + Select(after, Verified(p))
  {
    SelectSkip(before, r, after, Verified(p));
  }

  /** The key's characters past 128 do not matter. */
  lemma EcKeyIgnoresTail(publicKey: string, extra: string)
    requires |publicKey| >= 128
    ensures ParseEcKey(publicKey + extra) == ParseEcKey(publicKey)
  {
    var k := publicKey + extra;
    assert Slice(k, 0, 64) == Slice(publicKey, 0, 64);
    assert Slice(k, 64, 128) == Slice(publicKey, 64, 128);
  }

  /** A 128-digit lower-case key is exactly x and y written as 64 hex digits each. */
  lemma EcKeyRoundTrip(publicKey: string)
    requires |publicKey| == 128 && IsLowerHex(publicKey)
    ensures ParseEcKey(publicKey).Ok?
    ensures var point := ParseEcKey(publicKey).value;
      HexString(point.x, 64) + HexString(point.y, 64) == publicKey
  {
    var xs, ys := publicKey[..64], publicKey[64..];
    assert Slice(publicKey, 0, 64) == xs;
    assert Slice(publicKey, 64, 128) == ys;
    assert IsLowerHex(xs) && IsLowerHex(ys);
    HexStringOfParse(xs);
    HexStringOfParse(ys);
    var point := EcPoint(ParseHex(xs).value, ParseHex(ys).value);
    assert ParseEcKey(publicKey) == Ok(point);
    assert publicKey == xs + ys;
  }

  /**
   * A lower-case key longer than 512 digits is n written as 512 hex digits
   * followed by e written in the remaining digits.
   */
  lemma RsaKeyRoundTrip(publicKey: string)
    requires |publicKey| > 512 && IsLowerHex(publicKey)
    ensures ParseRsaKey(publicKey).Ok?
    ensures var key := ParseRsaKey(publicKey).value;
      HexString(key.n, 512) + HexString(key.e, |publicKey| - 512) == publicKey
  {
    var ns, es := publicKey[..512], publicKey[512..];
    assert IsLowerHex(ns) && IsLowerHex(es);
    HexStringOfParse(ns);
    HexStringOfParse(es);
    assert publicKey == ns + es;
  }

  /** Signature bytes past 64 do not matter. */
  lemma EcSignatureIgnoresTail(raw: Bytes, extra: Bytes)
    requires |raw| >= 64
    ensures ParseEcSignature(raw + extra) == ParseEcSignature(raw)
  {
    var b := raw + extra;
    assert Slice(b, 0, 32) == Slice(raw, 0, 32);
    assert Slice(b, 32, 64) == Slice(raw, 32, 64);
  }

  /** A 64-byte signature is exactly r and s written as 32 big-endian bytes each. */
  lemma EcSignatureRoundTrip(raw: Bytes)
    requires |raw| == 64
    ensures var sig := ParseEcSignature(raw);
      ToBigEndian(sig.r, 32) + ToBigEndian(sig.s, 32) == raw
  {
    assert Slice(raw, 0, 32) == raw[..32] && Slice(raw, 32, 64) == raw[32..];
    BytesOfBigEndian(raw[..32]);
    BytesOfBigEndian(raw[32..]);
    assert raw == raw[..32] + raw[32..];
  }

  /**
   * `m5` and `helium` differ only in the message: when the packet's
   * decoding equals its own UTF-8 text they agree.
   */
  lemma SchemesDifferOnlyInMessage(p: Primitives, publicKey: string, packet: string, signature: string)
    requires p.urlsafeB64Decode(packet) == Some(Utf8Encode(packet))
    ensures M5Verify(p, publicKey, packet, signature) == HeliumVerify(p, publicKey, packet, signature)
  {
  }
}
