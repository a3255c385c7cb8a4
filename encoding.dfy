/**
 * The text and byte conversions the signature schemes apply around their
 * cryptographic calls: Python slicing of strings and bytes, `int(s, 16)`,
 * `int.from_bytes(b, "big")`, `str.encode("utf-8")` and `str.encode("ascii")`.
 */
module Encoding {
  import opened Wrappers
  import opened Positional

  type Byte = x: int | 0 <= x < 256
  type Bytes = seq<Byte>

  /** Python's `s[lo:hi]`: bounds past the end are clamped, never an error. */
  function Slice<T>(s: seq<T>, lo: nat, hi: nat): (r: seq<T>)
    requires lo <= hi
    ensures |r| == (if hi <= |s| then hi - lo else if lo <= |s| then |s| - lo else 0)
    ensures forall i :: 0 <= i < |r| ==> r[i] == s[lo + i]
  {
    if hi <= |s| then s[lo..hi] else if lo <= |s| then s[lo..] else []
  }

  /** Python's `s[lo:]`. */
  function SliceFrom<T>(s: seq<T>, lo: nat): (r: seq<T>)
    ensures |r| == if lo <= |s| then |s| - lo else 0
    ensures forall i :: 0 <= i < |r| ==> r[i] == s[lo + i]
  {
    if lo <= |s| then s[lo..] else []
  }

  // ---------------------------------------------------------------- hex

  const LowerHexDigits: string := "0123456789abcdef"

  predicate IsHexDigit(c: char)
  {
    '0' <= c <= '9' || 'a' <= c <= 'f' || 'A' <= c <= 'F'
  }

  predicate IsHex(s: string)
  {
    forall i :: 0 <= i < |s| ==> IsHexDigit(s[i])
  }

  predicate IsLowerHex(s: string)
  {
    forall i :: 0 <= i < |s| ==> s[i] in LowerHexDigits
  }

  function HexDigitValue(c: char): (d: nat)
    requires IsHexDigit(c)
    ensures d < 16
    ensures c in LowerHexDigits ==> LowerHexDigits[d] == c
  {
    if '0' <= c <= '9' then c as int - '0' as int
    else if 'a' <= c <= 'f' then c as int - 'a' as int + 10
    else c as int - 'A' as int + 10
  }

  function HexDigits(s: string): (ds: seq<int>)
    requires IsHex(s)
    ensures |ds| == |s| && IsDigits(ds, 16)
  {
    seq(|s|, i requires 0 <= i < |s| => HexDigitValue(s[i]))
  }

  /**
   * `int(s, 16)`: the value of a non-empty string of hex digits (either
   * case); any other string raises ValueError, the empty one included.
   */
  function ParseHex(s: string): (r: Option<nat>)
    ensures r.Some? <==> s != [] && IsHex(s)
    ensures r.Some? ==> r.value < Pow(16, |s|)
  {
    if s != [] && IsHex(s) then Some(Value(HexDigits(s), 16)) else None
  }

  /** The lower-case form of a string: `A`-`F` become `a`-`f`, every other character is kept. */
  function LowerCase(s: string): (t: string)
    ensures |t| == |s|
    ensures forall i :: 0 <= i < |s| ==> 'A' <= s[i] <= 'F' ==> t[i] as int == s[i] as int + 32
    ensures forall i :: 0 <= i < |s| ==> !('A' <= s[i] <= 'F') ==> t[i] == s[i]
  {
    seq(|s|, i requires 0 <= i < |s| => if 'A' <= s[i] <= 'F' then (s[i] as int + 32) as char else s[i])
  }

  /**
   * `int(s, 16)` reads upper- and lower-case digits alike: a string parses
   * to what its lower-case form parses to, and a hex string's lower-case
   * form is all lower-case digits.
   */
  lemma ParseHexIgnoresCase(s: string)
    ensures ParseHex(s) == ParseHex(LowerCase(s))
    ensures IsHex(s) ==> IsLowerHex(LowerCase(s))
  {
    var t := LowerCase(s);
    assert forall i :: 0 <= i < |s| ==> (IsHexDigit(s[i]) <==> IsHexDigit(t[i]));
    if IsHex(s) {
      assert HexDigits(s) == HexDigits(t);
      forall i | 0 <= i < |s|
        ensures t[i] in LowerHexDigits
      {
        HexDigitOfLower(HexDigitValue(t[i]));
        assert LowerHexDigits[HexDigitValue(t[i])] == t[i];
      }
    }
  }

  /** `format(v, "0<width>x")`: lower-case hex, zero-padded to `width` digits. */
  function HexString(v: nat, width: nat): (s: string)
    ensures |s| == width && IsLowerHex(s)
  {
    var ds := Digits(v, 16, width);
    seq(width, i requires 0 <= i < width => LowerHexDigits[ds[i]])
  }

  lemma ParseHexString(v: nat, width: nat)
    requires 0 < width && v < Pow(16, width)
    ensures ParseHex(HexString(v, width)) == Some(v)
  {
    var s := HexString(v, width);
    var ds := Digits(v, 16, width);
    assert IsHex(s);
    assert HexDigits(s) == ds by {
      forall i | 0 <= i < width
        ensures HexDigits(s)[i] == ds[i]
      {
        HexDigitOfLower(ds[i]);
      }
    }
    ValueOfDigits(v, 16, width);
  }

  lemma HexDigitOfLower(d: int)
    requires 0 <= d < 16
    ensures IsHexDigit(LowerHexDigits[d]) && HexDigitValue(LowerHexDigits[d]) == d
  {
  }

  lemma HexStringOfParse(s: string)
    requires s != [] && IsLowerHex(s)
    ensures ParseHex(s).Some? && HexString(ParseHex(s).value, |s|) == s
  {
    assert IsHex(s);
    var ds := HexDigits(s);
    DigitsOfValue(ds, 16);
  }

  // ---------------------------------------------------------------- bytes

  /** `int.from_bytes(b, "big")`; the empty string of bytes is 0. */
  function BigEndian(b: Bytes): (v: nat)
    ensures v < Pow(256, |b|)
  {
    Value(b, 256)
  }

  /** `v.to_bytes(width, "big")` for `v < 256^width`. */
  function ToBigEndian(v: nat, width: nat): (b: Bytes)
    ensures |b| == width
  {
    var ds := Digits(v, 256, width);
    seq(width, i requires 0 <= i < width => ds[i])
  }

  lemma BigEndianOfBytes(v: nat, width: nat)
    requires v < Pow(256, width)
    ensures BigEndian(ToBigEndian(v, width)) == v
  {
    assert ToBigEndian(v, width) == Digits(v, 256, width);
    ValueOfDigits(v, 256, width);
  }

  lemma BytesOfBigEndian(b: Bytes)
    ensures ToBigEndian(BigEndian(b), |b|) == b
  {
    DigitsOfValue(b, 256);
  }

  // ---------------------------------------------------------------- text

  predicate IsAscii(s: string)
  {
    forall i :: 0 <= i < |s| ==> s[i] as int < 128
  }

  /** The UTF-8 encoding of one Unicode scalar value. */
  function Utf8Char(c: char): (b: Bytes)
    ensures |b| == if c as int < 0x80 then 1 else if c as int < 0x800 then 2
                   else if c as int < 0x1_0000 then 3 else 4
    ensures c as int < 0x80 ==> b == [c as int]
    ensures c as int >= 0x80 ==> forall i :: 0 < i < |b| ==> 0x80 <= b[i] < 0xC0
  {
    var n := c as int;
    if n < 0x80 then [n]
    else if n < 0x800 then [0xC0 + n / 0x40, 0x80 + n % 0x40]
    else if n < 0x1_0000 then [0xE0 + n / 0x1000, 0x80 + n / 0x40 % 0x40, 0x80 + n % 0x40]
    else [0xF0 + n / 0x4_0000, 0x80 + n / 0x1000 % 0x40, 0x80 + n / 0x40 % 0x40, 0x80 + n % 0x40]
  }

  /** `bytes(s, "utf-8")`; total, since a `char` is never a lone surrogate. */
  function Utf8Encode(s: string): (b: Bytes)
    ensures |s| <= |b| <= 4 * |s|
  {
    if s == [] then [] else Utf8Encode(s[..|s| - 1]) + Utf8Char(s[|s| - 1])
  }

  /** `s.encode("ascii")`: raises UnicodeEncodeError on any character past U+007F. */
  function AsciiEncode(s: string): (r: Option<Bytes>)
    ensures r.Some? <==> IsAscii(s)
    ensures r.Some? ==> |r.value| == |s| && forall i :: 0 <= i < |s| ==> r.value[i] == s[i] as int
  {
    if IsAscii(s) then Some(seq(|s|, i requires 0 <= i < |s| => s[i] as int)) else None
  }

  /** On ASCII text the UTF-8 and the ASCII encodings give the same bytes. */
  lemma {:induction false} AsciiIsUtf8(s: string)
    requires IsAscii(s)
    ensures AsciiEncode(s) == Some(Utf8Encode(s))
  {
    if s != [] {
      var pre := s[..|s| - 1];
      assert IsAscii(pre);
      AsciiIsUtf8(pre);
      assert AsciiEncode(s).value == AsciiEncode(pre).value + [s[|s| - 1] as int];
    }
  }
}
