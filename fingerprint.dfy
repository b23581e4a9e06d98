/**
 * The certificate fingerprint attribute (section 5 of RFC 8122) in its
 * compact form: the colon-separated hex bytes of a `sha-256` fingerprint
 * line are carried as base64 and rendered back as upper-case hex.
 */
module Fingerprint {
  import opened Wrappers
  import opened Text
  import Base64

  type Byte = Base64.Byte

  /** The 22 characters that `encodeFingerprint` skips and `decodeFingerprint` writes. */
  const Prefix: string := "a=fingerprint:sha-256 "

  predicate IsHexDigit(c: char)
  {
    ('0' <= c <= '9') || ('a' <= c <= 'f') || ('A' <= c <= 'F')
  }

  function HexValue(c: char): (v: nat)
    requires IsHexDigit(c)
    ensures v < 16
  {
    if '0' <= c <= '9' then c as int - '0' as int
    else if 'a' <= c <= 'f' then c as int - 'a' as int + 10
    else c as int - 'A' as int + 10
  }

  /**
   * A colon-separated piece on which `parseInt(h, 16)` followed by
   * `String.fromCharCode` yields one byte: one or two hex digits, or the
   * empty piece, whose `NaN` becomes character code 0.
   */
  predicate IsHexPart(h: string)
  {
    |h| <= 2 && forall i :: 0 <= i < |h| ==> IsHexDigit(h[i])
  }

  function PartValue(h: string): Byte
    requires IsHexPart(h)
  {
    if |h| == 0 then 0
    else if |h| == 1 then HexValue(h[0])
    else HexValue(h[0]) * 16 + HexValue(h[1])
  }

  /** `fingerprint.slice(22)`. */
  function Body(line: string): string
  {
    if |line| >= |Prefix| then line[|Prefix|..] else ""
  }

  function Parts(line: string): seq<string>
  {
    SplitOn(Body(line), ":")
  }

  predicate WellFormedBody(line: string)
  {
    forall i :: 0 <= i < |Parts(line)| ==> IsHexPart(Parts(line)[i])
  }

  function PartValues(parts: seq<string>): (bytes: seq<Byte>)
    requires forall i :: 0 <= i < |parts| ==> IsHexPart(parts[i])
    ensures |bytes| == |parts|
    ensures forall i :: 0 <= i < |parts| ==> bytes[i] == PartValue(parts[i])
  {
    if |parts| == 0 then [] else [PartValue(parts[0])] + PartValues(parts[1..])
  }

  /** The bytes a fingerprint line names, one per colon-separated piece, in order. */
  function FingerprintBytes(line: string): seq<Byte>
    requires WellFormedBody(line)
  {
    PartValues(Parts(line))
  }

  /**
   * `encodeFingerprint` (lib/local-connection.js:3-5): the base64 text of
   * the bytes after the first 22 characters, which decodes back to exactly
   * those bytes.
   */
  function EncodeFingerprint(line: string): (r: string)
    requires WellFormedBody(line)
    ensures Base64.Decode(r) == Ok(FingerprintBytes(line))
    ensures |r| == 4 * ((|Parts(line)| + 2) / 3)
  {
    var bytes := FingerprintBytes(line);
    Base64.EncodeDecode(bytes);
    Base64.EncodedLength(bytes);
    Base64.Encode(bytes)
  }

  function UpperHexDigit(d: nat): (c: char)
    requires d < 16
    ensures IsHexDigit(c) && HexValue(c) == d && c != ':' && !('a' <= c <= 'z')
  {
    "0123456789ABCDEF"[d]
  }

  /** A byte as exactly two upper-case hex digits, zero-padded below 16. */
  function HexByte(b: Byte): (h: string)
    ensures |h| == 2 && IsHexPart(h) && PartValue(h) == b && ':' !in h
    ensures forall i :: 0 <= i < 2 ==> !('a' <= h[i] <= 'z')
  {
    [UpperHexDigit(b / 16), UpperHexDigit(b % 16)]
  }

  function HexBytes(bytes: seq<Byte>): (hs: seq<string>)
    ensures |hs| == |bytes|
    ensures forall i :: 0 <= i < |bytes| ==> hs[i] == HexByte(bytes[i])
  {
    if |bytes| == 0 then [] else [HexByte(bytes[0])] + HexBytes(bytes[1..])
  }

  /** The fingerprint line `decodeFingerprint` writes for a byte string. */
  function RenderFingerprint(bytes: seq<Byte>): string
  {
    Prefix + Join(HexBytes(bytes), ":")
  }

  /**
   * `decodeFingerprint` (lib/local-connection.js:7-15): `atob` fails on text
   * that is not base64, and otherwise the decoded bytes are rendered.
   */
  function DecodeFingerprint(f: string): (r: Result<string, Base64.DecodeError>)
    ensures r.Ok? <==> Base64.Decode(f).Ok?
    ensures r.Ok? ==> StartsWith(r.value, Prefix) && r.value == RenderFingerprint(Base64.Decode(f).value)
  {
    match Base64.Decode(f)
    case Ok(bytes) => Ok(RenderFingerprint(bytes))
    case Err(e) => Err(e)
  }

  /**
   * A rendered fingerprint of at least one byte splits back into its pieces,
   * each exactly two upper-case hex digits naming its byte.
   */
  lemma RenderedParts(bytes: seq<Byte>)
    requires |bytes| > 0
    ensures Parts(RenderFingerprint(bytes)) == HexBytes(bytes)
    ensures WellFormedBody(RenderFingerprint(bytes))
    ensures FingerprintBytes(RenderFingerprint(bytes)) == bytes
  {
    var line := RenderFingerprint(bytes);
    assert Body(line) == Join(HexBytes(bytes), ":");
    SplitJoin(HexBytes(bytes), ":");
  }

  /**
   * `decodeFingerprint(encodeFingerprint(L)) == L` for every
   * `a=fingerprint:sha-256 ` line with at least one upper-case two-digit pair.
   */
  lemma DecodeEncodeFingerprint(bytes: seq<Byte>)
    requires |bytes| > 0
    ensures WellFormedBody(RenderFingerprint(bytes))
    ensures DecodeFingerprint(EncodeFingerprint(RenderFingerprint(bytes))) == Ok(RenderFingerprint(bytes))
  {
    RenderedParts(bytes);
  }

  /** `encodeFingerprint(decodeFingerprint(f)) == f` for the base64 text of a non-empty byte string. */
  lemma EncodeDecodeFingerprint(bytes: seq<Byte>)
    requires |bytes| > 0
    ensures DecodeFingerprint(Base64.Encode(bytes)) == Ok(RenderFingerprint(bytes))
    ensures WellFormedBody(RenderFingerprint(bytes))
    ensures EncodeFingerprint(RenderFingerprint(bytes)) == Base64.Encode(bytes)
  {
    Base64.EncodeDecode(bytes);
    RenderedParts(bytes);
  }

  /**
   * The empty byte string does not survive: `atob("")` renders a bare prefix,
   * whose single empty piece re-encodes as the byte 0.
   */
  lemma EmptyFingerprint()
    ensures DecodeFingerprint("") == Ok(Prefix)
    ensures WellFormedBody(Prefix) && EncodeFingerprint(Prefix) == "AA=="
  {
    assert Base64.StripPadding("") == "";
    assert Base64.Decode("") == Ok([]);
    assert HexBytes([]) == [];
    assert RenderFingerprint([]) == Prefix;
    assert Body(Prefix) == "";
    assert Parts(Prefix) == [""];
    assert FingerprintBytes(Prefix) == [0];
    assert Base64.EncodeUnpadded([0]) == "AA";
  }
}
