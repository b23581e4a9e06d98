/**
 * Base64 as used by the browser's `btoa` and `atob` on strings whose
 * characters are bytes: the alphabet and padding of section 4 of RFC 4648,
 * and for decoding the "forgiving" algorithm of the HTML standard (padding
 * optional, trailing bits ignored).
 */
module Base64 {
  import opened Wrappers

  type Byte = b: int | 0 <= b < 256

  datatype DecodeError = InvalidCharacter

  predicate IsBase64Char(c: char)
  {
    ('A' <= c <= 'Z') || ('a' <= c <= 'z') || ('0' <= c <= '9') || c == '+' || c == '/'
  }

  predicate AllBase64Chars(s: string)
  {
    forall i :: 0 <= i < |s| ==> IsBase64Char(s[i])
  }

  /** The value of an alphabet character. */
  function SextetValue(c: char): (v: nat)
    requires IsBase64Char(c)
    ensures v < 64
  {
    if 'A' <= c <= 'Z' then c as int - 'A' as int
    else if 'a' <= c <= 'z' then c as int - 'a' as int + 26
    else if '0' <= c <= '9' then c as int - '0' as int + 52
    else if c == '+' then 62
    else 63
  }

  /** The alphabet character of a 6-bit value; `SextetValue` inverts it. */
  function SextetChar(v: nat): (c: char)
    requires v < 64
    ensures IsBase64Char(c) && SextetValue(c) == v
  {
    if v < 26 then ('A' as int + v) as char
    else if v < 52 then ('a' as int + v - 26) as char
    else if v < 62 then ('0' as int + v - 52) as char
    else if v == 62 then '+'
    else '/'
  }

  /** Three bytes as four sextets, most significant bits first. */
  function EncodeGroup(b0: Byte, b1: Byte, b2: Byte): (s: string)
    ensures |s| == 4 && AllBase64Chars(s)
  {
    [SextetChar(b0 / 4), SextetChar(b0 % 4 * 16 + b1 / 16),
     SextetChar(b1 % 16 * 4 + b2 / 64), SextetChar(b2 % 64)]
  }

  /** A final one or two bytes as two or three sextets, the missing bits zero. */
  function EncodeTail(b: seq<Byte>): (s: string)
    requires |b| < 3
    ensures AllBase64Chars(s)
    ensures |s| == (if |b| == 0 then 0 else |b| + 1)
  {
    if |b| == 0 then []
    else if |b| == 1 then [SextetChar(b[0] / 4), SextetChar(b[0] % 4 * 16)]
    else [SextetChar(b[0] / 4), SextetChar(b[0] % 4 * 16 + b[1] / 16), SextetChar(b[1] % 16 * 4)]
  }

  /** How many significant characters `btoa` writes for `n` bytes: four per full group, two or three for a final one or two bytes, never a leftover of one. */
  function UnpaddedLength(n: nat): (r: nat)
    ensures r % 4 != 1
    ensures n > 0 ==> r >= 2
  {
    if n < 3 then (if n == 0 then 0 else n + 1) else 4 + UnpaddedLength(n - 3)
  }

  /** The significant characters of `btoa(b)`: every full group of three bytes gives four characters, a final one or two bytes give two or three. */
  function EncodeUnpadded(b: seq<Byte>): (s: string)
    ensures AllBase64Chars(s)
    ensures |s| == UnpaddedLength(|b|)
    decreases |b|
  {
    if |b| < 3 then EncodeTail(b)
    else
      var g, rest := EncodeGroup(b[0], b[1], b[2]), EncodeUnpadded(b[3..]);
      assert |g + rest| == |rest| + 4;
      g + rest
  }

  function Padding(n: nat): (p: string)
    ensures |p| <= 2 && forall i :: 0 <= i < |p| ==> p[i] == '='
  {
    if n % 3 == 1 then "==" else if n % 3 == 2 then "=" else ""
  }

  /** With its padding, the encoding of `n` bytes has four characters per started group of three. */
  lemma {:induction false} PaddedLength(n: nat)
    ensures UnpaddedLength(n) + |Padding(n)| == 4 * ((n + 2) / 3)
    ensures (UnpaddedLength(n) + |Padding(n)|) % 4 == 0
  {
    if n >= 3 {
      PaddedLength(n - 3);
      assert (n + 2) / 3 == (n - 1) / 3 + 1;
      assert n % 3 == (n - 3) % 3;
    }
  }

  /** `btoa`: the padded encoding, four characters per started group of three bytes. */
  function Encode(b: seq<Byte>): (s: string)
    ensures |s| % 4 == 0
    ensures forall i :: 0 <= i < |s| ==> IsBase64Char(s[i]) || s[i] == '='
  {
    var u, p := EncodeUnpadded(b), Padding(|b|);
    PaddedLength(|b|);
    assert forall i :: 0 <= i < |u| ==> (u + p)[i] == u[i];
    assert forall i :: |u| <= i < |u + p| ==> (u + p)[i] == p[i - |u|];
    u + p
  }

  /** `btoa` writes four characters for every started group of three bytes. */
  lemma EncodedLength(b: seq<Byte>)
    ensures |Encode(b)| == 4 * ((|b| + 2) / 3)
  {
    PaddedLength(|b|);
  }

  /** Four sextets as three bytes. */
  function DecodeGroup(c: string): (b: seq<Byte>)
    requires |c| == 4 && AllBase64Chars(c)
    ensures |b| == 3
  {
    [SextetValue(c[0]) * 4 + SextetValue(c[1]) / 16,
     SextetValue(c[1]) % 16 * 16 + SextetValue(c[2]) / 4,
     SextetValue(c[2]) % 4 * 64 + SextetValue(c[3])]
  }

  /** A final two or three sextets as one or two bytes; leftover bits are dropped. */
  function DecodeTail(c: string): (b: seq<Byte>)
    requires |c| < 4 && |c| != 1 && AllBase64Chars(c)
  {
    if |c| == 0 then []
    else if |c| == 2 then [SextetValue(c[0]) * 4 + SextetValue(c[1]) / 16]
    else [SextetValue(c[0]) * 4 + SextetValue(c[1]) / 16, SextetValue(c[1]) % 16 * 16 + SextetValue(c[2]) / 4]
  }

  /** Decoding of padding-free alphabet text, four characters to three bytes. */
  function DecodeUnpadded(s: string): (b: seq<Byte>)
    requires AllBase64Chars(s) && |s| % 4 != 1
    decreases |s|
  {
    if |s| < 4 then DecodeTail(s)
    else DecodeGroup(s[..4]) + DecodeUnpadded(s[4..])
  }

  /** The text `atob` decodes once one or two `=` are dropped from a length that is a multiple of four. */
  function StripPadding(s: string): (t: string)
    ensures |t| <= |s|
  {
    if |s| % 4 == 0 && |s| > 0 && s[|s| - 1] == '=' then
      if |s| > 1 && s[|s| - 2] == '=' then s[..|s| - 2] else s[..|s| - 1]
    else s
  }

  /**
   * `atob`, following forgiving-base64 decode without its whitespace
   * removal: a leftover length of one, or any character outside the
   * alphabet after padding removal, fails.
   */
  function Decode(s: string): (r: Result<seq<Byte>, DecodeError>)
    ensures r.Ok? <==> (|StripPadding(s)| % 4 != 1 && AllBase64Chars(StripPadding(s)))
  {
    var t := StripPadding(s);
    if |t| % 4 == 1 || !AllBase64Chars(t) then Err(InvalidCharacter)
    else Ok(DecodeUnpadded(t))
  }

  /** A value written as `hi` units of 16 and a remainder below 16 splits back into those parts. */
  lemma Split16(hi: nat, lo: nat)
    requires lo < 16
    ensures (hi * 16 + lo) / 16 == hi && (hi * 16 + lo) % 16 == lo
  {
  }

  lemma Split4(hi: nat, lo: nat)
    requires lo < 4
    ensures (hi * 4 + lo) / 4 == hi && (hi * 4 + lo) % 4 == lo
  {
  }

  /** The first byte of a group comes back from its first two sextets. */
  lemma FirstByte(b0: Byte, b1: Byte)
    ensures b0 / 4 * 4 + (b0 % 4 * 16 + b1 / 16) / 16 == b0
  {
    Split16(b0 % 4, b1 / 16);
  }

  /** The second byte comes back from the second and third sextets. */
  lemma SecondByte(b1: Byte, b2: Byte)
    ensures (b1 % 16 * 4 + b2 / 64) / 4 == b1 % 16
    ensures (b1 / 16 * 16 + b1 % 16) == b1
  {
    Split4(b1 % 16, b2 / 64);
  }

  /** One full group: the four sextets of three bytes give the three bytes back. */
  lemma GroupRoundTrip(b0: Byte, b1: Byte, b2: Byte)
    ensures DecodeGroup(EncodeGroup(b0, b1, b2)) == [b0, b1, b2]
  {
    var v1, v2 := b0 % 4 * 16 + b1 / 16, b1 % 16 * 4 + b2 / 64;
    Split16(b0 % 4, b1 / 16);
    Split4(b1 % 16, b2 / 64);
    FirstByte(b0, b1);
    SecondByte(b1, b2);
    assert v1 % 16 == b1 / 16 && v2 / 4 == b1 % 16;
    assert v2 % 4 == b2 / 64;
  }

  lemma TailRoundTrip(b: seq<Byte>)
    requires |b| < 3
    ensures DecodeTail(EncodeTail(b)) == b
  {
    if |b| == 1 {
      Split16(b[0] % 4, 0);
      FirstByte(b[0], 0);
    } else if |b| == 2 {
      Split16(b[0] % 4, b[1] / 16);
      Split4(b[1] % 16, 0);
      FirstByte(b[0], b[1]);
      SecondByte(b[1], 0);
    }
  }

  /** Decoding takes the first four characters as one group. */
  lemma DecodeFirstGroup(g: string, rest: string)
    requires |g| == 4 && AllBase64Chars(g) && AllBase64Chars(rest) && |rest| % 4 != 1
    ensures AllBase64Chars(g + rest) && |g + rest| % 4 != 1
    ensures DecodeUnpadded(g + rest) == DecodeGroup(g) + DecodeUnpadded(rest)
  {
    assert (g + rest)[..4] == g && (g + rest)[4..] == rest;
  }

  /** The first full group of an encoding decodes back to the first three bytes. */
  lemma DecodeEncodeGroup(b: seq<Byte>)
    requires |b| >= 3
    ensures DecodeUnpadded(EncodeUnpadded(b)) == [b[0], b[1], b[2]] + DecodeUnpadded(EncodeUnpadded(b[3..]))
  {
    var g, rest := EncodeGroup(b[0], b[1], b[2]), EncodeUnpadded(b[3..]);
    assert EncodeUnpadded(b) == g + rest;
    DecodeFirstGroup(g, rest);
    GroupRoundTrip(b[0], b[1], b[2]);
  }

  lemma {:induction false} DecodeEncodeUnpadded(b: seq<Byte>)
    ensures DecodeUnpadded(EncodeUnpadded(b)) == b
    decreases |b|
  {
    if |b| < 3 {
      TailRoundTrip(b);
    } else {
      DecodeEncodeGroup(b);
      DecodeEncodeUnpadded(b[3..]);
      assert b == [b[0], b[1], b[2]] + b[3..];
    }
  }

  /** `atob(btoa(b)) == b` for every byte string. */
  lemma EncodeDecode(b: seq<Byte>)
    ensures Decode(Encode(b)) == Ok(b)
  {
    var u := EncodeUnpadded(b);
    var s := Encode(b);
    assert s == u + Padding(|b|);
    if |b| % 3 == 0 {
      assert Padding(|b|) == "";
      assert s == u;
      assert |s| > 0 ==> IsBase64Char(s[|s| - 1]);
    } else if |b| % 3 == 1 {
      assert Padding(|b|) == "==";
      assert s[..|s| - 2] == u;
    } else {
      assert Padding(|b|) == "=";
      assert s[|s| - 2] == u[|u| - 1];
      assert s[..|s| - 1] == u;
    }
    assert StripPadding(s) == u;
    DecodeEncodeUnpadded(b);
  }
}
