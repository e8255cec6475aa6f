/**
 * The URL- and filename-safe base64 alphabet of section 5 of RFC 4648, as the
 * `encodeURLSafe` function of `@stablelib/base64` applies it: each group of three
 * bytes becomes four characters, a final group of one or two bytes becomes two or
 * three characters. Whether the final group is filled up with `=` is the
 * library's decision, so it is the parameter `pad` here and every property below
 * holds for both choices.
 */
module Base64Url {
  import opened Wrappers
  import opened Utf8
  import Positional

  /** The 64 characters of the URL-safe alphabet. */
  predicate IsUrlSafe(c: char) {
    ('A' <= c <= 'Z') || ('a' <= c <= 'z') || ('0' <= c <= '9') || c == '-' || c == '_'
  }

  /** The character of six-bit value `v`. */
  function SextetChar(v: int): (c: char)
    requires 0 <= v < 64
    ensures IsUrlSafe(c)
  {
    if v < 26 then ('A' as int + v) as char
    else if v < 52 then ('a' as int + v - 26) as char
    else if v < 62 then ('0' as int + v - 52) as char
    else if v == 62 then '-'
    else '_'
  }

  /** The six-bit value of an alphabet character, `None` for any other character. */
  function CharSextet(c: char): (r: Option<int>)
    ensures r.Some? <==> IsUrlSafe(c)
    ensures r.Some? ==> 0 <= r.value < 64 && SextetChar(r.value) == c
  {
    if 'A' <= c <= 'Z' then Some(c as int - 'A' as int)
    else if 'a' <= c <= 'z' then Some(c as int - 'a' as int + 26)
    else if '0' <= c <= '9' then Some(c as int - '0' as int + 52)
    else if c == '-' then Some(62)
    else if c == '_' then Some(63)
    else None
  }

  /** Characters an encoding may contain: the alphabet and the padding character. */
  predicate IsEncodingChar(c: char) {
    IsUrlSafe(c) || c == '='
  }

  /** Three bytes as four characters: the 24 bits cut into four six-bit values. */
  function Group3(b0: byte, b1: byte, b2: byte): (s: string)
    ensures |s| == 4 && forall i :: 0 <= i < 4 ==> IsUrlSafe(s[i])
  {
    [SextetChar(b0 / 4), SextetChar((b0 % 4) * 16 + b1 / 16),
     SextetChar((b1 % 16) * 4 + b2 / 64), SextetChar(b2 % 64)]
  }

  /** Two final bytes as three characters, the missing low bits zero. */
  function Group2(b0: byte, b1: byte): (s: string)
    ensures |s| == 3 && forall i :: 0 <= i < 3 ==> IsUrlSafe(s[i])
  {
    [SextetChar(b0 / 4), SextetChar((b0 % 4) * 16 + b1 / 16), SextetChar((b1 % 16) * 4)]
  }

  /** One final byte as two characters, the missing low bits zero. */
  function Group1(b0: byte): (s: string)
    ensures |s| == 2 && forall i :: 0 <= i < 2 ==> IsUrlSafe(s[i])
  {
    [SextetChar(b0 / 4), SextetChar((b0 % 4) * 16)]
  }

  /** `encodeURLSafe`. */
  function Encode(data: seq<byte>, pad: bool): (s: string)
    ensures forall i :: 0 <= i < |s| ==> IsEncodingChar(s[i])
  {
    if |data| >= 3 then Group3(data[0], data[1], data[2]) + Encode(data[3..], pad)
    else if |data| == 2 then Group2(data[0], data[1]) + (if pad then "=" else "")
    else if |data| == 1 then Group1(data[0]) + (if pad then "==" else "")
    else ""
  }

  /** Four characters per three bytes; a short final group takes one character more than its bytes. */
  lemma {:induction false} EncodeLength(data: seq<byte>, pad: bool)
    ensures |Encode(data, pad)| == if pad then 4 * ((|data| + 2) / 3) else (4 * |data| + 2) / 3
    decreases |data|
  {
    var n := |data|;
    if n >= 3 {
      EncodeLength(data[3..], pad);
      assert |Encode(data, pad)| == 4 + |Encode(data[3..], pad)|;
      LengthStep(n);
    }
  }

  lemma LengthStep(n: int)
    requires n >= 3
    ensures 4 * ((n + 2) / 3) == 4 + 4 * ((n - 3 + 2) / 3)
    ensures (4 * n + 2) / 3 == 4 + (4 * (n - 3) + 2) / 3
  {
  }

  /** Four alphabet characters back to three bytes. */
  function DecodeQuad(q: string): Option<seq<byte>>
    requires |q| == 4
  {
    match (CharSextet(q[0]), CharSextet(q[1]), CharSextet(q[2]), CharSextet(q[3]))
    case (Some(s0), Some(s1), Some(s2), Some(s3)) =>
      Some([s0 * 4 + s1 / 16, (s1 % 16) * 16 + s2 / 4, (s2 % 4) * 64 + s3])
    case _ => None
  }

  /** A final group of two or three characters back to one or two bytes. */
  function DecodeTail(t: string): Option<seq<byte>>
  {
    if |t| == 2 then
      match (CharSextet(t[0]), CharSextet(t[1]))
      case (Some(s0), Some(s1)) => Some([s0 * 4 + s1 / 16])
      case _ => None
    else if |t| == 3 then
      match (CharSextet(t[0]), CharSextet(t[1]), CharSextet(t[2]))
      case (Some(s0), Some(s1), Some(s2)) => Some([s0 * 4 + s1 / 16, (s1 % 16) * 16 + s2 / 4])
      case _ => None
    else None
  }

  /** The inverse of `Encode`, padded or not; `None` on anything that is not an encoding. */
  function Decode(s: string): Option<seq<byte>>
    decreases |s|
  {
    if |s| == 0 then Some([])
    else if |s| == 4 && s[2] == '=' && s[3] == '=' then DecodeTail(s[..2])
    else if |s| == 4 && s[3] == '=' then DecodeTail(s[..3])
    else if |s| >= 4 then
      match (DecodeQuad(s[..4]), Decode(s[4..]))
      case (Some(h), Some(t)) => Some(h + t)
      case _ => None
    else DecodeTail(s)
  }

  lemma SextetRoundTrip(v: int)
    requires 0 <= v < 64
    ensures CharSextet(SextetChar(v)) == Some(v)
  {
  }

  /** The six-bit values of a full group put back together give its three bytes. */
  lemma Sextets3(b0: byte, b1: byte, b2: byte)
    ensures var s0, s1, s2, s3 := b0 / 4, (b0 % 4) * 16 + b1 / 16, (b1 % 16) * 4 + b2 / 64, b2 % 64;
      && 0 <= s0 < 64 && 0 <= s1 < 64 && 0 <= s2 < 64 && 0 <= s3 < 64
      && s0 * 4 + s1 / 16 == b0 && (s1 % 16) * 16 + s2 / 4 == b1 && (s2 % 4) * 64 + s3 == b2
  {
    Positional.DivModUnique(b0 % 4, b1 / 16, 16);
    Positional.DivModUnique(b1 % 16, b2 / 64, 4);
  }

  lemma Sextets2(b0: byte, b1: byte)
    ensures var s0, s1, s2 := b0 / 4, (b0 % 4) * 16 + b1 / 16, (b1 % 16) * 4;
      && 0 <= s0 < 64 && 0 <= s1 < 64 && 0 <= s2 < 64
      && s0 * 4 + s1 / 16 == b0 && (s1 % 16) * 16 + s2 / 4 == b1
  {
    Positional.DivModUnique(b0 % 4, b1 / 16, 16);
    Positional.DivModUnique(b1 % 16, 0, 4);
  }

  lemma QuadRoundTrip(b0: byte, b1: byte, b2: byte)
    ensures DecodeQuad(Group3(b0, b1, b2)) == Some([b0, b1, b2])
  {
    var s0, s1, s2, s3 := b0 / 4, (b0 % 4) * 16 + b1 / 16, (b1 % 16) * 4 + b2 / 64, b2 % 64;
    Sextets3(b0, b1, b2);
    SextetRoundTrip(s0);
    SextetRoundTrip(s1);
    SextetRoundTrip(s2);
    SextetRoundTrip(s3);
  }

  lemma PairRoundTrip(b0: byte, b1: byte)
    ensures DecodeTail(Group2(b0, b1)) == Some([b0, b1])
  {
    var s0, s1, s2 := b0 / 4, (b0 % 4) * 16 + b1 / 16, (b1 % 16) * 4;
    Sextets2(b0, b1);
    SextetRoundTrip(s0);
    SextetRoundTrip(s1);
    SextetRoundTrip(s2);
  }

  lemma SingleRoundTrip(b0: byte)
    ensures DecodeTail(Group1(b0)) == Some([b0])
  {
    var s0, s1 := b0 / 4, (b0 % 4) * 16;
    Positional.DivModUnique(b0 % 4, 0, 16);
    SextetRoundTrip(s0);
    SextetRoundTrip(s1);
  }

  /** Decoding undoes encoding, with or without padding. */
  lemma {:induction false} DecodeEncode(data: seq<byte>, pad: bool)
    ensures Decode(Encode(data, pad)) == Some(data)
    decreases |data|
  {
    if |data| >= 3 {
      DecodeEncode(data[3..], pad);
      DecodeGroup3(data, pad);
    } else if |data| == 2 {
      DecodeGroup2(data, pad);
    } else if |data| == 1 {
      DecodeGroup1(data, pad);
    }
  }

  lemma DecodeGroup3(data: seq<byte>, pad: bool)
    requires |data| >= 3
    requires Decode(Encode(data[3..], pad)) == Some(data[3..])
    ensures Decode(Encode(data, pad)) == Some(data)
  {
    var g := Group3(data[0], data[1], data[2]);
    QuadRoundTrip(data[0], data[1], data[2]);
    DecodeQuadThen(Encode(data, pad), g, Encode(data[3..], pad), [data[0], data[1], data[2]], data[3..]);
    FirstThree(data);
  }

  /** Kept apart from `Encode`, whose unfolding makes this step expensive inline. */
  lemma FirstThree<T>(d: seq<T>)
    requires |d| >= 3
    ensures d == [d[0], d[1], d[2]] + d[3..]
  {
    assert d == [d[0], d[1], d[2]] + d[3..];
  }

  /** `Decode` on a full group of alphabet characters followed by more. */
  lemma DecodeQuadThen(s: string, g: string, t: string, h: seq<byte>, r: seq<byte>)
    requires s == g + t && |g| == 4 && forall i :: 0 <= i < 4 ==> IsUrlSafe(g[i])
    requires DecodeQuad(g) == Some(h) && Decode(t) == Some(r)
    ensures Decode(s) == Some(h + r)
  {
    assert s[..4] == g && s[4..] == t;
    assert s[3] != '=';
  }

  lemma DecodeGroup2(data: seq<byte>, pad: bool)
    requires |data| == 2
    ensures Decode(Encode(data, pad)) == Some(data)
  {
    var s := Encode(data, pad);
    var g := Group2(data[0], data[1]);
    PairRoundTrip(data[0], data[1]);
    assert data == [data[0], data[1]];
    if pad { assert s[..3] == g; } else { assert s == g; }
  }

  lemma DecodeGroup1(data: seq<byte>, pad: bool)
    requires |data| == 1
    ensures Decode(Encode(data, pad)) == Some(data)
  {
    var s := Encode(data, pad);
    var g := Group1(data[0]);
    SingleRoundTrip(data[0]);
    assert data == [data[0]];
    if pad { assert s[..2] == g; } else { assert s == g; }
  }

  /** Encoding is injective: distinct byte sequences never share an encoding. */
  lemma EncodeInjective(a: seq<byte>, b: seq<byte>, pad: bool)
    ensures Encode(a, pad) == Encode(b, pad) <==> a == b
  {
    if Encode(a, pad) == Encode(b, pad) {
      DecodeEncode(a, pad);
      DecodeEncode(b, pad);
    }
  }
}
