/**
 * base58btc as the `bs58` package encodes it: every leading zero byte becomes a
 * leading '1', and the remaining bytes, read as one big-endian number, are written
 * in base 58 with the alphabet
 *   123456789ABCDEFGHJKLMNPQRSTUVWXYZabcdefghijkmnopqrstuvwxyz
 * (digits, upper and lower case letters without 0, O, I and l).
 */
module Base58 {
  import opened Wrappers
  import opened Utf8
  import Positional

  /** The character of base-58 digit `d`. */
  function DigitChar(d: int): (c: char)
    requires 0 <= d < 58
    ensures (c == '1') == (d == 0)
  {
    if d < 9 then ('1' as int + d) as char
    else if d < 17 then ('A' as int + d - 9) as char
    else if d < 22 then ('J' as int + d - 17) as char
    else if d < 33 then ('P' as int + d - 22) as char
    else if d < 44 then ('a' as int + d - 33) as char
    else ('m' as int + d - 44) as char
  }

  /** The digit a character denotes, or `None` when it is not in the alphabet. */
  function CharDigit(c: char): (r: Option<int>)
    ensures r.Some? ==> 0 <= r.value < 58 && DigitChar(r.value) == c
  {
    if '1' <= c <= '9' then Some(c as int - '1' as int)
    else if 'A' <= c <= 'H' then Some(c as int - 'A' as int + 9)
    else if 'J' <= c <= 'N' then Some(c as int - 'J' as int + 17)
    else if 'P' <= c <= 'Z' then Some(c as int - 'P' as int + 22)
    else if 'a' <= c <= 'k' then Some(c as int - 'a' as int + 33)
    else if 'm' <= c <= 'z' then Some(c as int - 'm' as int + 44)
    else None
  }

  lemma CharDigitOfDigitChar(d: int)
    requires 0 <= d < 58
    ensures CharDigit(DigitChar(d)) == Some(d)
  {
  }

  /** The number of leading zero bytes. */
  function LeadingZeros(b: seq<byte>): (k: nat)
    ensures k <= |b|
    ensures forall i :: 0 <= i < k ==> b[i] == 0
    ensures k < |b| ==> b[k] != 0
  {
    if b == [] || b[0] != 0 then 0 else 1 + LeadingZeros(b[1..])
  }

  /** The number of leading '1' characters. */
  function LeadingOnes(s: string): (k: nat)
    ensures k <= |s|
    ensures forall i :: 0 <= i < k ==> s[i] == '1'
    ensures k < |s| ==> s[k] != '1'
  {
    if s == [] || s[0] != '1' then 0 else 1 + LeadingOnes(s[1..])
  }

  function DigitsToChars(ds: seq<int>): (s: string)
    requires Positional.IsDigits(ds, 58)
    ensures |s| == |ds|
    ensures forall i :: 0 <= i < |ds| ==> s[i] == DigitChar(ds[i])
    ensures forall i :: 0 <= i < |ds| ==> CharDigit(s[i]) == Some(ds[i])
  {
    if ds == [] then [] else
      CharDigitOfDigitChar(ds[0]);
      [DigitChar(ds[0])] + DigitsToChars(ds[1..])
  }

  function CharsToDigits(s: string): (r: Option<seq<int>>)
    ensures r.Some? ==> Positional.IsDigits(r.value, 58) && |r.value| == |s|
  {
    if s == [] then Some([])
    else match (CharDigit(s[0]), CharsToDigits(s[1..]))
      case (Some(d), Some(ds)) => Some([d] + ds)
      case _ => None
  }

  /** `bs58.encode`. */
  function Encode(b: seq<byte>): (s: string)
    ensures forall i :: 0 <= i < |s| ==> CharDigit(s[i]).Some?
    ensures LeadingOnes(s) >= LeadingZeros(b)
  {
    var z := LeadingZeros(b);
    var n := Positional.Value(b[z..], 256);
    seq(z, _ => '1') + DigitsToChars(Positional.Digits(n, 58))
  }

  /** `bs58.decode`, `None` on a character outside the alphabet. */
  function Decode(s: string): Option<seq<byte>>
  {
    var z := LeadingOnes(s);
    match CharsToDigits(s[z..])
    case None => None
    case Some(ds) =>
      var bytes := Positional.Digits(Positional.Value(ds, 58), 256);
      Some(seq(z, _ => 0) + bytes)
  }

  lemma {:induction false} CharsOfDigits(ds: seq<int>)
    requires Positional.IsDigits(ds, 58)
    ensures CharsToDigits(DigitsToChars(ds)) == Some(ds)
  {
    if ds != [] {
      CharDigitOfDigitChar(ds[0]);
      assert DigitsToChars(ds)[1..] == DigitsToChars(ds[1..]);
      CharsOfDigits(ds[1..]);
      assert [ds[0]] + ds[1..] == ds;
    }
  }

  /** Decoding undoes encoding, for every byte sequence. */
  lemma DecodeEncode(b: seq<byte>)
    ensures Decode(Encode(b)) == Some(b)
  {
    var z := LeadingZeros(b);
    var n := Positional.Value(b[z..], 256);
    var ds := Positional.Digits(n, 58);
    var s := Encode(b);
    assert LeadingOnes(s) == z && s[z..] == DigitsToChars(ds) by {
      OnesThenDigits(z, ds);
    }
    assert CharsToDigits(s[z..]) == Some(ds) by {
      CharsOfDigits(ds);
    }
    assert Positional.Digits(Positional.Value(ds, 58), 256) == b[z..] by {
      Positional.ValueOfDigits(n, 58);
      Positional.DigitsOfValue(b[z..], 256);
    }
    DecodeShape(s, z, ds, b[z..]);
    ZerosThenRest(b, z);
  }

  /** `Decode` once the leading '1's and the digits are known. */
  lemma DecodeShape(s: string, z: nat, ds: seq<int>, bytes: seq<byte>)
    requires z == LeadingOnes(s) && CharsToDigits(s[z..]) == Some(ds)
    requires Positional.Digits(Positional.Value(ds, 58), 256) == bytes
    ensures Decode(s) == Some(seq(z, _ => 0) + bytes)
  {
  }

  lemma ZerosThenRest(b: seq<byte>, z: nat)
    requires z == LeadingZeros(b)
    ensures seq(z, _ => 0) + b[z..] == b
  {
  }

  lemma OnesThenDigits(z: nat, ds: seq<int>)
    requires Positional.IsDigits(ds, 58) && (ds == [] || ds[0] != 0)
    ensures LeadingOnes(seq(z, _ => '1') + DigitsToChars(ds)) == z
    ensures (seq(z, _ => '1') + DigitsToChars(ds))[z..] == DigitsToChars(ds)
  {
    var s := seq(z, _ => '1') + DigitsToChars(ds);
    if ds != [] {
      assert s[z] == DigitChar(ds[0]);
    }
    LeadingOnesExact(s, z);
  }

  lemma {:induction false} LeadingOnesExact(s: string, z: nat)
    requires z <= |s|
    requires forall i :: 0 <= i < z ==> s[i] == '1'
    requires z < |s| ==> s[z] != '1'
    ensures LeadingOnes(s) == z
  {
    if z > 0 {
      LeadingOnesExact(s[1..], z - 1);
    }
  }

  /** Encoding is injective: distinct byte sequences never share an encoding. */
  lemma EncodeInjective(a: seq<byte>, b: seq<byte>)
    ensures Encode(a) == Encode(b) <==> a == b
  {
    if Encode(a) == Encode(b) {
      DecodeEncode(a);
      DecodeEncode(b);
    }
  }
}
