/** Upper-case base16 encoding (section 8 of RFC 4648), which turns a digest into the string files are grouped by. */
module Hex {
  import opened Io

  /** The base16 alphabet, upper-case. */
  const Digits: string := "0123456789ABCDEF"

  /** Two digits per byte, high nibble first. */
  function HexUpper(bytes: seq<Byte>): (s: string)
    ensures |s| == 2 * |bytes|
    ensures forall i :: 0 <= i < |s| ==> s[i] in Digits
  {
    if bytes == [] then []
    else [Digits[bytes[0] as int / 16], Digits[bytes[0] as int % 16]] + HexUpper(bytes[1..])
  }

  /** The value of one upper-case base16 digit; lower-case letters are not digits. */
  function DigitValue(c: char): (v: Option<int>)
    ensures v.Some? ==> 0 <= v.value < 16 && Digits[v.value] == c
  {
    if '0' <= c <= '9' then Some(c as int - '0' as int)
    else if 'A' <= c <= 'F' then Some(c as int - 'A' as int + 10)
    else None
  }

  /** The inverse of HexUpper: `None` on an odd length or a character outside the alphabet. */
  function HexDecode(s: string): (r: Option<seq<Byte>>)
    ensures r.Some? ==> |s| == 2 * |r.value|
  {
    if |s| == 0 then Some([])
    else if |s| == 1 then None
    else
      match (DigitValue(s[0]), DigitValue(s[1]), HexDecode(s[2..]))
      case (Some(hi), Some(lo), Some(rest)) => Some([(hi * 16 + lo) as Byte] + rest)
      case _ => None
  }

  lemma DigitValueOfDigit(k: int)
    requires 0 <= k < 16
    ensures DigitValue(Digits[k]) == Some(k)
  {
  }

  /** Decoding an encoded digest gives back its bytes. */
  lemma {:induction false} DecodeEncode(bytes: seq<Byte>)
    ensures HexDecode(HexUpper(bytes)) == Some(bytes)
  {
    if bytes != [] {
      var b, tail := bytes[0], bytes[1..];
      DecodeEncode(tail);
      var hi, lo := NibbleSplit(b);
      assert HexUpper(bytes) == [Digits[hi], Digits[lo]] + HexUpper(tail);
      DecodePair(hi, lo, HexUpper(tail), tail);
      assert [(hi * 16 + lo) as Byte] + tail == bytes;
    }
  }

  /** A byte is its high nibble times 16 plus its low nibble. */
  lemma NibbleSplit(b: Byte) returns (hi: int, lo: int)
    ensures hi == b as int / 16 && lo == b as int % 16
    ensures 0 <= hi < 16 && 0 <= lo < 16 && (hi * 16 + lo) as Byte == b
  {
    hi, lo := b as int / 16, b as int % 16;
  }

  lemma DecodePair(hi: int, lo: int, t: string, tail: seq<Byte>)
    requires 0 <= hi < 16 && 0 <= lo < 16
    requires HexDecode(t) == Some(tail)
    ensures HexDecode([Digits[hi], Digits[lo]] + t) == Some([(hi * 16 + lo) as Byte] + tail)
  {
    var s := [Digits[hi], Digits[lo]] + t;
    DigitValueOfDigit(hi);
    DigitValueOfDigit(lo);
    assert s[0] == Digits[hi] && s[1] == Digits[lo] && s[2..] == t;
  }

  /** Distinct digests encode as distinct key strings. */
  lemma HexUpperInjective(a: seq<Byte>, b: seq<Byte>)
    requires HexUpper(a) == HexUpper(b)
    ensures a == b
  {
    DecodeEncode(a);
    DecodeEncode(b);
  }
}
