/**
 * Hexadecimal text of octets: `binascii.hexlify` (two lowercase digits per
 * octet, high nibble first) and its inverse `binascii.unhexlify`.
 */
module Hex {
  import opened Wrappers
  import opened Bytes

  predicate IsLowerHexDigit(c: char) {
    '0' <= c <= '9' || 'a' <= c <= 'f'
  }

  /** The lowercase digit of a nibble. */
  function Digit(v: int): (c: char)
    requires 0 <= v < 16
    ensures IsLowerHexDigit(c)
    ensures DigitValue(c) == Some(v)
  {
    if v < 10 then (48 + v) as char else (97 + v - 10) as char
  }

  /** The value of a hexadecimal digit of either case, as `unhexlify` reads it. */
  function DigitValue(c: char): (r: Option<int>)
    ensures r.Some? ==> 0 <= r.value < 16
  {
    if '0' <= c <= '9' then Some(c as int - 48)
    else if 'a' <= c <= 'f' then Some(c as int - 97 + 10)
    else if 'A' <= c <= 'F' then Some(c as int - 65 + 10)
    else None
  }

  /** `hexlify(b).decode('utf8')`. */
  function Encode(b: seq<Byte>): (s: string)
    ensures |s| == 2 * |b|
    ensures forall i :: 0 <= i < |s| ==> IsLowerHexDigit(s[i])
  {
    if b == [] then [] else [Digit(b[0] / 16), Digit(b[0] % 16)] + Encode(b[1..])
  }

  /** `unhexlify`: None for a text of odd length or with a non-hexadecimal character. */
  function Decode(s: string): (r: Option<seq<Byte>>)
    ensures r.Some? ==> 2 * |r.value| == |s|
  {
    if s == [] then Some([])
    else if |s| == 1 then None
    else match (DigitValue(s[0]), DigitValue(s[1]), Decode(s[2..]))
      case (Some(hi), Some(lo), Some(rest)) => Some([hi * 16 + lo] + rest)
      case _ => None
  }

  /** Round trip: `unhexlify(hexlify(b)) == b`. */
  lemma {:induction false} DecodeEncode(b: seq<Byte>)
    ensures Decode(Encode(b)) == Some(b)
  {
    if b != [] {
      var s := Encode(b);
      DecodeEncode(b[1..]);
      assert s[2..] == Encode(b[1..]);
      assert DigitValue(s[0]) == Some(b[0] / 16);
      assert DigitValue(s[1]) == Some(b[0] % 16);
      assert [b[0]] + b[1..] == b;
    }
  }
}
