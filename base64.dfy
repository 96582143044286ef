/**
 * The base 64 encoding of section 4 of RFC 4648: the standard alphabet
 * (A-Z, a-z, 0-9, '+', '/') and '=' padding to a multiple of four characters.
 * This is the encoding `base64.b64encode` produces and `base64.b64decode`
 * reads back.
 */
module Base64 {
  import opened Wrappers
  import opened Bytes

  /** The value of one base 64 character. */
  type Sextet = x: int | 0 <= x < 64

  /** Why a text is not a base 64 encoding (Python raises `binascii.Error`). */
  datatype DecodeError = IncorrectPadding | InvalidCharacter

  const PAD: char := '='

  /** The character of value `v` in the alphabet of RFC 4648, section 4, Table 1. */
  function CharOf(v: Sextet): (c: char)
    ensures c != PAD
    ensures ValueOf(c) == Some(v)
  {
    if v < 26 then (65 + v) as char
    else if v < 52 then (97 + v - 26) as char
    else if v < 62 then (48 + v - 52) as char
    else if v == 62 then '+'
    else '/'
  }

  /** The value of an alphabet character, or None for any other character. */
  function ValueOf(c: char): (r: Option<Sextet>)
    ensures r.Some? ==> c != PAD
  {
    if 'A' <= c <= 'Z' then Some(c as int - 65)
    else if 'a' <= c <= 'z' then Some(c as int - 97 + 26)
    else if '0' <= c <= '9' then Some(c as int - 48 + 52)
    else if c == '+' then Some(62)
    else if c == '/' then Some(63)
    else None
  }

  /**
   * Splits octets into sextets: each group of three octets gives four
   * sextets; a final group of one or two octets gives two or three sextets,
   * the missing low bits being zero.
   */
  function ToSextets(b: seq<Byte>): (v: seq<Sextet>)
  {
    if |b| == 0 then []
    else if |b| == 1 then [b[0] / 4, (b[0] % 4) * 16]
    else if |b| == 2 then [b[0] / 4, (b[0] % 4) * 16 + b[1] / 16, (b[1] % 16) * 4]
    else [b[0] / 4, (b[0] % 4) * 16 + b[1] / 16, (b[1] % 16) * 4 + b[2] / 64, b[2] % 64] + ToSextets(b[3..])
  }

  /**
   * Joins sextets back into octets: four sextets give three octets; a final
   * group of two or three sextets gives one or two octets. The low bits of a
   * final group that do not fill an octet are dropped without being checked,
   * as CPython's decoder does.
   */
  function FromSextets(v: seq<Sextet>): (b: seq<Byte>)
    requires |v| % 4 != 1
  {
    if |v| == 0 then []
    else if |v| == 2 then [First(v[0], v[1])]
    else if |v| == 3 then [First(v[0], v[1]), Second(v[1], v[2])]
    else [First(v[0], v[1]), Second(v[1], v[2]), Third(v[2], v[3])] + FromSextets(v[4..])
  }

  /** The octet held by the six bits of `x` and the high two bits of `y`. */
  function First(x: Sextet, y: Sextet): Byte { (x as int) * 4 + (y as int) / 16 }

  /** The octet held by the low four bits of `x` and the high four bits of `y`. */
  function Second(x: Sextet, y: Sextet): Byte { ((x as int) % 16) * 16 + (y as int) / 4 }

  /** The octet held by the low two bits of `x` and the six bits of `y`. */
  function Third(x: Sextet, y: Sextet): Byte { ((x as int) % 4) * 64 + y as int }

  /** The characters for a sequence of sextets. */
  function Chars(v: seq<Sextet>): (s: string)
    ensures |s| == |v|
    ensures forall i :: 0 <= i < |s| ==> s[i] != PAD
  {
    if v == [] then [] else [CharOf(v[0])] + Chars(v[1..])
  }

  /** The last character of `Chars(v)` spells the last sextet. */
  lemma {:induction false} CharsLast(v: seq<Sextet>)
    requires v != []
    ensures Chars(v)[|v| - 1] == CharOf(v[|v| - 1])
  {
    if |v| > 1 {
      CharsLast(v[1..]);
      assert Chars(v)[|v| - 1] == Chars(v[1..])[|v| - 2];
    }
  }

  /** The sextets of a string of alphabet characters, or None if some character is not one. */
  function Values(s: string): (r: Option<seq<Sextet>>)
    ensures r.Some? ==> |r.value| == |s|
    ensures r.Some? <==> forall i :: 0 <= i < |s| ==> ValueOf(s[i]).Some?
  {
    if s == [] then Some([])
    else match ValueOf(s[0])
      case None => None
      case Some(x) =>
        match Values(s[1..])
        case None => None
        case Some(rest) => Some([x] + rest)
  }

  /** The padding that completes the last group of an encoding of `n` octets. */
  function Padding(n: nat): (p: string)
  {
    if n % 3 == 1 then [PAD, PAD] else if n % 3 == 2 then [PAD] else []
  }

  /**
   * `base64.b64encode`. Besides length and alphabet, the bits of the last
   * sextet that no octet fills are zero, which singles out this text among
   * those that decode to `b`.
   */
  function Encode(b: seq<Byte>): (s: string)
    ensures |s| == 4 * ((|b| + 2) / 3)
    ensures forall i :: 0 <= i < |s| ==> ValueOf(s[i]).Some? || s[i] == PAD
    ensures |b| % 3 == 1 ==>
      |s| >= 4 && s[|s| - 1] == PAD && s[|s| - 2] == PAD && ValueOf(s[|s| - 3]).Some? && ValueOf(s[|s| - 3]).value % 16 == 0
    ensures |b| % 3 == 2 ==>
      |s| >= 4 && s[|s| - 1] == PAD && ValueOf(s[|s| - 2]).Some? && ValueOf(s[|s| - 2]).value % 4 == 0
  {
    var v := ToSextets(b);
    var d := Chars(v);
    SextetCount(b);
    assert forall i :: 0 <= i < |d| ==> ValueOf(d[i]).Some? by {
      ValuesChars(v);
    }
    if |b| % 3 != 0 then
      LastSextet(b);
      CharsLast(v);
      assert ValueOf(d[|d| - 1]) == Some(v[|v| - 1]);
      d + Padding(|b|)
    else
      d + Padding(|b|)
  }

  /** The last sextet of an incomplete final group carries only zero fill bits. */
  lemma {:induction false} LastSextet(b: seq<Byte>)
    requires |b| % 3 != 0
    ensures |ToSextets(b)| >= 2
    ensures |b| % 3 == 1 ==> ToSextets(b)[|ToSextets(b)| - 1] % 16 == 0
    ensures |b| % 3 == 2 ==> ToSextets(b)[|ToSextets(b)| - 1] % 4 == 0
  {
    if |b| >= 3 {
      LastSextet(b[3..]);
      var head := ToSextets(b)[..4];
      assert ToSextets(b) == head + ToSextets(b[3..]);
    }
  }

  /** The number of padding characters a text of length a multiple of four ends with (at most two). */
  function TrailingPad(s: string): (k: nat)
    ensures k <= 2 && k <= |s|
  {
    if |s| >= 2 && s[|s| - 1] == PAD && s[|s| - 2] == PAD then 2
    else if |s| >= 1 && s[|s| - 1] == PAD then 1
    else 0
  }

  /**
   * `base64.b64decode`, on texts laid out as the RFC describes: the length is a
   * multiple of four, at most two '=' stand at the end and every other
   * character is in the alphabet.
   */
  function Decode(s: string): (r: Result<seq<Byte>, DecodeError>)
    ensures r == Failure(IncorrectPadding) <==> |s| % 4 != 0
    ensures r == Failure(InvalidCharacter) <==>
      |s| % 4 == 0 && exists i :: 0 <= i < |s| - TrailingPad(s) && ValueOf(s[i]).None?
  {
    if |s| % 4 != 0 then Failure(IncorrectPadding)
    else
      var d := s[..|s| - TrailingPad(s)];
      assert forall i :: 0 <= i < |d| ==> d[i] == s[i];
      match Values(d)
      case None => Failure(InvalidCharacter)
      case Some(v) =>
        assert |v| % 4 != 1 by {
          var q := |s| / 4;
          assert |s| == 4 * q;
        }
        Success(FromSextets(v))
  }

  lemma {:induction false} ValuesChars(v: seq<Sextet>)
    ensures Values(Chars(v)) == Some(v)
    ensures forall i :: 0 <= i < |v| ==> ValueOf(Chars(v)[i]).Some?
  {
    if v != [] {
      var s := Chars(v);
      ValuesChars(v[1..]);
      assert s[0] == CharOf(v[0]);
      assert s[1..] == Chars(v[1..]);
      assert ValueOf(s[0]) == Some(v[0]);
      assert Values(s) == Some([v[0]] + v[1..]);
      assert [v[0]] + v[1..] == v;
      forall i | 0 <= i < |v|
        ensures ValueOf(s[i]).Some?
      {
        if i > 0 {
          assert s[i] == Chars(v[1..])[i - 1];
        }
      }
    }
  }

  /** One full group: the three octets come back from their four sextets. */
  lemma GroupRoundTrip(b0: Byte, b1: Byte, b2: Byte)
    ensures First(b0 / 4, (b0 % 4) * 16 + b1 / 16) == b0
    ensures Second((b0 % 4) * 16 + b1 / 16, (b1 % 16) * 4 + b2 / 64) == b1
    ensures Third((b1 % 16) * 4 + b2 / 64, b2 % 64) == b2
  {
  }

  /** A full leading group of sextets decodes on its own. */
  lemma FromSextetsGroup(head: seq<Sextet>, rest: seq<Sextet>)
    requires |head| == 4 && |rest| % 4 != 1
    ensures FromSextets(head + rest) ==
      [First(head[0], head[1]), Second(head[1], head[2]), Third(head[2], head[3])] + FromSextets(rest)
  {
    var v := head + rest;
    assert v[..4] == head && v[4..] == rest;
  }

  lemma {:induction false} FromToSextets(b: seq<Byte>)
    ensures |ToSextets(b)| % 4 != 1 && FromSextets(ToSextets(b)) == b
  {
    SextetCount(b);
    if |b| == 1 {
      GroupRoundTrip(b[0], 0, 0);
    } else if |b| == 2 {
      GroupRoundTrip(b[0], b[1], 0);
    } else if |b| >= 3 {
      var head := [b[0] / 4, (b[0] % 4) * 16 + b[1] / 16, (b[1] % 16) * 4 + b[2] / 64, b[2] % 64];
      var rest := ToSextets(b[3..]);
      assert ToSextets(b) == head + rest;
      SextetCount(b[3..]);
      FromSextetsGroup(head, rest);
      FromToSextets(b[3..]);
      GroupRoundTrip(b[0], b[1], b[2]);
      assert b == [b[0], b[1], b[2]] + b[3..];
    }
  }

  /** The padding of an encoding is exactly what `TrailingPad` strips. */
  lemma TrailingPadEncode(b: seq<Byte>)
    ensures TrailingPad(Encode(b)) == |Padding(|b|)|
  {
    var d := Chars(ToSextets(b));
    var s := Encode(b);
    assert s == d + Padding(|b|);
    if |b| % 3 == 2 {
      assert s[|s| - 2] == d[|d| - 1];
    } else if |b| % 3 == 0 && |s| > 0 {
      assert s == d;
    }
  }

  /** An encoding never leaves a single sextet in its last group, and padding completes the group. */
  lemma {:induction false} SextetCount(b: seq<Byte>)
    ensures |ToSextets(b)| % 4 != 1
    ensures |ToSextets(b)| + |Padding(|b|)| == 4 * ((|b| + 2) / 3)
  {
    if |b| >= 3 {
      SextetCount(b[3..]);
      assert |ToSextets(b)| == 4 + |ToSextets(b[3..])|;
      assert Padding(|b|) == Padding(|b| - 3);
      assert (|b| + 2) / 3 == (|b| - 3 + 2) / 3 + 1;
    }
  }

  /** Decoding a text whose unpadded part spells the sextets `v`. */
  lemma DecodeChars(s: string, v: seq<Sextet>)
    requires |s| % 4 == 0 && |v| % 4 != 1
    requires s[..|s| - TrailingPad(s)] == Chars(v)
    ensures Decode(s) == Success(FromSextets(v))
  {
    ValuesChars(v);
  }

  /** Round trip: decoding what `Encode` produced gives back the octets. */
  lemma DecodeEncode(b: seq<Byte>)
    ensures Decode(Encode(b)) == Success(b)
  {
    var v := ToSextets(b);
    var s := Encode(b);
    SextetCount(b);
    TrailingPadEncode(b);
    assert s == Chars(v) + Padding(|b|);
    assert s[..|s| - TrailingPad(s)] == Chars(v);
    DecodeChars(s, v);
    FromToSextets(b);
  }
}
