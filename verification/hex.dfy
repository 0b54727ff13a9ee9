/** Lowercase hexadecimal rendering of a MAC digest: every Kotlin `Byte`
    (signed) is formatted with `"%02x"`, which prints the byte's two's-
    complement bit pattern as exactly two lowercase digits, and the pieces
    are joined with no separator. */
module Hex {
  import opened Types

  type nibble = x: int | 0 <= x < 16

  predicate IsLowerHexDigit(c: char) { '0' <= c <= '9' || 'a' <= c <= 'f' }

  function Digit(x: nibble): (c: char)
    ensures IsLowerHexDigit(c)
  {
    if x < 10 then ('0' as int + x) as char else ('a' as int + (x - 10)) as char
  }

  function DigitValue(c: char): (r: Option<nibble>)
    ensures r.Some? <==> IsLowerHexDigit(c)
  {
    if '0' <= c <= '9' then Some(c as int - '0' as int)
    else if 'a' <= c <= 'f' then Some(c as int - 'a' as int + 10)
    else None
  }

  /** `"%02x".format(b)` for a Kotlin `Byte`. */
  function FormatByte(b: int8): (s: string)
    ensures |s| == 2 && IsLowerHexDigit(s[0]) && IsLowerHexDigit(s[1])
  {
    var u := ToUnsigned(b);
    [Digit(u / 16), Digit(u % 16)]
  }

  /** `joinToString("") { "%02x".format(it) }`. */
  function Encode(bs: seq<int8>): (s: string)
    ensures |s| == 2 * |bs|
  {
    if bs == [] then [] else FormatByte(bs[0]) + Encode(bs[1..])
  }

  /** Reads two hex digits back into the signed byte with that bit pattern. */
  function ParseByte(s: string): (r: Option<int8>)
    requires |s| == 2
  {
    match (DigitValue(s[0]), DigitValue(s[1]))
    case (Some(h), Some(l)) =>
      var u := h as int * 16 + l;
      Some(if u < 128 then u else u - 256)
    case _ => None
  }

  function Decode(s: string): (r: Option<seq<int8>>)
    decreases |s|
  {
    if s == [] then Some([])
    else if |s| < 2 then None
    else
      match (ParseByte(s[..2]), Decode(s[2..]))
      case (Some(b), Some(rest)) => Some([b] + rest)
      case _ => None
  }

  lemma FormatByteRoundTrip(b: int8)
    ensures ParseByte(FormatByte(b)) == Some(b)
  {
    var u := ToUnsigned(b);
    assert DigitValue(Digit(u / 16)) == Some(u / 16);
    assert DigitValue(Digit(u % 16)) == Some(u % 16);
  }

  /** Every byte, taken as unsigned, becomes its two digits: the high nibble
      first, then the low one. */
  lemma {:induction false} EncodeDigits(bs: seq<int8>)
    ensures forall i :: 0 <= i < |bs| ==>
      DigitValue(Encode(bs)[2 * i]) == Some(ToUnsigned(bs[i]) / 16) &&
      DigitValue(Encode(bs)[2 * i + 1]) == Some(ToUnsigned(bs[i]) % 16)
  {
    if bs != [] {
      EncodeDigits(bs[1..]);
      var u := ToUnsigned(bs[0]);
      assert DigitValue(Digit(u / 16)) == Some(u / 16);
      assert DigitValue(Digit(u % 16)) == Some(u % 16);
      forall i | 1 <= i < |bs|
        ensures Encode(bs)[2 * i] == Encode(bs[1..])[2 * (i - 1)]
        ensures Encode(bs)[2 * i + 1] == Encode(bs[1..])[2 * (i - 1) + 1]
      {
      }
    }
  }

  /** Only lowercase hex digits appear in the output. */
  lemma {:induction false} EncodeLowercase(bs: seq<int8>)
    ensures forall i :: 0 <= i < |Encode(bs)| ==> IsLowerHexDigit(Encode(bs)[i])
  {
    if bs != [] {
      EncodeLowercase(bs[1..]);
      forall i | 0 <= i < |Encode(bs)| ensures IsLowerHexDigit(Encode(bs)[i]) {
        if i >= 2 {
          assert Encode(bs)[i] == Encode(bs[1..])[i - 2];
        }
      }
    }
  }

  lemma {:induction false} RoundTrip(bs: seq<int8>)
    ensures Decode(Encode(bs)) == Some(bs)
  {
    if bs != [] {
      var s := Encode(bs);
      assert s[..2] == FormatByte(bs[0]);
      assert s[2..] == Encode(bs[1..]);
      FormatByteRoundTrip(bs[0]);
      RoundTrip(bs[1..]);
      assert [bs[0]] + bs[1..] == bs;
    }
  }

  /** Distinct digests give distinct signatures. */
  lemma EncodeInjective(a: seq<int8>, b: seq<int8>)
    requires Encode(a) == Encode(b)
    ensures a == b
  {
    RoundTrip(a);
    RoundTrip(b);
  }
}
