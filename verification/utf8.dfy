/** UTF-8 encoding of text, as done by Kotlin's `String.toByteArray()`
    (whose charset parameter defaults to UTF-8), with a strict decoder as
    its inverse. A Dafny `char` is a Unicode scalar value, so every
    character encodes to one to four octets. */
module Utf8 {
  import opened Types

  predicate IsContinuation(b: uint8) { 0x80 <= b < 0xC0 }

  /** The octets of one scalar value. */
  function EncodeChar(c: char): (bs: seq<uint8>)
    ensures 1 <= |bs| <= 4
    ensures (c as int < 0x80) <==> |bs| == 1
    ensures |bs| == 1 ==> bs[0] == c as int
    ensures forall i :: 1 <= i < |bs| ==> IsContinuation(bs[i])
  {
    var cp := c as int;
    if cp < 0x80 then [cp]
    else if cp < 0x800 then [0xC0 + cp / 64, 0x80 + cp % 64]
    else if cp < 0x1_0000 then [0xE0 + cp / 4096, 0x80 + (cp / 64) % 64, 0x80 + cp % 64]
    else [0xF0 + cp / 262144, 0x80 + (cp / 4096) % 64, 0x80 + (cp / 64) % 64, 0x80 + cp % 64]
  }

  function Encode(s: string): (bs: seq<uint8>)
    ensures |s| <= |bs| <= 4 * |s|
  {
    if s == [] then [] else EncodeChar(s[0]) + Encode(s[1..])
  }

  /** Number of octets announced by a lead octet, or 0 if it cannot start a character. */
  function SequenceLength(b: uint8): nat
  {
    if b < 0x80 then 1
    else if 0xC2 <= b < 0xE0 then 2
    else if 0xE0 <= b < 0xF0 then 3
    else if 0xF0 <= b < 0xF5 then 4
    else 0
  }

  /** A value that is a Unicode scalar value (and hence a Dafny char). */
  predicate IsScalar(v: int) { 0 <= v < 0xD800 || 0xE000 <= v < 0x11_0000 }

  /** The six payload bits of continuation octet `i` of an `n`-octet sequence (0 past its end). */
  function Low6(bs: seq<uint8>, i: nat, n: nat): int
    requires n <= |bs|
  {
    if i < n then bs[i] as int - 0x80 else 0
  }

  /** Decodes the first character of `bs`, rejecting overlong forms,
      surrogates and values beyond U+10FFFF. */
  function DecodeChar(bs: seq<uint8>): (r: Option<(char, nat)>)
    ensures r.Some? ==> 1 <= r.value.1 <= |bs| && r.value.1 <= 4
  {
    if bs == [] then None
    else
      var n := SequenceLength(bs[0]);
      if n == 0 || |bs| < n then None
      else if exists i :: 1 <= i < n && !IsContinuation(bs[i]) then None
      else
        var b0, b1, b2, b3 := bs[0] as int, Low6(bs, 1, n), Low6(bs, 2, n), Low6(bs, 3, n);
        var v: int :=
          if n == 1 then b0
          else if n == 2 then (b0 - 0xC0) * 64 + b1
          else if n == 3 then (b0 - 0xE0) * 4096 + b1 * 64 + b2
          else (b0 - 0xF0) * 262144 + b1 * 4096 + b2 * 64 + b3;
        var minimum: int := if n == 1 then 0 else if n == 2 then 0x80 else if n == 3 then 0x800 else 0x1_0000;
        if v < minimum || !IsScalar(v) then None
        else Some((v as char, n))
  }

  function Decode(bs: seq<uint8>): (r: Option<string>)
    decreases |bs|
  {
    if bs == [] then Some([])
    else
      match DecodeChar(bs)
      case None => None
      case Some((c, n)) =>
        match Decode(bs[n..])
        case None => None
        case Some(rest) => Some([c] + rest)
  }

  lemma Split64(x: int)
    requires 0 <= x
    ensures (x / 64) * 64 + x % 64 == x
    ensures (x / 4096) * 64 + (x / 64) % 64 == x / 64
    ensures (x / 262144) * 64 + (x / 4096) % 64 == x / 4096
  {
  }

  lemma DecodeTwo(c: char, bs: seq<uint8>)
    requires 0x80 <= c as int < 0x800
    requires |bs| >= 2 && bs[..2] == EncodeChar(c)
    ensures DecodeChar(bs) == Some((c, 2))
  {
    var cp := c as int;
    Split64(cp);
    assert bs[0] == 0xC0 + cp / 64 && bs[1] == 0x80 + cp % 64;
    assert SequenceLength(bs[0]) == 2;
    assert Low6(bs, 1, 2) == cp % 64;
  }

  lemma DecodeThree(c: char, bs: seq<uint8>)
    requires 0x800 <= c as int < 0x1_0000
    requires |bs| >= 3 && bs[..3] == EncodeChar(c)
    ensures DecodeChar(bs) == Some((c, 3))
  {
    var cp := c as int;
    Split64(cp);
    assert bs[0] == 0xE0 + cp / 4096 && bs[1] == 0x80 + (cp / 64) % 64 && bs[2] == 0x80 + cp % 64;
    assert SequenceLength(bs[0]) == 3;
    assert Low6(bs, 1, 3) == (cp / 64) % 64 && Low6(bs, 2, 3) == cp % 64;
  }

  lemma DecodeFour(c: char, bs: seq<uint8>)
    requires 0x1_0000 <= c as int
    requires |bs| >= 4 && bs[..4] == EncodeChar(c)
    ensures DecodeChar(bs) == Some((c, 4))
  {
    var cp := c as int;
    Split64(cp);
    assert bs[0] == 0xF0 + cp / 262144 && bs[1] == 0x80 + (cp / 4096) % 64;
    assert bs[2] == 0x80 + (cp / 64) % 64 && bs[3] == 0x80 + cp % 64;
    assert SequenceLength(bs[0]) == 4;
    assert Low6(bs, 1, 4) == (cp / 4096) % 64 && Low6(bs, 2, 4) == (cp / 64) % 64 && Low6(bs, 3, 4) == cp % 64;
  }

  lemma EncodeCharRoundTrip(c: char, rest: seq<uint8>)
    ensures DecodeChar(EncodeChar(c) + rest) == Some((c, |EncodeChar(c)|))
  {
    var cp := c as int;
    var bs := EncodeChar(c) + rest;
    assert bs[..|EncodeChar(c)|] == EncodeChar(c);
    if cp < 0x80 {
    } else if cp < 0x800 {
      DecodeTwo(c, bs);
    } else if cp < 0x1_0000 {
      DecodeThree(c, bs);
    } else {
      DecodeFour(c, bs);
    }
  }

  /** Decoding the encoding gives the text back; in particular `Encode` is injective. */
  lemma {:induction false} RoundTrip(s: string)
    ensures Decode(Encode(s)) == Some(s)
  {
    if s != [] {
      var head := EncodeChar(s[0]);
      var bs := Encode(s);
      assert bs == head + Encode(s[1..]);
      EncodeCharRoundTrip(s[0], Encode(s[1..]));
      assert bs[|head|..] == Encode(s[1..]);
      RoundTrip(s[1..]);
      assert [s[0]] + s[1..] == s;
    }
  }

  lemma EncodeInjective(s: string, t: string)
    requires Encode(s) == Encode(t)
    ensures s == t
  {
    RoundTrip(s);
    RoundTrip(t);
  }

  predicate IsAscii(s: string) { forall i :: 0 <= i < |s| ==> s[i] as int < 0x80 }

  /** ASCII text encodes one octet per character, each equal to the character code. */
  lemma {:induction false} AsciiEncoding(s: string)
    requires IsAscii(s)
    ensures |Encode(s)| == |s|
    ensures forall i :: 0 <= i < |s| ==> Encode(s)[i] == s[i] as int
  {
    if s != [] {
      AsciiEncoding(s[1..]);
    }
  }

  lemma {:induction false} EncodeAppend(s: string, t: string)
    ensures Encode(s + t) == Encode(s) + Encode(t)
  {
    if s == [] {
      assert s + t == t;
    } else {
      assert (s + t)[1..] == s[1..] + t;
      EncodeAppend(s[1..], t);
    }
  }
}
