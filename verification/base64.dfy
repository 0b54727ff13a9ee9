/** Base64 with the standard alphabet and `=` padding, emitted on one line
    (section 4 of RFC 4648; the `NO_WRAP` flag of the platform encoder the
    source calls). `Decode` is the strict inverse: it accepts exactly the
    strings `Encode` can produce. */
module Base64 {
  import opened Types

  /** A six-bit group. */
  type sextet = x: int | 0 <= x < 64

  /** The six-bit group a character stands for, if it belongs to the alphabet. */
  function Value(c: char): (r: Option<sextet>)
  {
    if 'A' <= c <= 'Z' then Some(c as int - 'A' as int)
    else if 'a' <= c <= 'z' then Some(c as int - 'a' as int + 26)
    else if '0' <= c <= '9' then Some(c as int - '0' as int + 52)
    else if c == '+' then Some(62)
    else if c == '/' then Some(63)
    else None
  }

  /** The character for a six-bit group (Table 1 of RFC 4648). */
  function Letter(x: sextet): (c: char)
    ensures Value(c) == Some(x)
    ensures c != '='
  {
    if x < 26 then ('A' as int + x) as char
    else if x < 52 then ('a' as int + (x - 26)) as char
    else if x < 62 then ('0' as int + (x - 52)) as char
    else if x == 62 then '+'
    else '/'
  }

  lemma ValueLetter(c: char)
    requires Value(c).Some?
    ensures Letter(Value(c).value) == c
  {
  }

  predicate IsAlphabet(c: char) { Value(c).Some? }

  /** Three octets into four letters. */
  function Block(a: uint8, b: uint8, c: uint8): string
  {
    [Letter(a / 4), Letter((a % 4) * 16 + b / 16), Letter((b % 16) * 4 + c / 64), Letter(c % 64)]
  }

  /** The final one or two octets, padded with `=` to four characters. */
  function Tail(bs: seq<uint8>): string
    requires 1 <= |bs| <= 2
  {
    if |bs| == 1 then [Letter(bs[0] / 4), Letter((bs[0] % 4) * 16), '=', '=']
    else [Letter(bs[0] / 4), Letter((bs[0] % 4) * 16 + bs[1] / 16), Letter((bs[1] % 16) * 4), '=']
  }

  function Encode(bs: seq<uint8>): (s: string)
    decreases |bs|
  {
    if |bs| == 0 then []
    else if |bs| < 3 then Tail(bs)
    else Block(bs[0], bs[1], bs[2]) + Encode(bs[3..])
  }

  /** Four letters back into three octets. */
  function UnBlock(s: string): Option<seq<uint8>>
    requires |s| == 4
  {
    match (Value(s[0]), Value(s[1]), Value(s[2]), Value(s[3]))
    case (Some(w), Some(x), Some(y), Some(z)) =>
      Some([w as int * 4 + x / 16, (x as int % 16) * 16 + y / 4, (y as int % 4) * 64 + z])
    case _ => None
  }

  /** A padded final group; the bits that padding discards must be zero. */
  function UnTail(s: string): Option<seq<uint8>>
    requires |s| == 4
  {
    if s[2] == '=' && s[3] == '=' then
      match (Value(s[0]), Value(s[1]))
      case (Some(w), Some(x)) =>
        if x % 16 == 0 then Some([w as int * 4 + x / 16]) else None
      case _ => None
    else if s[3] == '=' then
      match (Value(s[0]), Value(s[1]), Value(s[2]))
      case (Some(w), Some(x), Some(y)) =>
        if y % 4 == 0 then Some([w as int * 4 + x / 16, (x as int % 16) * 16 + y / 4]) else None
      case _ => None
    else None
  }

  function Decode(s: string): (r: Option<seq<uint8>>)
    decreases |s|
  {
    if |s| == 0 then Some([])
    else if |s| < 4 then None
    else if |s| == 4 && s[3] == '=' then UnTail(s)
    else
      match UnBlock(s[..4])
      case None => None
      case Some(head) =>
        match Decode(s[4..])
        case None => None
        case Some(rest) => Some(head + rest)
  }

  /** The encoded length is 4 * ceil(n / 3). */
  lemma {:induction false} EncodeLength(bs: seq<uint8>)
    ensures |Encode(bs)| == 4 * ((|bs| + 2) / 3)
    decreases |bs|
  {
    if |bs| >= 3 {
      EncodeLength(bs[3..]);
      assert (|bs| - 3 + 2) / 3 + 1 == (|bs| + 2) / 3;
    }
  }

  /** Every character is a letter of the alphabet or padding, and padding
      only appears in the last two positions: no line breaks, no spaces. */
  lemma {:induction false} EncodeCharacters(bs: seq<uint8>)
    ensures forall i :: 0 <= i < |Encode(bs)| ==> IsAlphabet(Encode(bs)[i]) || Encode(bs)[i] == '='
    ensures forall i :: 0 <= i < |Encode(bs)| - 2 ==> IsAlphabet(Encode(bs)[i])
    decreases |bs|
  {
    if |bs| == 0 {
    } else if |bs| < 3 {
      if |bs| == 2 {
      }
    } else {
      var head := Block(bs[0], bs[1], bs[2]);
      EncodeCharacters(bs[3..]);
      EncodeLength(bs[3..]);
      forall i | 0 <= i < |Encode(bs)| ensures IsAlphabet(Encode(bs)[i]) || Encode(bs)[i] == '=' {
        if i >= 4 {
          assert Encode(bs)[i] == Encode(bs[3..])[i - 4];
        }
      }
      forall i | 0 <= i < |Encode(bs)| - 2 ensures IsAlphabet(Encode(bs)[i]) {
        if i >= 4 {
          assert Encode(bs)[i] == Encode(bs[3..])[i - 4];
        }
      }
    }
  }

  /** Splitting a value packed as `hi * k + lo` recovers both parts. */
  lemma Unpack(hi: int, lo: int, k: int)
    requires k == 4 || k == 16
    requires 0 <= lo < k
    ensures (hi * k + lo) / k == hi && (hi * k + lo) % k == lo
  {
    if k == 4 {
      assert (hi * 4 + lo) / 4 == hi;
    } else {
      assert (hi * 16 + lo) / 16 == hi;
    }
  }

  lemma BlockRoundTrip(a: uint8, b: uint8, c: uint8)
    ensures UnBlock(Block(a, b, c)) == Some([a, b, c])
  {
    var x, y := (a % 4) * 16 + b / 16, (b % 16) * 4 + c / 64;
    var s := Block(a, b, c);
    assert Value(s[0]) == Some(a / 4) && Value(s[1]) == Some(x);
    assert Value(s[2]) == Some(y) && Value(s[3]) == Some(c % 64);
    Unpack(a % 4, b / 16, 16);
    Unpack(b % 16, c / 64, 4);
    assert (a / 4) * 4 + x / 16 == a;
    assert (x % 16) * 16 + y / 4 == b;
    assert (y % 4) * 64 + c % 64 == c;
  }

  lemma TailOneRoundTrip(a: uint8)
    ensures UnTail(Tail([a])) == Some([a])
  {
    var t := Tail([a]);
    var x := (a % 4) * 16;
    Unpack(a % 4, 0, 16);
    assert t[2] == '=' && t[3] == '=';
    assert Value(t[0]) == Some(a / 4) && Value(t[1]) == Some(x);
    assert (a / 4) * 4 + x / 16 == a;
    assert x % 16 == 0;
  }

  lemma TailTwoRoundTrip(a: uint8, b: uint8)
    ensures UnTail(Tail([a, b])) == Some([a, b])
  {
    var t := Tail([a, b]);
    var x, y := (a % 4) * 16 + b / 16, (b % 16) * 4;
    Unpack(a % 4, b / 16, 16);
    Unpack(b % 16, 0, 4);
    assert t[3] == '=' && t[2] != '=';
    assert Value(t[0]) == Some(a / 4) && Value(t[1]) == Some(x) && Value(t[2]) == Some(y);
    assert (a / 4) * 4 + x / 16 == a;
    assert (x % 16) * 16 + y / 4 == b;
    assert y % 4 == 0;
  }

  lemma TailRoundTrip(bs: seq<uint8>)
    requires 1 <= |bs| <= 2
    ensures UnTail(Tail(bs)) == Some(bs)
  {
    if |bs| == 1 {
      assert bs == [bs[0]];
      TailOneRoundTrip(bs[0]);
    } else {
      assert bs == [bs[0], bs[1]];
      TailTwoRoundTrip(bs[0], bs[1]);
    }
  }

  lemma DecodeCons(s: string, head: seq<uint8>, rest: seq<uint8>)
    requires |s| >= 8 || (|s| >= 4 && s[3] != '=')
    requires UnBlock(s[..4]) == Some(head)
    requires Decode(s[4..]) == Some(rest)
    ensures Decode(s) == Some(head + rest)
  {
  }

  /** Decoding the encoding yields exactly the original octets. */
  lemma {:induction false} RoundTrip(bs: seq<uint8>)
    ensures Decode(Encode(bs)) == Some(bs)
    decreases |bs|
  {
    if |bs| == 0 {
    } else if |bs| < 3 {
      TailRoundTrip(bs);
    } else {
      var head := Block(bs[0], bs[1], bs[2]);
      var s := Encode(bs);
      assert s == head + Encode(bs[3..]);
      assert s[..4] == head;
      assert s[4..] == Encode(bs[3..]);
      BlockRoundTrip(bs[0], bs[1], bs[2]);
      RoundTrip(bs[3..]);
      DecodeCons(s, [bs[0], bs[1], bs[2]], bs[3..]);
      assert [bs[0], bs[1], bs[2]] + bs[3..] == bs;
    }
  }

  /** Repacking four sextets as three octets and splitting them again gives the sextets back. */
  lemma RepackBlock(w: sextet, x: sextet, y: sextet, z: sextet)
    ensures var a, b, c := w * 4 + x / 16, (x % 16) * 16 + y / 4, (y % 4) * 64 + z;
      && 0 <= a < 256 && 0 <= b < 256 && 0 <= c < 256
      && a / 4 == w && (a % 4) * 16 + b / 16 == x && (b % 16) * 4 + c / 64 == y && c % 64 == z
  {
    var a: int, b: int, c: int := w * 4 + x / 16, (x % 16) * 16 + y / 4, (y % 4) * 64 + z;
    Unpack(w, x / 16, 4);
    Unpack(x % 16, y / 4, 16);
    assert c / 64 == y % 4 && c % 64 == z;
  }

  lemma LettersBlock(a: uint8, b: uint8, c: uint8, s: string)
    requires |s| == 4
    requires Letter(a / 4) == s[0] && Letter((a % 4) * 16 + b / 16) == s[1]
    requires Letter((b % 16) * 4 + c / 64) == s[2] && Letter(c % 64) == s[3]
    ensures Block(a, b, c) == s
  {
  }

  lemma UnBlockBlock(s: string)
    requires |s| == 4 && UnBlock(s).Some?
    ensures |UnBlock(s).value| == 3
    ensures Block(UnBlock(s).value[0], UnBlock(s).value[1], UnBlock(s).value[2]) == s
  {
    var w, x, y, z := Value(s[0]).value, Value(s[1]).value, Value(s[2]).value, Value(s[3]).value;
    var v := UnBlock(s).value;
    assert v == [w as int * 4 + x / 16, (x as int % 16) * 16 + y / 4, (y as int % 4) * 64 + z];
    RepackBlock(w, x, y, z);
    ValueLetter(s[0]);
    ValueLetter(s[1]);
    ValueLetter(s[2]);
    ValueLetter(s[3]);
    LettersBlock(v[0], v[1], v[2], s);
  }

  lemma UnTailOne(s: string)
    requires |s| == 4 && s[2] == '=' && s[3] == '=' && UnTail(s).Some?
    ensures UnTail(s).value == [Value(s[0]).value * 4 + Value(s[1]).value / 16]
    ensures Tail(UnTail(s).value) == s
  {
    var w: int, x: int := Value(s[0]).value, Value(s[1]).value;
    ValueLetter(s[0]);
    ValueLetter(s[1]);
    var a := w * 4 + x / 16;
    Unpack(w, x / 16, 4);
    assert x % 16 == 0;
    assert a / 4 == w && (a % 4) * 16 == x;
    assert s == [s[0], s[1], '=', '='];
  }

  lemma UnTailTwo(s: string)
    requires |s| == 4 && s[2] != '=' && s[3] == '=' && UnTail(s).Some?
    ensures |UnTail(s).value| == 2
    ensures Tail(UnTail(s).value) == s
  {
    var w: int, x: int, y: int := Value(s[0]).value, Value(s[1]).value, Value(s[2]).value;
    ValueLetter(s[0]);
    ValueLetter(s[1]);
    ValueLetter(s[2]);
    var a: int, b: int := w * 4 + x / 16, (x % 16) * 16 + y / 4;
    assert UnTail(s).value == [a, b];
    Unpack(w, x / 16, 4);
    Unpack(x % 16, y / 4, 16);
    assert y % 4 == 0;
    assert a / 4 == w;
    assert (a % 4) * 16 + b / 16 == x;
    assert (b % 16) * 4 == y;
    assert s == [s[0], s[1], s[2], '='];
  }

  lemma UnTailTail(s: string)
    requires |s| == 4 && UnTail(s).Some?
    ensures 1 <= |UnTail(s).value| <= 2
    ensures Tail(UnTail(s).value) == s
  {
    if s[2] == '=' && s[3] == '=' {
      UnTailOne(s);
    } else {
      UnTailTwo(s);
    }
  }

  /** The decoder is strict: whatever it accepts is exactly the encoding of
      what it returns, so `Encode` and `Decode` are mutually inverse. */
  lemma {:induction false} DecodeThenEncode(s: string)
    requires Decode(s).Some?
    ensures Encode(Decode(s).value) == s
    decreases |s|
  {
    if |s| == 0 {
    } else if |s| == 4 && s[3] == '=' {
      UnTailTail(s);
    } else {
      UnBlockBlock(s[..4]);
      var head := UnBlock(s[..4]).value;
      DecodeThenEncode(s[4..]);
      var rest := Decode(s[4..]).value;
      var bs := head + rest;
      assert bs[3..] == rest;
      assert Encode(bs) == Block(bs[0], bs[1], bs[2]) + Encode(rest);
      assert s == s[..4] + s[4..];
    }
  }

  lemma ExampleBlocks()
    ensures Block(117, 115, 101) + Block(114, 58, 112) + Block(97, 115, 115) == "dXNlcjpwYXNz"
  {
    assert Block(117, 115, 101) == "dXNl";
    assert Block(114, 58, 112) == "cjpw";
    assert Block(97, 115, 115) == "YXNz";
  }

  /** Encoding proceeds block by block. */
  lemma EncodeBlocks(bs: seq<uint8>)
    requires |bs| == 9
    ensures Encode(bs) == Block(bs[0], bs[1], bs[2]) + Block(bs[3], bs[4], bs[5]) + Block(bs[6], bs[7], bs[8])
  {
    assert Encode(bs[6..]) == Block(bs[6], bs[7], bs[8]) + Encode(bs[9..]);
    assert Encode(bs[3..]) == Block(bs[3], bs[4], bs[5]) + Encode(bs[3..][3..]);
    assert bs[3..][3..] == bs[6..];
  }
}
