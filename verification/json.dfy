/** The two JSON value forms the payload uses, written the way the compact
    kotlinx.serialization printer writes them: string literals escaped per
    section 7 of RFC 8259, and integers in plain decimal. Each printer has a
    parser as its partner, and the lemmas show that parsing a printed value
    followed by any continuation gives back the value and the continuation. */
module Json {
  import opened Types
  import Hex

  // ---------------------------------------------------------------- strings

  /** The escape the printer uses for one character. Control characters
      U+0000..U+001F get the short forms `\b \t \n \f \r` where they exist and
      `\u00xx` (lowercase hex) otherwise; `"` and `\` are backslash-escaped;
      everything else is written as itself. */
  function EscapeChar(c: char): (s: string)
    ensures 1 <= |s| <= 6
    ensures |s| == 1 <==> (c as int >= 0x20 && c != '"' && c != '\\')
    ensures |s| == 1 ==> s[0] == c
    ensures |s| > 1 ==> s[0] == '\\' && ' ' !in s
    ensures forall i :: 0 <= i < |s| ==> s[i] as int >= 0x20
  {
    if c == '"' then "\\\""
    else if c == '\\' then "\\\\"
    else if c as int == 0x08 then "\\b"
    else if c == '\t' then "\\t"
    else if c == '\n' then "\\n"
    else if c as int == 0x0C then "\\f"
    else if c == '\r' then "\\r"
    else if c as int < 0x20 then "\\u00" + [Hex.Digit(c as int / 16), Hex.Digit(c as int % 16)]
    else [c]
  }

  /** The body of a string literal, without the surrounding quotes. */
  function Escape(s: string): (r: string)
    ensures |s| <= |r| <= 6 * |s|
  {
    if s == [] then [] else EscapeChar(s[0]) + Escape(s[1..])
  }

  /** A quoted string literal. */
  function Quote(s: string): string
  {
    "\"" + Escape(s) + "\""
  }

  /** A hex digit of either case, as a `\u` escape allows. */
  function HexValue(c: char): Option<int>
  {
    if '0' <= c <= '9' then Some(c as int - '0' as int)
    else if 'a' <= c <= 'f' then Some(c as int - 'a' as int + 10)
    else if 'A' <= c <= 'F' then Some(c as int - 'A' as int + 10)
    else None
  }

  /** The code unit of `\uXXXX`, given the four characters after `\u`. */
  function UnitValue(h: string): Option<int>
    requires |h| == 4
  {
    match (HexValue(h[0]), HexValue(h[1]), HexValue(h[2]), HexValue(h[3]))
    case (Some(a), Some(b), Some(c), Some(d)) => Some(((a * 16 + b) * 16 + c) * 16 + d)
    case _ => None
  }

  /** One character of a literal body: the character and how many input
      characters it took. Raw control characters and unknown escapes are
      rejected; a `\u` escape must name a scalar value (surrogate pairs are
      not combined). */
  function Unescape(s: string): (r: Option<(char, nat)>)
    requires s != [] && s[0] != '"'
    ensures r.Some? ==> 1 <= r.value.1 <= |s|
  {
    if s[0] == '\\' then
      if |s| < 2 then None
      else if s[1] == '"' then Some(('"', 2))
      else if s[1] == '\\' then Some(('\\', 2))
      else if s[1] == '/' then Some(('/', 2))
      else if s[1] == 'b' then Some((0x08 as char, 2))
      else if s[1] == 'f' then Some((0x0C as char, 2))
      else if s[1] == 'n' then Some(('\n', 2))
      else if s[1] == 'r' then Some(('\r', 2))
      else if s[1] == 't' then Some(('\t', 2))
      else if s[1] == 'u' && |s| >= 6 then
        match UnitValue(s[2..6])
        case Some(v) =>
          if 0 <= v < 0xD800 || 0xE000 <= v < 0x1_0000 then Some((v as char, 6)) else None
        case None => None
      else None
    else if s[0] as int < 0x20 then None
    else Some((s[0], 1))
  }

  /** Reads a literal body up to and including its closing quote, giving the
      text and what follows the quote. */
  function ParseBody(s: string): (r: Option<(string, string)>)
    ensures r.Some? ==> |r.value.1| < |s|
    decreases |s|
  {
    if s == [] then None
    else if s[0] == '"' then Some(([], s[1..]))
    else
      match Unescape(s)
      case None => None
      case Some((c, n)) =>
        match ParseBody(s[n..])
        case None => None
        case Some((text, rest)) => Some(([c] + text, rest))
  }

  /** Reads a whole quoted literal. */
  function ParseString(s: string): (r: Option<(string, string)>)
    ensures r.Some? ==> |r.value.1| < |s|
  {
    if s != [] && s[0] == '"' then ParseBody(s[1..]) else None
  }

  lemma DigitValueOf(x: Hex.nibble)
    ensures HexValue(Hex.Digit(x)) == Some(x)
  {
  }

  lemma UnescapeEscapeChar(c: char, rest: string)
    ensures EscapeChar(c) + rest != [] && (EscapeChar(c) + rest)[0] != '"'
    ensures Unescape(EscapeChar(c) + rest) == Some((c, |EscapeChar(c)|))
  {
    var e := EscapeChar(c);
    var s := e + rest;
    assert s[..|e|] == e;
    if c != '"' && c != '\\' && c as int != 0x08 && c != '\t' && c != '\n' && c as int != 0x0C && c != '\r' && c as int < 0x20 {
      var h := s[2..6];
      assert h == ['0', '0', Hex.Digit(c as int / 16), Hex.Digit(c as int % 16)];
      DigitValueOf(c as int / 16);
      DigitValueOf(c as int % 16);
      assert UnitValue(h) == Some(c as int);
    }
  }

  /** One step of `ParseBody` past a character it reads. */
  lemma ParseBodyStep(s: string, c: char, n: nat, text: string, rest: string)
    requires s != [] && s[0] != '"' && Unescape(s) == Some((c, n))
    requires ParseBody(s[n..]) == Some((text, rest))
    ensures ParseBody(s) == Some(([c] + text, rest))
  {
  }

  lemma Assoc(a: string, b: string, c: string)
    ensures (a + b) + c == a + (b + c)
  {
  }

  lemma DropPrefix(a: string, b: string)
    ensures (a + b)[|a|..] == b
  {
  }

  /** A printed literal body followed by the closing quote parses back to the
      original text, whatever follows. */
  lemma {:induction false} BodyRoundTrip(text: string, rest: string)
    ensures ParseBody(Escape(text) + ("\"" + rest)) == Some((text, rest))
  {
    var after := "\"" + rest;
    if text == [] {
      assert Escape(text) + after == after;
    } else {
      var e := EscapeChar(text[0]);
      var tail := Escape(text[1..]) + after;
      Assoc(e, Escape(text[1..]), after);
      UnescapeEscapeChar(text[0], tail);
      DropPrefix(e, tail);
      BodyRoundTrip(text[1..], rest);
      ParseBodyStep(e + tail, text[0], |e|, text[1..], rest);
      assert [text[0]] + text[1..] == text;
    }
  }

  /** Quoting is undone by `ParseString`, whatever follows the literal. */
  lemma StringRoundTrip(text: string, rest: string)
    ensures ParseString(Quote(text) + rest) == Some((text, rest))
  {
    var q := "\"";
    Assoc(q + Escape(text), q, rest);
    Assoc(q, Escape(text), q + rest);
    DropPrefix(q, Escape(text) + (q + rest));
    BodyRoundTrip(text, rest);
  }

  /** A literal body holds no raw control character, so in particular no raw
      line break or tab. */
  lemma {:induction false} EscapeHasNoControl(text: string)
    ensures forall i :: 0 <= i < |Escape(text)| ==> Escape(text)[i] as int >= 0x20
  {
    if text != [] {
      EscapeHasNoControl(text[1..]);
      var e := EscapeChar(text[0]);
      forall i | 0 <= i < |Escape(text)| ensures Escape(text)[i] as int >= 0x20 {
        if i >= |e| {
          assert Escape(text)[i] == Escape(text[1..])[i - |e|];
        }
      }
    }
  }

  lemma InConcat(c: char, a: string, b: string)
    requires c in a + b
    ensures c in a || c in b
  {
    var i :| 0 <= i < |a + b| && (a + b)[i] == c;
    if i >= |a| {
      assert b[i - |a|] == c;
    }
  }

  /** A space in a literal body comes from a space in the text. */
  lemma {:induction false} EscapeSpaces(text: string)
    ensures ' ' in Escape(text) ==> ' ' in text
  {
    if text != [] && ' ' in Escape(text) {
      var e := EscapeChar(text[0]);
      InConcat(' ', e, Escape(text[1..]));
      if ' ' in e {
        assert text[0] == ' ';
      } else {
        EscapeSpaces(text[1..]);
        assert ' ' in text[1..];
      }
    }
  }

  // --------------------------------------------------------------- integers

  predicate IsDigit(c: char) { '0' <= c <= '9' }

  function DigitChar(d: int): (c: char)
    requires 0 <= d < 10
    ensures IsDigit(c)
  {
    ('0' as int + d) as char
  }

  /** Decimal digits of a natural number, most significant first, no leading zero. */
  function Digits(n: nat): (s: string)
    ensures s != []
    ensures forall i :: 0 <= i < |s| ==> IsDigit(s[i])
  {
    if n < 10 then [DigitChar(n)] else Digits(n / 10) + [DigitChar(n % 10)]
  }

  /** `Long.toString()` / `Int.toString()`: a `-` sign for negatives, then the digits. */
  function Decimal(n: int): string
  {
    if n < 0 then "-" + Digits(-n) else Digits(n)
  }

  /** The value of a run of decimal digits. */
  function DigitsValue(s: string): nat
    requires forall i :: 0 <= i < |s| ==> IsDigit(s[i])
  {
    if s == [] then 0
    else
      assert IsDigit(s[|s| - 1]);
      DigitsValue(s[..|s| - 1]) * 10 + (s[|s| - 1] as int - '0' as int)
  }

  /** Length of the longest prefix made of digits. */
  function DigitSpan(s: string): (k: nat)
    ensures k <= |s|
    ensures forall i :: 0 <= i < k ==> IsDigit(s[i])
    ensures k < |s| ==> !IsDigit(s[k])
  {
    if s == [] || !IsDigit(s[0]) then 0 else 1 + DigitSpan(s[1..])
  }

  /** Reads a run of digits and gives what follows it. */
  function ParseNat(s: string): (r: Option<(nat, string)>)
    ensures r.Some? ==> |r.value.1| < |s|
  {
    var k := DigitSpan(s);
    if k == 0 then None else Some((DigitsValue(s[..k]), s[k..]))
  }

  /** Reads an optionally negative integer and gives what follows it. */
  function ParseInt(s: string): (r: Option<(int, string)>)
    ensures r.Some? ==> |r.value.1| < |s|
  {
    if s != [] && s[0] == '-' then
      var x :- ParseNat(s[1..]);
      Some((-(x.0 as int), x.1))
    else
      var x :- ParseNat(s);
      Some((x.0 as int, x.1))
  }

  lemma {:induction false} DigitsValueOf(n: nat)
    ensures DigitsValue(Digits(n)) == n
  {
    if n >= 10 {
      var s := Digits(n);
      assert s[..|s| - 1] == Digits(n / 10);
      DigitsValueOf(n / 10);
    }
  }

  lemma {:induction false} DigitSpanOf(ds: string, rest: string)
    requires forall i :: 0 <= i < |ds| ==> IsDigit(ds[i])
    requires rest == [] || !IsDigit(rest[0])
    ensures DigitSpan(ds + rest) == |ds|
  {
    if ds != [] {
      assert (ds + rest)[1..] == ds[1..] + rest;
      DigitSpanOf(ds[1..], rest);
    }
  }

  /** A run of digits parses to its value. */
  lemma ParseDigits(ds: string, rest: string)
    requires ds != [] && forall i :: 0 <= i < |ds| ==> IsDigit(ds[i])
    requires rest == [] || !IsDigit(rest[0])
    ensures ParseNat(ds + rest) == Some((DigitsValue(ds), rest))
  {
    var t := ds + rest;
    DigitSpanOf(ds, rest);
    assert t[..|ds|] == ds && t[|ds|..] == rest;
  }

  /** A printed integer parses back, provided the text after it does not
      itself start with a digit (in the payload it is `,` or `}`). */
  lemma IntRoundTrip(n: int, rest: string)
    requires rest == [] || !IsDigit(rest[0])
    ensures ParseInt(Decimal(n) + rest) == Some((n, rest))
  {
    if n < 0 {
      var t := Digits(-n) + rest;
      DigitsValueOf(-n);
      ParseDigits(Digits(-n), rest);
      Assoc("-", Digits(-n), rest);
      DropPrefix("-", t);
    } else {
      DigitsValueOf(n);
      ParseDigits(Digits(n), rest);
      assert (Decimal(n) + rest)[0] != '-';
    }
  }

  /** A printed integer consists of an optional sign and digits only. */
  lemma DecimalCharacters(n: int)
    ensures forall i :: 0 <= i < |Decimal(n)| ==> IsDigit(Decimal(n)[i]) || (i == 0 && Decimal(n)[i] == '-')
  {
    if n < 0 {
      var ds := Digits(-n);
      forall i | 1 <= i < |Decimal(n)| ensures IsDigit(Decimal(n)[i]) {
        assert Decimal(n)[i] == ds[i - 1];
      }
    }
  }

  // ---------------------------------------------------------------- objects

  /** The value forms a flat payload object holds. */
  datatype Value = JString(text: string) | JNumber(number: int)

  /** One `"key":value` member. */
  datatype Member = Member(key: string, value: Value)

  function PrintValue(v: Value): string
  {
    match v
    case JString(t) => Quote(t)
    case JNumber(n) => Decimal(n)
  }

  function PrintMember(m: Member): string
  {
    Quote(m.key) + ":" + PrintValue(m.value)
  }

  /** Members separated by commas, with no whitespace anywhere. */
  function PrintMembers(ms: seq<Member>): string
  {
    if ms == [] then []
    else if |ms| == 1 then PrintMember(ms[0])
    else PrintMember(ms[0]) + "," + PrintMembers(ms[1..])
  }

  /** A compact object: `{`, the members, `}`. */
  function PrintObject(ms: seq<Member>): string
  {
    "{" + PrintMembers(ms) + "}"
  }

  /** Strips `prefix` from the front of `s`. */
  function Expect(prefix: string, s: string): (r: Option<string>)
    ensures r.Some? ==> prefix + r.value == s
    ensures r.Some? <==> prefix <= s
  {
    if |prefix| <= |s| && s[..|prefix|] == prefix then Some(s[|prefix|..]) else None
  }

  lemma ExpectPrefix(prefix: string, rest: string)
    ensures Expect(prefix, prefix + rest) == Some(rest)
  {
    assert (prefix + rest)[..|prefix|] == prefix;
  }

  function ParseValue(s: string): (r: Option<(Value, string)>)
    ensures r.Some? ==> |r.value.1| < |s|
  {
    if s != [] && s[0] == '"' then
      var x :- ParseString(s);
      Some((JString(x.0), x.1))
    else
      var x :- ParseInt(s);
      Some((JNumber(x.0), x.1))
  }

  /** Reads `"key":value` members separated by commas (no whitespace is
      allowed between tokens), stopping before the first character that does
      not continue the list. */
  function ParseMembers(s: string): (r: Option<(seq<Member>, string)>)
    ensures r.Some? ==> |r.value.1| < |s|
    decreases |s|
  {
    var k :- ParseString(s);
    var a :- Expect(":", k.1);
    var v :- ParseValue(a);
    var m := Member(k.0, v.0);
    if v.1 != [] && v.1[0] == ',' then
      var more :- ParseMembers(v.1[1..]);
      Some(([m] + more.0, more.1))
    else
      Some(([m], v.1))
  }

  /** Reads a whole compact object; trailing characters are rejected. */
  function ParseObject(s: string): (r: Option<seq<Member>>)
  {
    var a :- Expect("{", s);
    if a == "}" then Some([])
    else
      var m :- ParseMembers(a);
      var b :- Expect("}", m.1);
      if b == [] then Some(m.0) else None
  }

  lemma ValueRoundTrip(v: Value, rest: string)
    requires rest != [] && (rest[0] == ',' || rest[0] == '}')
    ensures ParseValue(PrintValue(v) + rest) == Some((v, rest))
  {
    match v
    case JString(t) =>
      StringRoundTrip(t, rest);
    case JNumber(n) =>
      IntRoundTrip(n, rest);
      if n < 0 {
        assert (PrintValue(v) + rest)[0] == '-';
      } else {
        assert (PrintValue(v) + rest)[0] == Digits(n)[0];
      }
  }

  /** One unfolding of `ParseMembers` once its first member has been read. */
  lemma ParseMembersStep(s: string, m: Member, tail: string)
    requires ParseString(s) == Some((m.key, ":" + (PrintValue(m.value) + tail)))
    requires ParseValue(PrintValue(m.value) + tail) == Some((m.value, tail))
    ensures tail != [] && tail[0] == ',' && ParseMembers(tail[1..]).Some? ==>
      ParseMembers(s) == Some(([m] + ParseMembers(tail[1..]).value.0, ParseMembers(tail[1..]).value.1))
    ensures (tail == [] || tail[0] != ',') ==> ParseMembers(s) == Some(([m], tail))
  {
    ExpectPrefix(":", PrintValue(m.value) + tail);
  }

  /** Printed members followed by the closing brace parse back to the same
      members, in the same order. */
  lemma MemberThen(m: Member, tail: string)
    requires tail != [] && (tail[0] == ',' || tail[0] == '}')
    ensures ParseString(PrintMember(m) + tail) == Some((m.key, ":" + (PrintValue(m.value) + tail)))
    ensures ParseValue(PrintValue(m.value) + tail) == Some((m.value, tail))
  {
    var pv := PrintValue(m.value);
    assert PrintMember(m) + tail == Quote(m.key) + (":" + (pv + tail));
    StringRoundTrip(m.key, ":" + (pv + tail));
    ValueRoundTrip(m.value, tail);
  }

  /** The last member, followed by the closing brace. */
  lemma LastMemberRoundTrip(m: Member, rest: string)
    requires rest != [] && rest[0] == '}'
    ensures ParseMembers(PrintMember(m) + rest) == Some(([m], rest))
  {
    MemberThen(m, rest);
    ParseMembersStep(PrintMember(m) + rest, m, rest);
  }

  /** A member, a comma, then members that parse on their own. */
  lemma NextMemberRoundTrip(m: Member, more: string, ms: seq<Member>, rest: string)
    requires ParseMembers(more) == Some((ms, rest))
    ensures ParseMembers(PrintMember(m) + ("," + more)) == Some(([m] + ms, rest))
  {
    var tail := "," + more;
    MemberThen(m, tail);
    ParseMembersStep(PrintMember(m) + tail, m, tail);
    assert tail[1..] == more;
  }

  lemma {:induction false} MembersRoundTrip(ms: seq<Member>, rest: string)
    requires ms != []
    requires rest != [] && rest[0] == '}'
    ensures ParseMembers(PrintMembers(ms) + rest) == Some((ms, rest))
  {
    var m := ms[0];
    if |ms| == 1 {
      LastMemberRoundTrip(m, rest);
      assert [m] == ms;
    } else {
      var more := PrintMembers(ms[1..]) + rest;
      Assoc(PrintMember(m) + ",", PrintMembers(ms[1..]), rest);
      Assoc(PrintMember(m), ",", more);
      MembersRoundTrip(ms[1..], rest);
      NextMemberRoundTrip(m, more, ms[1..], rest);
      assert [m] + ms[1..] == ms;
    }
  }

  lemma PrintMemberStart(m: Member)
    ensures |PrintMember(m)| > 0 && PrintMember(m)[0] == '"'
  {
    var q := Quote(m.key);
    assert q[0] == '"';
    assert (q + ":")[0] == '"';
  }

  lemma PrintMembersStart(ms: seq<Member>)
    requires ms != []
    ensures PrintMembers(ms) != [] && PrintMembers(ms)[0] == '"'
  {
    var pm := PrintMember(ms[0]);
    PrintMemberStart(ms[0]);
    if |ms| > 1 {
      assert (pm + ",")[0] == '"';
      assert PrintMembers(ms)[0] == (pm + ",")[0];
    }
  }

  /** The object parser reads back exactly the printed members. */
  lemma ObjectRoundTrip(ms: seq<Member>)
    ensures ParseObject(PrintObject(ms)) == Some(ms)
  {
    var body := PrintMembers(ms) + "}";
    assert PrintObject(ms) == "{" + body;
    ExpectPrefix("{", body);
    if ms != [] {
      PrintMembersStart(ms);
      assert body != "}";
      MembersRoundTrip(ms, "}");
      ExpectPrefix("}", []);
      assert "}" + [] == "}";
    }
  }

  /** No character below U+0020: in particular no raw line break or tab. */
  predicate NoControl(s: string) { forall i :: 0 <= i < |s| ==> s[i] as int >= 0x20 }

  /** A member whose key or string value contains a space. */
  predicate HasSpace(m: Member) { ' ' in m.key || (m.value.JString? && ' ' in m.value.text) }

  lemma ConcatNoControl(a: string, b: string)
    requires NoControl(a) && NoControl(b)
    ensures NoControl(a + b)
  {
    forall i | 0 <= i < |a + b| ensures (a + b)[i] as int >= 0x20 {
      if i >= |a| {
        assert (a + b)[i] == b[i - |a|];
      }
    }
  }

  lemma MemberCompact(m: Member)
    ensures NoControl(PrintMember(m))
    ensures ' ' in PrintMember(m) ==> HasSpace(m)
  {
    EscapeHasNoControl(m.key);
    EscapeSpaces(m.key);
    ConcatNoControl("\"", Escape(m.key));
    ConcatNoControl("\"" + Escape(m.key), "\"");
    ConcatNoControl(Quote(m.key), ":");
    match m.value
    case JString(t) =>
      EscapeHasNoControl(t);
      EscapeSpaces(t);
      ConcatNoControl("\"", Escape(t));
      ConcatNoControl("\"" + Escape(t), "\"");
      ConcatNoControl(Quote(m.key) + ":", Quote(t));
    case JNumber(n) =>
      DecimalCharacters(n);
      ConcatNoControl(Quote(m.key) + ":", Decimal(n));
      assert ' ' !in Decimal(n);
  }

  /** The printed object is compact: it holds no control character (so no
      newline, carriage return or tab), and a space appears in it only when
      some key or string value contains one. */
  lemma {:induction false} MembersCompact(ms: seq<Member>)
    ensures NoControl(PrintMembers(ms))
    ensures ' ' in PrintMembers(ms) ==> exists i :: 0 <= i < |ms| && HasSpace(ms[i])
  {
    if ms != [] {
      MemberCompact(ms[0]);
      if |ms| > 1 {
        MembersCompact(ms[1..]);
        ConcatNoControl(PrintMember(ms[0]), ",");
        ConcatNoControl(PrintMember(ms[0]) + ",", PrintMembers(ms[1..]));
        if ' ' in PrintMembers(ms) && !HasSpace(ms[0]) {
          assert ' ' in PrintMembers(ms[1..]);
          var i :| 0 <= i < |ms[1..]| && HasSpace(ms[1..][i]);
          assert HasSpace(ms[i + 1]);
        }
      }
    }
  }

  lemma ObjectCompact(ms: seq<Member>)
    ensures NoControl(PrintObject(ms))
    ensures ' ' in PrintObject(ms) ==> exists i :: 0 <= i < |ms| && HasSpace(ms[i])
  {
    MembersCompact(ms);
    ConcatNoControl("{", PrintMembers(ms));
    ConcatNoControl("{" + PrintMembers(ms), "}");
  }
}
