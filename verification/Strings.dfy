/** The two string encodings between the judge and the generated program: C++ string
    literals with octal escapes, and JSON string escapes. Strings are byte strings. */
module Strings {
  import opened Options
  import opened Text

  /** Characters 0 to 255 stand for bytes. */
  predicate Bytes(s: string) { forall i :: 0 <= i < |s| ==> s[i] as int < 256 }

  predicate Ascii(s: string) { forall i :: 0 <= i < |s| ==> s[i] as int < 128 }

  // ----- C++ string literals -----

  function Digit(d: nat): (c: char)
    requires d < 16
    ensures d < 8 ==> '0' <= c <= '7' && c as int == '0' as int + d
  {
    if d < 10 then ('0' as int + d) as char else ('a' as int + d - 10) as char
  }

  function EscapeByte(c: char): string
    requires c as int < 256
  {
    var b := c as int;
    if c == '\"' then ['\\', '\"']
    else if c == '\\' then ['\\', '\\']
    else if 0x20 <= b <= 0x7e then [c]
    else ['\\', Digit(b / 64), Digit(b / 8 % 8), Digit(b % 8)]
  }

  function EscapeLiteral(s: string): string
    requires Bytes(s)
  {
    if s == "" then "" else EscapeByte(s[0]) + EscapeLiteral(s[1..])
  }

  predicate Octal(c: char) { '0' <= c <= '7' }

  function OctalValue(c: char): nat
    requires Octal(c)
  {
    c as int - '0' as int
  }

  /** How a compiler reads the inside of a narrow string literal (section 5.13.3 of ISO/IEC
      14882:2017): an octal escape takes up to three digits, as many as there are. */
  function OctalLength(t: string): (n: nat)
    ensures n <= 3 && n <= |t| && forall i :: 0 <= i < n ==> Octal(t[i])
    ensures n < 3 && n < |t| ==> !Octal(t[n])
  {
    if |t| == 0 || !Octal(t[0]) then 0
    else if |t| == 1 || !Octal(t[1]) then 1
    else if |t| == 2 || !Octal(t[2]) then 2 else 3
  }

  function OctalNumber(t: string): nat
    requires forall i :: 0 <= i < |t| ==> Octal(t[i])
  {
    if t == "" then 0 else 8 * OctalNumber(t[..|t| - 1]) + OctalValue(t[|t| - 1])
  }

  datatype Literal = Bad | Bytestring(bytes: string)

  function Prefixed(c: char, rest: Literal): Literal { if rest.Bad? then Bad else Bytestring([c] + rest.bytes) }

  function ReadLiteral(t: string): Literal
    decreases |t|
  {
    if t == "" then Bytestring("")
    else if t[0] != '\\' then if t[0] == '\"' || t[0] == '\n' then Bad else Prefixed(t[0], ReadLiteral(t[1..]))
    else if |t| >= 2 && (t[1] == '\"' || t[1] == '\\') then Prefixed(t[1], ReadLiteral(t[2..]))
    else
      var n := OctalLength(t[1..]);
      if n == 0 then Bad
      else
        var value := OctalNumber(t[1..1 + n]);
        if value > 255 then Bad else Prefixed(value as char, ReadLiteral(t[1 + n..]))
  }

  lemma OctalDigits(b: nat, rest: string)
    requires b < 256
    ensures var t := [Digit(b / 64), Digit(b / 8 % 8), Digit(b % 8)] + rest;
            OctalLength(t) == 3 && OctalNumber(t[..3]) == b && t[3..] == rest
  {
    var d0, d1, d2 := b / 64, b / 8 % 8, b % 8;
    var t := [Digit(d0), Digit(d1), Digit(d2)] + rest;
    var u := t[..3];
    assert u == [Digit(d0), Digit(d1), Digit(d2)];
    assert u[..2] == [Digit(d0), Digit(d1)] && u[..2][..1] == [Digit(d0)] && u[..2][..1][..0] == "";
    assert OctalNumber([Digit(d0)]) == d0;
    assert OctalNumber(u[..2]) == 8 * d0 + d1;
    assert b == 64 * d0 + 8 * d1 + d2;
  }

  lemma ReadByte(c: char, rest: string)
    requires c as int < 256
    ensures ReadLiteral(EscapeByte(c) + rest) == Prefixed(c, ReadLiteral(rest))
  {
    var b, t := c as int, EscapeByte(c) + rest;
    if c == '\"' || c == '\\' {
      assert t[2..] == rest;
    } else if 0x20 <= b <= 0x7e {
      assert t[1..] == rest;
    } else {
      OctalDigits(b, rest);
      var u := [Digit(b / 64), Digit(b / 8 % 8), Digit(b % 8)] + rest;
      assert t[1..] == u && t[1..4] == u[..3] && t[4..] == u[3..];
      assert t[0] == '\\' && '0' <= t[1] <= '7';
    }
  }

  /** Every byte string survives: also quotes, backslashes, zero bytes and escapes followed by
      digits. The length argument of the generated expression counts the same bytes. */
  lemma {:induction false} LiteralRoundTrip(s: string)
    requires Bytes(s)
    ensures ReadLiteral(EscapeLiteral(s)) == Bytestring(s)
    decreases |s|
  {
    if s != "" {
      LiteralRoundTrip(s[1..]);
      ReadByte(s[0], EscapeLiteral(s[1..]));
      assert [s[0]] + s[1..] == s;
    }
  }

  lemma {:induction false} EscapeSnoc(s: string, c: char)
    requires Bytes(s) && c as int < 256
    ensures Bytes(s + [c]) && EscapeLiteral(s + [c]) == EscapeLiteral(s) + EscapeByte(c)
    decreases |s|
  {
    if s != "" {
      assert (s + [c])[0] == s[0] && (s + [c])[1..] == s[1..] + [c];
      EscapeSnoc(s[1..], c);
    }
  }

  /** The byte loop of the literal generator. */
  method StringLiteral(value: string) returns (escaped: string, length: nat)
    requires Bytes(value)
    ensures escaped == EscapeLiteral(value) && ReadLiteral(escaped) == Bytestring(value) && length == |value|
  {
    escaped := "";
    for i := 0 to |value|
      invariant escaped == EscapeLiteral(value[..i])
    {
      assert value[..i + 1] == value[..i] + [value[i]];
      EscapeSnoc(value[..i], value[i]);
      escaped := escaped + EscapeByte(value[i]);
    }
    assert value[..|value|] == value;
    LiteralRoundTrip(value);
    length := |value|;
  }

  // ----- JSON strings -----

  /** The escape of one ASCII character (section 7 of RFC 8259), with the short forms. */
  function EscapeJson(c: char): string
    requires c as int < 128
  {
    var b := c as int;
    if c == '\\' then ['\\', '\\']
    else if c == '\"' then ['\\', '\"']
    else if b == 8 then ['\\', 'b']
    else if b == 12 then ['\\', 'f']
    else if b == 10 then ['\\', 'n']
    else if b == 13 then ['\\', 'r']
    else if b == 9 then ['\\', 't']
    else if b < 0x20 then ['\\', 'u', '0', '0', Digit(b / 16), Digit(b % 16)]
    else [c]
  }

  function EscapeAll(s: string): string
    requires Ascii(s)
  {
    if s == "" then "" else EscapeJson(s[0]) + EscapeAll(s[1..])
  }

  /** What the canonicaliser's JSON encoder prints for an ASCII string. */
  function Quote(s: string): string
    requires Ascii(s)
  {
    "\"" + EscapeAll(s) + "\""
  }

  // ----- reading JSON strings -----

  function HexValue(c: char): (r: Option<nat>)
    ensures r.Some? ==> r.value < 16
  {
    if '0' <= c <= '9' then Some(c as nat - '0' as nat)
    else if 'a' <= c <= 'f' then Some(c as nat - 'a' as nat + 10)
    else if 'A' <= c <= 'F' then Some(c as nat - 'A' as nat + 10)
    else None
  }

  /** The character that a letter after the backslash stands for. */
  function Unescaped(c: char): Option<char> {
    if c == '\"' || c == '\\' || c == '/' then Some(c)
    else if c == 'b' then Some(8 as char)
    else if c == 'f' then Some(12 as char)
    else if c == 'n' then Some('\n')
    else if c == 'r' then Some('\r')
    else if c == 't' then Some('\t')
    else None
  }

  /** The text of a JSON string (section 7 of RFC 8259) up to its closing quote; code points past ASCII
      are not read. */
  function ReadString(s: string): Option<string>
    decreases |s|
  {
    if s == "" then None
    else if s[0] == '\"' then if |s| == 1 then Some("") else None
    else if s[0] as int < 0x20 then None
    else if s[0] != '\\' then Before(s[0], ReadString(s[1..]))
    else if |s| >= 6 && s[1] == 'u' then
      var a, b, c, d := HexValue(s[2]), HexValue(s[3]), HexValue(s[4]), HexValue(s[5]);
      if a == Some(0) && b == Some(0) && c.Some? && c.value < 8 && d.Some?
      then Before((16 * c.value + d.value) as char, ReadString(s[6..])) else None
    else if |s| >= 2 && Unescaped(s[1]).Some? then Before(Unescaped(s[1]).value, ReadString(s[2..]))
    else None
  }

  function Before(c: char, rest: Option<string>): Option<string> {
    if rest.None? then None else Some([c] + rest.value)
  }

  function ReadJson(s: string): Option<string> { if s != "" && s[0] == '\"' then ReadString(s[1..]) else None }

  lemma ReadEscape(c: char, rest: string)
    requires c as int < 128
    ensures ReadString(EscapeJson(c) + rest) == Before(c, ReadString(rest))
  {
    var s, b := EscapeJson(c) + rest, c as int;
    if c == '\\' || c == '\"' || b == 8 || b == 12 || b == 10 || b == 13 || b == 9 {
      assert s[2..] == rest;
    } else if b < 0x20 {
      DigitHex(b / 16);
      DigitHex(b % 16);
      assert HexValue('0') == Some(0);
      assert s[6..] == rest && 16 * (b / 16) + b % 16 == b;
    } else {
      assert s[1..] == rest;
    }
  }

  lemma DigitHex(d: nat)
    requires d < 16
    ensures HexValue(Digit(d)) == Some(d)
  {
  }

  lemma {:induction false} EscapesRead(s: string)
    requires Ascii(s)
    ensures ReadString(EscapeAll(s) + "\"") == Some(s)
    decreases |s|
  {
    hide EscapeJson, Unescaped, HexValue;
    if s != "" {
      EscapesRead(s[1..]);
      assert EscapeAll(s) + "\"" == EscapeJson(s[0]) + (EscapeAll(s[1..]) + "\"");
      ReadEscape(s[0], EscapeAll(s[1..]) + "\"");
      assert [s[0]] + s[1..] == s;
    } else {
      assert EscapeAll(s) + "\"" == "\"" && ReadString("\"") == Some("");
    }
  }

  /** A JSON reader gets the string back from its quoted form. */
  lemma QuoteReads(s: string)
    requires Ascii(s)
    ensures ReadJson(Quote(s)) == Some(s)
  {
    EscapesRead(s);
    assert Quote(s) == "\"" + (EscapeAll(s) + "\"");
    assert Quote(s)[1..] == EscapeAll(s) + "\"";
  }

  lemma EscapeHeads(a: char, b: char, x: string, y: string)
    requires a as int < 128 && b as int < 128 && EscapeJson(a) + x == EscapeJson(b) + y
    ensures a == b && x == y
  {
    var s, t := EscapeJson(a) + x, EscapeJson(b) + y;
    assert s[0] == t[0];
    if s[0] == '\\' {
      assert s[1] == t[1];
      if s[1] == 'u' {
        assert s[4] == t[4] && s[5] == t[5];
      }
    }
    assert |EscapeJson(a)| == |EscapeJson(b)|;
    assert x == s[|EscapeJson(a)|..] && y == t[|EscapeJson(b)|..];
  }

  lemma EscapeEmpty(a: string)
    requires Ascii(a)
    ensures EscapeAll(a) == "" <==> a == ""
  {
    if a != "" { assert |EscapeJson(a[0])| > 0; }
  }

  lemma {:induction false} EscapeInjective(a: string, b: string)
    requires Ascii(a) && Ascii(b) && EscapeAll(a) == EscapeAll(b)
    ensures a == b
    decreases |a|
  {
    EscapeEmpty(a);
    EscapeEmpty(b);
    if a != "" && b != "" {
      EscapeHeads(a[0], b[0], EscapeAll(a[1..]), EscapeAll(b[1..]));
      EscapeInjective(a[1..], b[1..]);
      assert a == [a[0]] + a[1..] && b == [b[0]] + b[1..];
    }
  }

  lemma EscapeReads(c: char, rest: string)
    requires c as int < 128
    ensures Read(Scan(0, true, false), EscapeJson(c) + rest) == Read(Scan(0, true, false), rest)
  {
    var w := EscapeJson(c);
    ReadSplit(Scan(0, true, false), w, rest);
    if c as int < 0x20 || c == '\\' || c == '\"' {
      assert w == ['\\'] + ([w[1]] + w[2..]);
      ReadSplit(Scan(0, true, false), ['\\'], [w[1]] + w[2..]);
      ReadChar(Scan(0, true, false), '\\');
      ReadSplit(Scan(0, true, true), [w[1]], w[2..]);
      ReadChar(Scan(0, true, true), w[1]);
      ReadQuoted(w[2..], 0);
    } else {
      ReadChar(Scan(0, true, false), c);
    }
  }

  lemma {:induction false} QuotedReads(s: string)
    requires Ascii(s)
    ensures Read(Scan(0, true, false), EscapeAll(s)) == Some(Scan(0, true, false))
    decreases |s|
  {
    if s != "" {
      QuotedReads(s[1..]);
      EscapeReads(s[0], EscapeAll(s[1..]));
    }
  }

  /** Quoted strings are self-delimiting whatever they contain, and different strings have
      different quotations. */
  lemma QuoteExact(a: string, b: string)
    requires Ascii(a) && Ascii(b)
    ensures Token(Quote(a)) && (Quote(a) == Quote(b) <==> a == b)
  {
    var e := EscapeAll(a);
    QuotedReads(a);
    assert Quote(a) == "\"" + (e + "\"");
    ReadSplit(TOP, "\"", e + "\"");
    ReadChar(TOP, '\"');
    ReadSplit(Scan(0, true, false), e, "\"");
    ReadChar(Scan(0, true, false), '\"');
    if Quote(a) == Quote(b) {
      assert e == Quote(a)[1..|Quote(a)| - 1] && EscapeAll(b) == Quote(b)[1..|Quote(b)| - 1];
      EscapeInjective(a, b);
    }
  }

  lemma {:induction false} EscapeAllSnoc(s: string, c: char)
    requires Ascii(s) && c as int < 128
    ensures Ascii(s + [c]) && EscapeAll(s + [c]) == EscapeAll(s) + EscapeJson(c)
    decreases |s|
  {
    if s != "" {
      assert (s + [c])[0] == s[0] && (s + [c])[1..] == s[1..] + [c];
      EscapeAllSnoc(s[1..], c);
    }
  }

  /** One round of the generated program's escaping loop. */
  method AppendEscaped(before: string, ch: char) returns (out: string)
    requires ch as int < 128
    ensures out == before + EscapeJson(ch)
  {
    var b := ch as int;
    if ch == '\\' { out := before + "\\\\"; }
    else if ch == '\"' { out := before + "\\\""; }
    else if ch == '\n' { out := before + "\\n"; }
    else if ch == '\r' { out := before + "\\r"; }
    else if ch == '\t' { out := before + "\\t"; }
    else if b == 8 { out := before + "\\b"; }
    else if b == 12 { out := before + "\\f"; }
    else if b < 0x20 {
      out := before + "\\u00";
      out := out + [Digit(b / 16)];
      out := out + [Digit(b % 16)];
    } else { out := before + [ch]; }
  }

  /** The generated program's string serializer prints what the canonicaliser expects. */
  method EscapeJsonString(value: string) returns (out: string)
    requires Ascii(value)
    ensures out == Quote(value)
  {
    out := "\"";
    for i := 0 to |value|
      invariant out == "\"" + EscapeAll(value[..i])
    {
      assert value[..i + 1] == value[..i] + [value[i]];
      EscapeAllSnoc(value[..i], value[i]);
      out := AppendEscaped(out, value[i]);
    }
    assert value[..|value|] == value;
    out := out + "\"";
  }
}
