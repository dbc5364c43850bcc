/** Comma-joined canonical text and the scanner argument that makes it unambiguous. */
module Text {
  import opened Options

  /** How far a left-to-right reader of JSON text has got. */
  datatype Scan = Scan(depth: nat, quoted: bool, escaped: bool)

  const TOP := Scan(0, false, false)

  /** Reads one character; a top-level comma or closer ends the current value and is refused. */
  function Next(st: Scan, c: char): Option<Scan> {
    if st.quoted then
      if st.escaped then Some(st.(escaped := false))
      else if c == '\\' then Some(st.(escaped := true))
      else if c == '\"' then Some(st.(quoted := false))
      else Some(st)
    else if c == '\"' then Some(st.(quoted := true, escaped := false))
    else if c == '[' || c == '{' then Some(st.(depth := st.depth + 1))
    else if c == ']' || c == '}' then if st.depth == 0 then None else Some(st.(depth := st.depth - 1))
    else if c == ',' && st.depth == 0 then None
    else Some(st)
  }

  function Read(st: Scan, w: string): Option<Scan>
    decreases |w|
  {
    if w == "" then Some(st)
    else match Next(st, w[0])
      case None => None
      case Some(next) => Read(next, w[1..])
  }

  /** Self-delimiting text: brackets and quotes balance and no comma is exposed. */
  predicate Token(w: string) {
    w != "" && Read(TOP, w) == Some(TOP)
  }

  predicate Tokens(parts: seq<string>) {
    forall i :: 0 <= i < |parts| ==> Token(parts[i])
  }

  lemma {:induction false} ReadSplit(st: Scan, a: string, b: string)
    ensures Read(st, a + b) == match Read(st, a) case None => None case Some(mid) => Read(mid, b)
    decreases |a|
  {
    if a == "" {
      assert a + b == b;
    } else {
      assert (a + b)[0] == a[0] && (a + b)[1..] == a[1..] + b;
      match Next(st, a[0])
      case None =>
      case Some(next) => ReadSplit(next, a[1..], b);
    }
  }

  /** A value that balances at the top level balances at every depth. */
  lemma {:induction false} ReadDeeper(st: Scan, w: string, k: nat)
    requires Read(st, w).Some?
    ensures Read(st.(depth := st.depth + k), w) ==
            Some(Read(st, w).value.(depth := Read(st, w).value.depth + k))
    decreases |w|
  {
    if w != "" {
      ReadDeeper(Next(st, w[0]).value, w[1..], k);
    }
  }

  lemma ReadToken(k: nat, w: string)
    requires Token(w)
    ensures Read(Scan(k, false, false), w) == Some(Scan(k, false, false))
  {
    ReadDeeper(TOP, w, k);
  }

  lemma ReadChar(st: Scan, c: char)
    ensures Read(st, [c]) == Next(st, c)
  {
    assert [c][1..] == "";
    match Next(st, c)
    case None =>
    case Some(next) => assert Read(next, [c][1..]) == Some(next);
  }

  lemma ConcatToken(a: string, b: string)
    requires Token(a) && Token(b)
    ensures Token(a + b)
  {
    ReadSplit(TOP, a, b);
  }

  predicate Plain(w: string) {
    forall i :: 0 <= i < |w| ==> w[i] !in "\",[]{}"
  }

  lemma {:induction false} ReadPlain(w: string)
    requires Plain(w)
    ensures Read(TOP, w) == Some(TOP)
    decreases |w|
  {
    if w != "" {
      assert w[0] !in "\",[]{}";
      ReadPlain(w[1..]);
    }
  }

  lemma PlainToken(w: string)
    requires w != "" && Plain(w)
    ensures Token(w)
  {
    ReadPlain(w);
  }

  // ----- joining -----

  function Join(parts: seq<string>): string {
    if parts == [] then ""
    else if |parts| == 1 then parts[0]
    else parts[0] + "," + Join(parts[1..])
  }

  /** A token is never a proper prefix of another token followed by a comma. */
  lemma TokenNotSplit(a: string, b: string, rest: string)
    requires Token(a) && Token(b)
    ensures a != b + "," + rest
  {
    assert b + "," + rest == b + ("," + rest);
    assert ("," + rest)[0] == ',';
    ReadSplit(TOP, b, "," + rest);
  }

  lemma TokenHeadsAgree(a: string, x: string, b: string, y: string)
    requires Token(a) && Token(b) && a + "," + x == b + "," + y
    ensures a == b && x == y
  {
    if |a| < |b| {
      assert b == (a + "," + x)[..|b|];
      assert b == a + "," + x[..|b| - |a| - 1];
      TokenNotSplit(b, a, x[..|b| - |a| - 1]);
    } else if |b| < |a| {
      assert a == (b + "," + y)[..|a|];
      assert a == b + "," + y[..|a| - |b| - 1];
      TokenNotSplit(a, b, y[..|a| - |b| - 1]);
    } else {
      assert a == (a + "," + x)[..|a|] == (b + "," + y)[..|a|] == b;
      assert x == (a + "," + x)[|a| + 1..] == (b + "," + y)[|a| + 1..] == y;
    }
  }

  /** Joined token lists can be taken apart in one way only, whatever their lengths. */
  lemma {:induction false} JoinInjective(a: seq<string>, b: seq<string>)
    requires Tokens(a) && Tokens(b) && Join(a) == Join(b)
    ensures a == b
    decreases |a|
  {
    assert (a != [] ==> a[0] != "") && (b != [] ==> b[0] != "");
    if a == [] || b == [] {
    } else if |a| == 1 && |b| > 1 {
      TokenNotSplit(a[0], b[0], Join(b[1..]));
    } else if |a| > 1 && |b| == 1 {
      TokenNotSplit(b[0], a[0], Join(a[1..]));
    } else if |a| > 1 && |b| > 1 {
      TokenHeadsAgree(a[0], Join(a[1..]), b[0], Join(b[1..]));
      JoinInjective(a[1..], b[1..]);
      assert a == [a[0]] + a[1..] && b == [b[0]] + b[1..];
    }
  }

  lemma {:induction false} ReadJoin(k: nat, parts: seq<string>)
    requires k > 0 && Tokens(parts)
    ensures Read(Scan(k, false, false), Join(parts)) == Some(Scan(k, false, false))
    decreases |parts|
  {
    var here := Scan(k, false, false);
    if parts != [] {
      ReadToken(k, parts[0]);
      if |parts| > 1 {
        ReadSplit(here, parts[0] + ",", Join(parts[1..]));
        ReadSplit(here, parts[0], ",");
        ReadChar(here, ',');
        ReadJoin(k, parts[1..]);
      }
    }
  }

  /** Appending one more part, the way the printers' loops build the text. */
  lemma {:induction false} JoinSnoc(parts: seq<string>, w: string)
    ensures Join(parts + [w]) == if parts == [] then w else Join(parts) + "," + w
    decreases |parts|
  {
    if |parts| > 0 {
      assert (parts + [w])[1..] == parts[1..] + [w];
      JoinSnoc(parts[1..], w);
    }
  }

  /** An object key with its colon. */
  function Key(name: string): string { "\"" + name + "\":" }

  lemma {:induction false} ReadQuoted(w: string, k: nat)
    requires forall i :: 0 <= i < |w| ==> w[i] != '\"' && w[i] != '\\'
    ensures Read(Scan(k, true, false), w) == Some(Scan(k, true, false))
    decreases |w|
  {
    if w != "" { ReadQuoted(w[1..], k); }
  }

  lemma SamePrefix(k: string, x: string, y: string)
    ensures k + x == k + y <==> x == y
  {
    if k + x == k + y { assert x == (k + x)[|k|..] && y == (k + y)[|k|..]; }
  }

  lemma KeyToken(name: string)
    requires forall i :: 0 <= i < |name| ==> name[i] != '\"' && name[i] != '\\'
    ensures Token(Key(name))
  {
    var q := Scan(0, true, false);
    ReadQuoted(name, 0);
    ReadChar(TOP, '\"'); ReadChar(q, '\"'); ReadChar(TOP, ':');
    ReadSplit(q, "\"", ":");
    ReadSplit(q, name, "\":");
    assert "\":" == "\"" + ":";
    ReadSplit(TOP, "\"", name + "\":");
    assert Key(name) == "\"" + (name + "\":");
  }

  /** One round of every printing loop: a comma unless this is the first part, then the part. */
  method AppendPart(before: string, ghost opening: string, ghost parts: seq<string>, comma: bool, part: string)
    returns (out: string)
    requires before == opening + Join(parts) && comma == (parts != [])
    ensures out == opening + Join(parts + [part])
  {
    JoinSnoc(parts, part);
    Regroup(opening, Join(parts), ",", part);
    out := before;
    if comma { out := out + ","; }
    out := out + part;
    assert !comma ==> before + part == opening + part;
  }

  lemma Regroup(a: string, b: string, c: string, d: string)
    ensures a + b + c + d == a + (b + c + d)
  {
  }

  function Array(parts: seq<string>): string { "[" + Join(parts) + "]" }

  function Object(fields: seq<string>): string { "{" + Join(fields) + "}" }

  /** An object of two array fields, as one flat concatenation. */
  lemma TwoArrays(k: string, x: string, l: string, y: string)
    ensures Object([k + ("[" + x + "]"), l + ("[" + y + "]")])
         == ("{" + k + "[") + x + ("]" + "," + l + "[") + y + ("]" + "}")
  {
    var a, b := k + ("[" + x + "]"), l + ("[" + y + "]");
    assert [a, b][1..] == [b];
    assert Join([a, b]) == a + "," + b;
  }

  lemma EnclosedToken(parts: seq<string>)
    requires Tokens(parts)
    ensures Token(Array(parts)) && Token(Object(parts))
  {
    var inside := Scan(1, false, false);
    ReadJoin(1, parts);
    ReadChar(TOP, '['); ReadChar(TOP, '{'); ReadChar(inside, ']'); ReadChar(inside, '}');
    ReadSplit(inside, Join(parts), "]"); ReadSplit(inside, Join(parts), "}");
    ReadSplit(TOP, "[", Join(parts) + "]"); ReadSplit(TOP, "{", Join(parts) + "}");
    assert Array(parts) == "[" + (Join(parts) + "]");
    assert Object(parts) == "{" + (Join(parts) + "}");
  }

  lemma ArrayInjective(a: seq<string>, b: seq<string>)
    requires Tokens(a) && Tokens(b)
    ensures Array(a) == Array(b) <==> a == b
    ensures Object(a) == Object(b) <==> a == b
  {
    if Array(a) == Array(b) {
      assert Join(a) == Array(a)[1..|Array(a)| - 1];
      assert Join(b) == Array(b)[1..|Array(b)| - 1];
      JoinInjective(a, b);
    }
    if Object(a) == Object(b) {
      assert Join(a) == Object(a)[1..|Object(a)| - 1];
      assert Join(b) == Object(b)[1..|Object(b)| - 1];
      JoinInjective(a, b);
    }
  }

  // ----- decimal integers -----

  function DigitChar(d: nat): (c: char)
    requires d < 10
    ensures '0' <= c <= '9' && c as int == '0' as int + d
  {
    ('0' as int + d) as char
  }

  function Decimal(n: nat): (s: string)
    ensures s != "" && forall i :: 0 <= i < |s| ==> '0' <= s[i] <= '9'
  {
    if n < 10 then [DigitChar(n)] else Decimal(n / 10) + [DigitChar(n % 10)]
  }

  /** Go's strconv.FormatInt and C++'s to_string agree on this form. */
  function Int10(n: int): string {
    if n < 0 then "-" + Decimal(-n) else Decimal(n)
  }

  function DecimalValue(s: string): int {
    if s == "" then 0 else 10 * DecimalValue(s[..|s| - 1]) + (s[|s| - 1] as int - '0' as int)
  }

  lemma {:induction false} DecimalRoundTrip(n: nat)
    ensures DecimalValue(Decimal(n)) == n
  {
    var head := if n < 10 then "" else Decimal(n / 10);
    var s := head + [DigitChar(n % 10)];
    assert s == Decimal(n) && s[..|s| - 1] == head;
    if n >= 10 { DecimalRoundTrip(n / 10); }
  }

  lemma Int10Injective(m: int, n: int)
    ensures Int10(m) == Int10(n) <==> m == n
  {
    DecimalRoundTrip(if m < 0 then -m else m);
    DecimalRoundTrip(if n < 0 then -n else n);
    var a, b := Int10(m), Int10(n);
    assert m < 0 ==> a[0] == '-' && Decimal(-m) == a[1..];
    assert n < 0 ==> b[0] == '-' && Decimal(-n) == b[1..];
    assert m >= 0 ==> '0' <= a[0];
    assert n >= 0 ==> '0' <= b[0];
  }

  lemma Int10Token(n: int)
    ensures Token(Int10(n))
  {
    var s := Decimal(if n < 0 then -n else n);
    forall i | 0 <= i < |s| ensures s[i] !in "\",[]{}" {
      assert '0' <= s[i] <= '9';
    }
    assert n < 0 ==> Plain("-" + s);
    PlainToken(Int10(n));
  }

  function Ints(values: seq<int>): (parts: seq<string>)
    ensures |parts| == |values| && forall i :: 0 <= i < |values| ==> parts[i] == Int10(values[i])
  {
    seq(|values|, i requires 0 <= i < |values| => Int10(values[i]))
  }

  lemma IntsInjective(a: seq<int>, b: seq<int>)
    ensures Tokens(Ints(a)) && Token(Array(Ints(a)))
    ensures Array(Ints(a)) == Array(Ints(b)) <==> a == b
  {
    forall i | 0 <= i < |a| ensures Token(Ints(a)[i]) { Int10Token(a[i]); }
    forall i | 0 <= i < |b| ensures Token(Ints(b)[i]) { Int10Token(b[i]); }
    EnclosedToken(Ints(a));
    ArrayInjective(Ints(a), Ints(b));
    if Ints(a) == Ints(b) {
      forall i | 0 <= i < |a| ensures a[i] == b[i] { Int10Injective(a[i], b[i]); assert Ints(a)[i] == Ints(b)[i]; }
    }
  }

  predicate Int32(n: int) { -0x8000_0000 <= n < 0x8000_0000 }

  /** An integer or null, as trees and random lists print them. */
  function Item(x: Option<int>): string { if x.None? then "null" else Int10(x.value) }

  function Items(v: seq<Option<int>>): (parts: seq<string>)
    ensures |parts| == |v| && forall i :: 0 <= i < |v| ==> parts[i] == Item(v[i])
  {
    seq(|v|, i requires 0 <= i < |v| => Item(v[i]))
  }

  lemma Int10Head(n: int)
    ensures Int10(n) != "" && Int10(n)[0] != 'n'
  {
    if n < 0 { assert Int10(n)[0] == '-'; } else { assert '0' <= Int10(n)[0] <= '9'; }
  }

  lemma ItemInjective(a: Option<int>, b: Option<int>)
    ensures Token(Item(a)) && (Item(a) == Item(b) <==> a == b)
  {
    assert Plain("null");
    PlainToken("null");
    assert "null"[0] == 'n';
    if a.Some? { Int10Token(a.value); Int10Head(a.value); }
    if b.Some? { Int10Head(b.value); }
    if a.Some? && b.Some? { Int10Injective(a.value, b.value); }
  }

  lemma ItemsInjective(a: seq<Option<int>>, b: seq<Option<int>>)
    ensures Tokens(Items(a)) && Token(Array(Items(a)))
    ensures Array(Items(a)) == Array(Items(b)) <==> a == b
  {
    forall i | 0 <= i < |a| ensures Token(Items(a)[i]) { ItemInjective(a[i], a[i]); }
    forall i | 0 <= i < |b| ensures Token(Items(b)[i]) { ItemInjective(b[i], b[i]); }
    EnclosedToken(Items(a));
    ArrayInjective(Items(a), Items(b));
    if Items(a) == Items(b) {
      forall i | 0 <= i < |a| ensures a[i] == b[i] { ItemInjective(a[i], b[i]); assert Items(a)[i] == Items(b)[i]; }
    }
  }
}
