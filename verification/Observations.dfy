/** Observation documents: the generated driver prints one, the judge computes the expected
    one, and the two strings are compared. */
module Observations {
  import opened Options
  import opened Text

  datatype Observation = Return | Parameter(index: nat)

  /** What a job observes: its observations in order and how many postconditions it has. */
  datatype Spec = Spec(observations: seq<Observation>, postconditions: nat)

  function Indices(obs: seq<Observation>): seq<nat> {
    if obs == [] then []
    else (if obs[0].Parameter? then [obs[0].index] else []) + Indices(obs[1..])
  }

  predicate HasReturn(spec: Spec) { spec.observations == [] || Return in spec.observations }

  predicate Bare(spec: Spec) { spec.observations == [] && spec.postconditions == 0 }

  function Entry(key: nat, text: string): string { Key(Decimal(key)) + text }

  function Entries(keys: seq<nat>, texts: seq<string>): (parts: seq<string>)
    requires |keys| == |texts|
    ensures |parts| == |keys| && forall i :: 0 <= i < |keys| ==> parts[i] == Entry(keys[i], texts[i])
  {
    seq(|keys|, i requires 0 <= i < |keys| => Entry(keys[i], texts[i]))
  }

  function UpTo(n: nat): (s: seq<nat>)
    ensures |s| == n && forall i :: 0 <= i < n ==> s[i] == i
  {
    seq(n, i => i)
  }

  function Section(name: string, keys: seq<nat>, texts: seq<string>): seq<string>
    requires |keys| == |texts|
  {
    if keys == [] then [] else [Key(name) + Object(Entries(keys, texts))]
  }

  function Fields(spec: Spec, result: string, params: seq<string>, posts: seq<string>): seq<string>
    requires |params| == |Indices(spec.observations)| && |posts| == spec.postconditions
  {
    (if HasReturn(spec) then [Key("return") + result] else [])
    + Section("parameter", Indices(spec.observations), params)
    + Section("postconditions", UpTo(spec.postconditions), posts)
  }

  /** The document for given canonical texts of the result, the observed parameters and the
      postconditions. */
  function Document(spec: Spec, result: string, params: seq<string>, posts: seq<string>): string
    requires |params| == |Indices(spec.observations)| && |posts| == spec.postconditions
  {
    if Bare(spec) then result else Object(Fields(spec, result, params, posts))
  }

  function Comma(wanted: bool): string { if wanted then "," else "" }

  /** The document written out: the result, the observed parameters under their numbers, and the
      postconditions under theirs, in this order, each only if there is one. With nothing to observe
      the result stands alone. */
  lemma DocumentLayout(spec: Spec, result: string, params: seq<string>, posts: seq<string>)
    requires |params| == |Indices(spec.observations)| && |posts| == spec.postconditions
    ensures HasReturn(spec) <==>
            |spec.observations| == 0 || exists i :: 0 <= i < |spec.observations| && spec.observations[i].Return?
    ensures Document(spec, result, params, posts) ==
            if |spec.observations| == 0 && |posts| == 0 then result else
              "{" + (
                (if HasReturn(spec) then "\"return\":" + result else "")
                + Comma(HasReturn(spec) && |params| > 0)
                + (if |params| > 0 then "\"parameter\":{" + Join(Entries(Indices(spec.observations), params)) + "}"
                   else "")
                + Comma((HasReturn(spec) || |params| > 0) && |posts| > 0)
                + (if |posts| > 0 then "\"postconditions\":{" + Join(Entries(UpTo(|posts|), posts)) + "}" else "")
              ) + "}"
  {
    hide Join, Entries, Decimal, Comma;
    var keys, numbers := Indices(spec.observations), UpTo(spec.postconditions);
    KeyedText("return", "\"return\":", result);
    KeyedObject("parameter", "\"parameter\":{", Join(Entries(keys, params)));
    KeyedObject("postconditions", "\"postconditions\":{", Join(Entries(numbers, posts)));
    var a, b, c := Key("return") + result, Key("parameter") + Object(Entries(keys, params)),
                   Key("postconditions") + Object(Entries(numbers, posts));
    assert Fields(spec, result, params, posts) == Chosen(HasReturn(spec), a) + Chosen(keys != [],
             b) + Chosen(numbers != [], c);
    JoinChosen(HasReturn(spec), a, keys != [], b, numbers != [], c);
  }

  lemma KeyedText(name: string, prefix: string, text: string)
    requires prefix == Key(name)
    ensures Key(name) + text == prefix + text
  {
  }

  lemma KeyedObject(name: string, prefix: string, text: string)
    requires prefix == Key(name) + "{"
    ensures Key(name) + ("{" + text + "}") == prefix + text + "}"
  {
  }

  function Chosen(wanted: bool, part: string): seq<string> { if wanted then [part] else [] }

  lemma JoinChosen(x: bool, a: string, y: bool, b: string, z: bool, c: string)
    ensures Join(Chosen(x, a) + Chosen(y, b) + Chosen(z, c)) ==
            (if x then a else "") + Comma(x && y) + (if y then b else "") + Comma((x || y) && z) + (if z then c else "")
  {
    ChosenJoin(x, a);
    ChosenJoin(y, b);
    ChosenJoin(z, c);
    hide Join;
    JoinAppend(Chosen(x, a), Chosen(y, b));
    JoinAppend(Chosen(x, a) + Chosen(y, b), Chosen(z, c));
  }

  lemma ChosenJoin(wanted: bool, part: string)
    ensures Join(Chosen(wanted, part)) == if wanted then part else ""
  {
  }

  lemma {:induction false} JoinAppend(a: seq<string>, b: seq<string>)
    ensures Join(a + b) == Join(a) + Comma(a != [] && b != []) + Join(b)
    decreases |b|
  {
    hide Join;
    JoinEmpty();
    if b == [] {
      assert a + b == a;
    } else {
      var c, x := b[..|b| - 1], b[|b| - 1];
      assert b == c + [x] && a + b == (a + c) + [x];
      JoinSnoc(a + c, x);
      JoinSnoc(c, x);
      if c == [] {
        assert a + c == a;
      } else {
        JoinAppend(a, c);
        MoveComma(Join(a), Comma(a != []), Join(c), x);
      }
    }
  }

  lemma MoveComma(a: string, b: string, c: string, x: string)
    ensures (a + b + c) + "," + x == a + b + (c + "," + x)
  {
  }

  lemma JoinEmpty()
    ensures Join([]) == ""
  {
  }

  /** An entry is the number in quotes, a colon, and the text. */
  lemma EntryLayout(key: nat, text: string)
    ensures Entry(key, text) == "\"" + Decimal(key) + "\":" + text
  {
  }

  function Flag(b: bool): string { if b then "true" else "false" }

  // ----- injectivity -----

  lemma DigitsPlain(n: nat)
    ensures forall i :: 0 <= i < |Decimal(n)| ==> Decimal(n)[i] != '\"' && Decimal(n)[i] != '\\'
  {
    var s := Decimal(n);
    forall i | 0 <= i < |s| ensures s[i] != '\"' && s[i] != '\\' { assert '0' <= s[i] <= '9'; }
  }

  lemma EntryToken(key: nat, text: string)
    requires Token(text)
    ensures Token(Entry(key, text))
  {
    DigitsPlain(key);
    KeyToken(Decimal(key));
    ConcatToken(Key(Decimal(key)), text);
  }

  lemma EntriesInjective(keys: seq<nat>, a: seq<string>, b: seq<string>)
    requires |keys| == |a| == |b| && Tokens(a) && Tokens(b)
    ensures Tokens(Entries(keys, a)) && Token(Object(Entries(keys, a)))
    ensures Object(Entries(keys, a)) == Object(Entries(keys, b)) <==> a == b
  {
    forall i | 0 <= i < |a| ensures Token(Entries(keys, a)[i]) { EntryToken(keys[i], a[i]); }
    forall i | 0 <= i < |b| ensures Token(Entries(keys, b)[i]) { EntryToken(keys[i], b[i]); }
    EnclosedToken(Entries(keys, a));
    ArrayInjective(Entries(keys, a), Entries(keys, b));
    if Entries(keys, a) == Entries(keys, b) {
      forall i | 0 <= i < |a| ensures a[i] == b[i] {
        assert Entries(keys, a)[i] == Entries(keys, b)[i];
        SamePrefix(Key(Decimal(keys[i])), a[i], b[i]);
      }
    }
  }

  lemma SectionInjective(name: string, keys: seq<nat>, a: seq<string>, b: seq<string>)
    requires |keys| == |a| == |b| && Tokens(a) && Tokens(b) && Token(Key(name))
    ensures Tokens(Section(name, keys, a)) && |Section(name, keys, a)| == |Section(name, keys, b)|
    ensures Section(name, keys, a) == Section(name, keys, b) <==> a == b
  {
    EntriesInjective(keys, a, b);
    var x, y := Object(Entries(keys, a)), Object(Entries(keys, b));
    ConcatToken(Key(name), x);
    SamePrefix(Key(name), x, y);
    if keys != [] && Section(name, keys, a) == Section(name, keys, b) {
      assert Section(name, keys, a)[0] == Section(name, keys, b)[0];
    }
  }

  function Flags(posts: seq<bool>): (texts: seq<string>)
    ensures |texts| == |posts| && forall i :: 0 <= i < |posts| ==> texts[i] == Flag(posts[i])
  {
    seq(|posts|, i requires 0 <= i < |posts| => Flag(posts[i]))
  }

  function Trues(n: nat): (texts: seq<string>)
    ensures |texts| == n && forall i :: 0 <= i < n ==> texts[i] == "true"
  {
    seq(n, i => "true")
  }

  lemma FlagsExact(posts: seq<bool>)
    ensures Tokens(Flags(posts)) && Tokens(Trues(|posts|))
    ensures Flags(posts) == Trues(|posts|) <==> forall i :: 0 <= i < |posts| ==> posts[i]
  {
    assert Plain("true") && Plain("false") && "true"[0] != "false"[0];
    PlainToken("true");
    PlainToken("false");
    if Flags(posts) == Trues(|posts|) {
      forall i | 0 <= i < |posts| ensures posts[i] { assert Flags(posts)[i] == Trues(|posts|)[i]; }
    }
  }

  function ReturnPart(spec: Spec, result: string): seq<string> {
    if HasReturn(spec) then [Key("return") + result] else []
  }

  lemma ReturnInjective(spec: Spec, a: string, b: string)
    requires HasReturn(spec) ==> Token(a) && Token(b)
    ensures Tokens(ReturnPart(spec, a)) && |ReturnPart(spec, a)| == |ReturnPart(spec, b)|
    ensures ReturnPart(spec, a) == ReturnPart(spec, b) <==> (HasReturn(spec) ==> a == b)
  {
    KeyToken("return");
    if HasReturn(spec) {
      ConcatToken(Key("return"), a);
      SamePrefix(Key("return"), a, b);
      if ReturnPart(spec, a) == ReturnPart(spec, b) { assert ReturnPart(spec, a)[0] == ReturnPart(spec, b)[0]; }
    }
  }

  lemma SplitEqual<T>(a: seq<T>, b: seq<T>, c: seq<T>, x: seq<T>, y: seq<T>, z: seq<T>)
    requires |a| == |x| && |b| == |y| && |c| == |z|
    ensures a + b + c == x + y + z <==> a == x && b == y && c == z
  {
    if a + b + c == x + y + z {
      assert a == (a + b + c)[..|a|] && x == (x + y + z)[..|a|];
      assert b == (a + b + c)[|a|..|a| + |b|] && y == (x + y + z)[|a|..|a| + |b|];
      assert c == (a + b + c)[|a| + |b|..] && z == (x + y + z)[|a| + |b|..];
    }
  }

  lemma FieldsInjective(spec: Spec, r: string, p: seq<string>, q: seq<string>, s: string, p': seq<string>,
                        q': seq<string>)
    requires |p| == |p'| == |Indices(spec.observations)| && |q| == |q'| == spec.postconditions
    requires Tokens(p) && Tokens(p') && Tokens(q) && Tokens(q') && (HasReturn(spec) ==> Token(r) && Token(s))
    ensures Tokens(Fields(spec, r, p, q))
    ensures Fields(spec, r, p, q) == Fields(spec, s, p', q') <==> (HasReturn(spec) ==> r == s) && p == p' && q == q'
  {
    var keys, numbers := Indices(spec.observations), UpTo(spec.postconditions);
    ReturnInjective(spec, r, s);
    KeyToken("parameter");
    KeyToken("postconditions");
    SectionInjective("parameter", keys, p, p');
    SectionInjective("postconditions", numbers, q, q');
    SplitEqual(ReturnPart(spec, r), Section("parameter", keys, p), Section("postconditions", numbers, q),
               ReturnPart(spec, s), Section("parameter", keys, p'), Section("postconditions", numbers, q'));
  }

  /** The comparison of documents decides equality: the strings are equal exactly when the
      result and every observed parameter agree and every postcondition holds. */
  lemma DocumentExact(spec: Spec, result: string, params: seq<string>, posts: seq<bool>, wanted: string,
                      wantedParams: seq<string>)
    requires |params| == |wantedParams| == |Indices(spec.observations)| && |posts| == spec.postconditions
    requires Tokens(params) && Tokens(wantedParams) && (HasReturn(spec) ==> Token(result) && Token(wanted))
    ensures Document(spec, result, params, Flags(posts)) == Document(spec, wanted, wantedParams, Trues(|posts|)) <==>
            (HasReturn(spec) ==> result == wanted) && params == wantedParams &&
            forall i :: 0 <= i < |posts| ==> posts[i]
  {
    FlagsExact(posts);
    FieldsInjective(spec, result, params, Flags(posts), wanted, wantedParams, Trues(|posts|));
    FieldsInjective(spec, wanted, wantedParams, Trues(|posts|), result, params, Flags(posts));
    ArrayInjective(Fields(spec, result, params, Flags(posts)), Fields(spec, wanted, wantedParams, Trues(|posts|)));
  }

  // ----- the printers -----

  lemma EntriesSnoc(keys: seq<nat>, texts: seq<string>, i: nat)
    requires |keys| == |texts| && i < |keys|
    ensures Join(Entries(keys[..i + 1], texts[..i + 1])) ==
            Join(Entries(keys[..i], texts[..i])) + (if i > 0 then "," else "") + Entry(keys[i], texts[i])
  {
    assert Entries(keys[..i + 1], texts[..i + 1]) == Entries(keys[..i], texts[..i]) + [Entry(keys[i], texts[i])];
    JoinSnoc(Entries(keys[..i], texts[..i]), Entry(keys[i], texts[i]));
  }

  /** The loop that prints numbered entries, separated by commas. */
  method PrintEntries(keys: seq<nat>, texts: seq<string>) returns (out: string)
    requires |keys| == |texts|
    ensures out == Join(Entries(keys, texts))
  {
    hide Decimal;
    out := "";
    assert keys[..0] == [] && texts[..0] == [];
    for i := 0 to |keys|
      invariant out == Join(Entries(keys[..i], texts[..i]))
    {
      EntriesSnoc(keys, texts, i);
      if i > 0 { out := out + ","; }
      out := out + Entry(keys[i], texts[i]);
    }
    assert keys[..|keys|] == keys && texts[..|keys|] == texts;
  }

  method PrintSection(name: string, keys: seq<nat>, texts: seq<string>) returns (out: string)
    requires |keys| == |texts|
    ensures out == Key(name) + Object(Entries(keys, texts))
  {
    var entries := PrintEntries(keys, texts);
    out := Key(name) + ("{" + entries + "}");
  }

  method AddField(before: string, comma: bool, field: string, ghost fields: seq<string>) returns (out: string)
    requires before == "{" + Join(fields) && comma == (fields != [])
    ensures out == "{" + Join(fields + [field])
  {
    JoinSnoc(fields, field);
    out := before;
    if comma { out := out + ","; }
    out := out + field;
  }

  lemma {:induction false} IndicesSnoc(obs: seq<Observation>, o: Observation)
    ensures Indices(obs + [o]) == Indices(obs) + if o.Parameter? then [o.index] else []
    decreases |obs|
  {
    if obs != [] {
      assert (obs + [o])[0] == obs[0] && (obs + [o])[1..] == obs[1..] + [o];
      IndicesSnoc(obs[1..], o);
    }
  }

  /** The observed parameters are those of the parameter observations. */
  lemma {:induction false} IndicesMembers(obs: seq<Observation>)
    ensures forall k: nat :: k in Indices(obs) <==> Parameter(k) in obs
    decreases |obs|
  {
    if obs != [] {
      IndicesMembers(obs[1..]);
      assert obs == [obs[0]] + obs[1..];
    }
  }

  /** What the generated driver prints. */
  method DriverDocument(spec: Spec, result: string, params: seq<string>, posts: seq<bool>) returns (out: string)
    requires |params| == |Indices(spec.observations)| && |posts| == spec.postconditions
    ensures out == Document(spec, result, params, Flags(posts))
  {
    if |spec.observations| == 0 && spec.postconditions == 0 { return result; }
    var returnObservation := |spec.observations| == 0;
    var indices: seq<nat> := [];
    for i := 0 to |spec.observations|
      invariant returnObservation == (|spec.observations| == 0 || Return in spec.observations[..i])
      invariant indices == Indices(spec.observations[..i])
    {
      var o := spec.observations[i];
      assert spec.observations[..i + 1] == spec.observations[..i] + [o];
      IndicesSnoc(spec.observations[..i], o);
      if o.Return? { returnObservation := true; } else { indices := indices + [o.index]; }
    }
    assert spec.observations[..|spec.observations|] == spec.observations;
    out := PrintFields(spec, returnObservation, result, indices, params, UpTo(|posts|), Flags(posts));
  }

  /** Both printers write the fields in the same order. */
  method PrintFields(spec: Spec, observed: bool, result: string, indices: seq<nat>, params: seq<string>,
                     numbers: seq<nat>, posts: seq<string>) returns (out: string)
    requires observed == HasReturn(spec) && indices == Indices(spec.observations) &&
             numbers == UpTo(spec.postconditions)
    requires |params| == |indices| && |posts| == spec.postconditions
    ensures out == Object(Fields(spec, result, params, posts))
  {
    hide Join, Decimal;
    ghost var fields: seq<string> := [];
    out := "{";
    JoinNothing();
    if observed {
      out := AddField(out, false, Key("return") + result, fields);
      fields := fields + [Key("return") + result];
    }
    if |indices| > 0 {
      var section := PrintSection("parameter", indices, params);
      out := AddField(out, observed, section, fields);
      fields := fields + [section];
    }
    if |numbers| > 0 {
      var section := PrintSection("postconditions", numbers, posts);
      out := AddField(out, observed || |indices| > 0, section, fields);
      fields := fields + [section];
    }
    assert fields == Fields(spec, result, params, posts);
    out := out + "}";
  }

  lemma JoinNothing()
    ensures "{" + Join([]) == "{"
  {
  }

  // ----- the expected document -----

  /** The canonical texts in a test case's expectation; a part that is missing or malformed
      is None. */
  datatype Expectation = Expectation(whole: Option<string>, result: Option<string>, params: Option<map<nat, string>>)

  predicate Complete(spec: Spec, e: Expectation) {
    if spec.observations == [] then e.whole.Some?
    else (HasReturn(spec) ==> e.result.Some?)
         && (Indices(spec.observations) != [] ==>
               e.params.Some? && forall i :: 0 <= i < |Indices(spec.observations)| ==>
                   Indices(spec.observations)[i] in e.params.value)
  }

  function WantedResult(spec: Spec, e: Expectation): string
    requires Complete(spec, e)
  {
    if spec.observations == [] then e.whole.value else if HasReturn(spec) then e.result.value else ""
  }

  function WantedParams(spec: Spec, e: Expectation): (texts: seq<string>)
    requires Complete(spec, e)
    ensures |texts| == |Indices(spec.observations)|
    ensures forall i :: 0 <= i < |texts| ==> texts[i] == e.params.value[Indices(spec.observations)[i]]
  {
    var keys := Indices(spec.observations);
    seq(|keys|, i requires 0 <= i < |keys| => e.params.value[keys[i]])
  }

  method CollectParams(indices: seq<nat>, values: map<nat, string>) returns (texts: Option<seq<string>>)
    ensures texts.Some? <==> forall i :: 0 <= i < |indices| ==> indices[i] in values
    ensures texts.Some? ==> |texts.value| == |indices| && forall i :: 0 <= i < |indices| ==>
            texts.value[i] == values[indices[i]]
  {
    var collected: seq<string> := [];
    for i := 0 to |indices|
      invariant |collected| == i && forall k :: 0 <= k < i ==>
                indices[k] in values && collected[k] == values[indices[k]]
    {
      if indices[i] !in values { return None; }
      collected := collected + [values[indices[i]]];
    }
    return Some(collected);
  }

  /** The document the judge expects, or None where it reports an error. */
  method ExpectedDocument(spec: Spec, e: Expectation) returns (r: Option<string>)
    ensures r == if Complete(spec, e)
                 then Some(Document(spec, WantedResult(spec, e), WantedParams(spec, e), Trues(spec.postconditions)))
                 else None
    ensures |spec.observations| == 0 ==> (r.Some? <==> e.whole.Some?)
    ensures |spec.observations| == 0 && r.Some? ==>
              r.value == if spec.postconditions == 0 then e.whole.value
                         else Document(spec, e.whole.value, [], Trues(spec.postconditions))
    ensures |spec.observations| > 0 ==>
              (r.Some? <==>
                 && (Return in spec.observations ==> e.result.Some?)
                 && forall k: nat :: Parameter(k) in spec.observations ==> e.params.Some? && k in e.params.value)
    ensures |spec.observations| > 0 && r.Some? ==>
              r.value == Document(spec, if Return in spec.observations then e.result.value else "",
                                  WantedParams(spec, e), Trues(spec.postconditions))
  {
    IndicesMembers(spec.observations);
    var numbers, trues := UpTo(spec.postconditions), Trues(spec.postconditions);
    if |spec.observations| == 0 {
      if e.whole.None? { return None; }
      if spec.postconditions == 0 { return e.whole; }
      var out := PrintFields(spec, true, e.whole.value, [], [], numbers, trues);
      return Some(out);
    }
    var observed := false;
    var indices: seq<nat> := [];
    for i := 0 to |spec.observations|
      invariant observed == (Return in spec.observations[..i]) && (observed ==> e.result.Some?)
      invariant indices == Indices(spec.observations[..i])
    {
      var o := spec.observations[i];
      assert spec.observations[..i + 1] == spec.observations[..i] + [o];
      IndicesSnoc(spec.observations[..i], o);
      if o.Return? {
        if e.result.None? { return None; }
        observed := true;
      } else {
        indices := indices + [o.index];
      }
    }
    assert spec.observations[..|spec.observations|] == spec.observations;
    var texts: Option<seq<string>> := Some([]);
    if |indices| > 0 {
      assert Parameter(indices[0]) in spec.observations by { assert indices[0] in indices; }
      if e.params.None? { return None; }
      texts := CollectParams(indices, e.params.value);
      if texts.None? { return None; }
    }
    assert texts.value == WantedParams(spec, e);
    var wanted := if observed then e.result.value else "";
    var out := PrintFields(spec, observed, wanted, indices, texts.value, numbers, trues);
    return Some(out);
  }

  // ----- prefix views -----

  /** As many elements as asked for: none for a negative length, and at most all. */
  function PrefixCount(n: nat, length: int): (r: nat)
    ensures length <= 0 ==> r == 0
    ensures 0 <= length <= n ==> r == length
    ensures n <= length ==> r == n
  {
    if length < 0 then 0 else if length < n then length else n
  }

  /** The generated program's prefix serializer, on the printed elements. */
  method SerializePrefix(values: seq<string>, length: int) returns (out: string)
    ensures out == Array(values[..PrefixCount(|values|, length)])
  {
    if length < 0 { return "[]"; }
    var count := if |values| < length then |values| else length;
    out := "[";
    JoinNone(values);
    for i := 0 to count
      invariant out == "[" + Join(values[..i])
    {
      assert values[..i + 1] == values[..i] + [values[i]];
      JoinSnoc(values[..i], values[i]);
      if i > 0 { out := out + ","; }
      out := out + values[i];
    }
    out := out + "]";
  }

  lemma JoinNone(values: seq<string>)
    ensures "[" + Join(values[..0]) == "["
  {
  }

  /** A prefix view equals the expected array exactly when the expected elements are the first
      ones, as many as the result says. */
  lemma PrefixExact(values: seq<string>, length: int, wanted: seq<string>)
    requires Tokens(values) && Tokens(wanted)
    ensures Array(values[..PrefixCount(|values|, length)]) == Array(wanted) <==>
            |wanted| == PrefixCount(|values|, length) && forall i :: 0 <= i < |wanted| ==> wanted[i] == values[i]
  {
    ArrayInjective(values[..PrefixCount(|values|, length)], wanted);
  }
}
