/** The judge's comparisons on typed values: returned pointers, whole observation documents, and
    unordered arrays. */
module TypedJudge {
  import opened Options
  import opened Text
  import opened CppTypes
  import opened Values
  import opened Rereading
  import opened Observations
  import opened Unordered

  // ----- observation documents -----

  /** An observed parameter with its expectation: the value after the call, or the elements of a
      vector of which a prefix is shown. */
  datatype View =
    | Full(declared: Type, value: Value, expected: Json)
    | Prefix(element: Type, items: ValueList, expected: Json)

  function TypeOf(w: View): Type { if w.Full? then w.declared else VectorT(w.element) }

  function Take(items: ValueList, n: nat): ValueList {
    if n == 0 || items.NoValue? then NoValue else ValueItem(items.head, Take(items.tail, n - 1))
  }

  function Length(items: ValueList): nat { if items.NoValue? then 0 else 1 + Length(items.tail) }

  /** What a view shows when the function returned `length`. */
  function Shown(w: View, length: int): Value {
    match w
    case Full(_, v, _) => v
    case Prefix(_, items, _) => VectorV(Take(items, PrefixCount(Length(items), length)))
  }

  /** What the driver prints for it. */
  function ViewText(w: View, length: int): string {
    match w
    case Full(_, v, _) => Serialize(v)
    case Prefix(_, items, _) =>
      var texts := SerializeAll(items);
      Array(texts[..PrefixCount(|texts|, length)])
  }

  ghost predicate Proper(w: View) {
    && Expected(TypeOf(w), w.expected)
    && match w
       case Full(ty, v, _) => Typed(ty, v)
       case Prefix(e, items, _) => TypedAll(e, items)
  }

  lemma {:induction false} TakeTexts(items: ValueList, n: nat)
    requires n <= Length(items)
    ensures |SerializeAll(items)| == Length(items) && SerializeAll(Take(items, n)) == SerializeAll(items)[..n]
    decreases items
  {
    if items.ValueItem? {
      TakeTexts(items.tail, if n == 0 then 0 else n - 1);
      assert SerializeAll(items) == [Serialize(items.head)] + SerializeAll(items.tail);
      if n > 0 { assert SerializeAll(items)[..n] == [Serialize(items.head)] + SerializeAll(items.tail)[..n - 1]; }
    }
  }

  lemma {:induction false} TakeTyped(e: Type, items: ValueList, n: nat)
    requires TypedAll(e, items)
    ensures TypedAll(e, Take(items, n))
    decreases items
  {
    if items.ValueItem? && n > 0 { TakeTyped(e, items.tail, n - 1); }
  }

  lemma ViewShows(w: View, length: int)
    requires Proper(w)
    ensures Typed(TypeOf(w), Shown(w, length)) && ViewText(w, length) == Serialize(Shown(w, length))
  {
    hide Expected;
    if w.Prefix? {
      TakeTexts(w.items, 0);
      TakeTexts(w.items, PrefixCount(Length(w.items), length));
      TakeTyped(w.element, w.items, PrefixCount(Length(w.items), length));
    }
  }

  function ViewTexts(views: seq<View>, length: int): (texts: seq<string>)
    ensures |texts| == |views| && forall i :: 0 <= i < |views| ==> texts[i] == ViewText(views[i], length)
  {
    seq(|views|, i requires 0 <= i < |views| => ViewText(views[i], length))
  }

  ghost function WantedText(w: View): string
    requires Proper(w)
  {
    Canonical(TypeOf(w), w.expected).value
  }

  ghost function WantedTexts(views: seq<View>): (texts: seq<string>)
    requires forall i :: 0 <= i < |views| ==> Proper(views[i])
    ensures |texts| == |views| && forall i :: 0 <= i < |views| ==> texts[i] == WantedText(views[i])
  {
    seq(|views|, i requires 0 <= i < |views| => WantedText(views[i]))
  }

  /** The value is the one the expectation's literal constructs, up to absent optionals. */
  ghost predicate Same(ty: Type, v: Value, expected: Json)
    requires Expected(ty, expected)
  {
    Collapse(v) == Collapse(Meant(ty, expected))
  }

  lemma TextsSame(ty: Type, v: Value, expected: Json)
    requires Typed(ty, v) && Expected(ty, expected)
    ensures Token(Serialize(v)) && Token(Canonical(ty, expected).value)
    ensures Serialize(v) == Canonical(ty, expected).value <==> Same(ty, v, expected)
  {
    hide Serialize, Collapse, Canonical, Typed, AsciiJson, TreesFit;
    TextsDecide(ty, v, Meant(ty, expected));
    TextsDecide(ty, Meant(ty, expected), v);
  }

  lemma ViewsSame(views: seq<View>, length: int)
    requires forall i :: 0 <= i < |views| ==> Proper(views[i])
    ensures Tokens(ViewTexts(views, length)) && Tokens(WantedTexts(views))
    ensures ViewTexts(views, length) == WantedTexts(views) <==>
            forall i :: 0 <= i < |views| ==> Same(TypeOf(views[i]), Shown(views[i], length), views[i].expected)
  {
    hide Serialize, ViewText, Same, Canonical, Expected, Typed, TypedAll;
    var a, b := ViewTexts(views, length), WantedTexts(views);
    forall i | 0 <= i < |views|
      ensures Token(a[i]) && Token(b[i])
      ensures a[i] == b[i] <==> Same(TypeOf(views[i]), Shown(views[i], length), views[i].expected)
    {
      ViewShows(views[i], length);
      TextsSame(TypeOf(views[i]), Shown(views[i], length), views[i].expected);
    }
  }

  /** Every printed part has a type that the driver can print. */
  ghost predicate Printable(spec: Spec, returned: Type, views: seq<View>) {
    && (HasReturn(spec) ==> Resolves(Driver, returned))
    && forall i :: 0 <= i < |views| ==> Resolves(Driver, TypeOf(views[i]))
  }

  /** The document of the generated program for a returned value, observed parameters and
      postconditions; prefix views take their length from the returned number. */
  ghost function CppDocument(spec: Spec, returned: Type, v: Value, views: seq<View>, posts: seq<bool>): Option<string>
    requires |views| == |Indices(spec.observations)| && |posts| == spec.postconditions
  {
    if !Printable(spec, returned, views) then None
    else Some(Document(spec, Serialize(v), ViewTexts(views, if v.IntV? then v.n else 0), Flags(posts)))
  }

  ghost function WantedDocument(spec: Spec, returned: Type, expected: Json, views: seq<View>): string
    requires |views| == |Indices(spec.observations)| && forall i :: 0 <= i < |views| ==> Proper(views[i])
  {
    var result := Canonical(returned, expected);
    var text := if HasReturn(spec) && result.Some? then result.value else "";
    Document(spec, text, WantedTexts(views), Trues(spec.postconditions))
  }

  /** The whole comparison: the driver's document is the expected one exactly when every printed
      type can be printed, the returned value and every observed parameter or prefix are what their
      expectations construct, and every postcondition holds. */
  lemma DocumentVerdict(spec: Spec, returned: Type, v: Value, expected: Json, views: seq<View>, posts: seq<bool>)
    requires |views| == |Indices(spec.observations)| && |posts| == spec.postconditions
    requires HasReturn(spec) ==> Typed(returned, v) && Expected(returned, expected)
    requires forall i :: 0 <= i < |views| ==> Proper(views[i])
    ensures CppDocument(spec, returned, v, views, posts) == Some(WantedDocument(spec, returned, expected, views)) <==>
            && (HasReturn(spec) ==> Serializable(returned) && Same(returned, v, expected))
            && (forall i :: 0 <= i < |views| ==> Serializable(TypeOf(views[i])))
            && (forall i :: 0 <= i < |views| ==>
                  Same(TypeOf(views[i]), Shown(views[i], if v.IntV? then v.n else 0), views[i].expected))
            && forall i :: 0 <= i < |posts| ==> posts[i]
  {
    hide Serialize, Same, Canonical, Typed, TypedAll, Shown, Document, Serializable, Resolves, AsciiJson, TreesFit;
    var length := if v.IntV? then v.n else 0;
    ResolvesExactly(returned);
    forall i | 0 <= i < |views| ensures Resolves(Driver, TypeOf(views[i])) <==> Serializable(TypeOf(views[i])) {
      ResolvesExactly(TypeOf(views[i]));
    }
    ViewsSame(views, length);
    if HasReturn(spec) { TextsSame(returned, v, expected); }
    var wanted := if HasReturn(spec) then Canonical(returned, expected).value else "";
    DocumentExact(spec, Serialize(v), ViewTexts(views, length), posts, wanted, WantedTexts(views));
  }

  // ----- unordered arrays -----

  function Elems(items: ValueList): seq<Value> {
    if items.NoValue? then [] else [items.head] + Elems(items.tail)
  }

  /** The elements of an array as a multiset, up to absent optionals. */
  function Contents(items: ValueList): multiset<Value> { multiset(Elems(CollapseAll(items))) }

  lemma {:induction false} ElementText(e: Type, items: ValueList, i: nat) returns (v: Value)
    requires TypedAll(e, items) && i < |SerializeAll(items)|
    ensures |Elems(CollapseAll(items))| == |SerializeAll(items)|
    ensures Typed(e, v) && SerializeAll(items)[i] == Serialize(v) && Elems(CollapseAll(items))[i] == Collapse(v)
    decreases items
  {
    ElementCount(items);
    v := items.head;
    if i > 0 { v := ElementText(e, items.tail, i - 1); }
  }

  lemma {:induction false} ElementCount(items: ValueList)
    ensures |Elems(CollapseAll(items))| == |SerializeAll(items)|
    decreases items
  {
    if items.ValueItem? { ElementCount(items.tail); }
  }

  /** Positions hold equal keys exactly when they hold equal values. */
  ghost predicate Alike<K, V>(keys: seq<K>, values: seq<V>, otherKeys: seq<K>, otherValues: seq<V>)
    requires |keys| == |values| && |otherKeys| == |otherValues|
  {
    forall i, j :: 0 <= i < |keys| && 0 <= j < |otherKeys| ==>
        (keys[i] == otherKeys[j] <==> values[i] == otherValues[j])
  }

  lemma {:induction false} SameCount<K, V>(keys: seq<K>, values: seq<V>, k: K, v: V)
    requires |keys| == |values| && forall i :: 0 <= i < |keys| ==> (keys[i] == k <==> values[i] == v)
    ensures multiset(keys)[k] == multiset(values)[v]
    decreases |keys|
  {
    if keys != [] {
      var n := |keys| - 1;
      SameCount(keys[..n], values[..n], k, v);
      assert keys == keys[..n] + [keys[n]] && values == values[..n] + [values[n]];
    }
  }

  lemma SameMultisets<K, V>(a: seq<K>, x: seq<V>, b: seq<K>, y: seq<V>)
    requires |a| == |x| && |b| == |y| && Alike(a, x, a, x) && Alike(a, x, b, y) && Alike(b, y, b, y)
    requires multiset(a) == multiset(b)
    ensures multiset(x) == multiset(y)
  {
    forall v ensures multiset(x)[v] == multiset(y)[v] {
      if i :| 0 <= i < |x| && x[i] == v {
        SameCount(a, x, a[i], v);
        SameCount(b, y, a[i], v);
      } else if j :| 0 <= j < |y| && y[j] == v {
        assert b[j] in multiset(b);
        SameCount(a, x, b[j], v);
      }
    }
  }

  lemma ElementsAlike(e: Type, a: ValueList, b: ValueList)
    requires TypedAll(e, a) && TypedAll(e, b)
    ensures |SerializeAll(a)| == |Elems(CollapseAll(a))| && |SerializeAll(b)| == |Elems(CollapseAll(b))|
    ensures Alike(SerializeAll(a), Elems(CollapseAll(a)), SerializeAll(b), Elems(CollapseAll(b)))
    ensures Alike(Elems(CollapseAll(a)), SerializeAll(a), Elems(CollapseAll(b)), SerializeAll(b))
  {
    ElementCount(a);
    ElementCount(b);
    hide Serialize, Collapse, Typed, TypedAll, SerializeAll, CollapseAll, Elems;
    var xs, us, ys, vs := SerializeAll(a), Elems(CollapseAll(a)), SerializeAll(b), Elems(CollapseAll(b));
    forall i, j | 0 <= i < |xs| && 0 <= j < |ys| ensures xs[i] == ys[j] <==> us[i] == vs[j] {
      var v := ElementText(e, a, i);
      var w := ElementText(e, b, j);
      TextsDecide(e, v, w);
    }
  }

  lemma MeantItems(e: Type, expected: Json)
    requires Expected(VectorT(e), expected)
    ensures Elements(expected).Some? && CanonicalAll(e, Elements(expected).value).Some?
    ensures var v := Meant(VectorT(e), expected);
            v.VectorV? && TypedAll(e, v.items) &&
                SerializeAll(v.items) == CanonicalAll(e, Elements(expected).value).value
  {
    AllAgree(e, Elements(expected).value);
    hide EvalAll;
  }

  lemma SortedVerdict(e: Type, a: ValueList, b: ValueList, x: string, y: string)
    requires TypedAll(e, a) && TypedAll(e, b) && SortedText(SerializeAll(a), x) && SortedText(SerializeAll(b), y)
    ensures Token(x) && Token(y) && (x == y <==> Contents(a) == Contents(b))
  {
    hide Serialize, Collapse, Typed, TypedAll, SerializeAll, CollapseAll, Elems, SortedText;
    var s, t := SerializeAll(a), SerializeAll(b);
    var u, v := Elems(CollapseAll(a)), Elems(CollapseAll(b));
    AllTexts(e, a, a);
    AllTexts(e, b, b);
    SortedToken(s, x);
    SortedToken(t, y);
    UnorderedIsMultisetEquality(s, t, x, y);
    ElementsAlike(e, a, a);
    ElementsAlike(e, a, b);
    ElementsAlike(e, b, b);
    if multiset(s) == multiset(t) { SameMultisets(s, u, t, v); }
    if multiset(u) == multiset(v) { SameMultisets(u, s, v, t); }
  }

  lemma SortedToken(items: seq<string>, text: string)
    requires Tokens(items) && SortedText(items, text)
    ensures Token(text)
  {
    var sorted :| Sorted(sorted) && multiset(sorted) == multiset(items) && text == Array(sorted);
    PermutedTokens(items, sorted);
    EnclosedToken(sorted);
  }

  /** The judge's unordered form of an array's text: it reads the text, canonicalises the elements,
      and sorts these. */
  ghost predicate UnorderedForm(e: Type, text: string, x: string) {
    exists j :: Reads(text, j) && Elements(j).Some? && CanonicalAll(e, Elements(j).value).Some?
                && SortedText(CanonicalAll(e, Elements(j).value).value, x)
  }

  /** For the text that a driver printed, reading and canonicalising make no difference. */
  lemma PrintedForm(e: Type, items: ValueList, x: string)
    requires Storable(VectorT(e), VectorV(items))
    ensures UnorderedForm(e, Serialize(VectorV(items)), x) <==> SortedText(SerializeAll(items), x)
  {
    var v := VectorV(items);
    ReadAgain(VectorT(e), v);
    RereadAll(e, items);
    assert JsonOf(v) == Arr(JsonsOf(items)) && Elements(JsonOf(v)) == Some(JsonsOf(items));
    hide Reads, CanonicalAll, SortedText, JsonOf, JsonsOf, Storable, Serialize, SerializeAll, Elements;
    if UnorderedForm(e, Serialize(v), x) {
      var j :| Reads(Serialize(v), j) && Elements(j).Some? && CanonicalAll(e, Elements(j).value).Some?
               && SortedText(CanonicalAll(e, Elements(j).value).value, x);
      assert j == JsonOf(v);
    }
  }

  /** Under unordered comparison a returned array is accepted exactly when it has the elements that
      the expectation's literal constructs, in whatever order. */
  lemma UnorderedVerdict(e: Type, items: ValueList, expected: Json, x: string, y: string)
    requires Storable(VectorT(e), VectorV(items)) && Expected(VectorT(e), expected)
    requires UnorderedForm(e, Serialize(VectorV(items)), x)
    requires UnorderedForm(e, Canonical(VectorT(e), expected).value, y)
    ensures Token(x) && Token(y) && Meant(VectorT(e), expected).VectorV?
    ensures x == y <==> Contents(items) == Contents(Meant(VectorT(e), expected).items)
  {
    var meant := Meant(VectorT(e), expected);
    MeantItems(e, expected);
    MeantStorable(VectorT(e), expected);
    assert meant == VectorV(meant.items) && TypedAll(e, items);
    hide Storable, Serialize, Canonical, AsciiJson, TreesFit, UnorderedForm, SortedText, Contents;
    PrintedForm(e, items, x);
    PrintedForm(e, meant.items, y);
    SortedVerdict(e, items, meant.items, x, y);
  }

  /** The fields of a document after its map was encoded again, keys in order. */
  function SortedFields(spec: Spec, result: string, params: seq<string>, posts: seq<string>): seq<string>
    requires |params| == |Indices(spec.observations)| && |posts| == spec.postconditions
  {
    Section("parameter", Indices(spec.observations), params)
    + Section("postconditions", UpTo(spec.postconditions), posts)
    + [Key("return") + result]
  }

  lemma ResultField(a: string, b: string)
    requires Token(a) && Token(b)
    ensures Tokens([Key("return") + a]) && ([Key("return") + a] == [Key("return") + b] <==> a == b)
  {
    KeyToken("return");
    ConcatToken(Key("return"), a);
    SamePrefix(Key("return"), a, b);
    if [Key("return") + a] == [Key("return") + b] {
      assert [Key("return") + a][0] == [Key("return") + b][0];
    }
  }

  lemma SortedFieldsExact(spec: Spec, a: string, p: seq<string>, q: seq<string>, b: string, p': seq<string>,
                          q': seq<string>)
    requires |p| == |p'| == |Indices(spec.observations)| && |q| == |q'| == spec.postconditions
    requires Tokens(p) && Tokens(p') && Tokens(q) && Tokens(q') && Token(a) && Token(b)
    ensures Tokens(SortedFields(spec, a, p, q))
    ensures SortedFields(spec, a, p, q) == SortedFields(spec, b, p', q') <==> a == b && p == p' && q == q'
  {
    var keys, numbers := Indices(spec.observations), UpTo(spec.postconditions);
    KeyToken("parameter");
    KeyToken("postconditions");
    SectionInjective("parameter", keys, p, p');
    SectionInjective("postconditions", numbers, q, q');
    ResultField(a, b);
    SplitEqual(Section("parameter", keys, p), Section("postconditions", numbers, q), [Key("return") + a],
               Section("parameter", keys, p'), Section("postconditions", numbers, q'), [Key("return") + b]);
  }

  /** Unordered comparison of whole documents: the returned array has the expected elements in
      whatever order, the observed parameters are as expected, and the postconditions hold. */
  lemma UnorderedDocumentVerdict(spec: Spec, e: Type, items: ValueList, expected: Json, x: string, y: string,
                                 views: seq<View>, posts: seq<bool>)
    requires |views| == |Indices(spec.observations)| && |posts| == spec.postconditions
    requires Storable(VectorT(e), VectorV(items)) && Expected(VectorT(e), expected)
    requires UnorderedForm(e, Serialize(VectorV(items)), x)
    requires UnorderedForm(e, Canonical(VectorT(e), expected).value, y)
    requires forall i :: 0 <= i < |views| ==> Proper(views[i])
    ensures Meant(VectorT(e), expected).VectorV?
    ensures Object(SortedFields(spec, x, ViewTexts(views, 0), Flags(posts))) ==
            Object(SortedFields(spec, y, WantedTexts(views), Trues(|posts|))) <==>
            && Contents(items) == Contents(Meant(VectorT(e), expected).items)
            && (forall i :: 0 <= i < |views| ==> Same(TypeOf(views[i]), Shown(views[i], 0), views[i].expected))
            && forall i :: 0 <= i < |posts| ==> posts[i]
  {
    hide Serialize, Same, Canonical, Storable, Shown, AsciiJson, TreesFit, Contents, UnorderedForm, Section;
    UnorderedVerdict(e, items, expected, x, y);
    ViewsSame(views, 0);
    FlagsExact(posts);
    var p, q, p', q' := ViewTexts(views, 0), Flags(posts), WantedTexts(views), Trues(|posts|);
    SortedFieldsExact(spec, x, p, q, y, p', q');
    SortedFieldsExact(spec, y, p', q', x, p, q);
    ArrayInjective(SortedFields(spec, x, p, q), SortedFields(spec, y, p', q'));
  }
}
