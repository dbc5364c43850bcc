/** Reading printed values again: the judge parses what a driver printed and canonicalises it
    before it compares unordered arrays. That changes nothing. */
module Rereading {
  import opened Options
  import opened Text
  import Strings
  import opened CppTypes
  import opened Values
  import Graphs
  import GraphJson
  import ListRuntime
  import RandomLists
  import Traversal
  import Trees
  import TreeRuntime

  // ----- compact JSON -----

  /** JSON without white space. */
  function JsonText(j: Json): string {
    match j
    case Null => "null"
    case Boolean(b) => if b then "true" else "false"
    case Number(text) => text
    case Str(text) => Quoted(text)
    case Arr(items) => Array(JsonTexts(items))
    case Obj(fields) => Object(FieldTexts(fields))
  }

  function JsonTexts(items: JsonList): seq<string> {
    match items
    case Done => []
    case Item(j, tail) => [JsonText(j)] + JsonTexts(tail)
  }

  function FieldTexts(fields: FieldList): seq<string> {
    match fields
    case NoField => []
    case Field(key, j, rest) => [Key(key) + JsonText(j)] + FieldTexts(rest)
  }

  predicate Bare(name: string) { forall i :: 0 <= i < |name| ==> name[i] != '\"' && name[i] != '\\' }

  /** Integer numbers, ASCII strings, and keys without escapes: the JSON that drivers print. */
  predicate Sane(j: Json) {
    match j
    case Number(text) => IntegerOf(text).Some?
    case Str(text) => Strings.Ascii(text)
    case Arr(items) => SaneItems(items)
    case Obj(fields) => SaneFields(fields)
    case _ => true
  }

  predicate SaneItems(items: JsonList) {
    match items
    case Done => true
    case Item(j, tail) => Sane(j) && SaneItems(tail)
  }

  predicate SaneFields(fields: FieldList) {
    match fields
    case NoField => true
    case Field(key, j, rest) => Bare(key) && Sane(j) && SaneFields(rest)
  }

  function Head(j: Json): set<char> {
    match j
    case Null => {'n'}
    case Boolean(b) => if b then {'t'} else {'f'}
    case Number(_) => {'-', '0', '1', '2', '3', '4', '5', '6', '7', '8', '9'}
    case Str(_) => {'\"'}
    case Arr(_) => {'['}
    case Obj(_) => {'{'}
  }

  lemma HeadOf(j: Json)
    requires Sane(j)
    ensures JsonText(j) != "" && JsonText(j)[0] in Head(j)
  {
    hide Join, Strings.EscapeAll;
    if j.Number? && j.text[0] != '-' { assert '0' <= j.text[0] <= '9'; }
  }

  lemma NumberToken(text: string)
    requires IntegerOf(text).Some?
    ensures Token(text)
  {
    assert forall i :: 0 <= i < |text| ==> text[i] == '-' || '0' <= text[i] <= '9';
    PlainToken(text);
  }

  lemma KeyExact(a: string, x: string, b: string, y: string)
    requires Bare(a) && Bare(b) && Key(a) + x == Key(b) + y
    ensures a == b && x == y
  {
    var s, t := Key(a) + x, Key(b) + y;
    assert s[1 + |a|] == '\"' && t[1 + |b|] == '\"';
    assert forall i :: 0 <= i < |a| ==> s[1 + i] == a[i];
    assert forall i :: 0 <= i < |b| ==> t[1 + i] == b[i];
    assert a == s[1..1 + |a|] && b == t[1..1 + |b|];
    SamePrefix(Key(a), x, y);
  }

  lemma WordTokens()
    ensures Token("null") && Token("true") && Token("false")
  {
    assert Plain("null") && Plain("true") && Plain("false");
    PlainToken("null");
    PlainToken("true");
    PlainToken("false");
  }

  lemma {:induction false} JsonToken(j: Json)
    requires Sane(j)
    ensures Token(JsonText(j))
    decreases j
  {
    match j
    case Number(text) => NumberToken(text);
    case Str(text) => Strings.QuoteExact(text, text);
    case Arr(items) =>
      ItemTokens(items);
      EnclosedToken(JsonTexts(items));
    case Obj(fields) =>
      FieldTokens(fields);
      EnclosedToken(FieldTexts(fields));
    case _ => WordTokens();
  }

  lemma {:induction false} ItemTokens(items: JsonList)
    requires SaneItems(items)
    ensures Tokens(JsonTexts(items))
    decreases items
  {
    if items.Item? {
      JsonToken(items.head);
      ItemTokens(items.tail);
    }
  }

  lemma {:induction false} FieldTokens(fields: FieldList)
    requires SaneFields(fields)
    ensures Tokens(FieldTexts(fields))
    decreases fields
  {
    if fields.Field? {
      JsonToken(fields.value);
      KeyToken(fields.key);
      ConcatToken(Key(fields.key), JsonText(fields.value));
      FieldTokens(fields.rest);
    }
  }

  /** A compact text is that of one such value only, so whoever reads it reads that value. */
  lemma {:induction false} JsonTextExact(a: Json, b: Json)
    requires Sane(a) && Sane(b) && JsonText(a) == JsonText(b)
    ensures a == b
    decreases a
  {
    HeadOf(a);
    HeadOf(b);
    match a
    case Str(text) => Strings.QuoteExact(text, b.text);
    case Arr(items) =>
      ItemTokens(items);
      ItemTokens(b.items);
      ArrayInjective(JsonTexts(items), JsonTexts(b.items));
      ItemsExact(items, b.items);
    case Obj(fields) =>
      FieldTokens(fields);
      FieldTokens(b.fields);
      ArrayInjective(FieldTexts(fields), FieldTexts(b.fields));
      FieldsExact(fields, b.fields);
    case _ =>
  }

  lemma {:induction false} ItemsExact(a: JsonList, b: JsonList)
    requires SaneItems(a) && SaneItems(b) && JsonTexts(a) == JsonTexts(b)
    ensures a == b
    decreases a
  {
    hide JsonText, Sane;
    if a.Item? {
      assert b.Item? by { assert JsonTexts(b) != []; }
      assert JsonTexts(a)[0] == JsonText(a.head) && JsonTexts(a)[1..] == JsonTexts(a.tail);
      assert JsonTexts(b)[0] == JsonText(b.head) && JsonTexts(b)[1..] == JsonTexts(b.tail);
      JsonTextExact(a.head, b.head);
      ItemsExact(a.tail, b.tail);
    }
  }

  lemma {:induction false} FieldsExact(a: FieldList, b: FieldList)
    requires SaneFields(a) && SaneFields(b) && FieldTexts(a) == FieldTexts(b)
    ensures a == b
    decreases a
  {
    hide JsonText, Sane, Key;
    if a.Field? {
      assert b.Field? by { assert FieldTexts(b) != []; }
      assert FieldTexts(a)[0] == Key(a.key) + JsonText(a.value) && FieldTexts(a)[1..] == FieldTexts(a.rest);
      assert FieldTexts(b)[0] == Key(b.key) + JsonText(b.value) && FieldTexts(b)[1..] == FieldTexts(b.rest);
      KeyExact(a.key, JsonText(a.value), b.key, JsonText(b.value));
      JsonTextExact(a.value, b.value);
      FieldsExact(a.rest, b.rest);
    }
  }

  // ----- the value a text holds -----

  function IntsJson(values: seq<int>): JsonList {
    if values == [] then Done else Item(Number(Int10(values[0])), IntsJson(values[1..]))
  }

  function ItemsJson(levels: seq<Option<int>>): JsonList {
    if levels == [] then Done
    else Item(if levels[0].None? then Null else Number(Int10(levels[0].value)), ItemsJson(levels[1..]))
  }

  function RowsJson(rows: seq<seq<nat>>): JsonList {
    if rows == [] then Done else Item(Arr(IntsJson(rows[0])), RowsJson(rows[1..]))
  }

  function Pair(key: string, items: JsonList, otherKey: string, otherItems: JsonList): Json {
    Obj(Field(key, Arr(items), Field(otherKey, Arr(otherItems), NoField)))
  }

  function JsonOf(v: Value): Json {
    match v
    case IntV(n) => Number(Int10(n))
    case BoolV(b) => Boolean(b)
    case StringV(s) => Str(s)
    case VectorV(items) => Arr(JsonsOf(items))
    case AbsentV => Null
    case PresentV(inner) => JsonOf(inner)
    case NullV => Null
    case ListV(values) => Arr(IntsJson(values))
    case TreeV(levels) => Arr(ItemsJson(levels))
    case RandomV(d) => Pair("values", IntsJson(d.values), "random", ItemsJson(d.random))
    case GraphV(d) => Pair("values", IntsJson(d.values), "neighbors", RowsJson(d.neighbors))
  }

  function JsonsOf(items: ValueList): JsonList {
    match items
    case NoValue => Done
    case ValueItem(v, tail) => Item(JsonOf(v), JsonsOf(tail))
  }

  /** Values as a C++ program can return them: 32-bit numbers in the nodes, and documents as the
      serializers see them. */
  ghost predicate Storable(ty: Type, v: Value)
    decreases ty, 0
  {
    Typed(ty, v) &&
    match ty
    case VectorT(e) => StorableAll(e, v.items)
    case OptionalT(e) => v.PresentV? ==> Storable(e, v.inner)
    case ListT => v.ListV? ==> AllInt32(v.values)
    case TreeT => v.TreeV? ==> ItemsInt32(v.levels) && Trees.Trim(v.levels) == v.levels
    case RandomT => v.RandomV? ==> AllInt32(v.list.values) && ItemsInt32(v.list.random) && RandomLists.Linked(v.list)
    case GraphT => v.GraphV? ==> Canonized(v.document)
    case _ => true
  }

  ghost predicate StorableAll(ty: Type, items: ValueList)
    decreases ty, 1, items
  {
    match items
    case NoValue => true
    case ValueItem(v, tail) => Storable(ty, v) && StorableAll(ty, tail)
  }

  predicate AllInt32(values: seq<int>) { forall i :: 0 <= i < |values| ==> Int32(values[i]) }

  predicate ItemsInt32(levels: seq<Option<int>>) {
    forall i :: 0 <= i < |levels| && levels[i].Some? ==> Int32(levels[i].value)
  }

  ghost predicate Canonized(d: Graphs.Document) {
    && AllInt32(d.values) && 0 < |d.values| <= 0x8000_0000
    && Graphs.InRange(d) && Graphs.FullyReachable(d) && Graphs.Canon(Graphs.AsRooted(d)) == d
  }

  lemma CanonizedRows(d: Graphs.Document)
    requires Canonized(d)
    ensures forall i :: 0 <= i < |d.neighbors| ==> AllInt32(d.neighbors[i])
  {
    hide Graphs.Canon, Graphs.FullyReachable;
    forall i, k | 0 <= i < |d.neighbors| && 0 <= k < |d.neighbors[i]| ensures Int32(d.neighbors[i][k]) {
      assert d.neighbors[i][k] in d.neighbors[i];
    }
  }

  // ----- numbers and lists of numbers -----

  lemma IntReread(n: int)
    requires Int32(n)
    ensures Integer(Number(Int10(n)), 32) == Some(n)
  {
    hide IntegerOf, Int10;
    IntegerReads(n);
  }

  lemma {:induction false} IntsPrinted(values: seq<int>)
    ensures JsonTexts(IntsJson(values)) == Ints(values)
    decreases |values|
  {
    hide Int10, Join;
    if values != [] {
      IntsPrinted(values[1..]);
      assert Ints(values) == [Int10(values[0])] + Ints(values[1..]);
    }
  }

  lemma {:induction false} IntsReread(values: seq<int>)
    requires AllInt32(values)
    ensures Integers(IntsJson(values)) == Some(values)
    decreases |values|
  {
    hide Integer, Int10;
    if values != [] {
      IntsReread(values[1..]);
      IntReread(values[0]);
      assert values == [values[0]] + values[1..];
    }
  }

  lemma {:induction false} ItemsPrinted(levels: seq<Option<int>>)
    ensures JsonTexts(ItemsJson(levels)) == Items(levels)
    decreases |levels|
  {
    hide Int10, Join;
    if levels != [] {
      ItemsPrinted(levels[1..]);
      assert Items(levels) == [Text.Item(levels[0])] + Items(levels[1..]);
    }
  }

  lemma {:induction false} ItemsReread(levels: seq<Option<int>>)
    requires ItemsInt32(levels)
    ensures Nullables(ItemsJson(levels)) == Some(levels)
    decreases |levels|
  {
    hide Integer, Int10;
    if levels != [] {
      ItemsReread(levels[1..]);
      if levels[0].Some? { IntReread(levels[0].value); }
      assert levels == [levels[0]] + levels[1..];
    }
  }

  lemma {:induction false} RowsReread(rows: seq<seq<nat>>)
    requires forall i :: 0 <= i < |rows| ==> AllInt32(rows[i])
    ensures JsonTexts(RowsJson(rows)) == GraphJson.Rows(rows)
    ensures var r := Values.Rows(RowsJson(rows));
            r.Some? && |r.value| == |rows| && forall i :: 0 <= i < |rows| ==> r.value[i] == rows[i]
    decreases |rows|
  {
    hide Join, Integers, IntsJson, Ints;
    if rows != [] {
      IntsPrinted(rows[0]);
      IntsReread(rows[0]);
      RowsReread(rows[1..]);
      assert GraphJson.Rows(rows) == [Array(Ints(rows[0]))] + GraphJson.Rows(rows[1..]);
    }
  }

  // ----- documents -----

  lemma PairColumns(key: string, items: JsonList, otherKey: string, otherItems: JsonList)
    requires key != otherKey
    ensures Column(Pair(key, items, otherKey, otherItems), key) == Some(items)
    ensures Column(Pair(key, items, otherKey, otherItems), otherKey) == Some(otherItems)
  {
    var rest := Field(otherKey, Arr(otherItems), NoField);
    assert Lookup(NoField, key) == None && Lookup(NoField, otherKey) == None;
    assert Lookup(rest, key) == None && Lookup(rest, otherKey) == Some(Arr(otherItems));
  }

  lemma PairText(key: string, items: JsonList, otherKey: string, otherItems: JsonList)
    ensures JsonText(Pair(key, items, otherKey, otherItems)) ==
            Object([Key(key) + Array(JsonTexts(items)), Key(otherKey) + Array(JsonTexts(otherItems))])
  {
    var rest := Field(otherKey, Arr(otherItems), NoField);
    assert FieldTexts(NoField) == [];
    assert FieldTexts(rest) == [Key(otherKey) + Array(JsonTexts(otherItems))];
    assert FieldTexts(Field(key, Arr(items), rest)) == [Key(key) + Array(JsonTexts(items))] + FieldTexts(rest);
  }

  lemma RandomChecked(d: RandomLists.RandomList)
    requires AllInt32(d.values) && ItemsInt32(d.random) && RandomLists.Linked(d)
    ensures RandomLists.Admissible(d.values, d.random) && RandomLists.Checked(d.values, d.random) == d
  {
    var checked := RandomLists.Checked(d.values, d.random);
    assert checked.random == d.random;
  }

  lemma RandomReread(d: RandomLists.RandomList)
    requires AllInt32(d.values) && ItemsInt32(d.random) && RandomLists.Linked(d) && d.values != []
    ensures var j := Pair("values", IntsJson(d.values), "random", ItemsJson(d.random));
            JsonText(j) == RandomLists.RandomText(d) && RandomOf(j) == Some(d)
  {
    hide JsonText, Column, Join, Pair, Ints, Items, Integers, Nullables, RandomLists.Admissible, RandomLists.Checked;
    IntsPrinted(d.values);
    ItemsPrinted(d.random);
    IntsReread(d.values);
    ItemsReread(d.random);
    RandomChecked(d);
    PairColumns("values", IntsJson(d.values), "random", ItemsJson(d.random));
    PairText("values", IntsJson(d.values), "random", ItemsJson(d.random));
  }

  lemma GraphAdmissible(d: Graphs.Document, rows: seq<seq<int>>)
    requires Canonized(d) && |rows| == |d.neighbors| && forall i :: 0 <= i < |rows| ==> rows[i] == d.neighbors[i]
    ensures GraphJson.Admissible(d.values, rows)
  {
    CanonizedRows(d);
    hide Graphs.Canon, Graphs.FullyReachable, Graphs.AsRooted;
    forall i, k | 0 <= i < |rows| && 0 <= k < |rows[i]| ensures Int32(rows[i][k]) && 0 <= rows[i][k] < |d.values| {
      assert d.neighbors[i][k] in d.neighbors[i] && AllInt32(d.neighbors[i]);
    }
  }

  lemma GraphChecked(d: Graphs.Document, rows: seq<seq<int>>)
    requires GraphJson.Admissible(d.values, rows)
    requires |rows| == |d.neighbors| && forall i :: 0 <= i < |rows| ==> rows[i] == d.neighbors[i]
    ensures GraphJson.Checked(d.values, rows) == d
  {
    hide GraphJson.Admissible, GraphJson.Checked, Graphs.InRange;
    var checked := GraphJson.Checked(d.values, rows);
    assert |checked.neighbors| == |d.neighbors|;
    forall i | 0 <= i < |rows| ensures checked.neighbors[i] == d.neighbors[i] { assert rows[i] == d.neighbors[i]; }
  }

  lemma GraphReread(d: Graphs.Document)
    requires Canonized(d)
    ensures var j := Pair("values", IntsJson(d.values), "neighbors", RowsJson(d.neighbors));
            JsonText(j) == GraphJson.Print(d) && GraphOf(j) == Some(d) &&
                GraphJson.CanonicalText(d) == GraphJson.Print(d)
  {
    hide JsonText, Column, Join, Pair, Ints, GraphJson.Rows, Values.Rows, Integers, GraphJson.Admissible,
         GraphJson.Checked;
    hide Graphs.FullyReachable;
    IntsPrinted(d.values);
    IntsReread(d.values);
    CanonizedRows(d);
    RowsReread(d.neighbors);
    var rows := Values.Rows(RowsJson(d.neighbors)).value;
    GraphAdmissible(d, rows);
    GraphChecked(d, rows);
    PairColumns("values", IntsJson(d.values), "neighbors", RowsJson(d.neighbors));
    PairText("values", IntsJson(d.values), "neighbors", RowsJson(d.neighbors));
  }

  // ----- what drivers print is sane -----

  lemma {:induction false} IntsSane(values: seq<int>)
    ensures SaneItems(IntsJson(values))
    decreases |values|
  {
    hide IntegerOf, Int10;
    if values != [] {
      IntegerReads(values[0]);
      IntsSane(values[1..]);
    }
  }

  lemma {:induction false} ItemsSane(levels: seq<Option<int>>)
    ensures SaneItems(ItemsJson(levels))
    decreases |levels|
  {
    hide IntegerOf, Int10;
    if levels != [] {
      if levels[0].Some? { IntegerReads(levels[0].value); }
      ItemsSane(levels[1..]);
    }
  }

  lemma {:induction false} RowsSane(rows: seq<seq<nat>>)
    ensures SaneItems(RowsJson(rows))
    decreases |rows|
  {
    hide IntsJson;
    if rows != [] {
      IntsSane(rows[0]);
      RowsSane(rows[1..]);
    }
  }

  lemma PairSane(key: string, items: JsonList, otherKey: string, otherItems: JsonList)
    requires Bare(key) && Bare(otherKey) && SaneItems(items) && SaneItems(otherItems)
    ensures Sane(Pair(key, items, otherKey, otherItems))
  {
    hide Bare, SaneItems;
    assert Sane(Arr(items)) && Sane(Arr(otherItems)) && SaneFields(NoField);
    var rest := Field(otherKey, Arr(otherItems), NoField);
    assert SaneFields(rest);
    assert SaneFields(Field(key, Arr(items), rest));
  }

  lemma PointerSane(v: Value)
    requires v.ListV? || v.TreeV? || v.RandomV? || v.GraphV?
    ensures Sane(JsonOf(v))
  {
    hide Pair, IntsJson, ItemsJson, RowsJson;
    match v
    case ListV(values) => IntsSane(values);
    case TreeV(levels) => ItemsSane(levels);
    case RandomV(d) =>
      IntsSane(d.values);
      ItemsSane(d.random);
      PairSane("values", IntsJson(d.values), "random", ItemsJson(d.random));
    case GraphV(d) =>
      IntsSane(d.values);
      RowsSane(d.neighbors);
      PairSane("values", IntsJson(d.values), "neighbors", RowsJson(d.neighbors));
  }

  lemma {:induction false} ValueSane(ty: Type, v: Value)
    requires Typed(ty, v)
    ensures Sane(JsonOf(v))
    decreases ty, 0
  {
    match ty
    case VectorT(e) => ValuesSane(e, v.items);
    case OptionalT(e) => if v.PresentV? { ValueSane(e, v.inner); }
    case Int32T => IntegerReads(v.n);
    case Int64T => IntegerReads(v.n);
    case BoolT =>
    case StringT =>
    case _ => if !v.NullV? { PointerSane(v); }
  }

  lemma {:induction false} ValuesSane(ty: Type, items: ValueList)
    requires TypedAll(ty, items)
    ensures SaneItems(JsonsOf(items))
    decreases ty, 1, items
  {
    hide Sane, JsonOf, Typed;
    if items.ValueItem? {
      ValueSane(ty, items.head);
      ValuesSane(ty, items.tail);
    }
  }

  // ----- the second canonicalisation -----

  /** A printed value is the compact text of a JSON value, and canonicalising that again gives the
      same text. */
  ghost predicate Rereads(ty: Type, v: Value) {
    JsonText(JsonOf(v)) == Serialize(v) && Canonical(ty, JsonOf(v)) == Some(Serialize(v))
  }

  lemma ListPrinted(values: seq<int>)
    requires values != []
    ensures JsonText(Arr(IntsJson(values))) == ListRuntime.ListText(values)
  {
    hide Join, Ints, IntsJson;
    IntsPrinted(values);
  }

  lemma ListRereads(values: seq<int>)
    requires AllInt32(values) && values != []
    ensures Rereads(ListT, ListV(values))
  {
    hide AllInt32, JsonText, ListRuntime.ListText, IntsJson, Integers;
    ListPrinted(values);
    IntsReread(values);
  }

  lemma TreePrinted(levels: seq<Option<int>>)
    requires levels != []
    ensures JsonText(Arr(ItemsJson(levels))) == TreeRuntime.TreeText(levels)
  {
    hide Join, Items, ItemsJson;
    ItemsPrinted(levels);
  }

  lemma TreeRereads(levels: seq<Option<int>>)
    requires ItemsInt32(levels) && Trees.Trim(levels) == levels && levels != []
    ensures Rereads(TreeT, TreeV(levels))
  {
    hide ItemsInt32, JsonText, TreeRuntime.TreeText, Trees.Trim, ItemsJson, Nullables;
    TreePrinted(levels);
    ItemsReread(levels);
  }

  lemma RandomRereads(d: RandomLists.RandomList)
    requires AllInt32(d.values) && ItemsInt32(d.random) && RandomLists.Linked(d) && d.values != []
    ensures Rereads(RandomT, RandomV(d))
  {
    hide RandomOf, JsonText, RandomLists.RandomText;
    RandomReread(d);
  }

  lemma GraphRereads(d: Graphs.Document)
    requires Canonized(d)
    ensures Rereads(GraphT, GraphV(d))
  {
    hide GraphOf, JsonText, GraphJson.Print, GraphJson.CanonicalText;
    GraphReread(d);
  }

  lemma NullRereads(ty: Type)
    requires ty.ListT? || ty.TreeT? || ty.RandomT? || ty.GraphT?
    ensures Rereads(ty, NullV)
  {
    assert Trees.Trim([]) == [];
  }

  lemma PointerRereads(ty: Type, v: Value)
    requires Storable(ty, v) && (ty.ListT? || ty.TreeT? || ty.RandomT? || ty.GraphT?)
    ensures Rereads(ty, v)
  {
    hide Rereads, Canonized, AllInt32, ItemsInt32, RandomLists.Linked, Trees.Trim;
    match v
    case NullV => NullRereads(ty);
    case ListV(values) => ListRereads(values);
    case TreeV(levels) => TreeRereads(levels);
    case RandomV(d) => RandomRereads(d);
    case GraphV(d) => GraphRereads(d);
  }

  lemma ScalarRereads(ty: Type, v: Value)
    requires Typed(ty, v) && (ty.Int32T? || ty.Int64T? || ty.BoolT? || ty.StringT?)
    ensures Rereads(ty, v)
  {
    hide IntegerOf, Int10;
    if v.IntV? { IntegerReads(v.n); }
  }

  /** Reading back what the driver printed and canonicalising it changes nothing. */
  lemma {:induction false} Reread(ty: Type, v: Value)
    requires Storable(ty, v)
    ensures Rereads(ty, v)
    decreases ty, 0
  {
    match ty
    case VectorT(e) => RereadAll(e, v.items);
    case OptionalT(e) => if v.PresentV? { Reread(e, v.inner); }
    case ListT => PointerRereads(ty, v);
    case TreeT => PointerRereads(ty, v);
    case RandomT => PointerRereads(ty, v);
    case GraphT => PointerRereads(ty, v);
    case _ => ScalarRereads(ty, v);
  }

  lemma {:induction false} RereadAll(ty: Type, items: ValueList)
    requires StorableAll(ty, items)
    ensures JsonTexts(JsonsOf(items)) == SerializeAll(items)
    ensures CanonicalAll(ty, JsonsOf(items)) == Some(SerializeAll(items))
    decreases ty, 1, items
  {
    hide JsonText, JsonOf, Serialize, Canonical, Storable;
    if items.ValueItem? {
      Reread(ty, items.head);
      RereadAll(ty, items.tail);
    }
  }

  // ----- expectations are such values -----

  lemma {:induction false} NullablesInt32(items: JsonList)
    ensures Nullables(items).Some? ==> ItemsInt32(Nullables(items).value)
    decreases items
  {
    hide IntegerOf;
    if items.Item? { NullablesInt32(items.tail); }
  }

  lemma ListStorable(values: seq<int>)
    requires AllInt32(values)
    ensures Eval(ListE(values)).Some? && Storable(ListT, Eval(ListE(values)).value)
  {
  }

  lemma TreeStorable(levels: seq<Option<int>>)
    requires ItemsInt32(levels) && Eval(TreeE(levels)).Some?
    ensures Storable(TreeT, Eval(TreeE(levels)).value)
  {
    hide IntegerOf, Strings.ReadLiteral;
    var w := Trees.Trim(levels);
    forall i | 0 <= i < |w| && w[i].Some? ensures Int32(w[i].value) { assert Trees.At(w, i) == Trees.At(levels, i); }
    assert Trees.Trim(w) == w;
  }

  lemma RandomStorable(d: RandomLists.RandomList)
    requires AllInt32(d.values) && ItemsInt32(d.random) && RandomLists.Linked(d)
    requires Eval(RandomE(d.values, IndexList(d))) == Some(if d.values == [] then NullV else RandomV(d))
    ensures Storable(RandomT, Eval(RandomE(d.values, IndexList(d))).value)
  {
    hide Eval;
  }

  lemma Source<T>(succ: map<T, seq<T>>, root: T, y: T, n: nat) returns (x: T)
    requires Traversal.ReachableIn(succ, root, y, n) && y != root
    ensures x in succ && y in succ[x]
  {
    x :| x in succ && y in succ[x] && Traversal.ReachableIn(succ, root, x, n - 1);
  }

  /** A node of a fully reachable document is somebody's neighbour, so 32-bit neighbours mean a
      32-bit number of nodes. */
  lemma NodesInt32(d: Graphs.Document)
    requires Graphs.InRange(d) && d.values != [] && Graphs.FullyReachable(d)
    requires forall i :: 0 <= i < |d.neighbors| ==> AllInt32(d.neighbors[i])
    ensures |d.values| <= 0x8000_0000
  {
    var last: nat := |d.values| - 1;
    if last > 0 {
      var succ := Graphs.AsRooted(d).succ;
      assert Traversal.Reachable(succ, 0, last);
      var n: nat :| Traversal.ReachableIn(succ, 0, last, n);
      var x := Source(succ, 0, last, n);
      var k :| 0 <= k < |d.neighbors[x]| && d.neighbors[x][k] == last;
      assert Int32(d.neighbors[x][k]);
    }
  }

  lemma LabelInt32(d: Graphs.Document, i: nat)
    requires Graphs.InRange(d) && d.values != [] && Graphs.FullyReachable(d) && AllInt32(d.values)
    requires i < |Graphs.Canon(Graphs.AsRooted(d)).values|
    ensures Int32(Graphs.Canon(Graphs.AsRooted(d)).values[i])
  {
    Graphs.OrderPermutation(d);
    var order := Graphs.Order(Graphs.AsRooted(d));
    hide Graphs.Order, Graphs.FullyReachable;
    assert order[i] in order;
  }

  lemma LabelsInt32(d: Graphs.Document)
    requires Graphs.InRange(d) && d.values != [] && Graphs.FullyReachable(d) && AllInt32(d.values)
    ensures AllInt32(Graphs.Canon(Graphs.AsRooted(d)).values)
  {
    hide Graphs.Canon, Graphs.FullyReachable, Graphs.AsRooted, Graphs.InRange, Int32;
    forall i | 0 <= i < |Graphs.Canon(Graphs.AsRooted(d)).values|
      ensures Int32(Graphs.Canon(Graphs.AsRooted(d)).values[i])
    {
      LabelInt32(d, i);
    }
  }

  lemma CanonStorable(d: Graphs.Document)
    requires Graphs.InRange(d) && d.values != [] && Graphs.FullyReachable(d) && AllInt32(d.values)
    requires forall i :: 0 <= i < |d.neighbors| ==> AllInt32(d.neighbors[i])
    ensures Canonized(Graphs.Canon(Graphs.AsRooted(d)))
  {
    hide Graphs.FullyReachable, Graphs.Order, Graphs.InRange, Graphs.AsRooted, Graphs.Proper, Int32, AllInt32;
    NodesInt32(d);
    LabelsInt32(d);
    Graphs.OrderPermutation(d);
    Graphs.CanonIsCanonical(Graphs.AsRooted(d));
  }

  lemma GraphStorable(d: Graphs.Document)
    requires Graphs.InRange(d) && Graphs.FullyReachable(d) && AllInt32(d.values)
    requires forall i :: 0 <= i < |d.neighbors| ==> AllInt32(d.neighbors[i])
    ensures Eval(GraphE(d)).Some? && Storable(GraphT, Eval(GraphE(d)).value)
  {
    hide Graphs.FullyReachable, Graphs.Canon, Graphs.AsRooted, Graphs.InRange, Canonized;
    if d.values != [] { CanonStorable(d); }
  }

  lemma RandomOfInt32(j: Json)
    requires RandomOf(j).Some?
    ensures AllInt32(RandomOf(j).value.values) && ItemsInt32(RandomOf(j).value.random)
  {
    hide Column, Integers, Nullables;
  }

  lemma GraphOfInt32(j: Json)
    requires GraphOf(j).Some?
    ensures var d := GraphOf(j).value;
            AllInt32(d.values) && Graphs.InRange(d) && Graphs.FullyReachable(d)
            && forall i :: 0 <= i < |d.neighbors| ==> AllInt32(d.neighbors[i])
  {
    hide Column, Integers, Values.Rows, Graphs.FullyReachable, Graphs.InRange;
    var rows := Values.Rows(Column(j, "neighbors").value).value;
    var d := GraphOf(j).value;
    forall i | 0 <= i < |d.neighbors| ensures AllInt32(d.neighbors[i]) { assert d.neighbors[i] == rows[i]; }
  }

  lemma PointerStorable(ty: Type, j: Json)
    requires AsciiJson(j) && TreesFit(ty, j) && Literal(ty, j).Some?
    requires ty.ListT? || ty.TreeT? || ty.RandomT? || ty.GraphT?
    requires Eval(Literal(ty, j).value).Some?
    ensures Storable(ty, Eval(Literal(ty, j).value).value)
  {
    hide Eval, Storable, AllInt32, ItemsInt32, TreesFit, RandomOf, GraphOf, Integers, Nullables, IndexList;
    if j.Null? {
      NullStorable(ty);
    } else {
      match ty
      case ListT =>
        AllIntegers(Elements(j).value);
        ListStorable(Integers(Elements(j).value).value);
      case TreeT =>
        NullablesInt32(Elements(j).value);
        TreeStorable(Nullables(Elements(j).value).value);
      case RandomT =>
        RandomOfInt32(j);
        RandomRuns(RandomOf(j).value);
        RandomStorable(RandomOf(j).value);
      case GraphT =>
        GraphOfInt32(j);
        GraphStorable(GraphOf(j).value);
    }
  }

  lemma NullStorable(ty: Type)
    requires ty.ListT? || ty.TreeT? || ty.RandomT? || ty.GraphT?
    ensures Eval(NullptrE) == Some(NullV) && Storable(ty, NullV)
  {
  }

  lemma AllIntegers(items: JsonList)
    requires Integers(items).Some?
    ensures AllInt32(Integers(items).value)
  {
  }

  /** What the literal of an expectation constructs can be read back too. */
  lemma {:induction false} LiteralStorable(ty: Type, j: Json)
    requires AsciiJson(j) && TreesFit(ty, j) && Literal(ty, j).Some?
    ensures Eval(Literal(ty, j).value).Some? && Storable(ty, Eval(Literal(ty, j).value).value)
    decreases ty, 0
  {
    LiteralRuns(ty, j);
    hide Integers, Nullables, RandomOf, GraphOf, IntegerOf, Quoted, StringExpr, Strings.ReadLiteral, Serialize,
         Canonical;
    match ty
    case VectorT(e) => AllStorable(e, Elements(j).value);
    case OptionalT(e) => if !j.Null? { LiteralStorable(e, j); }
    case ListT => PointerStorable(ty, j);
    case TreeT => PointerStorable(ty, j);
    case RandomT => PointerStorable(ty, j);
    case GraphT => PointerStorable(ty, j);
    case _ =>
  }

  lemma {:induction false} AllStorable(ty: Type, items: JsonList)
    requires AsciiList(items) && TreesFitAll(ty, items) && LiteralAll(ty, items).Some?
    ensures EvalAll(LiteralAll(ty, items).value).Some?
    ensures StorableAll(ty, EvalAll(LiteralAll(ty, items).value).value)
    decreases ty, 1, items
  {
    hide Literal, Eval, Storable, AsciiJson, TreesFit;
    if items.Item? {
      LiteralStorable(ty, items.head);
      AllStorable(ty, items.tail);
    }
  }

  lemma MeantStorable(ty: Type, j: Json)
    requires Expected(ty, j)
    ensures Storable(ty, Meant(ty, j))
  {
    hide Literal, Eval, Storable, AsciiJson, TreesFit, Canonical, Serialize, Typed;
    LiteralRuns(ty, j);
    LiteralStorable(ty, j);
  }

  // ----- from text to text -----

  /** A reader takes the text for that JSON value. */
  predicate Reads(text: string, j: Json) { Sane(j) && JsonText(j) == text }

  /** Whatever a program returns: its printed text can be read, in one way, and canonicalising what
      was read gives the same text again. */
  lemma ReadAgain(ty: Type, v: Value)
    requires Storable(ty, v)
    ensures Reads(Serialize(v), JsonOf(v))
    ensures forall j :: Reads(Serialize(v), j) ==> j == JsonOf(v) && Canonical(ty, j) == Some(Serialize(v))
  {
    Reread(ty, v);
    ValueSane(ty, v);
    hide Sane, JsonText, JsonOf, Canonical, Storable, Serialize;
    forall j | Reads(Serialize(v), j) ensures j == JsonOf(v) { JsonTextExact(j, JsonOf(v)); }
  }

  /** The canonical text of an expectation is such a text, so canonicalising it again keeps it. */
  lemma CanonicalTwice(ty: Type, expected: Json)
    requires Expected(ty, expected)
    ensures forall j :: Reads(Canonical(ty, expected).value, j) ==> Canonical(ty, j) == Canonical(ty, expected)
  {
    MeantStorable(ty, expected);
    hide Sane, JsonText, JsonOf, Canonical, Storable, Serialize, AsciiJson, TreesFit;
    ReadAgain(ty, Meant(ty, expected));
  }
}
