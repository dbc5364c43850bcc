/** Which JSON values each type accepts and what their canonical text is, spelled out type by type. */
module Accepted {
  import opened Options
  import opened Text
  import opened Strings
  import opened CppTypes
  import opened Values
  import GraphJson
  import Graphs
  import ListRuntime
  import RandomLists
  import TreeRuntime
  import Trees

  // ----- integers -----

  /** The digits of a number, most significant first. */
  lemma DecimalDigits(n: nat, d: nat)
    requires d < 10
    ensures Decimal(d) == [('0' as int + d) as char]
    ensures n > 0 ==> Decimal(10 * n + d) == Decimal(n) + Decimal(d)
  {
    assert (10 * n + d) / 10 == n && (10 * n + d) % 10 == d;
  }

  lemma Snoc(s: string)
    requires Digits(s) && |s| > 1
    ensures Digits(s[..|s| - 1]) && s == s[..|s| - 1] + [s[|s| - 1]]
  {
  }

  lemma {:induction false} ValuePositive(s: string)
    requires Digits(s) && s[0] != '0'
    ensures DecimalValue(s) > 0
    decreases |s|
  {
    if |s| > 1 {
      Snoc(s);
      ValuePositive(s[..|s| - 1]);
    } else {
      assert DecimalValue(s[..0]) == 0;
    }
  }

  /** Digits without a leading zero are the decimal text of their value. */
  lemma {:induction false} DecimalUnique(s: string)
    requires Digits(s) && (|s| == 1 || s[0] != '0')
    ensures DecimalValue(s) >= 0 && Decimal(DecimalValue(s)) == s
    decreases |s|
  {
    var d := s[|s| - 1] as int - '0' as int;
    if |s| == 1 {
      assert DecimalValue(s[..0]) == 0 && s == [s[0]];
      DecimalDigits(0, d);
    } else {
      var head := s[..|s| - 1];
      Snoc(s);
      ValuePositive(head);
      DecimalUnique(head);
      DecimalDigits(DecimalValue(head), d);
    }
  }

  lemma MinusZero()
    ensures IntegerOf("-0") == Some(0)
  {
    assert DecimalValue("0") == 0 by { assert DecimalValue("0"[..0]) == 0; }
    assert "-0"[1..] == "0" && Digits("0");
  }

  lemma PlainInteger(s: string, n: int)
    requires IntegerOf(s) == Some(n) && s[0] != '-'
    ensures s == Int10(n)
  {
    hide Decimal, DecimalValue;
    DecimalUnique(s);
  }

  lemma NegativeInteger(s: string, n: int)
    requires s != "" && s[0] == '-' && IntegerOf(s) == Some(n)
    ensures s == Int10(n) || (n == 0 && s == "-0")
  {
    hide Decimal, DecimalValue;
    var digits := s[1..];
    assert s == "-" + digits;
    DecimalUnique(digits);
    ZeroDigit();
  }

  lemma ZeroDigit()
    ensures Decimal(0) == "0" && "-" + "0" == "-0"
  {
  }

  /** The integer tokens are the decimal texts, and `-0`. */
  lemma IntegerTexts(s: string, n: int)
    ensures IntegerOf(s) == Some(n) <==> s == Int10(n) || (n == 0 && s == "-0")
  {
    IntegerReads(n);
    MinusZero();
    hide Int10, DecimalValue, Decimal;
    if IntegerOf(s) == Some(n) {
      if s[0] == '-' { NegativeInteger(s, n); } else { PlainInteger(s, n); }
    }
  }

  /** An integer is accepted as a number or as a string, within the bounds of its type. */
  lemma IntegerAccepted(j: Json, text: string)
    ensures Canonical(Int32T, j) == Some(text) <==>
            exists n :: -2147483648 <= n <= 2147483647 && text == Int10(n) && Spells(j, n)
    ensures Canonical(Int64T, j) == Some(text) <==>
            exists n :: -9223372036854775808 <= n <= 9223372036854775807 && text == Int10(n) && Spells(j, n)
  {
    hide Int10, IntegerOf;
    forall n | j.Number? || j.Str? ensures IntegerOf(j.text) == Some(n) <==> Spells(j, n) { IntegerTexts(j.text, n); }
  }

  ghost predicate Spells(j: Json, n: int) {
    (j.Number? || j.Str?) && (j.text == Int10(n) || (n == 0 && j.text == "-0"))
  }

  // ----- null, booleans and strings -----

  /** What null stands for: false, an empty string or vector, an absent optional, a null pointer. */
  lemma NullAccepted(e: Type)
    ensures Canonical(Int32T, Null) == None && Canonical(Int64T, Null) == None
    ensures Canonical(BoolT, Null) == Some("false") && Canonical(StringT, Null) == Some("\"\"")
    ensures Canonical(VectorT(e), Null) == Some("[]") && Canonical(OptionalT(e), Null) == Some("null")
    ensures Canonical(ListT, Null) == Some("null") && Canonical(TreeT, Null) == Some("null")
    ensures Canonical(RandomT, Null) == Some("null") && Canonical(GraphT, Null) == Some("null")
  {
    assert Quote("") == "\"\"" && Array([]) == "[]";
    assert Trees.Trim([]) == [];
  }

  lemma BoolAccepted(j: Json)
    ensures Canonical(BoolT, j) == Some("true") <==> j == Boolean(true)
    ensures Canonical(BoolT, j) == Some("false") <==> j == Boolean(false) || j == Null
    ensures Canonical(BoolT, j).Some? <==> j.Boolean? || j.Null?
  {
    assert "true"[0] != "false"[0];
  }

  // ----- vectors -----

  function Count(items: JsonList): nat { if items.Done? then 0 else 1 + Count(items.tail) }

  function Nth(items: JsonList, i: nat): Json
    requires i < Count(items)
  {
    if i == 0 then items.head else Nth(items.tail, i - 1)
  }

  lemma {:induction false} ElementAt(e: Type, items: JsonList, i: nat)
    requires CanonicalAll(e, items).Some?
    ensures |CanonicalAll(e, items).value| == Count(items)
    ensures i < Count(items) ==> Canonical(e, Nth(items, i)) == Some(CanonicalAll(e, items).value[i])
    decreases items
  {
    hide Canonical;
    if items.Item? { ElementAt(e, items.tail, if i > 0 then i - 1 else 0); }
  }

  lemma {:induction false} RefusedAt(e: Type, items: JsonList) returns (i: nat)
    requires CanonicalAll(e, items).None?
    ensures i < Count(items) && Canonical(e, Nth(items, i)).None?
    decreases items
  {
    hide Canonical;
    i := 0;
    if Canonical(e, items.head).Some? {
      i := RefusedAt(e, items.tail);
      i := i + 1;
    }
  }

  lemma AllInOrder(e: Type, items: JsonList)
    ensures CanonicalAll(e, items).Some? <==> forall i: nat :: i < Count(items) ==> Canonical(e, Nth(items, i)).Some?
    ensures CanonicalAll(e, items).Some? ==>
              |CanonicalAll(e, items).value| == Count(items) &&
              forall i :: 0 <= i < Count(items) ==> Canonical(e, Nth(items, i)) == Some(CanonicalAll(e, items).value[i])
  {
    hide Canonical, CanonicalAll, Nth;
    if CanonicalAll(e, items).Some? {
      ElementAt(e, items, 0);
      forall i: nat | i < Count(items) ensures Canonical(e, Nth(items, i)) == Some(CanonicalAll(e, items).value[i]) {
        ElementAt(e, items, i);
      }
    } else {
      var i := RefusedAt(e, items);
    }
  }

  /** A vector takes an array of accepted elements, and prints their texts in order. */
  lemma VectorAccepted(e: Type, items: JsonList)
    ensures Canonical(VectorT(e), Arr(items)).Some? <==>
            forall i: nat :: i < Count(items) ==> Canonical(e, Nth(items, i)).Some?
    ensures Canonical(VectorT(e), Arr(items)).Some? ==>
              exists texts: seq<string> ::
                && |texts| == Count(items) && Canonical(VectorT(e), Arr(items)) == Some("[" + Join(texts) + "]")
                && forall i :: 0 <= i < Count(items) ==> Canonical(e, Nth(items, i)) == Some(texts[i])
  {
    AllInOrder(e, items);
    var texts := CanonicalAll(e, items);
    assert texts.Some? ==> Canonical(VectorT(e), Arr(items)) == Some("[" + Join(texts.value) + "]");
  }

  // ----- lists and trees -----

  lemma {:induction false} IntegersInOrder(items: JsonList, values: seq<int>)
    ensures Integers(items) == Some(values) <==>
            |values| == Count(items) && forall i :: 0 <= i < |values| ==> Integer(Nth(items, i), 32) == Some(values[i])
    decreases items
  {
    if items.Item? && values != [] {
      IntegersInOrder(items.tail, values[1..]);
      assert Nth(items, 0) == items.head && values == [values[0]] + values[1..];
      forall i: nat | 1 <= i < Count(items) ensures Nth(items, i) == Nth(items.tail, i - 1) {}
      hide Integer;
      forall i: nat | i < |values[1..]| ensures values[1..][i] == values[i + 1] {}
    }
  }

  /** A list takes an array of integers; the empty one is the null list. */
  lemma ListAccepted(items: JsonList, values: seq<int>)
    requires |values| == Count(items)
    requires forall i :: 0 <= i < |values| ==> Integer(Nth(items, i), 32) == Some(values[i])
    ensures Canonical(ListT, Arr(items)) == Some(if values == [] then "null" else "[" + Join(Ints(values)) + "]")
  {
    IntegersInOrder(items, values);
    hide Integer, Integers, Join;
  }

  lemma {:induction false} NullablesInOrder(items: JsonList, values: seq<Option<int>>)
    requires |values| == Count(items)
    requires forall i :: 0 <= i < |values| ==>
               if Nth(items, i).Null? then values[i] == None
               else values[i].Some? && Integer(Nth(items, i), 32) == values[i]
    ensures Nullables(items) == Some(values)
    decreases items
  {
    if items.Item? {
      assert Nth(items, 0) == items.head && values == [values[0]] + values[1..];
      forall i: nat | 1 <= i < Count(items) ensures Nth(items, i) == Nth(items.tail, i - 1) {}
      hide Integer;
      forall i: nat | i < |values[1..]| ensures values[1..][i] == values[i + 1] &&
          Nth(items.tail, i) == Nth(items, i + 1) {}
      NullablesInOrder(items.tail, values[1..]);
    }
  }

  /** A tree takes an array of integers and nulls, and prints it up to the last integer. */
  lemma TreeAccepted(items: JsonList, values: seq<Option<int>>, n: nat)
    requires |values| == Count(items)
    requires forall i :: 0 <= i < |values| ==>
               if Nth(items, i).Null? then values[i] == None
               else values[i].Some? && Integer(Nth(items, i), 32) == values[i]
    requires n <= |values| && (n > 0 ==> values[n - 1].Some?) && forall i :: n <= i < |values| ==> values[i].None?
    ensures Canonical(TreeT, Arr(items)) == Some(if n == 0 then "null" else "[" + Join(Items(values[..n])) + "]")
  {
    hide Integer, Nullables, Join, Trees.Trim, Nth, Count, Items, RandomOf, GraphOf;
    NullablesInOrder(items, values);
    TrimsTo(values, n);
  }

  lemma TrimsTo(v: Trees.Levels, n: nat)
    requires n <= |v| && (n > 0 ==> v[n - 1].Some?) && forall i :: n <= i < |v| ==> v[i].None?
    ensures Trees.Trim(v) == v[..n]
  {
    var w := Trees.Trim(v);
    hide Trees.Trim;
    assert n > 0 ==> Trees.At(w, n - 1) == Trees.At(v, n - 1);
    assert w != [] ==> Trees.At(w, |w| - 1) == Trees.At(v, |w| - 1);
    forall i | 0 <= i < |w| ensures w[i] == v[i] { assert Trees.At(w, i) == Trees.At(v, i); }
  }

  // ----- objects -----

  function FieldCount(fields: FieldList): nat { if fields.NoField? then 0 else 1 + FieldCount(fields.rest) }

  function FieldAt(fields: FieldList, i: nat): (string, Json)
    requires i < FieldCount(fields)
  {
    if i == 0 then (fields.key, fields.value) else FieldAt(fields.rest, i - 1)
  }

  ghost predicate LastWithKey(fields: FieldList, key: string, i: nat) {
    && i < FieldCount(fields) && FieldAt(fields, i).0 == key
    && forall k :: i < k < FieldCount(fields) ==> FieldAt(fields, k).0 != key
  }

  lemma FieldStep(fields: FieldList, i: nat)
    requires fields.Field?
    ensures i > 0 && i < FieldCount(fields) ==> FieldAt(fields, i) == FieldAt(fields.rest, i - 1)
    ensures FieldAt(fields, 0) == (fields.key, fields.value)
  {
  }

  lemma {:induction false} LookupFinds(fields: FieldList, key: string) returns (i: nat)
    requires Lookup(fields, key).Some?
    ensures LastWithKey(fields, key, i) && Lookup(fields, key) == Some(FieldAt(fields, i).1)
    decreases fields
  {
    if Lookup(fields.rest, key).Some? {
      var k := LookupFinds(fields.rest, key);
      i := k + 1;
      FieldStep(fields, i);
      forall m | i < m < FieldCount(fields) ensures FieldAt(fields, m).0 != key { FieldStep(fields, m); }
    } else {
      i := 0;
      forall m | 0 < m < FieldCount(fields) ensures FieldAt(fields, m).0 != key {
        FieldStep(fields, m);
        LookupMisses(fields.rest, key, m - 1);
      }
    }
  }

  lemma {:induction false} LookupMisses(fields: FieldList, key: string, i: nat)
    requires Lookup(fields, key).None? && i < FieldCount(fields)
    ensures FieldAt(fields, i).0 != key
    decreases fields
  {
    FieldStep(fields, i);
    if i > 0 { LookupMisses(fields.rest, key, i - 1); }
  }

  /** Of several fields with one name the last is read. */
  lemma LastFieldWins(fields: FieldList, key: string)
    ensures Lookup(fields, key).None? <==> forall i: nat :: i < FieldCount(fields) ==> FieldAt(fields, i).0 != key
    ensures forall i: nat :: LastWithKey(fields, key, i) ==> Lookup(fields, key) == Some(FieldAt(fields, i).1)
  {
    if Lookup(fields, key).Some? {
      var i := LookupFinds(fields, key);
      hide Lookup, FieldAt, FieldCount;
      forall k: nat | LastWithKey(fields, key, k) ensures k == i {}
    } else {
      forall i: nat | i < FieldCount(fields) ensures FieldAt(fields, i).0 != key { LookupMisses(fields, key, i); }
    }
  }

  // ----- the printed texts -----

  function ItemCount(items: ValueList): nat { if items.NoValue? then 0 else 1 + ItemCount(items.tail) }

  function ItemAt(items: ValueList, i: nat): Value
    requires i < ItemCount(items)
  {
    if i == 0 then items.head else ItemAt(items.tail, i - 1)
  }

  lemma {:induction false} ItemsInOrder(items: ValueList, i: nat)
    ensures |SerializeAll(items)| == ItemCount(items)
    ensures i < ItemCount(items) ==> SerializeAll(items)[i] == Serialize(ItemAt(items, i))
    decreases items
  {
    hide Serialize;
    if items.ValueItem? { ItemsInOrder(items.tail, if i > 0 then i - 1 else 0); }
  }

  /** What the program prints for the values of its types: an optional prints what it holds, and a
      vector its elements in order. */
  lemma ValueLayouts(n: int, b: bool, s: string, v: Value, items: ValueList)
    requires Ascii(s)
    ensures Serialize(IntV(n)) == Int10(n) && Serialize(BoolV(b)) == (if b then "true" else "false")
    ensures Serialize(StringV(s)) == Quote(s)
    ensures Serialize(AbsentV) == "null" && Serialize(NullV) == "null" && Serialize(PresentV(v)) == Serialize(v)
    ensures exists texts: seq<string> ::
              && |texts| == ItemCount(items) && Serialize(VectorV(items)) == "[" + Join(texts) + "]"
              && forall i :: 0 <= i < |texts| ==> texts[i] == Serialize(ItemAt(items, i))
  {
    hide Int10, Quote, Join, SerializeAll, ItemAt, ItemCount;
    var texts := SerializeAll(items);
    ItemsInOrder(items, 0);
    forall i | 0 <= i < |texts| ensures texts[i] == Serialize(ItemAt(items, i)) { ItemsInOrder(items, i); }
    assert Serialize(VectorV(items)) == "[" + Join(texts) + "]";
  }

  /** How a graph document, a list, a tree and a random-pointer list look. */
  lemma Layouts(d: Graphs.Document, values: seq<int>, levels: Trees.Levels, r: RandomLists.RandomList)
    ensures GraphJson.Print(d) ==
            if d.values == [] then "null"
            else "{\"values\":[" + Join(Ints(d.values)) + "],\"neighbors\":[" + Join(GraphJson.Rows(d.neighbors)) + "]}"
    ensures ListRuntime.ListText(values) == if values == [] then "null" else "[" + Join(Ints(values)) + "]"
    ensures TreeRuntime.TreeText(levels) == if levels == [] then "null" else "[" + Join(Items(levels)) + "]"
    ensures RandomLists.RandomText(r) ==
            if r.values == [] then "null"
            else "{\"values\":[" + Join(Ints(r.values)) + "],\"random\":[" + Join(Items(r.random)) + "]}"
  {
    if d.values != [] { GraphJson.PrintParts(d); }
    RandomLists.FlatText(r);
    hide Join, GraphJson.Fields, RandomLists.RandomFields;
  }
}
