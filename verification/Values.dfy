/** Typed values: from a JSON value the judge generates a C++ expression and a canonical text;
    running the expression and serializing the result gives that text. */
module Values {
  import opened Options
  import opened Text
  import opened Strings
  import opened CppTypes
  import Graphs
  import GraphJson
  import GraphRuntime
  import ListRuntime
  import RandomLists
  import Trees
  import TreeRuntime
  import TreeJudge

  /** A parsed JSON value; numbers keep their text. */
  datatype Json =
    | Null
    | Boolean(b: bool)
    | Number(text: string)
    | Str(text: string)
    | Arr(items: JsonList)
    | Obj(fields: FieldList)

  datatype JsonList = Done | Item(head: Json, tail: JsonList)

  datatype FieldList = NoField | Field(key: string, value: Json, rest: FieldList)

  // ----- reading JSON -----

  predicate Digits(s: string) { s != "" && forall i :: 0 <= i < |s| ==> '0' <= s[i] <= '9' }

  /** Integer tokens of JSON (section 6 of RFC 8259); other numbers are refused as integers. */
  function IntegerOf(s: string): Option<int> {
    var minus := s != "" && s[0] == '-';
    var digits := if minus then s[1..] else s;
    if Digits(digits) && (|digits| == 1 || digits[0] != '0')
    then Some(if minus then -DecimalValue(digits) else DecimalValue(digits))
    else None
  }

  predicate InBits(n: int, bits: nat) {
    if bits == 32 then Int32(n) else -0x8000_0000_0000_0000 <= n < 0x8000_0000_0000_0000
  }

  /** Numbers, and strings that hold a number. */
  function Integer(j: Json, bits: nat): (r: Option<int>)
    ensures r.Some? ==> InBits(r.value, bits)
  {
    if j.Number? || j.Str? then
      var n := IntegerOf(j.text);
      if n.Some? && InBits(n.value, bits) then n else None
    else None
  }

  function Elements(j: Json): Option<JsonList> {
    match j
    case Null => Some(Done)
    case Arr(items) => Some(items)
    case _ => None
  }

  function Integers(items: JsonList): (r: Option<seq<int>>)
    ensures r.Some? ==> forall i :: 0 <= i < |r.value| ==> Int32(r.value[i])
  {
    match items
    case Done => Some([])
    case Item(j, tail) =>
      var n, rest := Integer(j, 32), Integers(tail);
      if n.None? || rest.None? then None else Some([n.value] + rest.value)
  }

  function Nullables(items: JsonList): Option<seq<Option<int>>> {
    match items
    case Done => Some([])
    case Item(j, tail) =>
      var n, rest := Integer(j, 32), Nullables(tail);
      if rest.None? || (!j.Null? && n.None?) then None else Some([if j.Null? then None else n] + rest.value)
  }

  function Rows(items: JsonList): Option<seq<seq<int>>> {
    match items
    case Done => Some([])
    case Item(j, tail) =>
      var row := Elements(j);
      var numbers := if row.None? then None else Integers(row.value);
      var rest := Rows(tail);
      if numbers.None? || rest.None? then None else Some([numbers.value] + rest.value)
  }

  /** The last field of that name wins. */
  function Lookup(fields: FieldList, key: string): Option<Json> {
    match fields
    case NoField => None
    case Field(k, v, rest) =>
      var later := Lookup(rest, key);
      if later.Some? then later else if k == key then Some(v) else None
  }

  function Column(j: Json, key: string): Option<JsonList> {
    if !j.Obj? then None
    else
      var value := Lookup(j.fields, key);
      if value.None? then None else Elements(value.value)
  }

  function RandomOf(j: Json): (r: Option<RandomLists.RandomList>)
    ensures r.Some? ==> RandomLists.Linked(r.value)
  {
    var values, random := Column(j, "values"), Column(j, "random");
    if values.None? || random.None? then None
    else
      var v, x := Integers(values.value), Nullables(random.value);
      if v.None? || x.None? || !RandomLists.Admissible(v.value, x.value) then None
      else Some(RandomLists.Checked(v.value, x.value))
  }

  ghost function GraphOf(j: Json): (r: Option<Graphs.Document>)
    ensures r.Some? ==> Graphs.InRange(r.value)
  {
    var values, neighbors := Column(j, "values"), Column(j, "neighbors");
    if values.None? || neighbors.None? then None
    else
      var v, rows := Integers(values.value), Rows(neighbors.value);
      if v.None? || rows.None? || !GraphJson.Admissible(v.value, rows.value)
         || !Graphs.FullyReachable(GraphJson.Checked(v.value, rows.value)) then None
      else Some(GraphJson.Checked(v.value, rows.value))
  }

  predicate AsciiJson(j: Json) {
    match j
    case Str(s) => Ascii(s)
    case Arr(items) => AsciiList(items)
    case _ => true
  }

  predicate AsciiList(items: JsonList) {
    match items
    case Done => true
    case Item(j, tail) => AsciiJson(j) && AsciiList(tail)
  }

  // ----- the canonical text -----

  function Quoted(s: string): string { if Ascii(s) then Quote(s) else "" }

  ghost function Canonical(ty: Type, j: Json): Option<string>
    decreases ty, 0
  {
    match ty
    case Int32T => var n := Integer(j, 32); if n.None? then None else Some(Int10(n.value))
    case Int64T => var n := Integer(j, 64); if n.None? then None else Some(Int10(n.value))
    case BoolT => if j.Boolean? then Some(if j.b then "true" else "false") else if j.Null? then Some("false") else None
    case StringT => if j.Str? then Some(Quoted(j.text)) else if j.Null? then Some(Quoted("")) else None
    case VectorT(e) =>
      var items := Elements(j);
      var texts := if items.None? then None else CanonicalAll(e, items.value);
      if texts.None? then None else Some(Array(texts.value))
    case OptionalT(e) => if j.Null? then Some("null") else Canonical(e, j)
    case ListT =>
      var items := Elements(j);
      var values := if items.None? then None else Integers(items.value);
      if values.None? then None else Some(ListRuntime.ListText(values.value))
    case TreeT =>
      var items := Elements(j);
      var values := if items.None? then None else Nullables(items.value);
      if values.None? then None else Some(TreeRuntime.TreeText(Trees.Trim(values.value)))
    case RandomT =>
      if j.Null? then Some("null")
      else var d := RandomOf(j); if d.None? then None else Some(RandomLists.RandomText(d.value))
    case GraphT =>
      if j.Null? then Some("null")
      else var d := GraphOf(j); if d.None? then None else Some(GraphJson.CanonicalText(d.value))
  }

  ghost function CanonicalAll(ty: Type, items: JsonList): Option<seq<string>>
    decreases ty, 1, items
  {
    match items
    case Done => Some([])
    case Item(j, tail) =>
      var text, rest := Canonical(ty, j), CanonicalAll(ty, tail);
      if text.None? || rest.None? then None else Some([text.value] + rest.value)
  }

  // ----- the generated expression -----

  datatype Expr =
    | IntE(text: string) | BoolE(b: bool) | StringE(escaped: string, length: nat)
    | VectorE(items: ExprList) | EmptyE | OptionalE(inner: Expr) | NullptrE
    | ListE(values: seq<int>) | TreeE(levels: seq<Option<int>>)
    | RandomE(values: seq<int>, indices: seq<int>) | GraphE(document: Graphs.Document)

  datatype ExprList = NoExpr | ExprItem(head: Expr, tail: ExprList)

  function StringExpr(s: string): Expr { if Bytes(s) then StringE(EscapeLiteral(s), |s|) else StringE("", 0) }

  function IndexOrMinusOne(r: Option<nat>): int { if r.None? then -1 else r.value }

  /** Null pointers become -1, as the generated builder call writes them. */
  function IndexList(d: RandomLists.RandomList): seq<int> {
    seq(|d.random|, i requires 0 <= i < |d.random| => IndexOrMinusOne(d.random[i]))
  }

  ghost function Literal(ty: Type, j: Json): Option<Expr>
    decreases ty, 0
  {
    match ty
    case Int32T => var n := Integer(j, 32); if n.None? then None else Some(IntE(Int10(n.value)))
    case Int64T => var n := Integer(j, 64); if n.None? then None else Some(IntE(Int10(n.value)))
    case BoolT => if j.Boolean? then Some(BoolE(j.b)) else if j.Null? then Some(BoolE(false)) else None
    case StringT => if j.Str? then Some(StringExpr(j.text)) else if j.Null? then Some(StringExpr("")) else None
    case VectorT(e) =>
      var items := Elements(j);
      var exprs := if items.None? then None else LiteralAll(e, items.value);
      if exprs.None? then None else Some(VectorE(exprs.value))
    case OptionalT(e) =>
      if j.Null? then Some(EmptyE)
      else var inner := Literal(e, j); if inner.None? then None else Some(OptionalE(inner.value))
    case ListT =>
      if j.Null? then Some(NullptrE)
      else
        var items := Elements(j);
        var values := if items.None? then None else Integers(items.value);
        if values.None? then None else Some(ListE(values.value))
    case TreeT =>
      if j.Null? then Some(NullptrE)
      else
        var items := Elements(j);
        var values := if items.None? then None else Nullables(items.value);
        if values.None? then None else Some(TreeE(values.value))
    case RandomT =>
      if j.Null? then Some(NullptrE)
      else var d := RandomOf(j); if d.None? then None else Some(RandomE(d.value.values, IndexList(d.value)))
    case GraphT =>
      if j.Null? then Some(NullptrE)
      else var d := GraphOf(j); if d.None? then None else Some(GraphE(d.value))
  }

  ghost function LiteralAll(ty: Type, items: JsonList): Option<ExprList>
    decreases ty, 1, items
  {
    match items
    case Done => Some(NoExpr)
    case Item(j, tail) =>
      var expr, rest := Literal(ty, j), LiteralAll(ty, tail);
      if expr.None? || rest.None? then None else Some(ExprItem(expr.value, rest.value))
  }

  // ----- running it -----

  /** Values of the generated program. Pointers stand for what they point to; a graph is given
      by its canonical document. */
  datatype Value =
    | IntV(n: int) | BoolV(b: bool) | StringV(bytes: string)
    | VectorV(items: ValueList) | AbsentV | PresentV(inner: Value) | NullV
    | ListV(values: seq<int>) | TreeV(levels: seq<Option<int>>)
    | RandomV(list: RandomLists.RandomList) | GraphV(document: Graphs.Document)

  datatype ValueList = NoValue | ValueItem(head: Value, tail: ValueList)

  /** The object an expression constructs. Trees that the builder cannot reproduce, malformed
      literals and index lists of the wrong shape have none. */
  ghost function Eval(e: Expr): Option<Value> {
    match e
    case IntE(text) => var n := IntegerOf(text); if n.None? then None else Some(IntV(n.value))
    case BoolE(b) => Some(BoolV(b))
    case StringE(escaped, length) =>
      var read := ReadLiteral(escaped);
      if read.Bad? || |read.bytes| < length then None else Some(StringV(read.bytes[..length]))
    case VectorE(items) => var values := EvalAll(items); if values.None? then None else Some(VectorV(values.value))
    case EmptyE => Some(AbsentV)
    case OptionalE(inner) => var v := Eval(inner); if v.None? then None else Some(PresentV(v.value))
    case NullptrE => Some(NullV)
    case ListE(values) => Some(if values == [] then NullV else ListV(values))
    case TreeE(levels) =>
      if !TreeJudge.Fits(levels) then None
      else Some(if Trees.Trim(levels) == [] then NullV else TreeV(Trees.Trim(levels)))
    case RandomE(values, indices) =>
      if |values| != |indices| || exists i :: 0 <= i < |indices| && indices[i] >= |values| then None
      else Some(if values == [] then NullV else RandomV(RandomLists.Indexed(values, indices)))
    case GraphE(d) =>
      if !Graphs.InRange(d) then None
      else Some(if d.values == [] then NullV else GraphV(Graphs.Canon(Graphs.AsRooted(d))))
  }

  ghost function EvalAll(items: ExprList): Option<ValueList> {
    match items
    case NoExpr => Some(NoValue)
    case ExprItem(e, tail) =>
      var v, rest := Eval(e), EvalAll(tail);
      if v.None? || rest.None? then None else Some(ValueItem(v.value, rest.value))
  }

  function Serialize(v: Value): string {
    match v
    case IntV(n) => Int10(n)
    case BoolV(b) => if b then "true" else "false"
    case StringV(s) => Quoted(s)
    case VectorV(items) => Array(SerializeAll(items))
    case AbsentV => "null"
    case PresentV(inner) => Serialize(inner)
    case NullV => "null"
    case ListV(values) => ListRuntime.ListText(values)
    case TreeV(levels) => TreeRuntime.TreeText(levels)
    case RandomV(d) => RandomLists.RandomText(d)
    case GraphV(d) => GraphJson.Print(d)
  }

  /** What the generated C++ program prints for a value of a declared type: nothing, when it does
      not compile. */
  ghost function CppText(ty: Type, v: Value): Option<string> {
    if Resolves(Driver, ty) then Some(Serialize(v)) else None
  }

  function SerializeAll(items: ValueList): seq<string> {
    match items
    case NoValue => []
    case ValueItem(v, tail) => [Serialize(v)] + SerializeAll(tail)
  }

  ghost predicate Typed(ty: Type, v: Value)
    decreases ty, 0
  {
    match ty
    case Int32T => v.IntV? && InBits(v.n, 32)
    case Int64T => v.IntV? && InBits(v.n, 64)
    case BoolT => v.BoolV?
    case StringT => v.StringV? && Ascii(v.bytes)
    case VectorT(e) => v.VectorV? && TypedAll(e, v.items)
    case OptionalT(e) => v.AbsentV? || (v.PresentV? && Typed(e, v.inner))
    case ListT => v.NullV? || (v.ListV? && v.values != [])
    case TreeT => v.NullV? || (v.TreeV? && v.levels != [])
    case RandomT => v.NullV? || (v.RandomV? && v.list.values != [])
    case GraphT => v.NullV? || (v.GraphV? && v.document.values != [])
  }

  ghost predicate TypedAll(ty: Type, items: ValueList)
    decreases ty, 1, items
  {
    match items
    case NoValue => true
    case ValueItem(v, tail) => Typed(ty, v) && TypedAll(ty, tail)
  }

  /** Every tree in the value is within what the C++ builder reproduces. */
  ghost predicate TreesFit(ty: Type, j: Json)
    decreases ty, 0
  {
    match ty
    case TreeT =>
      var items := Elements(j);
      items.Some? && Nullables(items.value).Some? ==> TreeJudge.Fits(Nullables(items.value).value)
    case VectorT(e) => Elements(j).Some? ==> TreesFitAll(e, Elements(j).value)
    case OptionalT(e) => TreesFit(e, j)
    case _ => true
  }

  ghost predicate TreesFitAll(ty: Type, items: JsonList)
    decreases ty, 1, items
  {
    match items
    case Done => true
    case Item(j, tail) => TreesFit(ty, j) && TreesFitAll(ty, tail)
  }

  // ----- leaves -----

  lemma {:induction false} DigitsOfDecimal(n: nat)
    ensures Digits(Decimal(n)) && (|Decimal(n)| == 1 || Decimal(n)[0] != '0')
    decreases n
  {
    if n >= 10 { DigitsOfDecimal(n / 10); LeadingDigit(n / 10); }
  }

  lemma {:induction false} LeadingDigit(n: nat)
    requires n > 0
    ensures Decimal(n)[0] != '0'
    decreases n
  {
    if n >= 10 { LeadingDigit(n / 10); }
  }

  /** The text of an integer literal is read back as that integer. */
  lemma IntegerReads(n: int)
    ensures IntegerOf(Int10(n)) == Some(n)
  {
    hide Decimal, DecimalValue;
    var m := if n < 0 then -n else n;
    DigitsOfDecimal(m);
    DecimalRoundTrip(m);
    if n < 0 {
      assert Int10(n)[1..] == Decimal(m) && Int10(n)[0] == '-';
    } else {
      assert '0' <= Int10(n)[0] <= '9';
    }
  }

  lemma StringRuns(s: string)
    requires Ascii(s)
    ensures Eval(StringExpr(s)) == Some(StringV(s)) && Serialize(StringV(s)) == Quote(s)
  {
    assert Bytes(s);
    LiteralRoundTrip(s);
    assert s[..|s|] == s;
  }

  lemma RandomRuns(d: RandomLists.RandomList)
    requires RandomLists.Linked(d)
    ensures Eval(RandomE(d.values, IndexList(d))) == Some(if d.values == [] then NullV else RandomV(d))
  {
    var indices := IndexList(d);
    if d.values != [] { assert RandomLists.Indexed(d.values, indices) == d; }
  }

  // ----- build, then serialize -----

  /** What the construction of a literal gives, and what it prints. */
  ghost predicate Runs(ty: Type, e: Option<Expr>, text: Option<string>) {
    && (e.Some? <==> text.Some?)
    && (e.Some? ==>
          Eval(e.value).Some? && Typed(ty, Eval(e.value).value) && Serialize(Eval(e.value).value) == text.value)
  }

  lemma ScalarRuns(ty: Type, j: Json)
    requires (ty.Int32T? || ty.Int64T? || ty.BoolT? || ty.StringT?) && AsciiJson(j)
    ensures Runs(ty, Literal(ty, j), Canonical(ty, j))
  {
    if ty.Int32T? && Integer(j, 32).Some? { IntegerReads(Integer(j, 32).value); }
    if ty.Int64T? && Integer(j, 64).Some? { IntegerReads(Integer(j, 64).value); }
    if ty.StringT? {
      if j.Str? { StringRuns(j.text); }
      if j.Null? { StringRuns(""); }
    }
  }

  lemma ListRuns(j: Json)
    ensures Runs(ListT, Literal(ListT, j), Canonical(ListT, j))
  {
    hide RandomOf, GraphOf, Nullables, Join, Ints;
  }

  lemma RandomListRuns(j: Json)
    ensures Runs(RandomT, Literal(RandomT, j), Canonical(RandomT, j))
  {
    hide RandomOf, GraphOf, Nullables, Integers, IndexList, RandomLists.RandomFields;
    if RandomOf(j).Some? { RandomRuns(RandomOf(j).value); }
  }

  lemma GraphValueRuns(d: Graphs.Document)
    requires Graphs.InRange(d)
    ensures Runs(GraphT, Some(GraphE(d)), Some(GraphJson.CanonicalText(d)))
  {
    hide GraphJson.Print, Graphs.AsRooted;
  }

  lemma GraphRuns(j: Json)
    ensures Runs(GraphT, Literal(GraphT, j), Canonical(GraphT, j))
  {
    hide RandomOf, GraphOf, Nullables, Integers, Graphs.InRange, GraphJson.CanonicalText;
    if GraphOf(j).Some? { GraphValueRuns(GraphOf(j).value); }
  }

  lemma TreeValueRuns(levels: seq<Option<int>>)
    requires TreeJudge.Fits(levels)
    ensures Runs(TreeT, Some(TreeE(levels)), Some(TreeRuntime.TreeText(Trees.Trim(levels))))
  {
    hide TreeJudge.Fits, Trees.Trim, Trees.At, TreeRuntime.TreeText, IntegerOf, ReadLiteral;
    EmptyTreeText();
    var w := Trees.Trim(levels);
    assert Eval(TreeE(levels)) == Some(if w == [] then NullV else TreeV(w));
  }

  lemma EmptyTreeText()
    ensures TreeRuntime.TreeText([]) == "null"
  {
  }

  lemma TreeRuns(j: Json)
    requires TreesFit(TreeT, j)
    ensures Runs(TreeT, Literal(TreeT, j), Canonical(TreeT, j))
  {
    hide RandomOf, GraphOf, Integers, TreeJudge.Fits;
    if !j.Null? && Elements(j).Some? && Nullables(Elements(j).value).Some? {
      TreeValueRuns(Nullables(Elements(j).value).value);
    }
  }

  lemma {:induction false} LiteralRuns(ty: Type, j: Json)
    requires AsciiJson(j) && TreesFit(ty, j)
    ensures Runs(ty, Literal(ty, j), Canonical(ty, j))
    decreases ty, 0
  {
    hide Integers, Nullables, RandomOf, GraphOf, IntegerOf, Quoted, StringExpr, ReadLiteral;
    match ty
    case VectorT(e) => if Elements(j).Some? { AllAgree(e, Elements(j).value); }
    case OptionalT(e) => if !j.Null? { LiteralRuns(e, j); }
    case TreeT => TreeRuns(j);
    case ListT => ListRuns(j);
    case RandomT => RandomListRuns(j);
    case GraphT => GraphRuns(j);
    case _ => ScalarRuns(ty, j);
  }

  lemma {:induction false} AllAgree(ty: Type, items: JsonList)
    requires AsciiList(items) && TreesFitAll(ty, items)
    ensures LiteralAll(ty, items).Some? <==> CanonicalAll(ty, items).Some?
    ensures LiteralAll(ty, items).Some? ==>
              var values := EvalAll(LiteralAll(ty, items).value);
              values.Some? && TypedAll(ty, values.value) && SerializeAll(values.value) == CanonicalAll(ty, items).value
    decreases ty, 1, items
  {
    hide Canonical, Literal, Eval, Typed, Serialize, AsciiJson, TreesFit;
    if items.Item? {
      LiteralRuns(ty, items.head);
      AllAgree(ty, items.tail);
    }
  }

  /** For every type and every JSON value: the literal exists exactly when the canonical text
      does, and the program prints that text for what the literal constructs, if the type has no
      optional directly around a vector without runtime pointers; otherwise it prints nothing. */
  lemma BuildSerializeAgrees(ty: Type, j: Json)
    requires AsciiJson(j) && TreesFit(ty, j)
    ensures Literal(ty, j).Some? <==> Canonical(ty, j).Some?
    ensures Literal(ty, j).Some? ==> Eval(Literal(ty, j).value).Some? && Typed(ty, Eval(Literal(ty, j).value).value)
    ensures Literal(ty, j).Some? ==>
              (CppText(ty, Eval(Literal(ty, j).value).value) == Canonical(ty, j) <==> Serializable(ty))
  {
    hide Literal, Canonical, Eval, Typed, Serialize, AsciiJson, TreesFit, Resolves, Serializable;
    LiteralRuns(ty, j);
    ResolvesExactly(ty);
  }

  predicate PointerExpr(e: Expr) { e.NullptrE? || e.ListE? || e.TreeE? || e.RandomE? || e.GraphE? }

  /** The values of pointer expressions are what the C++ code makes of them: running the builder
      on the heap and the serializer on its result prints the text of the value. */
  method RunPointer(e: Expr) returns (text: string)
    requires PointerExpr(e) && Eval(e).Some?
    ensures text == Serialize(Eval(e).value)
  {
    hide Eval, Serialize;
    PointerText(e);
    match e
    case NullptrE => text := "null";
    case ListE(values) => text := ListRuntime.BuildThenSerializeList(values);
    case TreeE(levels) => text := TreeJudge.BuildThenSerialize(levels);
    case RandomE(values, indices) => text := RandomLists.BuildAndPrint(values, indices);
    case GraphE(d) => text := GraphRuntime.BuildThenSerialize(d.values, d.neighbors);
  }

  lemma PointerText(e: Expr)
    requires PointerExpr(e) && Eval(e).Some?
    ensures e.NullptrE? ==> Serialize(Eval(e).value) == "null"
    ensures e.ListE? ==> Serialize(Eval(e).value) == ListRuntime.ListText(e.values)
    ensures e.TreeE? ==> TreeJudge.Fits(e.levels)
    ensures e.TreeE? ==> Serialize(Eval(e).value) == TreeRuntime.TreeText(Trees.Trim(e.levels))
    ensures e.RandomE? ==> RandomPointerText(e.values, e.indices, Serialize(Eval(e).value))
    ensures e.GraphE? ==> Graphs.InRange(e.document) && Serialize(Eval(e).value) == GraphJson.CanonicalText(e.document)
  {
    if e.TreeE? { TreeValueRuns(e.levels); }
    if e.GraphE? { GraphValueRuns(e.document); }
  }

  predicate RandomPointerText(values: seq<int>, indices: seq<int>, text: string) {
    && |values| == |indices| && (forall i :: 0 <= i < |indices| ==> indices[i] < |values|)
    && text == RandomLists.RandomText(RandomLists.Indexed(values, indices))
  }

  // ----- the text decides the value -----

  /** Values up to what the judge cannot and need not tell apart: an absent optional, and a
      present one that holds null. */
  function Collapse(v: Value): Value {
    match v
    case AbsentV => NullV
    case PresentV(inner) => Collapse(inner)
    case VectorV(items) => VectorV(CollapseAll(items))
    case _ => v
  }

  function CollapseAll(items: ValueList): ValueList {
    match items
    case NoValue => NoValue
    case ValueItem(v, tail) => ValueItem(Collapse(v), CollapseAll(tail))
  }

  lemma BoolTexts(a: bool, b: bool)
    ensures var s, t := Serialize(BoolV(a)), Serialize(BoolV(b)); Token(s) && (s == t <==> a == b)
  {
    assert Plain("true") && Plain("false") && "true"[0] != "false"[0];
    PlainToken("true");
    PlainToken("false");
  }

  lemma NullText()
    ensures Token("null") && forall parts: seq<string> :: Array(parts) != "null" && Object(parts) != "null"
  {
    assert Plain("null") && "null"[0] == 'n';
    PlainToken("null");
    forall parts: seq<string> ensures Array(parts) != "null" && Object(parts) != "null" {
      assert Array(parts)[0] == '[' && Object(parts)[0] == '{';
    }
  }

  lemma ListTexts(a: Value, b: Value)
    requires Typed(ListT, a) && Typed(ListT, b)
    ensures Token(Serialize(a)) && (Serialize(a) == Serialize(b) <==> a == b)
  {
    NullText();
    var x, y := if a.ListV? then a.values else [], if b.ListV? then b.values else [];
    IntsInjective(x, y);
  }

  lemma TreeTexts(a: Value, b: Value)
    requires Typed(TreeT, a) && Typed(TreeT, b)
    ensures Token(Serialize(a)) && (Serialize(a) == Serialize(b) <==> a == b)
  {
    NullText();
    var x, y := if a.TreeV? then a.levels else [], if b.TreeV? then b.levels else [];
    ItemsInjective(x, y);
  }

  lemma RandomTexts(a: Value, b: Value)
    requires Typed(RandomT, a) && Typed(RandomT, b)
    ensures Token(Serialize(a)) && (Serialize(a) == Serialize(b) <==> a == b)
  {
    NullText();
    if a.RandomV? {
      RandomLists.RandomFieldsExact(a.list, a.list);
      if b.RandomV? { RandomLists.RandomTextInjective(a.list, b.list); }
    }
  }

  lemma GraphTexts(a: Value, b: Value)
    requires Typed(GraphT, a) && Typed(GraphT, b)
    ensures Token(Serialize(a)) && (Serialize(a) == Serialize(b) <==> a == b)
  {
    NullText();
    var empty := Graphs.Document([], []);
    GraphJson.PrintInjective(if a.GraphV? then a.document else empty, if b.GraphV? then b.document else empty);
  }

  lemma StringTexts(a: Value, b: Value)
    requires Typed(StringT, a) && Typed(StringT, b)
    ensures Token(Serialize(a)) && (Serialize(a) == Serialize(b) <==> a == b)
  {
    QuoteExact(a.bytes, b.bytes);
  }

  lemma IntTexts(a: Value, b: Value)
    requires a.IntV? && b.IntV?
    ensures Token(Serialize(a)) && (Serialize(a) == Serialize(b) <==> a == b)
  {
    Int10Token(a.n);
    Int10Injective(a.n, b.n);
  }

  /** Only null values print as null. */
  lemma {:induction false} NullTexts(ty: Type, v: Value)
    requires Typed(ty, v)
    ensures Serialize(v) == "null" <==> Collapse(v) == NullV
    decreases ty
  {
    NullText();
    match ty
    case Int32T => Int10Head(v.n);
    case Int64T => Int10Head(v.n);
    case BoolT => assert "true"[0] != 'n' && "false"[0] != 'n';
    case StringT => assert Quote(v.bytes)[0] == '\"';
    case OptionalT(e) => if v.PresentV? { NullTexts(e, v.inner); }
    case TreeT => assert v.TreeV? ==> Serialize(v) == Array(Items(v.levels));
    case GraphT => assert v.GraphV? ==> GraphJson.Print(v.document)[0] == '{';
    case _ =>
  }

  /** Texts are self-delimiting, and two values have the same exactly when they are the same, up to
      absent optionals. */
  lemma {:induction false} TextsDecide(ty: Type, a: Value, b: Value)
    requires Typed(ty, a) && Typed(ty, b)
    ensures Token(Serialize(a)) && (Serialize(a) == Serialize(b) <==> Collapse(a) == Collapse(b))
    decreases ty, 0
  {
    match ty
    case Int32T => IntTexts(a, b);
    case Int64T => IntTexts(a, b);
    case BoolT => BoolTexts(a.b, b.b);
    case StringT => StringTexts(a, b);
    case VectorT(e) => VectorTexts(e, a, b);
    case OptionalT(e) => OptionalTexts(e, a, b);
    case ListT => ListTexts(a, b);
    case TreeT => TreeTexts(a, b);
    case RandomT => RandomTexts(a, b);
    case GraphT => GraphTexts(a, b);
  }

  lemma {:induction false} OptionalTexts(e: Type, a: Value, b: Value)
    requires Typed(OptionalT(e), a) && Typed(OptionalT(e), b)
    ensures Token(Serialize(a)) && (Serialize(a) == Serialize(b) <==> Collapse(a) == Collapse(b))
    decreases e, 2
  {
    NullText();
    if a.PresentV? { TextsDecide(e, a.inner, if b.PresentV? then b.inner else a.inner); }
    NullTexts(OptionalT(e), a);
    NullTexts(OptionalT(e), b);
  }

  lemma {:induction false} VectorTexts(e: Type, a: Value, b: Value)
    requires Typed(VectorT(e), a) && Typed(VectorT(e), b)
    ensures Token(Serialize(a)) && (Serialize(a) == Serialize(b) <==> Collapse(a) == Collapse(b))
    decreases e, 2
  {
    AllTexts(e, a.items, b.items);
    AllTexts(e, b.items, a.items);
    EnclosedToken(SerializeAll(a.items));
    ArrayInjective(SerializeAll(a.items), SerializeAll(b.items));
  }

  lemma {:induction false} AllTexts(e: Type, a: ValueList, b: ValueList)
    requires TypedAll(e, a) && TypedAll(e, b)
    ensures Tokens(SerializeAll(a)) && (SerializeAll(a) == SerializeAll(b) <==> CollapseAll(a) == CollapseAll(b))
    decreases e, 1, a
  {
    if a.ValueItem? {
      TextsDecide(e, a.head, if b.ValueItem? then b.head else a.head);
      AllTexts(e, a.tail, if b.ValueItem? then b.tail else a.tail);
      assert SerializeAll(a)[0] == Serialize(a.head) && SerializeAll(a)[1..] == SerializeAll(a.tail);
      if b.ValueItem? {
        assert SerializeAll(b)[0] == Serialize(b.head) && SerializeAll(b)[1..] == SerializeAll(b.tail);
      }
    }
  }

  /** For every type: a value prints exactly when no optional in the type directly wraps a vector
      without runtime pointers, and then two values print alike exactly when they are the same, up to
      absent optionals. */
  lemma SerializeDecides(ty: Type, a: Value, b: Value)
    requires Typed(ty, a) && Typed(ty, b)
    ensures CppText(ty, a).Some? <==> Serializable(ty)
    ensures Serializable(ty) ==>
              Token(CppText(ty, a).value) && (CppText(ty, a) == CppText(ty, b) <==> Collapse(a) == Collapse(b))
  {
    hide Typed, Serialize, Collapse, Resolves, Serializable;
    TextsDecide(ty, a, b);
    ResolvesExactly(ty);
  }

  /** The JSON value is an expectation of that type within what the model covers. */
  ghost predicate Expected(ty: Type, j: Json) { AsciiJson(j) && TreesFit(ty, j) && Canonical(ty, j).Some? }

  /** What the literal of an expectation constructs. */
  ghost function Meant(ty: Type, j: Json): (v: Value)
    requires Expected(ty, j)
    ensures Typed(ty, v) && Serialize(v) == Canonical(ty, j).value
  {
    LiteralRuns(ty, j);
    Eval(Literal(ty, j).value).value
  }

  /** The judge's decision about a returned value: its text is the canonical text of the expectation
      exactly when the type can be printed and the value is the one that the expectation's literal
      would construct. */
  lemma ReturnedValueVerdict(ty: Type, v: Value, expected: Json)
    requires Typed(ty, v) && Expected(ty, expected)
    ensures Token(Canonical(ty, expected).value)
    ensures CppText(ty, v) == Canonical(ty, expected) <==>
            Serializable(ty) && Collapse(v) == Collapse(Meant(ty, expected))
  {
    hide Serialize, Collapse, Canonical, Typed, AsciiJson, TreesFit, Resolves, Serializable;
    TextsDecide(ty, Meant(ty, expected), v);
    TextsDecide(ty, v, Meant(ty, expected));
    ResolvesExactly(ty);
  }
}
