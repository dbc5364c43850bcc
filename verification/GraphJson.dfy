/** The Go side of graph values: parsing with the reachability check, and the
    breadth-first canonical document. */
module GraphJson {
  import opened Sets
  import opened Traversal
  import opened Options
  import opened Text
  import opened Graphs
  import opened Numbering

  datatype GraphError =
    | LengthMismatch
    | BadValue(index: nat)
    | BadNeighbor(node: nat, position: nat)
    | Unreachable(node: nat)

  datatype Parsed = Ok(document: Document) | Err(error: GraphError)

  /** What a graph document must satisfy before reachability is looked at. */
  predicate Admissible(values: seq<int>, neighbors: seq<seq<int>>) {
    && |values| == |neighbors|
    && (forall i :: 0 <= i < |values| ==> Int32(values[i]))
    && (forall i, j :: 0 <= i < |neighbors| && 0 <= j < |neighbors[i]| ==>
          Int32(neighbors[i][j]) && 0 <= neighbors[i][j] < |values|)
  }

  function Checked(values: seq<int>, neighbors: seq<seq<int>>): (d: Document)
    requires Admissible(values, neighbors)
    ensures InRange(d) && d.values == values && |d.neighbors| == |neighbors|
    ensures forall i :: 0 <= i < |neighbors| ==> d.neighbors[i] == neighbors[i]
  {
    Document(values, seq(|neighbors|, i requires 0 <= i < |neighbors| =>
      seq(|neighbors[i]|, j requires 0 <= j < |neighbors[i]| => neighbors[i][j] as nat)))
  }

  /** The scalar checks, in the source's order: lengths, values, neighbour indices. */
  method CheckShape(values: seq<int>, neighbors: seq<seq<int>>) returns (r: Option<GraphError>)
    ensures r == None <==> Admissible(values, neighbors)
    ensures r == None <==>
              && |values| == |neighbors| && (forall i :: 0 <= i < |values| ==> -0x8000_0000 <= values[i] < 0x8000_0000)
              && forall i, j :: 0 <= i < |neighbors| && 0 <= j < |neighbors[i]| ==>
                   0 <= neighbors[i][j] < |values| && neighbors[i][j] < 0x8000_0000
    ensures r.Some? ==> !r.value.Unreachable?
    ensures r.Some? && r.value.LengthMismatch? <==> |values| != |neighbors|
    ensures r.Some? && r.value.BadValue? ==>
              var i := r.value.index;
              i < |values| && !Int32(values[i]) && forall k :: 0 <= k < i ==> Int32(values[k])
    ensures r.Some? && r.value.BadNeighbor? ==>
              var i, j := r.value.node, r.value.position;
              i < |neighbors| && j < |neighbors[i]| && !(Int32(neighbors[i][j]) && 0 <= neighbors[i][j] < |values|)
  {
    if |values| != |neighbors| { return Some(LengthMismatch); }
    for i := 0 to |values|
      invariant forall k :: 0 <= k < i ==> Int32(values[k])
    {
      if !Int32(values[i]) { return Some(BadValue(i)); }
    }
    for i := 0 to |neighbors|
      invariant forall k, j :: 0 <= k < i && 0 <= j < |neighbors[k]| ==>
                  Int32(neighbors[k][j]) && 0 <= neighbors[k][j] < |values|
    {
      for j := 0 to |neighbors[i]|
        invariant forall k :: 0 <= k < j ==> Int32(neighbors[i][k]) && 0 <= neighbors[i][k] < |values|
      {
        if !(Int32(neighbors[i][j]) && 0 <= neighbors[i][j] < |values|) { return Some(BadNeighbor(i, j)); }
      }
    }
    return None;
  }

  /** Depth-first marking from node 0 marks exactly the reachable nodes. */
  method MarkReachable(d: Document) returns (reachable: array<bool>)
    requires InRange(d) && d.values != []
    ensures fresh(reachable) && reachable.Length == |d.values|
    ensures forall i: nat :: i < |d.values| ==> (reachable[i] <==> Reachable(AsRooted(d).succ, 0, i))
  {
    hide Reachable, Searching;
    ghost var succ := AsRooted(d).succ;
    assert Closed(succ);
    reachable := new bool[|d.values|](_ => false);
    var pending: seq<nat> := [0];
    ghost var marked: set<nat> := {};
    SearchStart(succ, 0);
    while pending != []
      invariant forall i: nat :: i < reachable.Length ==> (reachable[i] <==> i in marked)
      invariant Searching(succ, 0, marked, pending)
      decreases NatsBelow(|d.values|) - marked, |pending|
    {
      ghost var before := pending;
      var index := pending[|pending| - 1];
      pending := pending[..|pending| - 1];
      assert before == pending + [index];
      SearchPop(succ, 0, marked, pending, index);
      if reachable[index] { continue; }
      reachable[index] := true;
      marked := marked + {index};
      pending := pending + d.neighbors[index];
    }
    SearchDone(succ, 0, marked);
  }

  /** Accepts exactly the in-range documents whose every node is reachable from node 0. */
  method ParseGraph(values: seq<int>, neighbors: seq<seq<int>>) returns (r: Parsed)
    ensures r.Ok? <==> Admissible(values, neighbors) && FullyReachable(Checked(values, neighbors))
    ensures r.Ok? ==> r.document == Checked(values, neighbors)
    ensures r.Err? && r.error.Unreachable? ==>
              Admissible(values, neighbors) &&
              var i, d := r.error.node, Checked(values, neighbors);
              i < |values| && !Reachable(AsRooted(d).succ, 0, i) &&
              forall k: nat :: k < i ==> Reachable(AsRooted(d).succ, 0, k)
  {
    var problem := CheckShape(values, neighbors);
    if problem.Some? { return Err(problem.value); }
    var d := Checked(values, neighbors);
    if |values| > 0 {
      var reachable := MarkReachable(d);
      for i := 0 to reachable.Length
        invariant forall k: nat :: k < i ==> reachable[k]
      {
        if !reachable[i] { return Err(Unreachable(i)); }
      }
    }
    return Ok(d);
  }

  // ----- text -----

  function Rows(neighbors: seq<seq<nat>>): (parts: seq<string>)
    ensures |parts| == |neighbors| && forall i :: 0 <= i < |neighbors| ==> parts[i] == Array(Ints(neighbors[i]))
  {
    seq(|neighbors|, i requires 0 <= i < |neighbors| => Array(Ints(neighbors[i])))
  }

  function Fields(d: Document): seq<string> {
    [Key("values") + Array(Ints(d.values)), Key("neighbors") + Array(Rows(d.neighbors))]
  }

  function Print(d: Document): string {
    if d.values == [] then "null" else Object(Fields(d))
  }

  lemma RowsInjective(a: seq<seq<nat>>, b: seq<seq<nat>>)
    ensures Tokens(Rows(a)) && Token(Array(Rows(a)))
    ensures Array(Rows(a)) == Array(Rows(b)) <==> a == b
  {
    forall i | 0 <= i < |a| ensures Token(Rows(a)[i]) { IntsInjective(a[i], a[i]); }
    forall i | 0 <= i < |b| ensures Token(Rows(b)[i]) { IntsInjective(b[i], b[i]); }
    EnclosedToken(Rows(a));
    ArrayInjective(Rows(a), Rows(b));
    if Rows(a) == Rows(b) {
      forall i | 0 <= i < |a| ensures a[i] == b[i] {
        IntsInjective(a[i], b[i]);
        assert Rows(a)[i] == Rows(b)[i];
        var x: seq<int>, y: seq<int> := a[i], b[i];
        assert x == y;
      }
    }
  }

  lemma FieldTokens(d: Document)
    ensures Tokens(Fields(d)) && Token(Object(Fields(d)))
  {
    IntsInjective(d.values, d.values);
    RowsInjective(d.neighbors, d.neighbors);
    KeyToken("values");
    KeyToken("neighbors");
    ConcatToken(Key("values"), Array(Ints(d.values)));
    ConcatToken(Key("neighbors"), Array(Rows(d.neighbors)));
    EnclosedToken(Fields(d));
  }

  /** Two documents print alike only if they are the same document, or both are empty. */
  lemma PrintInjective(a: Document, b: Document)
    ensures Token(Print(a))
    ensures Print(a) == Print(b) <==> (a.values == [] && b.values == []) || (a == b)
  {
    FieldTokens(a);
    FieldTokens(b);
    PlainToken("null");
    assert Object(Fields(a))[0] == '{' && Object(Fields(b))[0] == '{';
    if Object(Fields(a)) == Object(Fields(b)) {
      ArrayInjective(Fields(a), Fields(b));
      IntsInjective(a.values, b.values);
      RowsInjective(a.neighbors, b.neighbors);
      assert Fields(a)[0] == Fields(b)[0] && Fields(a)[1] == Fields(b)[1];
      assert Array(Ints(a.values)) == Fields(a)[0][9..] == Fields(b)[0][9..] == Array(Ints(b.values));
      assert Array(Rows(a.neighbors)) == Fields(a)[1][12..] == Fields(b)[1][12..] == Array(Rows(b.neighbors));
    }
  }

  ghost function CanonicalText(d: Document): string
    requires InRange(d)
  {
    if d.values == [] then "null" else Print(Canon(AsRooted(d)))
  }

  /** The document lists the input's nodes in the given order: values and neighbours, entry by entry. */
  ghost predicate Lists(order: seq<nat>, values: seq<int>, neighbors: seq<seq<int>>, d: Document) {
    && |values| == |neighbors| == |order| == |d.values| == |d.neighbors| && order != [] && order[0] == 0
    && (forall i, j :: 0 <= i < j < |order| ==> order[i] != order[j])
    && (forall i :: 0 <= i < |order| ==> order[i] < |values| && d.values[i] == values[order[i]])
    && (forall i :: 0 <= i < |order| ==> |d.neighbors[i]| == |neighbors[order[i]]|)
    && (forall i, k :: 0 <= i < |order| && 0 <= k < |d.neighbors[i]| ==>
          d.neighbors[i][k] < |order| && order[d.neighbors[i][k]] == neighbors[order[i]][k])
  }

  lemma CanonLists(values: seq<int>, neighbors: seq<seq<int>>)
    requires Admissible(values, neighbors) && values != [] && FullyReachable(Checked(values, neighbors))
    ensures var g := AsRooted(Checked(values, neighbors));
            Lists(Order(g), values, neighbors, Canon(g)) && Numbered(Canon(g))
  {
    var d := Checked(values, neighbors);
    var g := AsRooted(d);
    OrderPermutation(d);
    CanonNumbered(g);
    var order, canon := Order(g), Canon(g);
    hide Order, Canon, Numbered, FullyReachable, Proper;
    forall i | 0 <= i < |order| ensures order[i] < |values| { assert order[i] in order; }
    forall i | 0 <= i < |order|
      ensures canon.values[i] == values[order[i]] && Renumbers(order, d.neighbors[order[i]], canon.neighbors[i])
    {
      var v: nat := order[i];
      assert g.mark[v] == d.values[v] && g.succ[v] == d.neighbors[v];
    }
  }

  /** Numbers nodes when they are first discovered, then prints values and renumbered rows. */
  method CanonicalGraph(values: seq<int>, neighbors: seq<seq<int>>) returns (r: Option<string>)
    ensures r.Some? <==> Admissible(values, neighbors) && FullyReachable(Checked(values, neighbors))
    ensures r.Some? ==> r.value == CanonicalText(Checked(values, neighbors))
    ensures r.Some? && values != [] ==>
              exists order, d :: r.value == Print(d) && Lists(order, values, neighbors, d) && Numbered(d)
  {
    var parsed := ParseGraph(values, neighbors);
    if parsed.Err? { return None; }
    var d := parsed.document;
    if |d.values| == 0 { return Some("null"); }
    var order, indexes := DiscoveryOrder(d);
    ghost var canon := Canon(AsRooted(d));
    assert forall i :: 0 <= i < |order| ==> order[i] in order;
    var texts, rows := RenumberedTexts(d, order, indexes, canon);
    PrintParts(canon);
    CanonLists(values, neighbors);
    return Some("{\"values\":[" + Join(texts) + "],\"neighbors\":[" + Join(rows) + "]}");
  }

  lemma PrintParts(d: Document)
    requires d.values != []
    ensures Print(d) == "{\"values\":[" + Join(Ints(d.values)) + "],\"neighbors\":[" + Join(Rows(d.neighbors)) + "]}"
  {
    assert "{\"values\":[" == "{" + Key("values") + "[";
    assert "],\"neighbors\":[" == "]" + "," + Key("neighbors") + "[";
    assert "]}" == "]" + "}";
    TwoArrays(Key("values"), Join(Ints(d.values)), Key("neighbors"), Join(Rows(d.neighbors)));
  }

  method RenumberedTexts(d: Document, order: seq<nat>, indexes: map<nat, nat>, ghost canon: Document)
    returns (texts: seq<string>, rows: seq<string>)
    requires InRange(d) && Distinct(order) && Positions(indexes, order)
    requires |canon.values| == |canon.neighbors| == |order|
    requires forall i :: 0 <= i < |order| ==> order[i] < |d.values| && canon.values[i] == d.values[order[i]]
    requires forall i :: 0 <= i < |order| ==> Renumbers(order, d.neighbors[order[i]], canon.neighbors[i])
    ensures texts == Ints(canon.values) && rows == Rows(canon.neighbors)
  {
    hide Renumbers, Positions, Distinct, Int10, Join;
    texts, rows := [], [];
    for i := 0 to |order|
      invariant |texts| == |rows| == i
      invariant forall k :: 0 <= k < i ==> texts[k] == Int10(canon.values[k])
      invariant forall k :: 0 <= k < i ==> rows[k] == Array(Ints(canon.neighbors[k]))
    {
      var row := RenumberedRow(d.neighbors[order[i]], order, indexes, canon.neighbors[i]);
      texts := texts + [Int10(d.values[order[i]])];
      rows := rows + [row];
    }
  }

  method RenumberedRow(row: seq<nat>, ghost order: seq<nat>, indexes: map<nat, nat>, ghost numbers: seq<nat>)
    returns (text: string)
    requires Distinct(order) && Positions(indexes, order) && Renumbers(order, row, numbers)
    ensures text == Array(Ints(numbers))
  {
    var indices: seq<string> := [];
    for j := 0 to |row|
      invariant |indices| == j
      invariant forall k :: 0 <= k < j ==> indices[k] == Int10(numbers[k])
    {
      assert row[j] == order[numbers[j]] && row[j] in order;
      assert indexes[row[j]] == numbers[j];
      indices := indices + [Int10(indexes[row[j]])];
    }
    assert indices == Ints(numbers);
    return "[" + Join(indices) + "]";
  }

  ghost predicate Positions<T>(indexes: map<T, nat>, order: seq<T>) {
    && indexes.Keys == Elements(order)
    && forall x :: x in order ==> indexes[x] < |order| && order[indexes[x]] == x
  }

  lemma PositionsSnoc<T>(indexes: map<T, nat>, order: seq<T>, x: T)
    requires Positions(indexes, order) && x !in order
    ensures Positions(indexes[x := |order|], order + [x])
  {
  }

  method DiscoveryOrder(d: Document) returns (order: seq<nat>, indexes: map<nat, nat>)
    requires InRange(d) && d.values != []
    ensures order == Order(AsRooted(d)) && Positions(indexes, order)
    ensures Transcribes(order, AsRooted(d), Canon(AsRooted(d))) && Numbered(Canon(AsRooted(d)))
  {
    CanonNumbered(AsRooted(d));
    ghost var g := AsRooted(d);
    order := [0];
    indexes := map[0 := 0];
    var cursor := 0;
    PartialRoot(g.succ, 0);
    while cursor < |order|
      invariant Partial(g.succ, order, cursor) && Positions(indexes, order)
      invariant Bfs(g.succ, order, cursor) == Order(g)
      decreases |g.succ.Keys| - cursor
    {
      PartialStep(g.succ, order, cursor);
      order, indexes := AppendUnseen(d.neighbors[order[cursor]], order, indexes);
      cursor := cursor + 1;
    }
  }

  method AppendUnseen(row: seq<nat>, start: seq<nat>, known: map<nat, nat>)
    returns (order: seq<nat>, indexes: map<nat, nat>)
    requires Positions(known, start)
    ensures order == Discover(start, row) && Positions(indexes, order)
  {
    order, indexes := start, known;
    for j := 0 to |row|
      invariant order == Discover(start, row[..j]) && Positions(indexes, order)
    {
      DiscoverNext(start, row, j);
      if row[j] in indexes { continue; }
      PositionsSnoc(indexes, order, row[j]);
      indexes := indexes[row[j] := |order|];
      order := order + [row[j]];
    }
    assert row[..|row|] == row;
  }

  // ----- what the text decides -----

  /** The canonical text is a complete invariant: accepted documents print alike just
      when some bijection fixes node 0 and keeps values and ordered neighbour lists. */
  lemma CanonicalTextComplete(d: Document, e: Document)
    requires InRange(d) && InRange(e) && d.values != [] && e.values != []
    requires FullyReachable(d) && FullyReachable(e)
    ensures CanonicalText(d) == CanonicalText(e) <==>
            exists f: map<nat, nat> :: Isomorphism(f, AsRooted(d), AsRooted(e))
  {
    hide Canon, Isomorphism, Print, InRange, FullyReachable, AsRooted;
    var g, h := AsRooted(d), AsRooted(e);
    PrintInjective(Canon(g), Canon(h));
    assert Canon(g).values != [] by { CanonInRange(g); }
    if Canon(g) == Canon(h) {
      SameCanonIsomorphic(g, h);
    }
    if f: map<nat, nat> :| Isomorphism(f, g, h) {
      IsomorphicSameCanon(f, g, h);
    }
  }

  /** Canonicalising a canonical document changes nothing, and it is always accepted. */
  lemma CanonicalTextIdempotent(d: Document)
    requires InRange(d) && d.values != []
    ensures var c := Canon(AsRooted(d));
            InRange(c) && c.values != [] && FullyReachable(c) && CanonicalText(c) == CanonicalText(d)
  {
    CanonIsCanonical(AsRooted(d));
  }
}
