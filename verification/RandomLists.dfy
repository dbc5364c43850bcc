/** Lists with random pointers: validation, canonical text, build and serialize. */
module RandomLists {
  import opened Options
  import opened Text

  /** A random-list document: values, and for each node the index its random pointer goes to. */
  datatype RandomList = RandomList(values: seq<int>, random: seq<Option<nat>>)

  predicate Linked(d: RandomList) {
    |d.values| == |d.random| && forall i :: 0 <= i < |d.random| && d.random[i].Some? ==> d.random[i].value < |d.values|
  }

  function RandomFields(d: RandomList): seq<string> {
    [Key("values") + Array(Ints(d.values)), Key("random") + Array(Items(d.random))]
  }

  function RandomText(d: RandomList): string {
    if d.values == [] then "null" else Object(RandomFields(d))
  }

  // ----- the text is unambiguous -----

  lemma RandomFieldsExact(a: RandomList, b: RandomList)
    ensures Tokens(RandomFields(a)) && Token(Object(RandomFields(a)))
    ensures RandomFields(a) == RandomFields(b) <==> a == b
  {
    KeyToken("values");
    KeyToken("random");
    IntsInjective(a.values, b.values);
    ItemsInjective(a.random, b.random);
    ConcatToken(Key("values"), Array(Ints(a.values)));
    ConcatToken(Key("random"), Array(Items(a.random)));
    EnclosedToken(RandomFields(a));
    SamePrefix(Key("values"), Array(Ints(a.values)), Array(Ints(b.values)));
    SamePrefix(Key("random"), Array(Items(a.random)), Array(Items(b.random)));
    if RandomFields(a) == RandomFields(b) {
      assert RandomFields(a)[0] == RandomFields(b)[0] && RandomFields(a)[1] == RandomFields(b)[1];
    }
  }

  /** Documents with the same text are equal, empty ones apart. */
  lemma RandomTextInjective(a: RandomList, b: RandomList)
    ensures RandomText(a) == RandomText(b) <==> a == b || (a.values == [] && b.values == [])
  {
    RandomFieldsExact(a, b);
    RandomFieldsExact(b, a);
    ArrayInjective(RandomFields(a), RandomFields(b));
    assert "null"[0] == 'n' && Object(RandomFields(a))[0] == '{' && Object(RandomFields(b))[0] == '{';
  }

  // ----- validation and the canonical form -----

  predicate Admissible(values: seq<int>, random: seq<Option<int>>) {
    && |values| == |random| && (forall i :: 0 <= i < |values| ==> Int32(values[i]))
    && (forall i :: 0 <= i < |random| && random[i].Some? ==> 0 <= random[i].value < |values| && Int32(random[i].value))
  }

  function Checked(values: seq<int>, random: seq<Option<int>>): (d: RandomList)
    requires Admissible(values, random)
    ensures Linked(d)
  {
    RandomList(values, seq(|random|, i requires 0 <= i < |random| =>
      if random[i].None? then None else var k: nat := random[i].value; Some(k)))
  }

  /** Checks the numbers of a random-list document and prints its canonical text. */
  method CanonicalRandomList(values: seq<int>, random: seq<Option<int>>) returns (r: Option<string>)
    ensures r == if Admissible(values, random) then Some(RandomText(Checked(values, random))) else None
    ensures r.Some? <==>
              && |values| == |random| && (forall i :: 0 <= i < |values| ==> -0x8000_0000 <= values[i] < 0x8000_0000)
              && forall i :: 0 <= i < |random| && random[i].Some? ==>
                   0 <= random[i].value < |values| && random[i].value < 0x8000_0000
    ensures r.Some? ==>
              r.value == if values == [] then "null"
                         else "{\"values\":[" + Join(Ints(values)) + "],\"random\":[" + Join(Items(random)) + "]}"
  {
    if |values| != |random| { return None; }
    for i := 0 to |values|
      invariant forall k :: 0 <= k < i ==> Int32(values[k])
    {
      if !Int32(values[i]) { return None; }
    }
    for i := 0 to |random|
      invariant forall k :: 0 <= k < i && random[k].Some? ==> 0 <= random[k].value < |values| && Int32(random[k].value)
    {
      if random[i].Some? && (!Int32(random[i].value) || random[i].value < 0 || random[i].value >= |values|) {
        return None;
      }
    }
    if |values| == 0 { return Some("null"); }
    var d := Checked(values, random);
    var text := PrintRandom(d);
    FlatText(d);
    assert Items(d.random) == Items(random);
    return Some(text);
  }

  method PrintRandom(d: RandomList) returns (out: string)
    ensures out == Object(RandomFields(d))
  {
    hide Int10, Join;
    var values, indices := Array(Ints(d.values)), Array(Items(d.random));
    out := "{" + Key("values") + values + "," + Key("random") + indices + "}";
    TwoFields(Key("values"), values, Key("random"), indices);
  }

  lemma FlatText(d: RandomList)
    ensures Object(RandomFields(d)) ==
            "{\"values\":[" + Join(Ints(d.values)) + "],\"random\":[" + Join(Items(d.random)) + "]}"
  {
    assert "{\"values\":[" == "{" + Key("values") + "[";
    assert "],\"random\":[" == "]" + "," + Key("random") + "[";
    assert "]}" == "]" + "}";
    TwoArrays(Key("values"), Join(Ints(d.values)), Key("random"), Join(Items(d.random)));
  }

  lemma TwoFields(k: string, x: string, l: string, y: string)
    ensures "{" + k + x + "," + l + y + "}" == Object([k + x, l + y])
  {
    assert [k + x, l + y][1..] == [l + y];
    assert Join([k + x, l + y]) == k + x + "," + (l + y);
  }

  // ----- the heap -----

  class RandomNode {
    var val: int
    var next: RandomNode?
    var random: RandomNode?

    constructor (value: int)
      ensures val == value && next == null && random == null
    {
      val, next, random := value, null, null;
    }
  }

  /** The node after position `i` when the first `n` nodes are linked. */
  function After(nodes: seq<RandomNode>, i: nat, n: nat): RandomNode? {
    if i + 1 < n <= |nodes| then nodes[i + 1] else null
  }

  function Target(nodes: seq<RandomNode>, r: Option<nat>): RandomNode? {
    if r.None? || r.value >= |nodes| then null else nodes[r.value]
  }

  ghost predicate LinkedAt(nodes: seq<RandomNode>, i: nat, n: nat)
    requires i < |nodes|
    reads nodes
  {
    nodes[i].next == After(nodes, i, n)
  }

  ghost predicate RandomAt(nodes: seq<RandomNode>, i: nat, r: Option<nat>)
    requires i < |nodes|
    reads nodes
  {
    nodes[i].random == Target(nodes, r)
  }

  ghost predicate Built(d: RandomList, nodes: seq<RandomNode>)
    requires Linked(d)
    reads nodes
  {
    && |nodes| == |d.values|
    && (forall i, j :: 0 <= i < j < |nodes| ==> nodes[i] != nodes[j])
    && (forall i :: 0 <= i < |nodes| ==> nodes[i].val == d.values[i])
    && (forall i :: 0 <= i < |nodes| ==> LinkedAt(nodes, i, |nodes|))
    && (forall i :: 0 <= i < |nodes| ==> RandomAt(nodes, i, d.random[i]))
  }

  /** The C++ builder: three passes over the nodes, a negative index for a null pointer. */
  method BuildRandomList(values: seq<int>, randomIndices: seq<int>)
    returns (head: RandomNode?, ghost nodes: seq<RandomNode>)
    requires |values| == |randomIndices| && forall i :: 0 <= i < |values| ==> randomIndices[i] < |values|
    ensures Built(Indexed(values, randomIndices), nodes) && head == if nodes == [] then null else nodes[0]
    ensures forall n :: n in nodes ==> fresh(n)
  {
    var all: seq<RandomNode> := [];
    for i := 0 to |values|
      invariant |all| == i && (forall k :: 0 <= k < i ==> fresh(all[k])) && forall j, k :: 0 <= j < k < i ==>
                all[j] != all[k]
      invariant forall k :: 0 <= k < i ==> all[k].val == values[k] && all[k].next == null && all[k].random == null
    {
      var node := new RandomNode(values[i]);
      all := all + [node];
    }
    LinkChain(all);
    PointRandom(all, randomIndices);
    nodes := all;
    head := if |all| == 0 then null else all[0];
  }

  lemma BuiltMeans(d: RandomList, nodes: seq<RandomNode>)
    requires Linked(d) && Built(d, nodes)
    ensures |nodes| == |d.values| && forall i :: 0 <= i < |nodes| ==>
              && nodes[i].val == d.values[i] && nodes[i].next == (if i + 1 < |nodes| then nodes[i + 1] else null)
              && nodes[i].random == if d.random[i].None? then null else nodes[d.random[i].value]
  {
    forall i | 0 <= i < |nodes|
      ensures nodes[i].next == if i + 1 < |nodes| then nodes[i + 1] else null
      ensures nodes[i].random == if d.random[i].None? then null else nodes[d.random[i].value]
    {
      assert LinkedAt(nodes, i, |nodes|) && RandomAt(nodes, i, d.random[i]);
    }
  }

  method LinkChain(all: seq<RandomNode>)
    requires forall j, k :: 0 <= j < k < |all| ==> all[j] != all[k]
    requires forall k :: 0 <= k < |all| ==> all[k].next == null
    modifies all
    ensures forall k :: 0 <= k < |all| ==> all[k].val == old(all[k].val) && all[k].random == old(all[k].random)
    ensures forall k :: 0 <= k < |all| ==> LinkedAt(all, k, |all|)
  {
    var i := 1;
    while i < |all|
      invariant 1 <= i && (|all| > 0 ==> i <= |all|)
      invariant forall k :: 0 <= k < |all| ==> all[k].val == old(all[k].val) && all[k].random == old(all[k].random)
      invariant forall k :: 0 <= k < |all| ==> LinkedAt(all, k, i)
    {
      label Before:
      all[i - 1].next := all[i];
      i := i + 1;
      forall k | 0 <= k < |all| ensures LinkedAt(all, k, i) { assert old@Before(LinkedAt(all, k, i - 1)); }
    }
    forall k | 0 <= k < |all| ensures LinkedAt(all, k, |all|) { assert LinkedAt(all, k, i); }
  }

  method PointRandom(all: seq<RandomNode>, randomIndices: seq<int>)
    requires |all| == |randomIndices| && forall i :: 0 <= i < |all| ==> randomIndices[i] < |all|
    requires forall j, k :: 0 <= j < k < |all| ==> all[j] != all[k]
    modifies all
    ensures forall k :: 0 <= k < |all| ==> all[k].val == old(all[k].val) && all[k].next == old(all[k].next)
    ensures forall k :: 0 <= k < |all| && old(LinkedAt(all, k, |all|)) ==> LinkedAt(all, k, |all|)
    ensures forall k :: 0 <= k < |all| ==>
            RandomAt(all, k, if randomIndices[k] < 0 then None else Some(randomIndices[k]))
  {
    for i := 0 to |all|
      invariant forall k :: 0 <= k < |all| ==> all[k].val == old(all[k].val) && all[k].next == old(all[k].next)
      invariant forall k :: 0 <= k < i ==> all[k].random == if randomIndices[k] < 0 then null else all[randomIndices[k]]
    {
      var index := randomIndices[i];
      all[i].random := if index < 0 then null else all[index];
    }
  }

  function Indexed(values: seq<int>, indices: seq<int>): (d: RandomList)
    requires |values| == |indices| && forall i :: 0 <= i < |values| ==> indices[i] < |values|
    ensures Linked(d)
  {
    RandomList(values, seq(|indices|, i requires 0 <= i < |indices| =>
      if indices[i] < 0 then None else var k: nat := indices[i]; Some(k)))
  }

  ghost predicate ClosedRandom(heap: set<RandomNode>)
    reads heap
  {
    forall n :: n in heap && n.next != null ==> n.next in heap
  }

  /** The nodes from `node` along `next`, up to the end or the first repetition. */
  ghost function Chain(heap: set<RandomNode>, node: RandomNode?, seen: set<RandomNode>): (r: seq<RandomNode>)
    requires ClosedRandom(heap) && (node != null ==> node in heap)
    reads heap
    ensures forall n :: n in r ==> n in heap
    decreases |heap - seen|
  {
    if node == null || node in seen then []
    else
      assert heap - (seen + {node}) == heap - seen - {node};
      [node] + Chain(heap, node.next, seen + {node})
  }

  function Position(nodes: seq<RandomNode>, n: RandomNode?): (r: Option<nat>)
    ensures r.Some? ==> r.value < |nodes| && nodes[r.value] == n && forall k :: 0 <= k < r.value ==> nodes[k] != n
    ensures r.None? ==> forall k :: 0 <= k < |nodes| ==> nodes[k] != n
  {
    if nodes == [] then None
    else if nodes[0] == n then Some(0)
    else match Position(nodes[1..], n) case None => None case Some(k) => Some(k + 1)
  }

  /** The document a chain of nodes shows: random pointers out of the chain count as null. */
  ghost function Shown(nodes: seq<RandomNode>): (d: RandomList)
    reads nodes
    ensures Linked(d) && |d.values| == |nodes|
    ensures forall i :: 0 <= i < |nodes| ==>
            d.values[i] == nodes[i].val && d.random[i] == Position(nodes, nodes[i].random)
  {
    RandomList(seq(|nodes|, i requires 0 <= i < |nodes| reads nodes => nodes[i].val),
               seq(|nodes|, i requires 0 <= i < |nodes| reads nodes => Position(nodes, nodes[i].random)))
  }

  /** The different nodes from `head` on, each behind the one before, up to the end of the list or to
      the last one whose successor has been met already. */
  ghost predicate Walked(head: RandomNode?, nodes: seq<RandomNode>)
    reads nodes
  {
    && (if nodes == [] then head == null else head == nodes[0])
    && (forall i, j :: 0 <= i < j < |nodes| ==> nodes[i] != nodes[j])
    && (forall i :: 0 <= i < |nodes| - 1 ==> nodes[i].next == nodes[i + 1])
    && (nodes != [] ==> var last := nodes[|nodes| - 1].next; last == null || last in nodes)
  }

  /** Value by value, and each random pointer as the number of the node it goes to, if it is one of them. */
  ghost predicate Displays(nodes: seq<RandomNode>, d: RandomList)
    reads nodes
  {
    && |d.values| == |d.random| == |nodes|
    && (forall i :: 0 <= i < |nodes| ==> d.values[i] == nodes[i].val)
    && (forall i :: 0 <= i < |nodes| ==>
          (d.random[i].Some? <==> nodes[i].random != null && nodes[i].random in nodes))
    && (forall i :: 0 <= i < |nodes| && d.random[i].Some? ==>
          d.random[i].value < |nodes| && nodes[d.random[i].value] == nodes[i].random)
  }

  lemma {:induction false} ChainFrom(heap: set<RandomNode>, node: RandomNode?, seen: set<RandomNode>)
    requires ClosedRandom(heap) && (node != null ==> node in heap)
    ensures var nodes := Chain(heap, node, seen);
            && (if nodes == [] then node == null || node in seen else node == nodes[0])
            && (forall i, j :: 0 <= i < j < |nodes| ==> nodes[i] != nodes[j])
            && (forall i :: 0 <= i < |nodes| ==> nodes[i] !in seen)
            && (forall i :: 0 <= i < |nodes| - 1 ==> nodes[i].next == nodes[i + 1])
            && (nodes != [] ==> var last := nodes[|nodes| - 1].next; last == null || last in seen || last in nodes)
            && (Ends(heap, node, seen) <==> if nodes == [] then node == null else nodes[|nodes| - 1].next == null)
    decreases |heap - seen|
  {
    if node != null && node !in seen {
      assert heap - (seen + {node}) == heap - seen - {node};
      ChainFrom(heap, node.next, seen + {node});
      var rest := Chain(heap, node.next, seen + {node});
      assert Chain(heap, node, seen) == [node] + rest;
    }
  }

  lemma PositionMeans(nodes: seq<RandomNode>, n: RandomNode?)
    ensures Position(nodes, n).Some? <==> n != null && n in nodes
  {
    hide Position;
  }

  lemma ShownDisplays(nodes: seq<RandomNode>)
    ensures Displays(nodes, Shown(nodes))
  {
    hide Position;
    forall i | 0 <= i < |nodes| ensures Position(nodes, nodes[i].random).Some? <==>
        nodes[i].random != null && nodes[i].random in nodes
    {
      PositionMeans(nodes, nodes[i].random);
    }
  }

  /** The chain consists of the nodes met, and it ends properly just when the last has no successor. */
  lemma ChainExact(heap: set<RandomNode>, head: RandomNode?)
    requires ClosedRandom(heap) && (head != null ==> head in heap)
    ensures var nodes := Chain(heap, head, {});
            Walked(head, nodes) && Displays(nodes, Shown(nodes))
            && (Ends(heap, head, {}) <==> nodes == [] || nodes[|nodes| - 1].next == null)
  {
    hide Chain, Ends, Position, Displays, Shown, ClosedRandom;
    ChainFrom(heap, head, {});
    ShownDisplays(Chain(heap, head, {}));
  }

  ghost function PrintedRandom(heap: set<RandomNode>, head: RandomNode?): string
    requires ClosedRandom(heap) && (head != null ==> head in heap)
    reads heap
  {
    if head == null then "null" else Object(RandomFields(Shown(Chain(heap, head, {}))))
  }

  ghost predicate Indexes(nodes: seq<RandomNode>, indexes: map<RandomNode, nat>) {
    && (forall n :: n in indexes ==> n in nodes && Position(nodes, n) == Some(indexes[n]))
    && (forall n :: n in nodes ==> n in indexes)
  }

  lemma IndexesSnoc(nodes: seq<RandomNode>, indexes: map<RandomNode, nat>, node: RandomNode)
    requires Indexes(nodes, indexes) && node !in indexes
    ensures Indexes(nodes + [node], indexes[node := |nodes|])
  {
    PositionSnoc(nodes, node);
    hide Position;
  }

  method CollectChain(head: RandomNode?, ghost heap: set<RandomNode>)
    returns (nodes: seq<RandomNode>, indexes: map<RandomNode, nat>)
    requires ClosedRandom(heap) && (head != null ==> head in heap)
    ensures nodes == Chain(heap, head, {}) && Indexes(nodes, indexes)
  {
    hide Chain, Indexes, Position;
    nodes, indexes := [], map[];
    NoIndexes();
    var node := head;
    ChainEnd(heap, head, {}, []);
    while node != null && node !in indexes
      invariant (node != null ==> node in heap) && Indexes(nodes, indexes)
      invariant nodes + Chain(heap, node, indexes.Keys) == Chain(heap, head, {})
      decreases |heap - indexes.Keys|
    {
      ChainStep(heap, node, indexes.Keys, nodes);
      IndexesSnoc(nodes, indexes, node);
      assert indexes[node := |nodes|].Keys == indexes.Keys + {node};
      indexes := indexes[node := |nodes|];
      nodes := nodes + [node];
      node := node.next;
    }
    ChainEnd(heap, node, indexes.Keys, nodes);
  }

  lemma NoIndexes()
    ensures Indexes([], map[])
  {
  }

  lemma ChainStep(heap: set<RandomNode>, node: RandomNode, seen: set<RandomNode>, before: seq<RandomNode>)
    requires ClosedRandom(heap) && node in heap && node !in seen
    ensures before + Chain(heap, node, seen) == before + [node] + Chain(heap, node.next, seen + {node})
    ensures |heap - (seen + {node})| < |heap - seen|
  {
    assert heap - (seen + {node}) == heap - seen - {node};
  }

  lemma ChainEnd(heap: set<RandomNode>, node: RandomNode?, seen: set<RandomNode>, before: seq<RandomNode>)
    requires ClosedRandom(heap) && (node != null ==> node in heap)
    ensures node == null || node in seen ==> before + Chain(heap, node, seen) == before
    ensures [] + Chain(heap, node, seen) == Chain(heap, node, seen)
  {
  }

  lemma {:induction false} PositionSnoc(nodes: seq<RandomNode>, last: RandomNode)
    requires last !in nodes
    ensures Position(nodes + [last], last) == Some(|nodes|)
    ensures forall n: RandomNode :: n in nodes ==> Position(nodes + [last], n) == Position(nodes, n)
    decreases |nodes|
  {
    if nodes != [] {
      assert (nodes + [last])[0] == nodes[0] && (nodes + [last])[1..] == nodes[1..] + [last];
      PositionSnoc(nodes[1..], last);
    }
  }

  lemma IndexesAt(nodes: seq<RandomNode>, indexes: map<RandomNode, nat>, target: RandomNode?)
    requires Indexes(nodes, indexes)
    ensures Position(nodes, target) == if target != null && target in indexes then Some(indexes[target]) else None
  {
  }

  method RandomIndices(nodes: seq<RandomNode>, indexes: map<RandomNode, nat>) returns (random: seq<Option<nat>>)
    requires Indexes(nodes, indexes)
    ensures random == Shown(nodes).random
  {
    hide Position, Indexes;
    random := [];
    for i := 0 to |nodes|
      invariant |random| == i && forall k :: 0 <= k < i ==> random[k] == Position(nodes, nodes[k].random)
    {
      var target := nodes[i].random;
      IndexesAt(nodes, indexes, target);
      var index: Option<nat> := None;
      if target != null && target in indexes { index := Some(indexes[target]); }
      random := random + [index];
    }
  }

  method SerializeRandomList(head: RandomNode?, ghost heap: set<RandomNode>) returns (out: string)
    requires ClosedRandom(heap) && (head != null ==> head in heap)
    ensures out == PrintedRandom(heap, head)
  {
    if head == null { return "null"; }
    var nodes, indexes := CollectChain(head, heap);
    var random := RandomIndices(nodes, indexes);
    var values := seq(|nodes|, i requires 0 <= i < |nodes| reads nodes => nodes[i].val);
    assert RandomList(values, random) == Shown(nodes);
    out := PrintRandom(RandomList(values, random));
  }

  ghost function Cells(nodes: seq<RandomNode>): set<RandomNode> { set i | 0 <= i < |nodes| :: nodes[i] }

  lemma BuiltClosed(d: RandomList, nodes: seq<RandomNode>)
    requires Linked(d) && Built(d, nodes)
    ensures ClosedRandom(Cells(nodes))
  {
    forall n | n in Cells(nodes) && n.next != null ensures n.next in Cells(nodes) {
      var i :| 0 <= i < |nodes| && nodes[i] == n;
      assert LinkedAt(nodes, i, |nodes|);
    }
  }

  lemma {:induction false} BuiltChain(d: RandomList, nodes: seq<RandomNode>, i: nat, seen: set<RandomNode>)
    requires Linked(d) && Built(d, nodes) && i <= |nodes| && ClosedRandom(Cells(nodes))
    requires forall k :: 0 <= k < |nodes| ==> (nodes[k] in seen <==> k < i)
    ensures Chain(Cells(nodes), if i < |nodes| then nodes[i] else null, seen) == nodes[i..]
    decreases |nodes| - i
  {
    if i < |nodes| {
      assert LinkedAt(nodes, i, |nodes|);
      BuiltChain(d, nodes, i + 1, seen + {nodes[i]});
      assert nodes[i..] == [nodes[i]] + nodes[i + 1..];
    }
  }

  lemma BuiltShows(d: RandomList, nodes: seq<RandomNode>)
    requires Linked(d) && Built(d, nodes)
    ensures Shown(nodes) == d
  {
    hide Position;
    forall i | 0 <= i < |nodes| ensures Shown(nodes).random[i] == d.random[i] {
      assert RandomAt(nodes, i, d.random[i]);
    }
  }

  /** Build then serialize: the printed text is the canonical text of the literal's document. */
  method BuildThenSerializeRandom(values: seq<int>, random: seq<Option<int>>) returns (out: string)
    requires Admissible(values, random)
    ensures out == RandomText(Checked(values, random))
  {
    var indices: seq<int> := [];
    for i := 0 to |random|
      invariant |indices| == i && forall k :: 0 <= k < i ==>
                indices[k] == if random[k].None? then -1 else random[k].value
    {
      indices := indices + [if random[i].None? then -1 else random[i].value];
    }
    assert Indexed(values, indices) == Checked(values, random);
    out := BuildAndPrint(values, indices);
  }

  lemma BuiltLength(d: RandomList, nodes: seq<RandomNode>)
    requires Linked(d) && Built(d, nodes)
    ensures |nodes| == |d.values|
  {
  }

  /** The builder call of a literal, and the serializer on its result. */
  method BuildAndPrint(values: seq<int>, indices: seq<int>) returns (out: string)
    requires |values| == |indices| && forall i :: 0 <= i < |values| ==> indices[i] < |values|
    ensures out == RandomText(Indexed(values, indices))
  {
    hide RandomFields, Built, Shown;
    var head, nodes := BuildRandomList(values, indices);
    ghost var d := Indexed(values, indices);
    assert nodes == [] <==> values == [] by { BuiltLength(d, nodes); }
    BuiltClosed(d, nodes);
    BuiltChain(d, nodes, 0, {});
    assert nodes[0..] == nodes;
    BuiltShows(d, nodes);
    out := SerializeRandomList(head, Cells(nodes));
  }

  /** What the comparison decides about a returned list: the shown document is the expected one. */
  lemma RandomVerdict(heap: set<RandomNode>, head: RandomNode?, expected: RandomList)
    requires ClosedRandom(heap) && (head != null ==> head in heap) && Linked(expected)
    ensures PrintedRandom(heap, head) == RandomText(expected) <==> Shown(Chain(heap, head, {})) == expected
  {
    RandomTextInjective(Shown(Chain(heap, head, {})), expected);
    if head != null { assert Chain(heap, head, {})[0] == head; }
  }

  // ----- the Python serializer -----

  /** The chain ends at a null pointer, not at a repeated node. */
  ghost predicate Ends(heap: set<RandomNode>, node: RandomNode?, seen: set<RandomNode>)
    requires ClosedRandom(heap) && (node != null ==> node in heap)
    reads heap
    decreases |heap - seen|
  {
    if node == null then true
    else if node in seen then false
    else
      assert heap - (seen + {node}) == heap - seen - {node};
      Ends(heap, node.next, seen + {node})
  }

  lemma EndsStep(heap: set<RandomNode>, node: RandomNode, seen: set<RandomNode>)
    requires ClosedRandom(heap) && node in heap && node !in seen
    ensures Ends(heap, node, seen) == Ends(heap, node.next, seen + {node})
  {
  }

  method PythonChain(value: RandomNode?, ghost heap: set<RandomNode>)
    returns (ok: bool, nodes: seq<RandomNode>, indices: map<RandomNode, nat>)
    requires ClosedRandom(heap) && (value != null ==> value in heap)
    ensures ok == Ends(heap, value, {})
    ensures ok ==> nodes == Chain(heap, value, {}) && Indexes(nodes, indices)
  {
    hide Chain, Indexes, Position;
    nodes, indices := [], map[];
    NoIndexes();
    var node := value;
    ChainEnd(heap, value, {}, []);
    while node != null
      invariant (node != null ==> node in heap) && Indexes(nodes, indices)
      invariant nodes + Chain(heap, node, indices.Keys) == Chain(heap, value, {})
      invariant Ends(heap, node, indices.Keys) == Ends(heap, value, {})
      decreases |heap - indices.Keys|
    {
      if node in indices { return false, nodes, indices; }
      ChainStep(heap, node, indices.Keys, nodes);
      EndsStep(heap, node, indices.Keys);
      IndexesSnoc(nodes, indices, node);
      assert indices[node := |nodes|].Keys == indices.Keys + {node};
      indices := indices[node := |nodes|];
      nodes := nodes + [node];
      node := node.next;
    }
    ChainEnd(heap, node, indices.Keys, nodes);
    ok := true;
  }

  /** Every random pointer stays in the list. */
  ghost predicate Inside(nodes: seq<RandomNode>)
    reads nodes
  {
    forall i :: 0 <= i < |nodes| && nodes[i].random != null ==> Position(nodes, nodes[i].random).Some?
  }

  lemma InsideMeans(nodes: seq<RandomNode>)
    ensures Inside(nodes) <==> forall i :: 0 <= i < |nodes| && nodes[i].random != null ==> nodes[i].random in nodes
  {
    hide Position;
  }

  /** The list ends, and its random pointers stay in it. */
  ghost predicate Sound(heap: set<RandomNode>, head: RandomNode?)
    requires ClosedRandom(heap) && (head != null ==> head in heap)
    reads heap
  {
    Ends(heap, head, {}) && Inside(Chain(heap, head, {}))
  }

  /** On every heap: the texts list the nodes met along the list, value by value, and each random pointer
      by the number of its node; Python accepts exactly the lists that end and keep their pointers. */
  lemma RandomPrintExact(heap: set<RandomNode>, head: RandomNode?) returns (nodes: seq<RandomNode>, d: RandomList)
    requires ClosedRandom(heap) && (head != null ==> head in heap)
    ensures Walked(head, nodes) && Displays(nodes, d) && d == Shown(Chain(heap, head, {}))
    ensures PrintedRandom(heap, head) ==
            if head == null then "null"
            else "{\"values\":[" + Join(Ints(d.values)) + "],\"random\":[" + Join(Items(d.random)) + "]}"
    ensures Sound(heap, head) <==>
              && (nodes == [] || nodes[|nodes| - 1].next == null)
              && forall i :: 0 <= i < |nodes| && nodes[i].random != null ==> nodes[i].random in nodes
  {
    hide Chain, Ends, Position, Walked, Displays, Shown, ClosedRandom, Inside, Join, RandomFields;
    nodes := Chain(heap, head, {});
    d := Shown(nodes);
    ChainExact(heap, head);
    InsideMeans(nodes);
    FlatText(d);
  }

  /** The comparison is right about every expectation exactly for the lists that end and whose
      random pointers stay in the list; a pointer that leaves it prints like null. */
  lemma RandomVerdictExact(heap: set<RandomNode>, head: RandomNode?)
    requires ClosedRandom(heap) && (head != null ==> head in heap)
    ensures (forall e :: Linked(e) ==>
               (PrintedRandom(heap, head) == RandomText(e) <==> Sound(heap, head) && Shown(Chain(heap, head, {})) == e))
            <==> Sound(heap, head)
  {
    hide Sound, Chain, PrintedRandom, RandomText;
    forall e | Linked(e)
      ensures PrintedRandom(heap, head) == RandomText(e) <==> Shown(Chain(heap, head, {})) == e
    {
      RandomVerdict(heap, head, e);
    }
    assert Linked(Shown(Chain(heap, head, {})));
    assert PrintedRandom(heap, head) == RandomText(Shown(Chain(heap, head, {})));
  }

  lemma OneNode(heap: set<RandomNode>, n: RandomNode)
    requires heap == {n} && n.next == null
    ensures ClosedRandom(heap) && Chain(heap, n, {}) == [n]
  {
  }

  lemma LooksAlike(a: RandomNode, b: RandomNode)
    requires a.next == null && b.next == null && a.val == b.val && a.random != null && a.random != a && b.random == null
    ensures ClosedRandom({a}) && ClosedRandom({b}) && PrintedRandom({a}, a) == PrintedRandom({b}, b)
    ensures !Sound({a}, a)
  {
    OneNode({a}, a);
    OneNode({b}, b);
    hide Chain, RandomFields;
    assert Position([a], a.random).None? && Position([b], null).None?;
    assert Shown([a]) == Shown([b]);
    assert [a][0].random != null;
  }

  method MakeOutside(x: int) returns (a: RandomNode, b: RandomNode)
    ensures a.next == null && b.next == null && a.val == b.val == x
    ensures a.random != null && a.random != a && b.random == null
  {
    var other := new RandomNode(x);
    a := new RandomNode(x);
    b := new RandomNode(x);
    a.random := other;
  }

  /** A node whose random pointer leads out of the list prints like one without a random pointer. */
  method OutsideLooksNull(x: int) returns (outside: string, plain: string, refused: Option<RandomList>)
    ensures outside == plain && refused == None
  {
    hide PrintedRandom, Chain, ClosedRandom, Sound, Shown;
    var a, b := MakeOutside(x);
    LooksAlike(a, b);
    refused := PythonSerializeRandom(a, {a});
    outside := SerializeRandomList(a, {a});
    plain := SerializeRandomList(b, {b});
  }

  /** The Python serializer's index of every random pointer; it fails on one out of the list. */
  method PythonIndices(nodes: seq<RandomNode>, indices: map<RandomNode, nat>) returns (r: Option<seq<Option<nat>>>)
    requires Indexes(nodes, indices)
    ensures r.Some? <==> Inside(nodes)
    ensures r.Some? ==>
              |r.value| == |nodes| && forall k :: 0 <= k < |nodes| ==> r.value[k] == Position(nodes, nodes[k].random)
  {
    hide Position, Indexes;
    var random: seq<Option<nat>> := [];
    for i := 0 to |nodes|
      invariant |random| == i && forall k :: 0 <= k < i ==> random[k] == Position(nodes, nodes[k].random)
      invariant forall k :: 0 <= k < i && nodes[k].random != null ==> Position(nodes, nodes[k].random).Some?
    {
      var target := nodes[i].random;
      IndexesAt(nodes, indices, target);
      var index: Option<nat> := None;
      if target != null {
        if target !in indices { return None; }
        index := Some(indices[target]);
      }
      random := random + [index];
    }
    return Some(random);
  }

  /** The Python serializer refuses cyclic chains and random pointers out of the list; on all
      other lists it shows the same document as the C++ one. */
  method PythonSerializeRandom(value: RandomNode?, ghost heap: set<RandomNode>) returns (r: Option<RandomList>)
    requires ClosedRandom(heap) && (value != null ==> value in heap)
    ensures r == if Sound(heap, value) then Some(Shown(Chain(heap, value, {}))) else None
  {
    hide Position, Indexes, Chain, Ends, Inside;
    var ok, nodes, indices := PythonChain(value, heap);
    if !ok { return None; }
    var random := PythonIndices(nodes, indices);
    if random.None? { return None; }
    var values := seq(|nodes|, i requires 0 <= i < |nodes| reads nodes => nodes[i].val);
    assert RandomList(values, random.value) == Shown(nodes);
    return Some(RandomList(values, random.value));
  }
}
