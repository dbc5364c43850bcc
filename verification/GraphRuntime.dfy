/** The generated C++ and the Python driver: graph nodes on the heap. */
module GraphRuntime {
  import opened Sets
  import opened Traversal
  import opened Options
  import opened Text
  import opened Graphs
  import opened GraphJson
  import opened Numbering

  class GraphNode {
    var val: int
    var neighbors: seq<GraphNode?>

    constructor (value: int)
      ensures val == value && neighbors == []
    {
      val, neighbors := value, [];
    }
  }

  /** A null neighbour is printed with the root's number, so it counts as an edge to the root. */
  ghost function Targets(root: GraphNode, row: seq<GraphNode?>): (r: seq<GraphNode>)
    ensures |r| == |row| && forall j :: 0 <= j < |row| ==> r[j] == if row[j] == null then root else row[j]
  {
    seq(|row|, j requires 0 <= j < |row| => if row[j] == null then root else row[j])
  }

  ghost predicate ClosedHeap(heap: set<GraphNode>)
    reads heap
  {
    forall n, y :: n in heap && y in n.neighbors && y != null ==> y in heap
  }

  ghost function HeapGraph(root: GraphNode, heap: set<GraphNode>): (g: Rooted<GraphNode>)
    requires root in heap && ClosedHeap(heap)
    reads heap
    ensures Proper(g) && g.root == root && g.succ.Keys == heap
  {
    var succ := map n | n in heap :: Targets(root, n.neighbors);
    assert Closed(succ) by {
      forall x, y | x in succ && y in succ[x] ensures y in succ {
        var j :| 0 <= j < |succ[x]| && succ[x][j] == y;
        assert x.neighbors[j] in x.neighbors;
      }
    }
    Rooted(root, succ, map n | n in heap :: n.val)
  }

  /** Allocates one node per value and wires the neighbour lists by index. */
  method BuildGraph(values: seq<int>, neighborIndices: seq<seq<nat>>)
    returns (root: GraphNode?, ghost nodes: seq<GraphNode>)
    requires InRange(Document(values, neighborIndices))
    ensures WiredLike(Document(values, neighborIndices), nodes) && forall n :: n in nodes ==> fresh(n)
    ensures root == if values == [] then null else nodes[0]
    ensures |nodes| == |values| && forall i :: 0 <= i < |nodes| ==>
              nodes[i].val == values[i] && |nodes[i].neighbors| == |neighborIndices[i]|
    ensures forall i, j :: 0 <= i < |nodes| && 0 <= j < |neighborIndices[i]| ==>
              neighborIndices[i][j] < |nodes| && nodes[i].neighbors[j] == nodes[neighborIndices[i][j]]
  {
    nodes := [];
    if |values| == 0 { return null, []; }
    var all: seq<GraphNode> := [];
    for i := 0 to |values|
      invariant |all| == i && Distinct(all) && forall n :: n in all ==> fresh(n)
      invariant forall k :: 0 <= k < i ==> all[k].val == values[k] && all[k].neighbors == []
    {
      var node := new GraphNode(values[i]);
      all := all + [node];
    }
    for i := 0 to |all|
      invariant forall k :: 0 <= k < |all| ==> all[k].val == values[k]
      invariant forall k :: 0 <= k < i ==> all[k].neighbors == Wired(all, neighborIndices[k])
      invariant forall k :: i <= k < |all| ==> all[k].neighbors == []
    {
      var row := neighborIndices[i];
      for j := 0 to |row|
        invariant forall k :: 0 <= k < |all| ==> all[k].val == values[k]
        invariant forall k :: 0 <= k < i ==> all[k].neighbors == Wired(all, neighborIndices[k])
        invariant forall k :: i < k < |all| ==> all[k].neighbors == []
        invariant all[i].neighbors == Wired(all, row)[..j]
      {
        assert row[j] in row && all[i] in all;
        all[i].neighbors := all[i].neighbors + [all[row[j]]];
      }
    }
    return all[0], all;
  }

  ghost function Wired(all: seq<GraphNode>, row: seq<nat>): (r: seq<GraphNode?>)
    requires forall y :: y in row ==> y < |all|
    ensures |r| == |row| && forall j :: 0 <= j < |row| ==> row[j] < |all| && r[j] == all[row[j]]
  {
    assert forall j :: 0 <= j < |row| ==> row[j] in row;
    seq(|row|, j requires 0 <= j < |row| => all[row[j]])
  }

  lemma TargetsConcat(root: GraphNode, a: seq<GraphNode?>, b: seq<GraphNode?>)
    ensures Targets(root, a + b) == Targets(root, a) + Targets(root, b)
  {
  }

  /** The C++ loop's state: `nodes` are numbered, the queue is looked at up to `k`. */
  ghost predicate Popping(root: GraphNode, g: Rooted<GraphNode>, nodes: seq<GraphNode>, indexes: map<GraphNode, nat>,
                          pending: seq<GraphNode?>, k: nat) {
    && root in g.succ && k <= |pending| && Within(Targets(root, pending), g.succ.Keys)
    && Partial(g.succ, nodes, |nodes|) && Positions(indexes, nodes)
    && PopLoop(g.succ, nodes, Targets(root, pending), k) == PopLoop(g.succ, [], [root], 0)
    && if k == 0 then pending == [root] else root in nodes
  }

  lemma PoppingStarts(root: GraphNode, g: Rooted<GraphNode>)
    requires Proper(g) && g.root == root
    ensures Popping(root, g, [], map[], [root], 0)
  {
    assert Targets(root, [root]) == [root];
  }

  lemma PoppingSkips(root: GraphNode, g: Rooted<GraphNode>, nodes: seq<GraphNode>, indexes: map<GraphNode, nat>,
                     pending: seq<GraphNode?>, k: nat)
    requires Popping(root, g, nodes, indexes, pending, k) && k < |pending|
    requires pending[k] == null || pending[k] in indexes
    ensures Popping(root, g, nodes, indexes, pending, k + 1)
  {
  }

  lemma PoppingTakes(root: GraphNode, g: Rooted<GraphNode>, nodes: seq<GraphNode>, indexes: map<GraphNode, nat>,
                     pending: seq<GraphNode?>, k: nat, node: GraphNode, row: seq<GraphNode?>)
    requires Proper(g) && Popping(root, g, nodes, indexes, pending, k) && k < |pending| && g.root == root
    requires pending[k] == node && node !in indexes && (node in g.succ ==> g.succ[node] == Targets(root, row))
    ensures node in g.succ && |nodes| < |g.succ.Keys|
    ensures Popping(root, g, nodes + [node], indexes[node := |nodes|], pending + row, k + 1)
  {
    hide Order, Canon, Reachable;
    PopStep(g.succ, nodes, node, Targets(root, pending));
    TargetsConcat(root, pending, row);
    PositionsSnoc(indexes, nodes, node);
  }

  lemma PoppingEnds(root: GraphNode, g: Rooted<GraphNode>, nodes: seq<GraphNode>, indexes: map<GraphNode, nat>,
                    pending: seq<GraphNode?>)
    requires Proper(g) && g.root == root && Popping(root, g, nodes, indexes, pending, |pending|)
    ensures nodes == Order(g) && Positions(indexes, nodes)
    ensures Transcribes(nodes, g, Canon(g)) && Numbered(Canon(g))
  {
    hide Transcribes, Numbered, Canon, Order, Positions;
    PopOrderIsDiscoveryOrder(g.succ, root);
    OrderNumbered(g);
  }

  /** The C++ loop: a null or already numbered queue entry is dropped, a new one is numbered. */
  method PopOrder(root: GraphNode, ghost g: Rooted<GraphNode>)
    returns (nodes: seq<GraphNode>, indexes: map<GraphNode, nat>)
    requires Proper(g) && g.root == root
    requires forall n :: n in g.succ ==> g.succ[n] == Targets(root, n.neighbors)
    ensures nodes == Order(g) && Positions(indexes, nodes)
    ensures Transcribes(nodes, g, Canon(g)) && Numbered(Canon(g))
  {
    hide Transcribes, Numbered, Canon, Order, Positions, Popping, Proper;
    nodes, indexes := [], map[];
    var pending: seq<GraphNode?> := [root];
    var pendingIndex := 0;
    PoppingStarts(root, g);
    while pendingIndex < |pending|
      invariant pendingIndex <= |pending| && Popping(root, g, nodes, indexes, pending, pendingIndex)
      decreases |g.succ.Keys| - |nodes|, |pending| - pendingIndex
    {
      var node := pending[pendingIndex];
      if node != null && node !in indexes {
        PoppingTakes(root, g, nodes, indexes, pending, pendingIndex, node, node.neighbors);
        indexes := indexes[node := |nodes|];
        nodes := nodes + [node];
        pending := pending + node.neighbors;
      } else {
        PoppingSkips(root, g, nodes, indexes, pending, pendingIndex);
      }
      pendingIndex := pendingIndex + 1;
    }
    PoppingEnds(root, g, nodes, indexes, pending);
  }

  lemma OrderNumbered(g: Rooted<GraphNode>)
    requires Proper(g)
    ensures BfsFrom(g.succ, g.root) == Order(g) && Transcribes(Order(g), g, Canon(g)) && Numbered(Canon(g))
  {
    hide Transcribes, Numbered, Canon;
    CanonNumbered(g);
  }

  /** The C++ `__serialize(GraphNode*)`. A missing index reads as 0, which a null neighbour hits. */
  method SerializeGraph(root: GraphNode?, ghost heap: set<GraphNode>) returns (text: string)
    requires root != null ==> root in heap && ClosedHeap(heap)
    ensures text == if root == null then "null" else Print(Canon(HeapGraph(root, heap)))
    ensures root != null ==>
              exists nodes, d :: text == Print(d) && Lists(nodes, root, d) && Numbered(d)
  {
    hide Transcribes, Numbered, Lists;
    if root == null { return "null"; }
    var nodes, indexes := PopOrder(root, HeapGraph(root, heap));
    ghost var canon := Canon(HeapGraph(root, heap));
    CanonDescribes(root, heap);
    var values := SerializeValues(nodes, canon, root, heap);
    var rows := SerializeRows(nodes, indexes, canon, root, heap);
    PrintParts(canon);
    CanonLists(root, heap);
    return "{\"values\":[" + values + "],\"neighbors\":[" + rows + "]}";
  }

  /** The document lists the nodes in the given order: values and neighbours, entry by entry, with null
      neighbours read as the root. */
  ghost predicate Lists(nodes: seq<GraphNode>, root: GraphNode, d: Document)
    reads nodes
  {
    && |d.values| == |d.neighbors| == |nodes| > 0 && nodes[0] == root
    && (forall i, j :: 0 <= i < j < |nodes| ==> nodes[i] != nodes[j])
    && (forall i :: 0 <= i < |nodes| ==> d.values[i] == nodes[i].val && |d.neighbors[i]| == |nodes[i].neighbors|)
    && (forall i, k :: 0 <= i < |nodes| && 0 <= k < |d.neighbors[i]| ==>
          d.neighbors[i][k] < |nodes| &&
          nodes[d.neighbors[i][k]] == if nodes[i].neighbors[k] == null then root else nodes[i].neighbors[k])
  }

  lemma CanonLists(root: GraphNode, heap: set<GraphNode>)
    requires root in heap && ClosedHeap(heap)
    ensures var g := HeapGraph(root, heap); Lists(Order(g), root, Canon(g)) && Numbered(Canon(g))
  {
    CanonDescribes(root, heap);
    CanonNumbered(HeapGraph(root, heap));
    hide Canon, Order, HeapGraph, Numbered;
  }

  /** What the document for a numbered heap must hold, entry by entry. */
  ghost predicate Describes(d: Document, root: GraphNode, nodes: seq<GraphNode>, heap: set<GraphNode>)
    requires Within(nodes, heap)
    reads heap
  {
    && |d.values| == |d.neighbors| == |nodes| > 0 && nodes[0] == root && Distinct(nodes)
    && (forall i :: 0 <= i < |nodes| ==> d.values[i] == nodes[i].val)
    && (forall i :: 0 <= i < |nodes| ==> Renumbers(nodes, Targets(root, nodes[i].neighbors), d.neighbors[i]))
  }

  lemma CanonDescribes(root: GraphNode, heap: set<GraphNode>)
    requires root in heap && ClosedHeap(heap)
    ensures var g := HeapGraph(root, heap); Describes(Canon(g), root, Order(g), heap)
  {
    var g := HeapGraph(root, heap);
    var nodes := Order(g);
    forall i | 0 <= i < |nodes|
      ensures g.succ[nodes[i]] == Targets(root, nodes[i].neighbors) && nodes[i] in nodes
    {
    }
  }

  method SerializeValues(nodes: seq<GraphNode>, ghost d: Document, ghost root: GraphNode, ghost heap: set<GraphNode>)
    returns (values: string)
    requires Within(nodes, heap) && Describes(d, root, nodes, heap)
    ensures values == Join(Ints(d.values))
  {
    values := "";
    for i := 0 to |nodes|
      invariant values == Join(Ints(d.values)[..i])
    {
      Grow(Ints(d.values), i);
      values := (if i > 0 then values + "," else values) + Int10(nodes[i].val);
    }
    assert Ints(d.values)[..|nodes|] == Ints(d.values);
  }

  method SerializeRows(nodes: seq<GraphNode>, indexes: map<GraphNode, nat>, ghost d: Document, ghost root: GraphNode,
                       ghost heap: set<GraphNode>)
    returns (rows: string)
    requires Within(nodes, heap) && Describes(d, root, nodes, heap) && Positions(indexes, nodes)
    ensures rows == Join(Rows(d.neighbors))
  {
    rows := "";
    for i := 0 to |nodes|
      invariant rows == Join(Rows(d.neighbors)[..i])
    {
      Grow(Rows(d.neighbors), i);
      var row := SerializeRow(root, nodes[i].neighbors, nodes, indexes, d.neighbors[i]);
      rows := (if i > 0 then rows + "," else rows) + ("[" + row + "]");
    }
    assert Rows(d.neighbors)[..|nodes|] == Rows(d.neighbors);
  }

  method SerializeRow(ghost root: GraphNode, row: seq<GraphNode?>, ghost nodes: seq<GraphNode>,
                      indexes: map<GraphNode, nat>, ghost numbers: seq<nat>)
    returns (text: string)
    requires Distinct(nodes) && nodes != [] && nodes[0] == root && Positions(indexes, nodes)
    requires Renumbers(nodes, Targets(root, row), numbers)
    ensures text == Join(Ints(numbers))
  {
    text := "";
    for j := 0 to |row|
      invariant text == Join(Ints(numbers)[..j])
    {
      Grow(Ints(numbers), j);
      var number := if row[j] != null && row[j] in indexes then indexes[row[j]] else 0;
      assert Targets(root, row)[j] == nodes[numbers[j]] && nodes[numbers[j]] in nodes;
      assert number == numbers[j];
      text := (if j > 0 then text + "," else text) + Int10(number);
    }
    assert Ints(numbers)[..|row|] == Ints(numbers);
  }

  /** One more loop turn of a printer that writes a comma before every element but the first. */
  lemma Grow(parts: seq<string>, i: nat)
    requires i < |parts|
    ensures Join(parts[..i + 1]) == (if i > 0 then Join(parts[..i]) + "," else Join(parts[..i])) + parts[i]
  {
    assert parts[..i + 1] == parts[..i] + [parts[i]];
    JoinSnoc(parts[..i], parts[i]);
  }

  /** No reachable node has a null neighbour. */
  ghost predicate NullFree(root: GraphNode, heap: set<GraphNode>)
    requires root in heap && ClosedHeap(heap)
    reads heap
  {
    forall n :: n in Order(HeapGraph(root, heap)) ==> null !in n.neighbors
  }

  /** The Python driver numbers a node when it is first discovered; a None neighbour raises. */
  method PythonGraph(root: GraphNode, ghost heap: set<GraphNode>) returns (r: Option<Document>)
    requires root in heap && ClosedHeap(heap)
    ensures r.Some? <==> NullFree(root, heap)
    ensures r.Some? ==> r.value == Canon(HeapGraph(root, heap))
    ensures r.Some? ==> exists nodes :: Lists(nodes, root, r.value) && Numbered(r.value)
  {
    hide Canon, Describes, Positions, Transcribes, Numbered, Lists, Order;
    var ok, nodes, indices := PythonOrder(root, HeapGraph(root, heap));
    if !ok { return None; }
    CanonDescribes(root, heap);
    var d := PythonDocument(nodes, indices, Canon(HeapGraph(root, heap)), root, heap);
    CanonLists(root, heap);
    return Some(d);
  }

  method PythonOrder(root: GraphNode, ghost g: Rooted<GraphNode>)
    returns (ok: bool, nodes: seq<GraphNode>, indices: map<GraphNode, nat>)
    requires Proper(g) && g.root == root
    requires forall n :: n in g.succ ==> g.succ[n] == Targets(root, n.neighbors)
    ensures ok <==> forall n :: n in Order(g) ==> null !in n.neighbors
    ensures ok ==> nodes == Order(g) && Positions(indices, nodes)
    ensures ok ==> Transcribes(nodes, g, Canon(g)) && Numbered(Canon(g))
  {
    hide Transcribes, Numbered, Canon;
    CanonNumbered(g);
    nodes, indices := [root], map[root := 0];
    var cursor := 0;
    PartialRoot(g.succ, root);
    while cursor < |nodes|
      invariant Partial(g.succ, nodes, cursor) && Positions(indices, nodes)
      invariant Bfs(g.succ, nodes, cursor) == Order(g)
      invariant forall k :: 0 <= k < cursor ==> null !in nodes[k].neighbors
      decreases |g.succ.Keys| - cursor
    {
      PartialStep(g.succ, nodes, cursor);
      if null in nodes[cursor].neighbors {
        assert nodes <= Order(g) && Order(g)[cursor] == nodes[cursor];
        return false, nodes, indices;
      }
      nodes, indices := PythonRow(root, nodes[cursor].neighbors, nodes, indices);
      cursor := cursor + 1;
    }
    return true, nodes, indices;
  }

  method PythonDocument(nodes: seq<GraphNode>, indices: map<GraphNode, nat>, ghost d: Document, ghost root: GraphNode,
                        ghost heap: set<GraphNode>)
    returns (document: Document)
    requires Within(nodes, heap) && Describes(d, root, nodes, heap) && Positions(indices, nodes)
    requires forall n :: n in nodes ==> null !in n.neighbors
    ensures document == d
  {
    var values: seq<int>, rows: seq<seq<nat>> := [], [];
    for i := 0 to |nodes|
      invariant values == d.values[..i] && rows == d.neighbors[..i]
    {
      assert nodes[i] in nodes;
      var row := PythonIndices(root, nodes[i].neighbors, nodes, indices, d.neighbors[i]);
      values := values + [nodes[i].val];
      rows := rows + [row];
    }
    return Document(values, rows);
  }

  method PythonIndices(ghost root: GraphNode, row: seq<GraphNode?>, ghost nodes: seq<GraphNode>,
                       indices: map<GraphNode, nat>, ghost expected: seq<nat>)
    returns (numbers: seq<nat>)
    requires Distinct(nodes) && Positions(indices, nodes) && null !in row
    requires Renumbers(nodes, Targets(root, row), expected)
    ensures numbers == expected
  {
    numbers := [];
    for j := 0 to |row|
      invariant numbers == expected[..j]
    {
      assert row[j] in row && Targets(root, row)[j] == nodes[expected[j]] && nodes[expected[j]] in nodes;
      assert indices[row[j]] == expected[j];
      numbers := numbers + [indices[row[j]]];
    }
  }

  method PythonRow(ghost root: GraphNode, row: seq<GraphNode?>, start: seq<GraphNode>, known: map<GraphNode, nat>)
    returns (nodes: seq<GraphNode>, indices: map<GraphNode, nat>)
    requires null !in row && Positions(known, start)
    ensures nodes == Discover(start, Targets(root, row)) && Positions(indices, nodes)
  {
    nodes, indices := start, known;
    for j := 0 to |row|
      invariant nodes == Discover(start, Targets(root, row)[..j]) && Positions(indices, nodes)
    {
      assert row[j] in row;
      DiscoverNext(start, Targets(root, row), j);
      if row[j] in indices { continue; }
      PositionsSnoc(indices, nodes, row[j]);
      indices := indices[row[j] := |nodes|];
      nodes := nodes + [row[j]];
    }
    assert Targets(root, row)[..|row|] == Targets(root, row);
  }

  ghost predicate WiredLike(d: Document, nodes: seq<GraphNode>)
    requires InRange(d)
    reads Elements(nodes)
  {
    && |nodes| == |d.values| && Distinct(nodes)
    && (forall i :: 0 <= i < |nodes| ==> nodes[i] in Elements(nodes) && nodes[i].val == d.values[i])
    && (forall i :: 0 <= i < |nodes| ==>
        nodes[i] in Elements(nodes) && nodes[i].neighbors == Wired(nodes, d.neighbors[i]))
  }

  lemma WiredClosed(d: Document, nodes: seq<GraphNode>)
    requires InRange(d) && WiredLike(d, nodes)
    ensures ClosedHeap(Elements(nodes))
  {
    forall n, y | n in Elements(nodes) && y in n.neighbors && y != null ensures y in nodes {
      var i := IndexOf(nodes, n);
      var j :| 0 <= j < |n.neighbors| && n.neighbors[j] == y;
      assert y == nodes[d.neighbors[i][j]];
    }
  }

  lemma WiredTargets(nodes: seq<GraphNode>, f: map<nat, GraphNode>, row: seq<nat>)
    requires nodes != [] && (forall y :: y in row ==> y < |nodes|)
    requires f == map i: nat | i < |nodes| :: nodes[i]
    ensures Within(row, f.Keys) && Targets(nodes[0], Wired(nodes, row)) == Renamed(f, row)
  {
    assert Within(row, f.Keys);
    forall j | 0 <= j < |row| ensures Targets(nodes[0], Wired(nodes, row))[j] == Renamed(f, row)[j] {
      assert row[j] in row;
    }
  }

  lemma WiredEmbeds(d: Document, nodes: seq<GraphNode>, f: map<nat, GraphNode>)
    requires InRange(d) && d.values != [] && WiredLike(d, nodes)
    requires nodes[0] in Elements(nodes) && ClosedHeap(Elements(nodes)) && f == map i: nat | i < |nodes| :: nodes[i]
    ensures var g, h := AsRooted(d), HeapGraph(nodes[0], Elements(nodes));
            Embeds(f, g.succ, h.succ) && g.root in f && f[g.root] == h.root && Proper(g) && Proper(h)
            && forall x :: x in f ==> x in g.mark && f[x] in h.mark && g.mark[x] == h.mark[f[x]]
  {
    var g, h := AsRooted(d), HeapGraph(nodes[0], Elements(nodes));
    forall i | i in f ensures Within(g.succ[i], f.Keys) && f[i] in h.succ && h.succ[f[i]] == Renamed(f, g.succ[i]) {
      WiredTargets(nodes, f, d.neighbors[i]);
    }
  }

  /** Nodes wired like `d` form a graph with the canonical document of `d`. */
  lemma WiredCanon(d: Document, nodes: seq<GraphNode>)
    requires InRange(d) && d.values != [] && WiredLike(d, nodes)
    ensures nodes[0] in Elements(nodes) && ClosedHeap(Elements(nodes))
    ensures Canon(HeapGraph(nodes[0], Elements(nodes))) == Canon(AsRooted(d))
  {
    WiredClosed(d, nodes);
    var f := map i: nat | i < |nodes| :: nodes[i];
    WiredEmbeds(d, nodes, f);
    hide Canon, Embeds, WiredLike, ClosedHeap, AsRooted, HeapGraph;
    EmbeddingSameCanon(f, AsRooted(d), HeapGraph(nodes[0], Elements(nodes)));
  }

  /** Build then serialize: the C++ text of a literal is the Go canonical text of its document. */
  method BuildThenSerialize(values: seq<int>, neighborIndices: seq<seq<nat>>) returns (text: string)
    requires InRange(Document(values, neighborIndices))
    ensures text == CanonicalText(Document(values, neighborIndices))
  {
    var root, nodes := BuildGraph(values, neighborIndices);
    if |values| > 0 {
      WiredCanon(Document(values, neighborIndices), nodes);
    }
    text := SerializeGraph(root, Elements(nodes));
  }

  /** What the judge's string comparison decides about a returned graph: the printed text is
      the expected one just when the returned nodes are isomorphic to the expected document. */
  lemma GraphVerdictExact(d: Document, h: Rooted<GraphNode>)
    requires InRange(d) && d.values != [] && Proper(h)
    ensures Print(Canon(h)) == CanonicalText(d) <==>
            exists f: map<nat, GraphNode> :: Isomorphism(f, AsRooted(d), h)
  {
    var g := AsRooted(d);
    PrintInjective(Canon(h), Canon(g));
    if Canon(h) == Canon(g) {
      SameCanonIsomorphic(g, h);
    }
    if f: map<nat, GraphNode> :| Isomorphism(f, g, h) {
      IsomorphicSameCanon(f, g, h);
    }
  }

  /** The comparison is right about the expectation: the returned graph has no null pointers and is
      the expected one up to isomorphism, that is, up to the canonical document. */
  ghost predicate Decides(d: Document, root: GraphNode, heap: set<GraphNode>)
    requires InRange(d) && d.values != [] && root in heap && ClosedHeap(heap)
    reads heap
  {
    Print(Canon(HeapGraph(root, heap))) == CanonicalText(d) <==>
    NullFree(root, heap) && Canon(HeapGraph(root, heap)) == Canon(AsRooted(d))
  }

  /** It is right about every expectation exactly when no null neighbour is reachable. */
  lemma GraphVerdictSound(root: GraphNode, heap: set<GraphNode>)
    requires root in heap && ClosedHeap(heap)
    ensures (forall d :: InRange(d) && d.values != [] ==> Decides(d, root, heap)) <==> NullFree(root, heap)
  {
    hide NullFree, InRange, Canon, Print;
    var h := HeapGraph(root, heap);
    forall d | InRange(d) && d.values != []
      ensures Print(Canon(h)) == CanonicalText(d) <==> Canon(h) == Canon(AsRooted(d))
    {
      PrintInjective(Canon(h), Canon(AsRooted(d)));
      CanonInRange(h);
    }
    PrintsItself(h);
    var shown := Canon(h);
    assert !NullFree(root, heap) ==> !Decides(shown, root, heap);
  }

  lemma PrintsItself(h: Rooted<GraphNode>)
    requires Proper(h)
    ensures InRange(Canon(h)) && Canon(h).values != [] && CanonicalText(Canon(h)) == Print(Canon(h))
  {
    hide Canon, Print;
    CanonInRange(h);
    CanonIsCanonical(h);
  }
}
