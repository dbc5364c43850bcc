/** The postcondition helpers: do two heap values share a node? */
module Sharing {
  import opened Traversal

  /** A heap node by its outgoing pointers: left and right, next and random, or the neighbour list. */
  class HeapNode {
    var links: seq<HeapNode?>

    constructor ()
      ensures links == []
    {
      links := [];
    }
  }

  function NonNull(row: seq<HeapNode?>): (r: seq<HeapNode>)
    ensures forall y :: y in r ==> y in row
    ensures forall y :: y in row && y != null ==> y in r
  {
    if row == [] then []
    else
      assert row == row[..|row| - 1] + [row[|row| - 1]];
      NonNull(row[..|row| - 1]) + if row[|row| - 1] == null then [] else [row[|row| - 1]]
  }

  lemma {:induction false} NonNullConcat(a: seq<HeapNode?>, b: seq<HeapNode?>)
    ensures NonNull(a + b) == NonNull(a) + NonNull(b)
    decreases |b|
  {
    if b == [] {
      assert a + b == a;
    } else {
      assert (a + b)[..|a + b| - 1] == a + b[..|b| - 1];
      NonNullConcat(a, b[..|b| - 1]);
    }
  }

  ghost predicate ClosedHeap(heap: set<HeapNode>)
    reads heap
  {
    forall n, y :: n in heap && y in n.links && y != null ==> y in heap
  }

  ghost function Edges(heap: set<HeapNode>): (succ: map<HeapNode, seq<HeapNode>>)
    requires ClosedHeap(heap)
    reads heap
    ensures Closed(succ) && succ.Keys == heap
    ensures forall n :: n in heap ==> succ[n] == NonNull(n.links)
  {
    map n | n in heap :: NonNull(n.links)
  }

  ghost predicate Reaches(succ: map<HeapNode, seq<HeapNode>>, start: HeapNode?, n: HeapNode) {
    start != null && Reachable(succ, start, n)
  }

  /** The nodes met when following pointers from `start` to `end`. */
  ghost predicate Leads(heap: set<HeapNode>, start: HeapNode?, path: seq<HeapNode>, end: HeapNode)
    reads heap
  {
    && path != [] && path[0] == start && path[|path| - 1] == end && (forall i :: 0 <= i < |path| ==> path[i] in heap)
    && forall i :: 0 <= i < |path| - 1 ==> path[i + 1] in path[i].links
  }

  lemma PathExtend(heap: set<HeapNode>, start: HeapNode?, path: seq<HeapNode>, x: HeapNode, n: HeapNode)
    requires Leads(heap, start, path, x) && n in heap && n in x.links
    ensures Leads(heap, start, path + [n], n)
  {
  }

  lemma EdgeLink(heap: set<HeapNode>, x: HeapNode, n: HeapNode)
    requires ClosedHeap(heap) && x in Edges(heap) && n in Edges(heap)[x]
    ensures x in heap && n in heap && n in x.links
  {
    assert Edges(heap)[x] == NonNull(x.links);
    hide NonNull;
  }

  lemma {:induction false} WalkLeads(heap: set<HeapNode>, start: HeapNode, n: HeapNode, k: nat)
    returns (path: seq<HeapNode>)
    requires ClosedHeap(heap) && start in heap && ReachableIn<HeapNode?>(Edges(heap), start, n, k)
    ensures Leads(heap, start, path, n)
    decreases k
  {
    hide ClosedHeap, Leads, Edges;
    if k == 0 {
      path := [start];
      OneNode(heap, start);
    } else {
      var x: HeapNode? :| x in Edges(heap) && n in Edges(heap)[x] &&
          ReachableIn<HeapNode?>(Edges(heap), start, x, k - 1);
      var before := WalkLeads(heap, start, x, k - 1);
      EdgeLink(heap, x, n);
      PathExtend(heap, start, before, x, n);
      path := before + [n];
    }
  }

  lemma OneNode(heap: set<HeapNode>, start: HeapNode)
    requires start in heap
    ensures Leads(heap, start, [start], start)
  {
  }

  lemma {:induction false} LeadsReaches(heap: set<HeapNode>, start: HeapNode, path: seq<HeapNode>, n: HeapNode)
    requires ClosedHeap(heap) && Leads(heap, start, path, n)
    ensures Reachable<HeapNode?>(Edges(heap), start, n)
    decreases |path|
  {
    hide Reachable;
    if |path| == 1 {
      ReachableRoot<HeapNode?>(Edges(heap), start);
    } else {
      var x := path[|path| - 2];
      LeadsReaches(heap, start, path[..|path| - 1], x);
      ReachableStep<HeapNode?>(Edges(heap), start, x, n);
    }
  }

  lemma PathStart(heap: set<HeapNode>, start: HeapNode?, path: seq<HeapNode>, n: HeapNode)
    requires Leads(heap, start, path, n)
    ensures start != null
  {
  }

  /** A node is reached exactly when following pointers leads to it. */
  lemma ReachesByPath(heap: set<HeapNode>, start: HeapNode?, n: HeapNode)
    requires ClosedHeap(heap) && (start != null ==> start in heap)
    ensures Reaches(Edges(heap), start, n) <==> exists path :: Leads(heap, start, path, n)
  {
    hide Leads, ReachableIn;
    if Reaches(Edges(heap), start, n) {
      var k: nat :| ReachableIn<HeapNode?>(Edges(heap), start, n, k);
      var path := WalkLeads(heap, start, n, k);
    }
    if path :| Leads(heap, start, path, n) {
      PathStart(heap, start, path, n);
      LeadsReaches(heap, start, path, n);
    }
  }

  /** Stack search over a snapshot: `visited` so far, `pending` possibly holding nulls. */
  ghost predicate Visiting(succ: map<HeapNode, seq<HeapNode>>, start: HeapNode?, visited: set<HeapNode>,
                           pending: seq<HeapNode?>) {
    if start == null then visited == {} && pending == []
    else Searching(succ, start, visited, NonNull(pending))
  }

  lemma VisitStart(succ: map<HeapNode, seq<HeapNode>>, start: HeapNode?)
    requires start != null ==> start in succ
    ensures Visiting(succ, start, {}, if start == null then [] else [start])
  {
    if start != null {
      SearchStart(succ, start);
      var one: seq<HeapNode?> := [start];
      assert one[..0] == [] && NonNull(one) == [start];
    }
  }

  lemma VisitPop(succ: map<HeapNode, seq<HeapNode>>, start: HeapNode?, visited: set<HeapNode>,
                 rest: seq<HeapNode?>, node: HeapNode?, links: seq<HeapNode?>)
    requires Closed(succ) && Visiting(succ, start, visited, rest + [node])
    requires node != null && node in succ ==> succ[node] == NonNull(links)
    ensures node == null || node in visited ==> Visiting(succ, start, visited, rest)
    ensures node != null ==> node in succ && Reaches(succ, start, node)
    ensures node != null ==> Visiting(succ, start, visited + {node}, rest + links)
  {
    assert start != null;
    assert (rest + [node])[..|rest|] == rest && (rest + [node])[|rest|] == node;
    if node == null {
      assert NonNull(rest + [node]) == NonNull(rest);
    } else {
      assert NonNull(rest + [node]) == NonNull(rest) + [node];
      SearchPop(succ, start, visited, NonNull(rest), node);
      NonNullConcat(rest, links);
    }
  }

  /** First pass of the C++ helpers, and the whole of the Python object collector. */
  method Collect(start: HeapNode?, ghost heap: set<HeapNode>) returns (nodes: set<HeapNode>)
    requires ClosedHeap(heap) && (start != null ==> start in heap)
    ensures nodes <= heap && forall n :: n in heap ==> (n in nodes <==> Reaches(Edges(heap), start, n))
  {
    ghost var succ := Edges(heap);
    nodes := {};
    var pending: seq<HeapNode?> := if start == null then [] else [start];
    VisitStart(succ, start);
    while pending != []
      invariant nodes <= heap && Visiting(succ, start, nodes, pending)
      decreases heap - nodes, |pending|
    {
      var node := pending[|pending| - 1];
      ghost var before := pending;
      pending := pending[..|pending| - 1];
      assert before == pending + [node];
      VisitPop(succ, start, nodes, pending, node, if node == null then [] else node.links);
      if node == null || node in nodes { continue; }
      nodes := nodes + {node};
      pending := pending + node.links;
    }
    if start != null { SearchDone(succ, start, nodes); }
  }

  /** Second pass of the C++ helpers: stops at the first node the first pass has seen. */
  method Avoids(start: HeapNode?, nodes: set<HeapNode>, ghost heap: set<HeapNode>) returns (apart: bool)
    requires ClosedHeap(heap) && (start != null ==> start in heap)
    ensures apart <==> forall n :: n in heap ==> !(n in nodes && Reaches(Edges(heap), start, n))
  {
    ghost var succ := Edges(heap);
    var visited: set<HeapNode> := {};
    var pending: seq<HeapNode?> := if start == null then [] else [start];
    VisitStart(succ, start);
    while pending != []
      invariant visited <= heap && Visiting(succ, start, visited, pending)
      invariant visited !! nodes
      decreases heap - visited, |pending|
    {
      var node := pending[|pending| - 1];
      ghost var before := pending;
      pending := pending[..|pending| - 1];
      assert before == pending + [node];
      VisitPop(succ, start, visited, pending, node, if node == null then [] else node.links);
      if node == null || node in visited { continue; }
      if node in nodes { return false; }
      visited := visited + {node};
      pending := pending + node.links;
    }
    if start != null { SearchDone(succ, start, visited); }
    return true;
  }

  ghost predicate Apart(heap: set<HeapNode>, first: HeapNode?, second: HeapNode?)
    requires ClosedHeap(heap)
    reads heap
  {
    forall n :: n in heap ==> !(Reaches(Edges(heap), first, n) && Reaches(Edges(heap), second, n))
  }

  /** No node is reached from both arguments: no two pointer paths from them end in the same node. */
  lemma ApartByPaths(heap: set<HeapNode>, first: HeapNode?, second: HeapNode?)
    requires ClosedHeap(heap) && (first != null ==> first in heap) && (second != null ==> second in heap)
    ensures Apart(heap, first, second) <==>
            !exists n, p, q :: Leads(heap, first, p, n) && Leads(heap, second, q, n)
  {
    hide Reaches, ClosedHeap;
    forall n, p, q | Leads(heap, first, p, n) && Leads(heap, second, q, n) ensures n in heap {}
    hide Leads;
    forall n | n in heap
      ensures Reaches(Edges(heap), first, n) <==> exists p :: Leads(heap, first, p, n)
      ensures Reaches(Edges(heap), second, n) <==> exists q :: Leads(heap, second, q, n)
    {
      ReachesByPath(heap, first, n);
      ReachesByPath(heap, second, n);
    }
  }

  /** The C++ `__disjoint` for trees, random lists and graphs. */
  method Disjoint(first: HeapNode?, second: HeapNode?, ghost heap: set<HeapNode>) returns (apart: bool)
    requires ClosedHeap(heap)
    requires (first != null ==> first in heap) && (second != null ==> second in heap)
    ensures apart <==> !exists n, p, q :: Leads(heap, first, p, n) && Leads(heap, second, q, n)
  {
    var nodes := Collect(first, heap);
    apart := Avoids(second, nodes, heap);
    ApartByPaths(heap, first, second);
  }

  /** A list node's only pointer is `next`. */
  ghost predicate Chains(heap: set<HeapNode>)
    reads heap
  {
    ClosedHeap(heap) && forall n :: n in heap ==> |n.links| == 1
  }

  /** Walking `next` is the same search with at most one pending node. */
  ghost predicate Walking(succ: map<HeapNode, seq<HeapNode>>, start: HeapNode?, visited: set<HeapNode>,
                          node: HeapNode?) {
    if start == null then visited == {} && node == null
    else Visiting(succ, start, visited, [] + [node])
  }

  lemma WalkStep(succ: map<HeapNode, seq<HeapNode>>, start: HeapNode?, visited: set<HeapNode>, node: HeapNode,
                 next: HeapNode?)
    requires Closed(succ) && Walking(succ, start, visited, node)
    requires node in succ ==> succ[node] == NonNull([next])
    ensures node in succ && Reaches(succ, start, node) && Walking(succ, start, visited + {node}, next)
  {
    VisitPop(succ, start, visited, [], node, [next]);
  }

  lemma WalkDone(succ: map<HeapNode, seq<HeapNode>>, start: HeapNode?, visited: set<HeapNode>, node: HeapNode?)
    requires Closed(succ) && Walking(succ, start, visited, node) && (node == null || node in visited)
    ensures forall n :: n in visited <==> Reaches(succ, start, n)
  {
    if start != null {
      var one: seq<HeapNode?> := [] + [node];
      assert one[..0] == [] && one[0] == node;
      assert NonNull(one) == if node == null then [] else [] + [node];
      if node != null { SearchPop(succ, start, visited, [], node); }
      SearchDone(succ, start, visited);
    }
  }

  method ChainCollect(start: HeapNode?, ghost heap: set<HeapNode>) returns (nodes: set<HeapNode>)
    requires Chains(heap) && (start != null ==> start in heap)
    ensures forall n :: n in nodes <==> Reaches(Edges(heap), start, n)
  {
    ghost var succ := Edges(heap);
    nodes := {};
    var node := start;
    VisitStart(succ, start);
    while node != null && node !in nodes
      invariant nodes <= heap && (node != null ==> node in heap) && Walking(succ, start, nodes, node)
      decreases heap - nodes
    {
      assert node.links == [node.links[0]] && node.links[0] in node.links;
      WalkStep(succ, start, nodes, node, node.links[0]);
      nodes := nodes + {node};
      node := node.links[0];
    }
    WalkDone(succ, start, nodes, node);
  }

  method ChainAvoids(start: HeapNode?, nodes: set<HeapNode>, ghost heap: set<HeapNode>) returns (apart: bool)
    requires Chains(heap) && (start != null ==> start in heap)
    ensures apart <==> forall n :: n in heap ==> !(n in nodes && Reaches(Edges(heap), start, n))
  {
    ghost var succ := Edges(heap);
    var checked: set<HeapNode> := {};
    var node := start;
    VisitStart(succ, start);
    while node != null && node !in checked
      invariant checked <= heap && checked !! nodes && (node != null ==> node in heap)
      invariant Walking(succ, start, checked, node)
      decreases heap - checked
    {
      assert node.links == [node.links[0]] && node.links[0] in node.links;
      WalkStep(succ, start, checked, node, node.links[0]);
      if node in nodes { return false; }
      checked := checked + {node};
      node := node.links[0];
    }
    WalkDone(succ, start, checked, node);
    return true;
  }

  /** The C++ `__disjoint(ListNode*)`: both passes stop on null or on a repeated node. */
  method ChainDisjoint(first: HeapNode?, second: HeapNode?, ghost heap: set<HeapNode>) returns (apart: bool)
    requires Chains(heap)
    requires (first != null ==> first in heap) && (second != null ==> second in heap)
    ensures apart <==> !exists n, p, q :: Leads(heap, first, p, n) && Leads(heap, second, q, n)
  {
    var nodes := ChainCollect(first, heap);
    apart := ChainAvoids(second, nodes, heap);
    ApartByPaths(heap, first, second);
  }

  /** The Python postcondition collects both sets and intersects them. */
  method PythonDisjoint(first: HeapNode?, second: HeapNode?, ghost heap: set<HeapNode>) returns (apart: bool)
    requires ClosedHeap(heap)
    requires (first != null ==> first in heap) && (second != null ==> second in heap)
    ensures apart <==> !exists n, p, q :: Leads(heap, first, p, n) && Leads(heap, second, q, n)
  {
    var a := Collect(first, heap);
    var b := Collect(second, heap);
    ApartByPaths(heap, first, second);
    return a !! b;
  }
}
