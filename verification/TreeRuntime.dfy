/** Binary trees on the heap: the C++ and Python builders and serializers. */
module TreeRuntime {
  import opened Options
  import opened Text
  import opened Trees

  class TreeNode {
    var val: int
    var left: TreeNode?
    var right: TreeNode?

    constructor (value: int)
      ensures val == value && left == null && right == null
    {
      val, left, right := value, null, null;
    }
  }

  const QUEUE_LIMIT := 200000

  function NodeAt(nodes: seq<TreeNode?>, i: nat): TreeNode? { if i < |nodes| then nodes[i] else null }

  /** One node for every value, all different. */
  ghost predicate Placed(v: Levels, nodes: seq<TreeNode?>)
    reads nodes
  {
    && |nodes| == |v|
    && (forall i :: 0 <= i < |v| ==> (nodes[i] == null <==> v[i].None?))
    && (forall i :: 0 <= i < |v| && nodes[i] != null ==> nodes[i].val == v[i].value)
    && (forall i, j :: 0 <= i < j < |v| && nodes[i] != null ==> nodes[i] != nodes[j])
  }

  ghost predicate WiredAt(v: Levels, nodes: seq<TreeNode?>, i: nat)
    requires i < |nodes|
    reads nodes
  {
    nodes[i] != null ==> nodes[i].left == NodeAt(nodes, Slot(v, i)) && nodes[i].right == NodeAt(nodes, Slot(v, i) + 1)
  }

  ghost predicate BareAt(nodes: seq<TreeNode?>, i: nat)
    requires i < |nodes|
    reads nodes
  {
    nodes[i] != null ==> nodes[i].left == null && nodes[i].right == null
  }

  ghost predicate Wired(v: Levels, nodes: seq<TreeNode?>)
    reads nodes
  {
    Placed(v, nodes) && forall i :: 0 <= i < |nodes| ==> WiredAt(v, nodes, i)
  }

  /** With `r` nodes before it, the node at `i` has its left child at position 2 * r + 1 and its right
      child behind that. */
  ghost predicate MirrorsAt(v: Levels, nodes: seq<TreeNode?>, i: nat)
    requires i < |nodes| && i < |v|
    reads nodes
  {
    if v[i].None? then nodes[i] == null
    else
      && nodes[i] != null && nodes[i].val == v[i].value
      && nodes[i].left == NodeAt(nodes, 2 * |Earlier(v, i)| + 1)
      && nodes[i].right == NodeAt(nodes, 2 * |Earlier(v, i)| + 2)
  }

  /** The nodes are the array, value by value and pointer by pointer. */
  ghost predicate Mirrors(v: Levels, nodes: seq<TreeNode?>)
    reads nodes
  {
    |nodes| == |v| && forall i :: 0 <= i < |v| ==> MirrorsAt(v, nodes, i)
  }

  lemma WiredMirrorsAt(v: Levels, nodes: seq<TreeNode?>, i: nat)
    requires |nodes| == |v| && i < |v| && (nodes[i] == null <==> v[i].None?) && WiredAt(v, nodes, i)
    requires nodes[i] != null ==> nodes[i].val == v[i].value
    ensures MirrorsAt(v, nodes, i)
  {
    RankCounts(v, i);
    hide Earlier, Rank;
  }

  lemma WiredMirrors(v: Levels, nodes: seq<TreeNode?>)
    requires Wired(v, nodes)
    ensures Mirrors(v, nodes)
  {
    hide MirrorsAt, WiredAt;
    forall i | 0 <= i < |nodes| ensures MirrorsAt(v, nodes, i) { WiredMirrorsAt(v, nodes, i); }
  }

  // ----- the builders -----

  method Allocate(v: Levels) returns (nodes: seq<TreeNode?>)
    ensures Placed(v, nodes) && (forall i :: 0 <= i < |v| ==> BareAt(nodes, i))
    ensures forall i :: 0 <= i < |nodes| && nodes[i] != null ==> fresh(nodes[i])
  {
    nodes := [];
    for i := 0 to |v|
      invariant |nodes| == i && forall k :: 0 <= k < i && nodes[k] != null ==> fresh(nodes[k])
      invariant forall k :: 0 <= k < i ==> (nodes[k] == null <==> v[k].None?)
      invariant forall k :: 0 <= k < i && nodes[k] != null ==>
                nodes[k].val == v[k].value && nodes[k].left == null && nodes[k].right == null
      invariant forall j, k :: 0 <= j < k < i && nodes[j] != null ==> nodes[j] != nodes[k]
    {
      if v[i].Some? {
        var node := new TreeNode(v[i].value);
        nodes := nodes + [node];
      } else {
        nodes := nodes + [null];
      }
    }
  }

  /** Hangs the next two positions below a bare node, which stands at position `i`. */
  method Attach(v: Levels, nodes: seq<TreeNode?>, node: TreeNode, ghost i: nat, index: nat) returns (next: nat)
    requires Placed(v, nodes) && i < |nodes| && nodes[i] == node && BareAt(nodes, i)
    requires index == Slot(v, i) < |nodes|
    modifies node
    ensures Placed(v, nodes) && WiredAt(v, nodes, i)
    ensures forall k :: 0 <= k < |nodes| && k != i && old(WiredAt(v, nodes, k)) ==> WiredAt(v, nodes, k)
    ensures forall k :: 0 <= k < |nodes| && k != i && old(BareAt(nodes, k)) ==> BareAt(nodes, k)
    ensures next == if index + 2 <= |nodes| then index + 2 else |nodes|
  {
    node.left := nodes[index];
    next := index + 1;
    if next < |nodes| {
      node.right := nodes[next];
      next := next + 1;
    }
  }

  /** The generated C++ builder. */
  method BuildTree(v: Levels) returns (root: TreeNode?, ghost nodes: seq<TreeNode?>)
    ensures forall i :: 0 <= i < |nodes| && nodes[i] != null ==> fresh(nodes[i])
    ensures if v == [] || v[0].None? then root == null else Wired(v, nodes) && root == nodes[0]
    ensures (root == null <==> v == [] || v[0].None?) && (root != null ==> Mirrors(v, nodes))
  {
    root, nodes := null, [];
    if |v| == 0 || v[0].None? { return; }
    var all := Allocate(v);
    var child, i := 1, 0;
    while i < |v| && child < |v|
      invariant i <= |v| && Placed(v, all) && forall k :: 0 <= k < |v| && all[k] != null ==> fresh(all[k])
      invariant child == if Slot(v, i) <= |v| then Slot(v, i) else |v|
      invariant forall k :: 0 <= k < i ==> WiredAt(v, all, k)
      invariant forall k :: i <= k < |v| ==> BareAt(all, k)
      decreases |v| - i
    {
      var node := all[i];
      if node != null { child := Attach(v, all, node, i, child); }
      i := i + 1;
    }
    forall k | i <= k < |v| ensures WiredAt(v, all, k) {
      RankGrows(v, i, k);
      assert BareAt(all, k);
    }
    WiredMirrors(v, all);
    return all[0], all;
  }

  /** The nodes at positions i to j, in order. */
  function Present(nodes: seq<TreeNode?>, i: nat, j: nat): seq<TreeNode>
    requires j <= |nodes|
    decreases j - i
  {
    if i >= j then [] else Single(nodes[i]) + Present(nodes, i + 1, j)
  }

  lemma {:induction false} PresentSnoc(nodes: seq<TreeNode?>, i: nat, j: nat)
    requires i <= j < |nodes|
    ensures Present(nodes, i, j + 1) == Present(nodes, i, j) + Single(nodes[j])
    decreases j - i
  {
    if i < j { PresentSnoc(nodes, i + 1, j); }
  }

  function Single(n: TreeNode?): seq<TreeNode> { if n == null then [] else [n] }

  lemma PresentNext(nodes: seq<TreeNode?>, i: nat, j: nat, next: nat)
    requires i <= j < |nodes| && next == if j + 2 <= |nodes| then j + 2 else |nodes|
    ensures Present(nodes, i, next) ==
            Present(nodes, i, j) + Single(nodes[j]) + if j + 1 < next then Single(nodes[j + 1]) else []
  {
    PresentSnoc(nodes, i, j);
    if j + 1 < next { PresentSnoc(nodes, i, j + 1); }
  }

  /** The queue's head is the first node at or after `i`. */
  lemma {:induction false} PresentHead(v: Levels, nodes: seq<TreeNode?>, i: nat, j: nat) returns (k: nat)
    requires Placed(v, nodes) && i <= j <= |nodes| && Present(nodes, i, j) != []
    ensures i <= k < j && nodes[k] == Present(nodes, i, j)[0] && Present(nodes, k + 1, j) == Present(nodes, i, j)[1..]
    ensures Rank(v, k) == Rank(v, i) && forall m :: i <= m < k ==> nodes[m] == null
    decreases j - i
  {
    if nodes[i] != null { return i; }
    RankGrows(v, i, i + 1);
    k := PresentHead(v, nodes, i + 1, j);
  }

  lemma {:induction false} PresentNone(nodes: seq<TreeNode?>, i: nat, j: nat)
    requires i <= j <= |nodes| && Present(nodes, i, j) == []
    ensures forall m :: i <= m < j ==> nodes[m] == null
    decreases j - i
  {
    if i < j { PresentNone(nodes, i + 1, j); }
  }

  predicate Hung(v: Levels, index: nat) { forall k :: 0 <= k < index && At(v, k).Some? ==> k < Slot(v, k) }

  /** The positions below a node come after it, so they have a parent. */
  lemma HungBelow(v: Levels, i: nat, index: nat, next: nat)
    requires i < index == Slot(v, i) && index <= next <= index + 2 && At(v, i).Some? && Hung(v, index)
    ensures Hung(v, next) && Slot(v, i + 1) == index + 2
  {
    forall k | index <= k < next ensures k < Slot(v, k) { RankGrows(v, i, k); }
  }

  /** The Python builder's loop state: positions before `i` are wired, the nodes from there to
      `index` are queued. */
  ghost predicate Building(v: Levels, nodes: seq<TreeNode?>, pending: seq<TreeNode>, index: nat, i: nat)
    reads nodes
  {
    && i <= index <= |v| && Placed(v, nodes)
    && index == (if Slot(v, i) <= |v| then Slot(v, i) else |v|)
    && pending == Present(nodes, i, index) && Hung(v, index)
    && (forall k :: 0 <= k < i ==> WiredAt(v, nodes, k))
    && (forall k :: i <= k < |v| ==> BareAt(nodes, k))
  }

  method TakePending(v: Levels, nodes: seq<TreeNode?>, pending: seq<TreeNode>, index: nat, ghost i: nat)
    returns (rest: seq<TreeNode>, next: nat, ghost j: nat)
    requires Building(v, nodes, pending, index, i) && |pending| > 0 && index < |v|
    modifies pending[0]
    ensures pending[0] in nodes && i < j && Building(v, nodes, rest, next, j)
  {
    hide Present, Hung, Rank, WiredAt, BareAt;
    ghost var k := PresentHead(v, nodes, i, index);
    var node := pending[0];
    assert BareAt(nodes, k);
    next := Attach(v, nodes, node, k, index);
    HungBelow(v, k, index, next);
    j := k + 1;
    PresentNext(nodes, j, index, next);
    rest := pending[1..];
    if nodes[index] != null { rest := rest + [nodes[index]]; }
    if index + 1 < next && nodes[index + 1] != null { rest := rest + [nodes[index + 1]]; }
    forall m | i <= m < k ensures WiredAt(v, nodes, m) { NullWired(v, nodes, m); }
  }

  lemma NullWired(v: Levels, nodes: seq<TreeNode?>, m: nat)
    requires m < |nodes| && nodes[m] == null
    ensures WiredAt(v, nodes, m)
  {
  }

  /** The Python builder: refuses arrays with values that no node has as a child. */
  method PythonBuildTree(v: Levels) returns (r: Option<TreeNode?>, ghost nodes: seq<TreeNode?>)
    ensures r.Some? <==> WellFormed(v)
    ensures r.Some? && v == [] ==> r.value == null
    ensures r.Some? && v != [] ==> Wired(v, nodes) && Mirrors(v, nodes) && r.value == nodes[0]
    ensures forall i :: 0 <= i < |nodes| && nodes[i] != null ==> fresh(nodes[i])
  {
    nodes := [];
    if |v| == 0 { return Some(null), []; }
    var all := Allocate(v);
    nodes := all;
    var pending: seq<TreeNode> := [];
    if all[0] != null { pending := [all[0]]; }
    var index: nat := 1;
    ghost var i: nat := 0;
    while |pending| > 0 && index < |v|
      invariant Building(v, all, pending, index, i) && forall k :: 0 <= k < |v| && all[k] != null ==> fresh(all[k])
      decreases |v| - i
    {
      ghost var k := PresentHead(v, all, i, index);
      assert pending[0] == all[k];
      hide Building;
      pending, index, i := TakePending(v, all, pending, index, i);
    }
    if exists k :: index <= k < |v| && all[k] != null {
      PresentNone(all, i, index);
      RankGrows(v, i, index);
      ghost var k :| index <= k < |v| && all[k] != null;
      FirstAfter(v, index, k);
      return None, all;
    }
    Finished(v, all, i, index);
    WiredMirrors(v, all);
    return Some(all[0]), all;
  }

  lemma Finished(v: Levels, nodes: seq<TreeNode?>, i: nat, index: nat)
    requires Placed(v, nodes) && i <= index <= |v| && Hung(v, index)
    requires index == (if Slot(v, i) <= |v| then Slot(v, i) else |v|)
    requires forall k :: index <= k < |v| ==> nodes[k] == null
    requires index < |v| ==> Present(nodes, i, index) == []
    requires forall k :: 0 <= k < i ==> WiredAt(v, nodes, k)
    requires forall k :: i <= k < |v| ==> BareAt(nodes, k)
    ensures WellFormed(v) && Wired(v, nodes)
  {
    forall k | 0 <= k < |v| && v[k].Some? ensures k < Slot(v, k) { assert At(v, k).Some?; }
    if index < |v| { PresentNone(nodes, i, index); }
    forall k | i <= k < |v| ensures WiredAt(v, nodes, k) {
      RankGrows(v, i, k);
      assert BareAt(nodes, k);
    }
  }

  // ----- the serializers -----

  ghost predicate ClosedTrees(heap: set<TreeNode>)
    reads heap
  {
    forall n :: n in heap ==> (n.left != null ==> n.left in heap) && (n.right != null ==> n.right in heap)
  }

  ghost predicate Inside(queue: seq<TreeNode?>, heap: set<TreeNode>) {
    forall i :: 0 <= i < |queue| && queue[i] != null ==> queue[i] in heap
  }

  lemma Shrinks(heap: set<TreeNode>, seen: set<TreeNode>, n: TreeNode)
    requires n in heap && n !in seen
    ensures |heap - (seen + {n})| < |heap - seen|
  {
    assert heap - (seen + {n}) == heap - seen - {n};
  }

  /** The C++ serializer's queue when its loop ends, on any heap, shared or cyclic. */
  ghost function Expand(heap: set<TreeNode>, queue: seq<TreeNode?>, index: nat,
                        seen: set<TreeNode>): (r: seq<TreeNode?>)
    requires ClosedTrees(heap) && Inside(queue, heap) && index <= |queue|
    reads heap
    ensures Inside(r, heap) && queue <= r
    decreases |heap - seen|, |queue| - index
  {
    if index < |queue| <= QUEUE_LIMIT then
      var n := queue[index];
      if n == null || n in seen then Expand(heap, queue, index + 1, seen)
      else
        Shrinks(heap, seen, n);
        Expand(heap, queue + [n.left, n.right], index + 1, seen + {n})
    else queue
  }

  ghost function Values(heap: set<TreeNode>, queue: seq<TreeNode?>): (v: Levels)
    requires Inside(queue, heap)
    reads heap
    ensures |v| == |queue| && forall i :: 0 <= i < |v| ==> v[i] == if queue[i] == null then None else Some(queue[i].val)
  {
    seq(|queue|, i requires 0 <= i < |queue| reads heap => if queue[i] == null then None else Some(queue[i].val))
  }

  /** The printed form of an array without trailing nulls. */
  function TreeText(v: Levels): string { if v == [] then "null" else Array(Items(v)) }

  ghost function Printed(heap: set<TreeNode>, root: TreeNode?): string
    requires ClosedTrees(heap) && (root != null ==> root in heap)
    reads heap
  {
    if root == null then "null" else TreeText(Trim(Values(heap, Expand(heap, [root], 0, {}))))
  }

  method SerializeTree(root: TreeNode?, ghost heap: set<TreeNode>) returns (out: string)
    requires ClosedTrees(heap) && (root != null ==> root in heap)
    ensures out == Printed(heap, root)
  {
    if root == null { return "null"; }
    var queue: seq<TreeNode?> := [root];
    var seen: set<TreeNode> := {};
    var index: nat := 0;
    ghost var whole := Expand(heap, queue, index, seen);
    while index < |queue| && |queue| <= QUEUE_LIMIT
      invariant index <= |queue| && Inside(queue, heap) && queue != [] && queue[0] == root
      invariant Expand(heap, queue, index, seen) == whole
      decreases |heap - seen|, |queue| - index
    {
      var node := queue[index];
      index := index + 1;
      if node == null || node in seen { continue; }
      Shrinks(heap, seen, node);
      seen := seen + {node};
      assert queue + [node.left] + [node.right] == queue + [node.left, node.right];
      queue := queue + [node.left] + [node.right];
    }
    out := PrintQueue(queue, heap);
  }

  method CountOutput(queue: seq<TreeNode?>) returns (outputCount: nat)
    ensures outputCount <= |queue| && (outputCount > 0 ==> queue[outputCount - 1] != null)
    ensures forall k :: outputCount <= k < |queue| ==> queue[k] == null
  {
    outputCount := 0;
    for i := 0 to |queue|
      invariant outputCount <= i && (outputCount > 0 ==> queue[outputCount - 1] != null)
      invariant forall k :: outputCount <= k < i ==> queue[k] == null
    {
      if queue[i] != null { outputCount := i + 1; }
    }
  }

  lemma ItemsSnoc(v: Levels, i: nat)
    requires i < |v|
    ensures Items(v[..i + 1]) == Items(v[..i]) + [Item(v[i])]
  {
  }

  /** The two output loops: find the last node, then print up to it. */
  method PrintQueue(queue: seq<TreeNode?>, ghost heap: set<TreeNode>) returns (out: string)
    requires Inside(queue, heap) && queue != [] && queue[0] != null
    ensures out == TreeText(Trim(Values(heap, queue)))
  {
    var outputCount := CountOutput(queue);
    ghost var v := Values(heap, queue);
    TrimLength(v, outputCount);
    hide Trim, Join, Items, Int10;
    out := "[";
    assert v[..0] == [] && Join(Items([])) == "" by { JoinNone(); }
    for i := 0 to outputCount
      invariant out == "[" + Join(Items(v[..i]))
    {
      ItemsSnoc(v, i);
      out := AppendPart(out, "[", Items(v[..i]), i > 0, if queue[i] == null then "null" else Int10(queue[i].val));
    }
    out := out + "]";
  }

  lemma JoinNone()
    ensures Join(Items([])) == ""
  {
  }

  lemma {:induction false} TrimLength(v: Levels, n: nat)
    requires n <= |v| && (n > 0 ==> v[n - 1].Some?) && forall k :: n <= k < |v| ==> v[k].None?
    ensures Trim(v) == v[..n]
    decreases |v|
  {
    if n < |v| {
      TrimLength(v[..|v| - 1], n);
      assert v[..|v| - 1][..n] == v[..n];
    } else {
      assert v[..n] == v;
    }
  }

  /** What the Python serializer collects: a value or None for everything popped; shared and
      cyclic structures are refused. */
  ghost function Drain(heap: set<TreeNode>, pending: seq<TreeNode?>, seen: set<TreeNode>): (r: Option<Levels>)
    requires ClosedTrees(heap) && Inside(pending, heap)
    reads heap
    decreases |heap - seen|, |pending|
  {
    if pending == [] then Some([])
    else
      var n := pending[0];
      if n == null then Push(None, Drain(heap, pending[1..], seen))
      else if n in seen then None
      else
        Shrinks(heap, seen, n);
        Push(Some(n.val), Drain(heap, pending[1..] + [n.left, n.right], seen + {n}))
  }

  function Push(x: Option<int>, rest: Option<Levels>): Option<Levels> {
    if rest.None? then None else Some([x] + rest.value)
  }

  function Before(result: Levels, rest: Option<Levels>): Option<Levels> {
    if rest.None? then None else Some(result + rest.value)
  }

  method PythonSerializeTree(value: TreeNode?, ghost heap: set<TreeNode>) returns (r: Option<Levels>)
    requires ClosedTrees(heap) && (value != null ==> value in heap)
    ensures var d := Drain(heap, [value], {}); r == if d.None? then None else Some(Trim(d.value))
  {
    var result: Levels := [];
    var pending: seq<TreeNode?> := [value];
    var seen: set<TreeNode> := {};
    ghost var whole := Drain(heap, pending, seen);
    assert Before([], whole) == whole by { if whole.Some? { assert [] + whole.value == whole.value; } }
    while |pending| > 0
      invariant Inside(pending, heap) && Before(result, Drain(heap, pending, seen)) == whole
      decreases |heap - seen|, |pending|
    {
      var node := pending[0];
      pending := pending[1..];
      if node == null {
        BeforePush(result, None, Drain(heap, pending, seen));
        result := result + [None];
        continue;
      }
      if node in seen { return None; }
      Shrinks(heap, seen, node);
      BeforePush(result, Some(node.val), Drain(heap, pending + [node.left, node.right], seen + {node}));
      seen := seen + {node};
      result := result + [Some(node.val)];
      pending := pending + [node.left, node.right];
    }
    assert result + [] == result;
    while |result| > 0 && result[|result| - 1].None?
      invariant Trim(result) == Trim(whole.value)
      decreases |result|
    {
      result := result[..|result| - 1];
    }
    return Some(result);
  }

  lemma BeforePush(result: Levels, x: Option<int>, rest: Option<Levels>)
    ensures Before(result, Push(x, rest)) == Before(result + [x], rest)
  {
    if rest.Some? { assert result + ([x] + rest.value) == result + [x] + rest.value; }
  }
}
