/** Returned pointers: on any heap, whatever the contestant made of it, the C++ serializers print
    the text of a typed value. */
module Returned {
  import opened Options
  import opened Text
  import opened CppTypes
  import opened Values
  import opened Rereading
  import Graphs
  import GraphJson
  import GraphRuntime
  import ListRuntime
  import Numbering
  import RandomLists
  import Traversal
  import Trees
  import TreeRuntime
  import TreeJudge
  import TreeShapes

  ghost function ListValue(heap: set<ListRuntime.ListNode>, head: ListRuntime.ListNode?): (v: Value)
    requires ListRuntime.ClosedLists(heap) && (head != null ==> head in heap)
    reads heap
    ensures Typed(ListT, v)
  {
    if head == null then NullV else ListV(ListRuntime.Walk(heap, head, {}))
  }

  method PrintList(head: ListRuntime.ListNode?, ghost heap: set<ListRuntime.ListNode>) returns (text: string)
    requires ListRuntime.ClosedLists(heap) && (head != null ==> head in heap)
    ensures text == Serialize(ListValue(heap, head))
  {
    text := ListRuntime.SerializeList(head, heap);
  }

  ghost function RandomValue(heap: set<RandomLists.RandomNode>, head: RandomLists.RandomNode?): (v: Value)
    requires RandomLists.ClosedRandom(heap) && (head != null ==> head in heap)
    reads heap
    ensures Typed(RandomT, v)
  {
    if head == null then NullV else RandomV(RandomLists.Shown(RandomLists.Chain(heap, head, {})))
  }

  method PrintRandomList(head: RandomLists.RandomNode?, ghost heap: set<RandomLists.RandomNode>) returns (text: string)
    requires RandomLists.ClosedRandom(heap) && (head != null ==> head in heap)
    ensures text == Serialize(RandomValue(heap, head))
  {
    text := RandomLists.SerializeRandomList(head, heap);
  }

  ghost function GraphValue(heap: set<GraphRuntime.GraphNode>, root: GraphRuntime.GraphNode?): (v: Value)
    requires root != null ==> root in heap && GraphRuntime.ClosedHeap(heap)
    reads heap
    ensures Typed(GraphT, v)
  {
    if root == null then NullV
    else
      Graphs.CanonInRange(GraphRuntime.HeapGraph(root, heap));
      GraphV(Graphs.Canon(GraphRuntime.HeapGraph(root, heap)))
  }

  method PrintGraph(root: GraphRuntime.GraphNode?, ghost heap: set<GraphRuntime.GraphNode>) returns (text: string)
    requires root != null ==> root in heap && GraphRuntime.ClosedHeap(heap)
    ensures text == Serialize(GraphValue(heap, root))
  {
    hide GraphRuntime.Lists, Numbering.Numbered, GraphRuntime.HeapGraph, Graphs.Canon, GraphJson.Print;
    text := GraphRuntime.SerializeGraph(root, heap);
  }

  ghost function TreeValue(heap: set<TreeRuntime.TreeNode>, root: TreeRuntime.TreeNode?): (v: Value)
    requires TreeRuntime.ClosedTrees(heap) && (root != null ==> root in heap)
    reads heap
    ensures Typed(TreeT, v)
  {
    if root == null then NullV
    else
      var levels := TreeRuntime.Values(heap, TreeRuntime.Expand(heap, [root], 0, {}));
      assert Trees.At(levels, 0) == Trees.At(Trees.Trim(levels), 0);
      TreeV(Trees.Trim(levels))
  }

  method PrintTree(root: TreeRuntime.TreeNode?, ghost heap: set<TreeRuntime.TreeNode>) returns (text: string)
    requires TreeRuntime.ClosedTrees(heap) && (root != null ==> root in heap)
    ensures text == Serialize(TreeValue(heap, root))
  {
    hide TreeRuntime.Expand, TreeRuntime.TreeText, Trees.Trim;
    text := TreeRuntime.SerializeTree(root, heap);
  }

  /** A returned tree within the limit has the value of its level order. */
  lemma TreeValueShows(heap: set<TreeRuntime.TreeNode>, root: TreeRuntime.TreeNode, t: Trees.Tree)
    requires TreeRuntime.ClosedTrees(heap) && root in heap && TreeShapes.IsTree(heap, root, t)
    requires TreeJudge.Fits(Trees.Encode(t))
    ensures TreeValue(heap, root) == TreeV(Trees.Encode(t))
  {
    var v := TreeValue(heap, root);
    hide TreeShapes.IsTree, TreeJudge.Fits, Trees.Encode;
    TreeShapes.CppPrintsEncoding(heap, root, t);
    TreeJudge.TreeTextInjective(v.levels, Trees.Encode(t));
  }

  // ----- such values can be read back -----

  lemma {:induction false} WalkInt32(heap: set<ListRuntime.ListNode>, node: ListRuntime.ListNode?,
                                     seen: set<ListRuntime.ListNode>)
    requires ListRuntime.ClosedLists(heap) && (node != null ==> node in heap)
    requires forall n :: n in heap ==> Int32(n.val)
    ensures AllInt32(ListRuntime.Walk(heap, node, seen))
    decreases |heap - seen|
  {
    hide Int32;
    if node != null && node !in seen {
      assert heap - (seen + {node}) == heap - seen - {node};
      WalkInt32(heap, node.next, seen + {node});
    }
  }

  lemma ListStorable(heap: set<ListRuntime.ListNode>, head: ListRuntime.ListNode?)
    requires ListRuntime.ClosedLists(heap) && (head != null ==> head in heap)
    requires forall n :: n in heap ==> Int32(n.val)
    ensures Storable(ListT, ListValue(heap, head))
  {
    WalkInt32(heap, head, {});
  }

  lemma TreeStorable(heap: set<TreeRuntime.TreeNode>, root: TreeRuntime.TreeNode?)
    requires TreeRuntime.ClosedTrees(heap) && (root != null ==> root in heap)
    requires forall n :: n in heap ==> Int32(n.val)
    ensures Storable(TreeT, TreeValue(heap, root))
  {
    hide TreeRuntime.Expand, TreeRuntime.ClosedTrees, Int32;
    if root != null {
      var queue := TreeRuntime.Expand(heap, [root], 0, {});
      var v := TreeRuntime.Values(heap, queue);
      var w := Trees.Trim(v);
      forall i | 0 <= i < |w| && w[i].Some? ensures Int32(w[i].value) {
        assert Trees.At(w, i) == Trees.At(v, i) && queue[i] != null;
      }
      assert Trees.Trim(w) == w;
    }
  }

  lemma {:induction false} ChainSize(heap: set<RandomLists.RandomNode>, node: RandomLists.RandomNode?,
                                     seen: set<RandomLists.RandomNode>)
    requires RandomLists.ClosedRandom(heap) && (node != null ==> node in heap)
    ensures |RandomLists.Chain(heap, node, seen)| <= |heap - seen|
    decreases |heap - seen|
  {
    if node != null && node !in seen {
      assert heap - (seen + {node}) == heap - seen - {node};
      ChainSize(heap, node.next, seen + {node});
    }
  }

  lemma RandomStorable(heap: set<RandomLists.RandomNode>, head: RandomLists.RandomNode?)
    requires RandomLists.ClosedRandom(heap) && (head != null ==> head in heap)
    requires |heap| <= 0x8000_0000 && forall n :: n in heap ==> Int32(n.val)
    ensures Storable(RandomT, RandomValue(heap, head))
  {
    if head != null {
      ChainSize(heap, head, {});
      assert heap - {} == heap;
      hide RandomLists.Chain, RandomLists.Position;
      var nodes := RandomLists.Chain(heap, head, {});
      var d := RandomLists.Shown(nodes);
      forall i | 0 <= i < |nodes| ensures Int32(d.values[i]) { assert nodes[i] in nodes; }
      forall i | 0 <= i < |nodes| && d.random[i].Some? ensures Int32(d.random[i].value) {}
    }
  }

  lemma LabelsInt32(heap: set<GraphRuntime.GraphNode>, root: GraphRuntime.GraphNode)
    requires root in heap && GraphRuntime.ClosedHeap(heap) && forall n :: n in heap ==> Int32(n.val)
    ensures AllInt32(Graphs.Canon(GraphRuntime.HeapGraph(root, heap)).values)
    ensures |Graphs.Canon(GraphRuntime.HeapGraph(root, heap)).values| <= |heap|
  {
    var h := GraphRuntime.HeapGraph(root, heap);
    var order := Graphs.Order(h);
    hide Graphs.Order, GraphRuntime.ClosedHeap, Int32;
    Traversal.DistinctBound(order, heap);
    forall i | 0 <= i < |order| ensures Int32(Graphs.Canon(h).values[i]) {
      assert order[i] in order;
      assert h.mark[order[i]] == order[i].val;
    }
  }

  lemma GraphStorable(heap: set<GraphRuntime.GraphNode>, root: GraphRuntime.GraphNode?)
    requires root != null ==> root in heap && GraphRuntime.ClosedHeap(heap)
    requires |heap| <= 0x8000_0000 && forall n :: n in heap ==> Int32(n.val)
    ensures Storable(GraphT, GraphValue(heap, root))
  {
    hide Graphs.Order, Graphs.FullyReachable, Graphs.InRange, Graphs.AsRooted, Graphs.Canon, GraphRuntime.HeapGraph,
         AllInt32;
    if root != null {
      LabelsInt32(heap, root);
      Graphs.CanonIsCanonical(GraphRuntime.HeapGraph(root, heap));
    }
  }
}
