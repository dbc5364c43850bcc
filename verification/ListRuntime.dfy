/** Linked lists and random-pointer lists on the heap: build, serialize, compare. */
module ListRuntime {
  import opened Options
  import opened Text

  // ----- ListNode -----

  class ListNode {
    var val: int
    var next: ListNode?

    constructor (value: int)
      ensures val == value && next == null
    {
      val, next := value, null;
    }
  }

  function ListText(values: seq<int>): string { if values == [] then "null" else Array(Ints(values)) }

  function After(nodes: seq<ListNode>, i: nat): ListNode? { if i + 1 < |nodes| then nodes[i + 1] else null }

  ghost predicate LinkedAt(nodes: seq<ListNode>, i: nat)
    requires i < |nodes|
    reads nodes
  {
    nodes[i].next == After(nodes, i)
  }

  /** The nodes form the chain of the values. */
  ghost predicate Chained(values: seq<int>, nodes: seq<ListNode>)
    reads nodes
  {
    && |nodes| == |values|
    && (forall i, j :: 0 <= i < j < |nodes| ==> nodes[i] != nodes[j])
    && (forall i :: 0 <= i < |nodes| ==> nodes[i].val == values[i])
    && (forall i :: 0 <= i < |nodes| ==> LinkedAt(nodes, i))
  }

  /** The C++ builder, with its dummy head. */
  method BuildList(values: seq<int>) returns (head: ListNode?, ghost nodes: seq<ListNode>)
    ensures Chained(values, nodes) && head == if nodes == [] then null else nodes[0]
    ensures forall n :: n in nodes ==> fresh(n)
    ensures |nodes| == |values| && forall i :: 0 <= i < |values| ==>
              nodes[i].val == values[i] && nodes[i].next == if i + 1 < |values| then nodes[i + 1] else null
  {
    var dummy := new ListNode(0);
    var tail := dummy;
    nodes := [];
    for i := 0 to |values|
      invariant Chained(values[..i], nodes) && dummy !in nodes && fresh(dummy) && forall n :: n in nodes ==> fresh(n)
      invariant fresh(tail) && tail == (if i == 0 then dummy else nodes[i - 1]) && tail.next == null
      invariant dummy.next == if i == 0 then null else nodes[0]
    {
      ghost var before := nodes;
      label Before:
      var node := new ListNode(values[i]);
      tail.next := node;
      tail := tail.next;
      nodes := nodes + [node];
      forall k | 0 <= k < |nodes| ensures LinkedAt(nodes, k) {
        assert k < |before| - 1 ==> old@Before(LinkedAt(before, k));
      }
    }
    assert values[..|values|] == values;
    forall i | 0 <= i < |nodes| ensures nodes[i].next == After(nodes, i) { assert LinkedAt(nodes, i); }
    head := dummy.next;
  }

  ghost predicate ClosedLists(heap: set<ListNode>)
    reads heap
  {
    forall n :: n in heap && n.next != null ==> n.next in heap
  }

  /** The values from `node` on, up to the end of the list or the first repeated node. */
  ghost function Walk(heap: set<ListNode>, node: ListNode?, seen: set<ListNode>): seq<int>
    requires ClosedLists(heap) && (node != null ==> node in heap)
    reads heap
    decreases |heap - seen|
  {
    if node == null || node in seen then []
    else
      assert heap - (seen + {node}) == heap - seen - {node};
      [node.val] + Walk(heap, node.next, seen + {node})
  }

  /** The different nodes from `head` on, each behind the one before, up to the end of the list or to
      the last one whose successor has been met already. */
  ghost predicate Walked(head: ListNode?, nodes: seq<ListNode>)
    reads nodes
  {
    && (if nodes == [] then head == null else head == nodes[0])
    && (forall i, j :: 0 <= i < j < |nodes| ==> nodes[i] != nodes[j])
    && (forall i :: 0 <= i < |nodes| - 1 ==> nodes[i].next == nodes[i + 1])
    && (nodes != [] ==> var last := nodes[|nodes| - 1].next; last == null || last in nodes)
  }

  ghost predicate ShowsValues(nodes: seq<ListNode>, values: seq<int>)
    reads nodes
  {
    |nodes| == |values| && forall i :: 0 <= i < |nodes| ==> nodes[i].val == values[i]
  }

  lemma {:induction false} WalkNodes(heap: set<ListNode>, node: ListNode?, seen: set<ListNode>)
    returns (nodes: seq<ListNode>)
    requires ClosedLists(heap) && (node != null ==> node in heap)
    ensures ShowsValues(nodes, Walk(heap, node, seen))
    ensures if nodes == [] then node == null || node in seen else node == nodes[0]
    ensures forall i, j :: 0 <= i < j < |nodes| ==> nodes[i] != nodes[j]
    ensures forall i :: 0 <= i < |nodes| ==> nodes[i] !in seen
    ensures forall i :: 0 <= i < |nodes| - 1 ==> nodes[i].next == nodes[i + 1]
    ensures nodes != [] ==> var last := nodes[|nodes| - 1].next; last == null || last in seen || last in nodes
    ensures Ends(heap, node, seen) <==> if nodes == [] then node == null else nodes[|nodes| - 1].next == null
    decreases |heap - seen|
  {
    if node == null || node in seen {
      nodes := [];
    } else {
      assert heap - (seen + {node}) == heap - seen - {node};
      var rest := WalkNodes(heap, node.next, seen + {node});
      nodes := [node] + rest;
    }
  }

  /** The walk lists the values of the nodes met, and it ends properly just when the last of them has
      no successor. */
  lemma WalkExact(heap: set<ListNode>, head: ListNode?) returns (nodes: seq<ListNode>)
    requires ClosedLists(heap) && (head != null ==> head in heap)
    ensures Walked(head, nodes) && ShowsValues(nodes, Walk(heap, head, {}))
    ensures Ends(heap, head, {}) <==> nodes == [] || nodes[|nodes| - 1].next == null
  {
    hide Walk, Ends;
    nodes := WalkNodes(heap, head, {});
  }

  ghost function PrintedList(heap: set<ListNode>, head: ListNode?): string
    requires ClosedLists(heap) && (head != null ==> head in heap)
    reads heap
  {
    if head == null then "null" else Array(Ints(Walk(heap, head, {})))
  }

  lemma IntsSnoc(values: seq<int>, x: int)
    ensures Ints(values + [x]) == Ints(values) + [Int10(x)]
  {
  }

  lemma WalkStep(heap: set<ListNode>, node: ListNode, seen: set<ListNode>, before: seq<int>)
    requires ClosedLists(heap) && node in heap && node !in seen
    ensures before + Walk(heap, node, seen) == before + [node.val] + Walk(heap, node.next, seen + {node})
    ensures |heap - (seen + {node})| < |heap - seen|
  {
    assert heap - (seen + {node}) == heap - seen - {node};
  }

  lemma WalkEnd(heap: set<ListNode>, node: ListNode?, seen: set<ListNode>, before: seq<int>)
    requires ClosedLists(heap) && (node != null ==> node in heap)
    ensures node == null || node in seen ==> before + Walk(heap, node, seen) == before
    ensures [] + Walk(heap, node, seen) == Walk(heap, node, seen)
  {
  }

  method SerializeList(head: ListNode?, ghost heap: set<ListNode>) returns (out: string)
    requires ClosedLists(heap) && (head != null ==> head in heap)
    ensures out == PrintedList(heap, head)
    ensures exists nodes, values :: Walked(head, nodes) && ShowsValues(nodes, values)
              && out == if head == null then "null" else "[" + Join(Ints(values)) + "]"
  {
    ghost var met := WalkExact(heap, head);
    if head == null { return "null"; }
    hide Int10, Join, Walk, Walked, ShowsValues;
    var node: ListNode? := head;
    var seen: set<ListNode> := {};
    var first := true;
    ghost var values: seq<int> := [];
    out := "[";
    OpenBracket();
    WalkEnd(heap, head, {}, []);
    while node != null && node !in seen
      invariant node != null ==> node in heap
      invariant out == "[" + Join(Ints(values)) && first == (values == [])
      invariant values + Walk(heap, node, seen) == Walk(heap, head, {})
      decreases |heap - seen|
    {
      WalkStep(heap, node, seen, values);
      seen := seen + {node};
      out := AppendPart(out, "[", Ints(values), !first, Int10(node.val));
      IntsSnoc(values, node.val);
      first := false;
      values := values + [node.val];
      node := node.next;
    }
    WalkEnd(heap, node, seen, values);
    out := out + "]";
    met := WalkExact(heap, head);
  }

  lemma OpenBracket()
    ensures "[" + Join(Ints([])) == "["
  {
  }

  ghost function Cells(nodes: seq<ListNode>): set<ListNode> { set i | 0 <= i < |nodes| :: nodes[i] }

  lemma ChainClosed(values: seq<int>, nodes: seq<ListNode>)
    requires Chained(values, nodes)
    ensures ClosedLists(Cells(nodes))
  {
    forall n | n in Cells(nodes) && n.next != null ensures n.next in Cells(nodes) {
      var i :| 0 <= i < |nodes| && nodes[i] == n;
      assert LinkedAt(nodes, i);
    }
  }

  lemma {:induction false} ChainWalk(values: seq<int>, nodes: seq<ListNode>, i: nat, seen: set<ListNode>)
    requires Chained(values, nodes) && i <= |nodes| && ClosedLists(Cells(nodes))
    requires forall k :: 0 <= k < |nodes| ==> (nodes[k] in seen <==> k < i)
    ensures Walk(Cells(nodes), if i < |nodes| then nodes[i] else null, seen) == values[i..]
    decreases |nodes| - i
  {
    if i < |nodes| {
      assert LinkedAt(nodes, i);
      ChainWalk(values, nodes, i + 1, seen + {nodes[i]});
      assert values[i..] == [values[i]] + values[i + 1..];
    }
  }

  method BuildThenSerializeList(values: seq<int>) returns (out: string)
    ensures out == ListText(values)
  {
    var head, nodes := BuildList(values);
    ghost var heap := Cells(nodes);
    ChainClosed(values, nodes);
    ChainWalk(values, nodes, 0, {});
    assert values[0..] == values;
    out := SerializeList(head, heap);
  }

  /** Strings are equal exactly when the walk from the returned head meets the expected values. */
  lemma ListVerdict(heap: set<ListNode>, head: ListNode?, expected: seq<int>)
    requires ClosedLists(heap) && (head != null ==> head in heap)
    ensures PrintedList(heap, head) == ListText(expected) <==> Walk(heap, head, {}) == expected
  {
    IntsInjective(Walk(heap, head, {}), expected);
    assert "null"[0] == 'n' && forall parts: seq<string> :: Array(parts)[0] == '[';
    if head != null { assert Walk(heap, head, {}) != []; }
  }

  /** The walk ends at the end of the list, not at a repeated node. */
  ghost predicate Ends(heap: set<ListNode>, node: ListNode?, seen: set<ListNode>)
    requires ClosedLists(heap) && (node != null ==> node in heap)
    reads heap
    decreases |heap - seen|
  {
    if node == null then true
    else if node in seen then false
    else
      assert heap - (seen + {node}) == heap - seen - {node};
      Ends(heap, node.next, seen + {node})
  }

  /** The comparison is right about an expectation exactly as far as it says that the returned list
      ends and has those values: that is so for every expectation just when the list ends. */
  lemma ListVerdictExact(heap: set<ListNode>, head: ListNode?)
    requires ClosedLists(heap) && (head != null ==> head in heap)
    ensures (forall e :: PrintedList(heap, head) == ListText(e) <==> Ends(heap, head, {}) && Walk(heap, head, {}) == e)
            <==> Ends(heap, head, {})
  {
    hide Ends, Walk, PrintedList, ListText;
    forall e ensures PrintedList(heap, head) == ListText(e) <==>
        Walk(heap, head, {}) == e { ListVerdict(heap, head, e); }
    assert PrintedList(heap, head) == ListText(Walk(heap, head, {}));
  }

  /** The Python serializer: the same values, but a cyclic chain is refused. */
  method PythonSerializeList(value: ListNode?, ghost heap: set<ListNode>) returns (r: Option<seq<int>>)
    requires ClosedLists(heap) && (value != null ==> value in heap)
    ensures r == if Ends(heap, value, {}) then Some(Walk(heap, value, {})) else None
    ensures exists nodes: seq<ListNode> :: Walked(value, nodes)
              && (r.Some? <==> nodes == [] || nodes[|nodes| - 1].next == null)
              && (r.Some? ==> ShowsValues(nodes, r.value))
  {
    ghost var met := WalkExact(heap, value);
    hide Walked, ShowsValues;
    var node := value;
    var seen: set<ListNode> := {};
    var result: seq<int> := [];
    WalkEnd(heap, value, {}, []);
    while node != null
      invariant node != null ==> node in heap
      invariant result + Walk(heap, node, seen) == Walk(heap, value, {}) &&
                Ends(heap, node, seen) == Ends(heap, value, {})
      decreases |heap - seen|
    {
      if node in seen { return None; }
      WalkStep(heap, node, seen, result);
      seen := seen + {node};
      result := result + [node.val];
      node := node.next;
    }
    WalkEnd(heap, node, seen, result);
    return Some(result);
  }

  /** The C++ text alone cannot tell a cyclic list from the list cut before the repetition. */
  method CycleLooksFinite() returns (cyclic: string, finite: string)
    ensures cyclic == finite == "[1]"
  {
    var loop := new ListNode(1);
    loop.next := loop;
    var single := new ListNode(1);
    assert Walk({loop}, loop, {}) == [1];
    assert Walk({single}, single, {}) == [1];
    OneElement();
    cyclic := SerializeList(loop, {loop});
    finite := SerializeList(single, {single});
  }

  lemma OneElement()
    ensures Array(Ints([1])) == "[1]"
  {
    assert Ints([1]) == [Int10(1)] && Int10(1) == "1";
  }
}
