/** Build, then serialize: what the judge compares for trees. */
module TreeJudge {
  import opened Options
  import opened Text
  import opened Trees
  import opened TreeRuntime

  ghost function HeapOf(nodes: seq<TreeNode?>): set<TreeNode> {
    set i | 0 <= i < |nodes| && nodes[i] != null :: nodes[i]
  }

  /** The nodes at positions i to m, null past the end of the array. */
  ghost function Range(nodes: seq<TreeNode?>, i: nat, m: nat): (q: seq<TreeNode?>)
    requires i <= m
    ensures |q| == m - i && forall k :: 0 <= k < |q| ==> q[k] == NodeAt(nodes, i + k)
  {
    seq(m - i, k requires 0 <= k < m - i => NodeAt(nodes, i + k))
  }

  ghost function SeenTo(nodes: seq<TreeNode?>, i: nat): set<TreeNode> {
    set k | 0 <= k < |nodes| && k < i && nodes[k] != null :: nodes[k]
  }

  lemma WiredClosed(v: Levels, nodes: seq<TreeNode?>)
    requires Wired(v, nodes)
    ensures ClosedTrees(HeapOf(nodes))
  {
    forall n | n in HeapOf(nodes)
      ensures (n.left != null ==> n.left in HeapOf(nodes)) && (n.right != null ==> n.right in HeapOf(nodes))
    {
      var i :| 0 <= i < |nodes| && nodes[i] == n;
      assert WiredAt(v, nodes, i);
    }
  }

  lemma RangeInside(nodes: seq<TreeNode?>, i: nat, m: nat)
    requires i <= m
    ensures Inside(Range(nodes, i, m), HeapOf(nodes))
  {
  }

  lemma SeenStep(v: Levels, nodes: seq<TreeNode?>, i: nat)
    requires Wired(v, nodes)
    ensures if NodeAt(nodes, i) == null then SeenTo(nodes, i + 1) == SeenTo(nodes, i)
            else NodeAt(nodes, i) !in SeenTo(nodes, i) && SeenTo(nodes, i + 1) == SeenTo(nodes, i) + {nodes[i]}
  {
  }

  lemma SlotStep(v: Levels, nodes: seq<TreeNode?>, i: nat)
    requires Wired(v, nodes)
    ensures Slot(v, i + 1) == Slot(v, i) + if NodeAt(nodes, i) == null then 0 else 2
    ensures At(v, i) == if NodeAt(nodes, i) == null then None else Some(nodes[i].val)
  {
  }

  /** One more position: its children are the next two of the range. */
  lemma RangeGrows(v: Levels, nodes: seq<TreeNode?>, i: nat, j: nat)
    requires Wired(v, nodes) && j <= Slot(v, i) <= Slot(v, i + 1)
    ensures Range(nodes, j, Slot(v, i + 1)) ==
            Range(nodes, j, Slot(v, i)) + if NodeAt(nodes, i) == null then [] else [nodes[i].left, nodes[i].right]
  {
    SlotStep(v, nodes, i);
    if i < |nodes| { assert WiredAt(v, nodes, i); }
  }

  /** Where the serializer's queue stops growing. */
  function LimitFrom(v: Levels, i: nat): nat
    requires i <= Slot(v, i)
    decreases 2 * |v| + 1 - i
  {
    if i < Slot(v, i) <= QUEUE_LIMIT then
      RankGrows(v, i, i + 1);
      LimitFrom(v, i + 1)
    else Slot(v, i)
  }

  lemma {:induction false} LimitValue(v: Levels, i: nat)
    requires i <= Slot(v, i) <= QUEUE_LIMIT + 1
    ensures LimitFrom(v, i) == if StopFrom(v, i) <= QUEUE_LIMIT then StopFrom(v, i) else QUEUE_LIMIT + 1
    decreases 2 * |v| + 1 - i
  {
    RankGrows(v, i, StopFrom(v, i));
    RankGrows(v, i, i + 1);
    assert Rank(v, i + 1) <= Rank(v, i) + 1;
    hide Rank;
    if i < Slot(v, i) <= QUEUE_LIMIT { LimitValue(v, i + 1); }
  }

  lemma ExpandStep(v: Levels, nodes: seq<TreeNode?>, i: nat)
    requires Wired(v, nodes) && i < Slot(v, i) <= Slot(v, i + 1) && ClosedTrees(HeapOf(nodes)) &&
             Slot(v, i) <= QUEUE_LIMIT
    requires Inside(Range(nodes, 0, Slot(v, i)), HeapOf(nodes))
    ensures Inside(Range(nodes, 0, Slot(v, i + 1)), HeapOf(nodes))
    ensures Expand(HeapOf(nodes), Range(nodes, 0, Slot(v, i)), i, SeenTo(nodes, i)) ==
            Expand(HeapOf(nodes), Range(nodes, 0, Slot(v, i + 1)), i + 1, SeenTo(nodes, i + 1))
  {
    hide Rank, StopFrom;
    RangeGrows(v, nodes, i, 0);
    assert Range(nodes, 0, Slot(v, i)) + [] == Range(nodes, 0, Slot(v, i));
    SeenStep(v, nodes, i);
    RangeInside(nodes, 0, Slot(v, i + 1));
    assert Range(nodes, 0, Slot(v, i))[i] == NodeAt(nodes, i);
  }

  lemma {:induction false} ExpandWired(v: Levels, nodes: seq<TreeNode?>, i: nat)
    requires Wired(v, nodes) && i <= Slot(v, i) && ClosedTrees(HeapOf(nodes))
    requires Inside(Range(nodes, 0, Slot(v, i)), HeapOf(nodes))
    ensures Expand(HeapOf(nodes), Range(nodes, 0, Slot(v, i)), i, SeenTo(nodes, i)) == Range(nodes, 0, LimitFrom(v, i))
    decreases 2 * |v| + 1 - i
  {
    hide Rank, Wired, ClosedTrees, SeenTo, HeapOf;
    if i < Slot(v, i) <= QUEUE_LIMIT {
      RankGrows(v, i, i + 1);
      ExpandStep(v, nodes, i);
      ExpandWired(v, nodes, i + 1);
    }
  }

  /** Exactly the arrays that the C++ pair reproduces: well formed, and no value past the
      queue limit. */
  predicate Fits(v: Levels) { WellFormed(v) && forall i :: 0 <= i < |v| && v[i].Some? ==> i <= QUEUE_LIMIT }

  /** Every node has a parent's slot, and none stands past position 200000. */
  lemma FitsMeans(v: Levels)
    ensures Fits(v) <==> forall i :: 0 <= i < |v| && v[i].Some? ==> i <= 2 * |Earlier(v, i)| && i <= 200000
  {
    hide Rank, Earlier, WellFormed;
    WellFormedMeans(v);
  }

  lemma CutFits(v: Levels)
    ensures Fits(v) <==> forall i :: 0 <= i < |v| && v[i].Some? ==> i < LimitFrom(v, 0)
  {
    WellFormedIsBeforeStop(v);
    LimitValue(v, 0);
  }

  // ----- text -----

  lemma TreeTextInjective(a: Levels, b: Levels)
    ensures TreeText(a) == TreeText(b) <==> a == b
  {
    ItemsInjective(a, b);
    assert "null"[0] == 'n';
    assert a != [] ==> TreeText(a)[0] == '[';
    assert b != [] ==> TreeText(b)[0] == '[';
  }

  // ----- the Go canonicaliser -----

  /** Trims trailing nulls and prints the rest. */
  method CanonicalTree(values: Levels) returns (r: string)
    ensures r == TreeText(Trim(values))
    ensures (forall i :: 0 <= i < |values| ==> values[i].None?) ==> r == "null"
    ensures (exists i :: 0 <= i < |values| && values[i].Some?) ==>
              exists n :: 0 < n <= |values| && values[n - 1].Some? &&
                  (forall i :: n <= i < |values| ==> values[i].None?)
                          && r == "[" + Join(Items(values[..n])) + "]"
  {
    var last := |values| - 1;
    while last >= 0 && values[last].None?
      invariant -1 <= last < |values| && forall k :: last < k < |values| ==> values[k].None?
    {
      last := last - 1;
    }
    TrimLength(values, last + 1);
    if last < 0 { return "null"; }
    r := CanonicalItems(values[..last + 1]);
  }

  method CanonicalItems(values: Levels) returns (r: string)
    ensures r == Array(Items(values))
  {
    hide Int10, Join;
    var canonical: seq<string> := [];
    for i := 0 to |values|
      invariant |canonical| == i && forall k :: 0 <= k < i ==> canonical[k] == Item(values[k])
    {
      var item := CanonicalItem(values[i]);
      canonical := canonical + [item];
    }
    assert canonical == Items(values);
    return Array(canonical);
  }

  method CanonicalItem(value: Option<int>) returns (r: string)
    ensures r == Item(value)
  {
    r := if value.None? then "null" else Int10(value.value);
  }

  // ----- the C++ pair -----

  lemma CppPrints(v: Levels, nodes: seq<TreeNode?>)
    requires Wired(v, nodes) && v != [] && v[0].Some?
    ensures ClosedTrees(HeapOf(nodes)) && nodes[0] != null && nodes[0] in HeapOf(nodes)
    ensures Printed(HeapOf(nodes), nodes[0]) == TreeText(Trim(v)) <==> Fits(v)
  {
    WiredClosed(v, nodes);
    var heap, m := HeapOf(nodes), LimitFrom(v, 0);
    assert Range(nodes, 0, Slot(v, 0)) == [nodes[0]];
    assert SeenTo(nodes, 0) == {};
    ExpandWired(v, nodes, 0);
    RangeInside(nodes, 0, m);
    var w := Values(heap, Range(nodes, 0, m));
    CutAgrees(v, nodes, w, m);
    TrimCanonical(w, v);
    TreeTextInjective(Trim(w), Trim(v));
    CutFits(v);
  }

  lemma CutAgrees(v: Levels, nodes: seq<TreeNode?>, w: Levels, m: nat)
    requires Wired(v, nodes) && |w| == m && Inside(Range(nodes, 0, m), HeapOf(nodes))
    requires w == Values(HeapOf(nodes), Range(nodes, 0, m))
    ensures Agree(w, v) <==> forall i :: 0 <= i < |v| && v[i].Some? ==> i < m
  {
    forall i: nat ensures At(w, i) == if i < m then At(v, i) else None {
      if i < m {
        assert Range(nodes, 0, m)[i] == NodeAt(nodes, 0 + i);
        SlotStep(v, nodes, i);
      }
    }
    if Agree(w, v) {
      forall i | 0 <= i < |v| && v[i].Some? ensures i < m { assert At(w, i) == At(v, i); }
    }
  }

  /** Building an array and printing the tree agrees with the canonicaliser exactly when every
      value has a parent before it and stands within the queue limit. */
  method BuildThenSerialize(v: Levels) returns (out: string)
    ensures out == TreeText(Trim(v)) <==> Fits(v)
    ensures out == TreeText(Trim(v)) <==>
            forall i :: 0 <= i < |v| && v[i].Some? ==> i <= 2 * |Earlier(v, i)| && i <= 200000
  {
    hide Mirrors, Wired, Printed, TreeText, Trim, Earlier, Fits;
    FitsMeans(v);
    var root, nodes := BuildTree(v);
    if root == null {
      NullRoot(v);
      NullPrints();
      out := SerializeTree(null, {});
    } else {
      CppPrints(v, nodes);
      out := SerializeTree(root, HeapOf(nodes));
    }
  }

  lemma NullPrints()
    ensures ClosedTrees({}) && Printed({}, null) == "null"
  {
  }

  /** An array without a root value fits exactly when it holds no value at all. */
  lemma NullRoot(v: Levels)
    requires v == [] || v[0].None?
    ensures TreeText(Trim(v)) == "null" <==> Fits(v)
  {
    TreeTextInjective(Trim(v), []);
    TrimCanonical(v, []);
    assert Trim([]) == [];
    if Agree(v, []) {
      forall i | 0 <= i < |v| ensures v[i].None? { assert At(v, i) == At([], i); }
    }
    if Fits(v) {
      RootlessEmpty(v, |v|);
      forall i: nat ensures At(v, i) == At([], i) {}
    }
  }

  lemma {:induction false} RootlessEmpty(v: Levels, n: nat)
    requires WellFormed(v) && (v == [] || v[0].None?) && n <= |v|
    ensures Rank(v, n) == 0 && forall i :: 0 <= i < n ==> v[i].None?
  {
    if n > 0 { RootlessEmpty(v, n - 1); }
  }

  /** Up to 100000 values a well-formed array always fits. */
  lemma SmallTreesFit(v: Levels)
    requires WellFormed(v) && Rank(v, |v|) <= 100000
    ensures Fits(v)
  {
    forall i | 0 <= i < |v| && v[i].Some? ensures i <= QUEUE_LIMIT { RankGrows(v, i, |v|); assert At(v, i).Some?; }
  }

  // ----- the Python pair -----

  lemma DrainStep(v: Levels, nodes: seq<TreeNode?>, i: nat)
    requires Wired(v, nodes) && i < Slot(v, i) <= Slot(v, i + 1) && ClosedTrees(HeapOf(nodes))
    requires Inside(Range(nodes, i, Slot(v, i)), HeapOf(nodes))
    ensures Inside(Range(nodes, i + 1, Slot(v, i + 1)), HeapOf(nodes))
    ensures Drain(HeapOf(nodes), Range(nodes, i, Slot(v, i)), SeenTo(nodes, i)) ==
            TreeRuntime.Push(At(v, i), Drain(HeapOf(nodes), Range(nodes, i + 1, Slot(v, i + 1)), SeenTo(nodes, i + 1)))
  {
    hide Rank, StopFrom;
    var q := Range(nodes, i, Slot(v, i));
    assert q[0] == NodeAt(nodes, i);
    RangeGrows(v, nodes, i, i + 1);
    assert q[1..] == Range(nodes, i + 1, Slot(v, i));
    assert q[1..] + [] == q[1..];
    SeenStep(v, nodes, i);
    SlotStep(v, nodes, i);
    RangeInside(nodes, i + 1, Slot(v, i + 1));
  }

  lemma {:induction false} DrainWired(v: Levels, nodes: seq<TreeNode?>, i: nat)
    requires Wired(v, nodes) && i <= Slot(v, i) && ClosedTrees(HeapOf(nodes))
    requires Inside(Range(nodes, i, Slot(v, i)), HeapOf(nodes))
    ensures var d := Drain(HeapOf(nodes), Range(nodes, i, Slot(v, i)), SeenTo(nodes, i));
            d.Some? && i + |d.value| == StopFrom(v, i) && forall k :: 0 <= k < |d.value| ==> d.value[k] == At(v, i + k)
    decreases 2 * |v| + 1 - i
  {
    hide Rank, Wired, ClosedTrees, SeenTo, HeapOf;
    if i < Slot(v, i) {
      RankGrows(v, i, i + 1);
      DrainStep(v, nodes, i);
      DrainWired(v, nodes, i + 1);
      var rest := Drain(HeapOf(nodes), Range(nodes, i + 1, Slot(v, i + 1)), SeenTo(nodes, i + 1)).value;
      var d := [At(v, i)] + rest;
      forall k | 0 <= k < |d| ensures d[k] == At(v, i + k) {
        if k > 0 { assert d[k] == rest[k - 1] == At(v, i + 1 + (k - 1)); }
      }
    } else {
      assert Range(nodes, i, i) == [];
    }
  }

  lemma PythonPrints(v: Levels, nodes: seq<TreeNode?>)
    requires Wired(v, nodes) && v != [] && WellFormed(v)
    ensures ClosedTrees(HeapOf(nodes)) && (nodes[0] != null ==> nodes[0] in HeapOf(nodes))
    ensures var d := Drain(HeapOf(nodes), [nodes[0]], {}); d.Some? && Trim(d.value) == Trim(v)
  {
    WiredClosed(v, nodes);
    assert Range(nodes, 0, Slot(v, 0)) == [nodes[0]];
    assert SeenTo(nodes, 0) == {};
    DrainWired(v, nodes, 0);
    var w := Drain(HeapOf(nodes), [nodes[0]], {}).value;
    WellFormedIsBeforeStop(v);
    forall i: nat ensures At(w, i) == At(v, i) {
      if i < |w| { assert w[i] == At(v, 0 + i); }
    }
    TrimCanonical(w, v);
  }

  /** The Python driver refuses exactly the arrays that are not well formed, and reproduces the
      others up to trailing nulls, at any size. */
  method PythonBuildThenSerialize(v: Levels) returns (r: Option<Levels>)
    ensures r == if WellFormed(v) then Some(Trim(v)) else None
    ensures r.Some? <==> forall i :: 0 <= i < |v| && v[i].Some? ==> i <= 2 * |Earlier(v, i)|
  {
    hide Earlier, Mirrors;
    WellFormedMeans(v);
    var built, nodes := PythonBuildTree(v);
    if built.None? { return None; }
    if v == [] {
      assert Trim([None]) == [];
      r := PythonSerializeTree(null, {});
    } else {
      PythonPrints(v, nodes);
      r := PythonSerializeTree(built.value, HeapOf(nodes));
    }
  }
}
