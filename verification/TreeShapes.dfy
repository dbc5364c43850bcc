/** Returned trees on any heap: what the serializers print for them, which roots they accept, and
    what equality of texts decides. */
module TreeShapes {
  import opened Options
  import opened Text
  import opened Trees
  import opened TreeRuntime
  import opened TreeJudge

  ghost predicate Shows(heap: set<TreeNode>, n: TreeNode?, t: Tree)
    requires ClosedTrees(heap) && (n != null ==> n in heap)
    reads heap
    decreases t
  {
    match t
    case Leaf => n == null
    case Node(x, l, r) => n != null && n.val == x && Shows(heap, n.left, l) && Shows(heap, n.right, r)
  }

  /** A node shows at most one tree; on a cycle it shows none. */
  lemma {:induction false} ShowsOne(heap: set<TreeNode>, n: TreeNode?, t: Tree, u: Tree)
    requires ClosedTrees(heap) && (n != null ==> n in heap)
    requires Shows(heap, n, t) && Shows(heap, n, u)
    ensures t == u
    decreases t
  {
    if t.Node? {
      ShowsOne(heap, n.left, t.left, u.left);
      ShowsOne(heap, n.right, t.right, u.right);
    }
  }

  /** The nodes that carry a shown tree. */
  ghost function NodesOf(heap: set<TreeNode>, n: TreeNode?, t: Tree): set<TreeNode>
    requires ClosedTrees(heap) && (n != null ==> n in heap) && Shows(heap, n, t)
    reads heap
    decreases t
  {
    match t
    case Leaf => {}
    case Node(_, l, r) => {n} + NodesOf(heap, n.left, l) + NodesOf(heap, n.right, r)
  }

  ghost predicate Unshared(heap: set<TreeNode>, n: TreeNode?, t: Tree)
    requires ClosedTrees(heap) && (n != null ==> n in heap) && Shows(heap, n, t)
    reads heap
    decreases t
  {
    match t
    case Leaf => true
    case Node(_, l, r) =>
      var left, right := NodesOf(heap, n.left, l), NodesOf(heap, n.right, r);
      Unshared(heap, n.left, l) && Unshared(heap, n.right, r) && n !in left && n !in right && left !! right
  }

  /** The nodes below `n` form the tree `t`, each standing in one place of it. */
  ghost predicate IsTree(heap: set<TreeNode>, n: TreeNode?, t: Tree)
    requires ClosedTrees(heap) && (n != null ==> n in heap)
    reads heap
  {
    Shows(heap, n, t) && Unshared(heap, n, t)
  }

  // ----- queues of disjoint trees -----

  ghost predicate Planted(heap: set<TreeNode>, q: seq<TreeNode?>, ts: seq<Tree>, seen: set<TreeNode>)
    requires ClosedTrees(heap) && Inside(q, heap)
    reads heap
  {
    && |q| == |ts|
    && (forall j :: 0 <= j < |q| ==> IsTree(heap, q[j], ts[j]))
    && (forall j :: 0 <= j < |q| ==> NodesOf(heap, q[j], ts[j]) !! seen)
    && (forall i, j :: 0 <= i < j < |q| ==> NodesOf(heap, q[i], ts[i]) !! NodesOf(heap, q[j], ts[j]))
  }

  /** The queue once its head is taken and the head's children are appended. */
  ghost function Onward(q: seq<TreeNode?>): seq<TreeNode?>
    requires q != []
    reads if q[0] == null then {} else {q[0]}
  {
    q[1..] + if q[0] == null then [] else [q[0].left, q[0].right]
  }

  ghost function Marked(seen: set<TreeNode>, n: TreeNode?): set<TreeNode> {
    if n == null then seen else seen + {n}
  }

  lemma OnwardInside(heap: set<TreeNode>, q: seq<TreeNode?>)
    requires ClosedTrees(heap) && Inside(q, heap) && q != []
    ensures Inside(Onward(q), heap)
  {
  }

  lemma PlantedOnward(heap: set<TreeNode>, q: seq<TreeNode?>, ts: seq<Tree>, seen: set<TreeNode>)
    requires ClosedTrees(heap) && Inside(q, heap) && q != [] && Planted(heap, q, ts, seen)
    ensures q[0] !in seen && Root(ts[0]) == if q[0] == null then None else Some(q[0].val)
    ensures Inside(Onward(q), heap) && Planted(heap, Onward(q), Children(ts), Marked(seen, q[0]))
  {
    var n, m, r, us := q[0], |q| - 1, Onward(q), Children(ts);
    assert IsTree(heap, n, ts[0]);
    forall j | 0 <= j < m ensures r[j] == q[j + 1] && us[j] == ts[j + 1] {}
    if n != null {
      assert r[m] == n.left && r[m + 1] == n.right && us[m] == ts[0].left && us[m + 1] == ts[0].right;
    }
  }

  lemma Grafted(heap: set<TreeNode>, n: TreeNode, l: Tree, r: Tree)
    requires ClosedTrees(heap) && n in heap && IsTree(heap, n.left, l) && IsTree(heap, n.right, r)
    requires n !in NodesOf(heap, n.left, l) && n !in NodesOf(heap, n.right, r)
    requires NodesOf(heap, n.left, l) !! NodesOf(heap, n.right, r)
    ensures IsTree(heap, n, Node(n.val, l, r))
    ensures NodesOf(heap, n, Node(n.val, l, r)) == {n} + NodesOf(heap, n.left, l) + NodesOf(heap, n.right, r)
  {
  }

  /** The other way: a queue ahead whose last two trees hang below the head. */
  lemma PlantedBack(heap: set<TreeNode>, q: seq<TreeNode?>, us: seq<Tree>, seen: set<TreeNode>) returns (ts: seq<Tree>)
    requires ClosedTrees(heap) && Inside(q, heap) && q != [] && q[0] !in seen
    requires Inside(Onward(q), heap) && Planted(heap, Onward(q), us, Marked(seen, q[0]))
    ensures Planted(heap, q, ts, seen)
  {
    var n, m, r := q[0], |q| - 1, Onward(q);
    forall j | 0 <= j < m ensures r[j] == q[j + 1] {}
    if n == null {
      ts := [Leaf] + us;
      assert IsTree(heap, n, Leaf) && NodesOf(heap, n, Leaf) == {};
    } else {
      assert r[m] == n.left && r[m + 1] == n.right;
      assert IsTree(heap, r[m], us[m]) && IsTree(heap, r[m + 1], us[m + 1]);
      Grafted(heap, n, us[m], us[m + 1]);
      ts := [Node(n.val, us[m], us[m + 1])] + us[..m];
    }
    BackPlanted(heap, q, us, seen, ts);
  }

  lemma BackPlanted(heap: set<TreeNode>, q: seq<TreeNode?>, us: seq<Tree>, seen: set<TreeNode>, ts: seq<Tree>)
    requires ClosedTrees(heap) && Inside(q, heap) && q != [] && q[0] !in seen && |ts| == |q|
    requires Inside(Onward(q), heap) && Planted(heap, Onward(q), us, Marked(seen, q[0]))
    requires forall j :: 1 <= j < |q| ==> ts[j] == us[j - 1]
    requires IsTree(heap, q[0], ts[0])
    requires q[0] == null ==> NodesOf(heap, q[0], ts[0]) == {}
    requires q[0] != null ==> IsTree(heap, q[0].left, us[|q| - 1]) && IsTree(heap, q[0].right, us[|q|])
    requires q[0] != null ==> NodesOf(heap, q[0], ts[0]) ==
                              {q[0]} + NodesOf(heap, q[0].left, us[|q| - 1]) + NodesOf(heap, q[0].right, us[|q|])
    ensures Planted(heap, q, ts, seen)
  {
    hide Unshared, Shows, NodesOf, ClosedTrees;
    var n, m, r := q[0], |q| - 1, Onward(q);
    forall j | 1 <= j < |q| ensures r[j - 1] == q[j] {}
    forall j | 1 <= j < |q| ensures IsTree(heap, q[j], ts[j]) && NodesOf(heap, q[j], ts[j]) !! Marked(seen, n) {
      assert IsTree(heap, r[j - 1], us[j - 1]);
    }
    if n != null {
      assert r[m] == n.left && r[m + 1] == n.right;
      forall j | 1 <= j < |q| ensures NodesOf(heap, n, ts[0]) !! NodesOf(heap, q[j], ts[j]) {
        assert NodesOf(heap, r[j - 1], us[j - 1]) !! NodesOf(heap, r[m], us[m]);
        assert NodesOf(heap, r[j - 1], us[j - 1]) !! NodesOf(heap, r[m + 1], us[m + 1]);
      }
    }
  }

  // ----- the Python serializer accepts trees -----

  lemma {:induction false} DrainPlanted(heap: set<TreeNode>, q: seq<TreeNode?>, ts: seq<Tree>, seen: set<TreeNode>)
    requires ClosedTrees(heap) && Inside(q, heap) && Planted(heap, q, ts, seen)
    ensures Drain(heap, q, seen) == Some(LevelOrder(ts))
    decreases Sizes(ts), |ts|
  {
    if q != [] {
      PlantedOnward(heap, q, ts, seen);
      ChildrenSize(ts);
      hide Planted;
      DrainPlanted(heap, Onward(q), Children(ts), Marked(seen, q[0]));
      assert q[0] == null ==> Onward(q) == q[1..];
    }
  }

  lemma {:induction false} PlantedDrain(heap: set<TreeNode>, q: seq<TreeNode?>, seen: set<TreeNode>)
    returns (ts: seq<Tree>)
    requires ClosedTrees(heap) && Inside(q, heap) && Drain(heap, q, seen).Some?
    ensures Planted(heap, q, ts, seen)
    decreases |heap - seen|, |q|
  {
    if q == [] { return []; }
    if q[0] != null { Shrinks(heap, seen, q[0]); }
    assert q[0] == null ==> Onward(q) == q[1..];
    hide Planted;
    var us := PlantedDrain(heap, Onward(q), Marked(seen, q[0]));
    ts := PlantedBack(heap, q, us, seen);
  }

  lemma PlantedRoot(heap: set<TreeNode>, root: TreeNode?, t: Tree)
    requires ClosedTrees(heap) && (root != null ==> root in heap)
    ensures IsTree(heap, root, t) <==> Planted(heap, [root], [t], {})
  {
    var q, ts := [root], [t];
    assert q[0] == root && ts[0] == t;
  }

  /** On any heap, Python accepts exactly the roots of trees whose nodes all stand in one place,
      and collects the tree's level order. */
  lemma PythonAcceptsTrees(heap: set<TreeNode>, root: TreeNode?)
    requires ClosedTrees(heap) && (root != null ==> root in heap)
    ensures Drain(heap, [root], {}).Some? <==> exists t :: IsTree(heap, root, t)
    ensures forall t :: IsTree(heap, root, t) ==> Drain(heap, [root], {}) == Some(LevelOrder([t]))
  {
    hide IsTree, Planted, Drain;
    forall t | IsTree(heap, root, t) ensures Drain(heap, [root], {}) == Some(LevelOrder([t])) {
      PlantedRoot(heap, root, t);
      DrainPlanted(heap, [root], [t], {});
    }
    if Drain(heap, [root], {}).Some? {
      var ts := PlantedDrain(heap, [root], {});
      PlantedLength(heap, [root], ts, {});
      assert ts == [ts[0]];
      PlantedRoot(heap, root, ts[0]);
    }
  }

  lemma PlantedLength(heap: set<TreeNode>, q: seq<TreeNode?>, ts: seq<Tree>, seen: set<TreeNode>)
    requires ClosedTrees(heap) && Inside(q, heap) && Planted(heap, q, ts, seen)
    ensures |ts| == |q|
  {
  }

  // ----- what C++ prints for trees -----

  lemma {:induction false} LevelLength(ts: seq<Tree>)
    ensures |LevelOrder(ts)| == |ts| + 2 * Sizes(ts)
    decreases Sizes(ts), |ts|
  {
    if ts != [] {
      ChildrenSize(ts);
      LevelLength(Children(ts));
    }
  }

  lemma {:induction false} LevelRoots(ts: seq<Tree>, k: nat)
    requires k < |ts| <= |LevelOrder(ts)|
    ensures LevelOrder(ts)[k] == Root(ts[k])
    decreases k
  {
    if k > 0 {
      LevelLength(Children(ts));
      assert Children(ts)[k - 1] == ts[k];
      LevelRoots(Children(ts), k - 1);
    }
  }

  function Reach(index: nat, w: Levels): nat {
    if index + |w| <= QUEUE_LIMIT then index + |w| else QUEUE_LIMIT + 1
  }

  ghost predicate Carries(queue: seq<TreeNode?>, index: nat, w: Levels)
    requires index <= |queue| <= index + |w|
    reads queue
  {
    forall k :: index <= k < |queue| ==> w[k - index] == if queue[k] == null then None else Some(queue[k].val)
  }

  lemma ExpandOnward(heap: set<TreeNode>, queue: seq<TreeNode?>, index: nat, seen: set<TreeNode>)
    returns (next: seq<TreeNode?>)
    requires ClosedTrees(heap) && Inside(queue, heap) && index < |queue| <= QUEUE_LIMIT && queue[index] !in seen
    ensures Inside(next, heap) && |next| == |queue| + if queue[index] == null then 0 else 2
    ensures next[index + 1..] == Onward(queue[index..]) && queue <= next
    ensures Expand(heap, queue, index, seen) == Expand(heap, next, index + 1, Marked(seen, queue[index]))
  {
    var n := queue[index];
    next := queue + if n == null then [] else [n.left, n.right];
    assert n == null ==> next == queue;
  }

  /** The queue ends as the level order of what was pending, cut at the limit. */
  lemma {:induction false} ExpandPlanted(heap: set<TreeNode>, queue: seq<TreeNode?>, index: nat, seen: set<TreeNode>,
                                         ts: seq<Tree>)
    requires ClosedTrees(heap) && Inside(queue, heap) && index <= |queue| <= QUEUE_LIMIT + 1 && |queue| % 2 == 1
    requires Inside(queue[index..], heap) && Planted(heap, queue[index..], ts, seen)
    ensures var r, w := Expand(heap, queue, index, seen), LevelOrder(ts);
            index <= |r| == Reach(index, w) <= index + |w| && Carries(r, index, w)
    decreases Sizes(ts), |ts|
  {
    var q := queue[index..];
    LevelLength(ts);
    PlantedLength(heap, q, ts, seen);
    if index < |queue| <= QUEUE_LIMIT {
      hide Planted, Expand, Inside, ClosedTrees, Onward, Marked, Sizes, Carries, IsTree;
      PlantedOnward(heap, q, ts, seen);
      ChildrenSize(ts);
      var next := ExpandOnward(heap, queue, index, seen);
      ExpandPlanted(heap, next, index + 1, Marked(seen, q[0]), Children(ts));
      CarriesFirst(heap, queue, next, index, Marked(seen, q[0]), ts);
    } else {
      FrontCarries(heap, queue, index, seen, ts);
    }
  }

  lemma CarriesFirst(heap: set<TreeNode>, queue: seq<TreeNode?>, next: seq<TreeNode?>, index: nat, seen: set<TreeNode>,
                     ts: seq<Tree>)
    requires ClosedTrees(heap) && Inside(next, heap) && index < |queue| && ts != [] && queue <= next
    requires Root(ts[0]) == if queue[index] == null then None else Some(queue[index].val)
    requires var r, w := Expand(heap, next, index + 1, seen), LevelOrder(Children(ts));
             index + 1 <= |r| <= index + 1 + |w| && Carries(r, index + 1, w)
    ensures var r, w := Expand(heap, next, index + 1, seen), LevelOrder(ts);
            index <= |r| <= index + |w| && Carries(r, index, w) && |w| == 1 + |LevelOrder(Children(ts))|
  {
    hide Expand, ClosedTrees;
    var r, w := Expand(heap, next, index + 1, seen), LevelOrder(ts);
    assert w == [Root(ts[0])] + LevelOrder(Children(ts));
    assert r[index] == next[index] == queue[index];
  }

  lemma FrontCarries(heap: set<TreeNode>, queue: seq<TreeNode?>, index: nat, seen: set<TreeNode>, ts: seq<Tree>)
    requires ClosedTrees(heap) && Inside(queue, heap) && index <= |queue| <= index + |LevelOrder(ts)|
    requires Inside(queue[index..], heap) && Planted(heap, queue[index..], ts, seen)
    ensures Carries(queue, index, LevelOrder(ts))
  {
    var q := queue[index..];
    forall k | index <= k < |queue|
      ensures LevelOrder(ts)[k - index] == if queue[k] == null then None else Some(queue[k].val)
    {
      LevelRoots(ts, k - index);
      assert q[k - index] == queue[k] && IsTree(heap, q[k - index], ts[k - index]);
    }
  }

  // ----- the texts of a returned tree -----

  /** What the C++ queue can hold of an array. */
  function Cut(v: Levels): (w: Levels)
    ensures forall i: nat :: At(w, i) == if i <= QUEUE_LIMIT then At(v, i) else None
  {
    if |v| <= QUEUE_LIMIT + 1 then v else v[..QUEUE_LIMIT + 1]
  }

  lemma RootPrints(heap: set<TreeNode>, root: TreeNode, t: Tree)
    requires ClosedTrees(heap) && root in heap && IsTree(heap, root, t)
    ensures Values(heap, Expand(heap, [root], 0, {})) == Cut(LevelOrder([t]))
  {
    PlantedRoot(heap, root, t);
    assert [root][0..] == [root];
    hide IsTree, Planted, Expand, LevelOrder;
    ExpandPlanted(heap, [root], 0, {}, [t]);
    var r, w := Expand(heap, [root], 0, {}), LevelOrder([t]);
    var v := Values(heap, r);
    assert |v| == |Cut(w)|;
    forall k | 0 <= k < |v| ensures v[k] == Cut(w)[k] { assert w[k - 0] == v[k]; }
  }

  lemma CppPrintsTree(heap: set<TreeNode>, root: TreeNode?, t: Tree)
    requires ClosedTrees(heap) && (root != null ==> root in heap) && IsTree(heap, root, t)
    ensures Printed(heap, root) == TreeText(Trim(Cut(Encode(t))))
  {
    var w := LevelOrder([t]);
    if root == null {
      assert Children([Leaf]) == [] && w == [None];
      assert Trim(w) == [] && Trim([]) == [];
    } else {
      RootPrints(heap, root, t);
    }
    TrimCanonical(Cut(w), Cut(Encode(t)));
  }

  lemma CutKeeps(v: Levels)
    requires WellFormed(v)
    ensures Trim(Cut(v)) == Trim(v) <==> Fits(v)
  {
    TrimCanonical(Cut(v), v);
    if Agree(Cut(v), v) {
      forall i | 0 <= i < |v| && v[i].Some? ensures i <= QUEUE_LIMIT { assert At(Cut(v), i) == At(v, i); }
    }
  }

  lemma EncodeTrimmed(t: Tree)
    ensures Trim(Encode(t)) == Encode(t)
  {
  }

  /** C++ prints a tree's level order exactly when no value stands past the queue limit. */
  lemma CppPrintsEncoding(heap: set<TreeNode>, root: TreeNode?, t: Tree)
    requires ClosedTrees(heap) && (root != null ==> root in heap) && IsTree(heap, root, t)
    ensures Printed(heap, root) == TreeText(Encode(t)) <==> Fits(Encode(t))
  {
    CppPrintsTree(heap, root, t);
    TreeRoundTrip(t);
    EncodeTrimmed(t);
    CutKeeps(Encode(t));
    TreeTextInjective(Trim(Cut(Encode(t))), Encode(t));
  }

  /** The limit is out of reach for trees of at most 100000 nodes. */
  lemma SmallTreePrints(t: Tree)
    requires Size(t) <= 100000
    ensures Fits(Encode(t))
  {
    TreeRoundTrip(t);
    assert Sizes([t]) == Size(t) + Sizes([t][1..]);
    LevelLength([t]);
  }

  ghost function PythonText(heap: set<TreeNode>, root: TreeNode?): Option<string>
    requires ClosedTrees(heap) && (root != null ==> root in heap)
    reads heap
  {
    var d := Drain(heap, [root], {});
    if d.None? then None else Some(TreeText(Trim(d.value)))
  }

  /** On any heap the two drivers print alike exactly for trees within the limit. */
  lemma DriversAgree(heap: set<TreeNode>, root: TreeNode?)
    requires ClosedTrees(heap) && (root != null ==> root in heap)
    ensures PythonText(heap, root) == Some(Printed(heap, root)) <==>
            exists t :: IsTree(heap, root, t) && Fits(Encode(t))
  {
    hide IsTree, Drain, Fits, LevelOrder, Printed;
    PythonAcceptsTrees(heap, root);
    if t :| IsTree(heap, root, t) {
      CppPrintsEncoding(heap, root, t);
      forall u | IsTree(heap, root, u) ensures u == t { TreeUnique(heap, root, t, u); }
    }
  }

  lemma TreeUnique(heap: set<TreeNode>, root: TreeNode?, t: Tree, u: Tree)
    requires ClosedTrees(heap) && (root != null ==> root in heap) && IsTree(heap, root, t) && IsTree(heap, root, u)
    ensures t == u
  {
    ShowsOne(heap, root, t, u);
  }

  // ----- the verdict -----

  lemma SameEncoding(t: Tree, expected: Levels)
    requires WellFormed(expected)
    ensures Encode(t) == Trim(expected) <==> t == TreeOf(expected, 0)
  {
    ArrayRoundTrip(expected);
    TreeRoundTrip(t);
    EncodeTrimmed(t);
    TrimCanonical(Encode(t), expected);
    if Agree(Encode(t), expected) { AgreeTree(Encode(t), expected, 0); }
  }

  /** A returned tree is compared with every expectation as it should be, exactly when it fits. */
  lemma TreeVerdictFits(heap: set<TreeNode>, root: TreeNode?, t: Tree)
    requires ClosedTrees(heap) && (root != null ==> root in heap) && IsTree(heap, root, t)
    ensures Fits(Encode(t)) <==>
            forall e :: WellFormed(e) ==> (Printed(heap, root) == TreeText(Trim(e)) <==> t == TreeOf(e, 0))
  {
    hide IsTree, Printed, Fits, WellFormed;
    CppPrintsEncoding(heap, root, t);
    TreeRoundTrip(t);
    EncodeTrimmed(t);
    forall e | WellFormed(e) ensures TreeText(Encode(t)) == TreeText(Trim(e)) <==> t == TreeOf(e, 0) {
      SameEncoding(t, e);
      TreeTextInjective(Encode(t), Trim(e));
    }
  }

  lemma ValuesPrefix(heap: set<TreeNode>, queue: seq<TreeNode?>, next: seq<TreeNode?>)
    requires Inside(queue, heap) && Inside(next, heap) && queue <= next
    ensures TreeRuntime.Values(heap, queue) <= TreeRuntime.Values(heap, next)
  {
  }

  /** Two more positions have a parent when one more node has been looked at. */
  lemma WellFormedGrows(v: Levels, w: Levels, index: nat, m: nat)
    requires v <= w && |v| == 1 + 2 * m && |w| == |v| + 2 && index < |v| && v[index].Some?
    requires WellFormed(v) && m <= Rank(v, index)
    ensures WellFormed(w) && m + 1 <= Rank(w, index + 1)
  {
    PrefixRank(v, w);
    assert Rank(w, index + 1) >= m + 1;
    forall i | 0 <= i < |w| && w[i].Some? ensures i < Slot(w, i) {
      if i >= |v| { RankGrows(w, index + 1, i); }
    }
  }

  /** Whatever the heap, the C++ queue holds a well-formed array: every two nodes appended stand
      below a node before them. */
  lemma {:induction false} ExpandWellFormed(heap: set<TreeNode>, queue: seq<TreeNode?>, index: nat, seen: set<TreeNode>,
                                            m: nat)
    requires ClosedTrees(heap) && Inside(queue, heap) && index <= |queue| == 1 + 2 * m
    requires WellFormed(TreeRuntime.Values(heap, queue)) && m <= Rank(TreeRuntime.Values(heap, queue), index)
    ensures WellFormed(TreeRuntime.Values(heap, Expand(heap, queue, index, seen)))
    decreases |heap - seen|, |queue| - index
  {
    if index < |queue| <= QUEUE_LIMIT {
      var v, n := TreeRuntime.Values(heap, queue), queue[index];
      if n == null || n in seen {
        RankGrows(v, index, index + 1);
        hide WellFormed, Rank;
        ExpandWellFormed(heap, queue, index + 1, seen, m);
      } else {
        Shrinks(heap, seen, n);
        var next := queue + [n.left, n.right];
        ValuesPrefix(heap, queue, next);
        WellFormedGrows(v, TreeRuntime.Values(heap, next), index, m);
        hide WellFormed, Rank;
        ExpandWellFormed(heap, next, index + 1, seen + {n}, m + 1);
      }
    }
  }

  /** So C++ always prints the text of some well-formed array. */
  lemma PrintsWellFormed(heap: set<TreeNode>, root: TreeNode?) returns (e: Levels)
    requires ClosedTrees(heap) && (root != null ==> root in heap)
    ensures WellFormed(e) && Printed(heap, root) == TreeText(Trim(e))
  {
    if root == null {
      e := [];
    } else {
      e := TreeRuntime.Values(heap, Expand(heap, [root], 0, {}));
      ExpandWellFormed(heap, [root], 0, {}, 0);
    }
  }

  /** The comparison is right about the expectation: texts are equal just when the root shows the
      expected tree without sharing. */
  ghost predicate Decides(heap: set<TreeNode>, root: TreeNode?, e: Levels)
    requires ClosedTrees(heap) && (root != null ==> root in heap) && WellFormed(e)
    reads heap
  {
    Printed(heap, root) == TreeText(Trim(e)) <==> IsTree(heap, root, TreeOf(e, 0))
  }

  lemma TreeDecided(heap: set<TreeNode>, root: TreeNode?, t: Tree)
    requires ClosedTrees(heap) && (root != null ==> root in heap) && IsTree(heap, root, t)
    ensures (forall e :: WellFormed(e) ==> Decides(heap, root, e)) <==> Fits(Encode(t))
  {
    hide IsTree, Printed, Fits, WellFormed, TreeOf, Encode;
    TreeVerdictFits(heap, root, t);
    forall e | WellFormed(e)
      ensures Decides(heap, root, e) <==> (Printed(heap, root) == TreeText(Trim(e)) <==> t == TreeOf(e, 0))
    {
      if IsTree(heap, root, TreeOf(e, 0)) { TreeUnique(heap, root, t, TreeOf(e, 0)); }
    }
  }

  /** Under C++, for every heap and root, shared and cyclic ones included: the comparison of strings
      is right about every expectation exactly when the root is that of an unshared tree that fits. */
  lemma TreeVerdictExact(heap: set<TreeNode>, root: TreeNode?)
    requires ClosedTrees(heap) && (root != null ==> root in heap)
    ensures (forall e :: WellFormed(e) ==> Decides(heap, root, e)) <==>
            exists t :: IsTree(heap, root, t) && Fits(Encode(t))
  {
    var shown := PrintsWellFormed(heap, root);
    hide IsTree, Fits, WellFormed, TreeOf, Encode, TreeText, Trim;
    if t :| IsTree(heap, root, t) {
      TreeDecided(heap, root, t);
      forall u | IsTree(heap, root, u) ensures t == u { TreeUnique(heap, root, t, u); }
    } else {
      assert !Decides(heap, root, shown);
    }
  }

  /** Under Python it decides, for every heap and root, whether the root is an unshared tree equal
      to the expected one. */
  lemma PythonVerdictExact(heap: set<TreeNode>, root: TreeNode?, expected: Levels)
    requires ClosedTrees(heap) && (root != null ==> root in heap) && WellFormed(expected)
    ensures PythonText(heap, root) == Some(TreeText(Trim(expected))) <==> IsTree(heap, root, TreeOf(expected, 0))
  {
    hide IsTree, Drain, LevelOrder;
    PythonAcceptsTrees(heap, root);
    if t :| IsTree(heap, root, t) {
      SameEncoding(t, expected);
      TreeTextInjective(Encode(t), Trim(expected));
      if IsTree(heap, root, TreeOf(expected, 0)) { TreeUnique(heap, root, t, TreeOf(expected, 0)); }
    }
  }

  // ----- built trees -----

  /** Both builders make the unshared tree that a well-formed array describes. */
  lemma WiredIsTree(v: Levels, nodes: seq<TreeNode?>)
    requires Wired(v, nodes) && WellFormed(v) && v != []
    ensures ClosedTrees(HeapOf(nodes)) && (nodes[0] != null ==> nodes[0] in HeapOf(nodes))
    ensures IsTree(HeapOf(nodes), nodes[0], TreeOf(v, 0))
  {
    PythonPrints(v, nodes);
    PythonAcceptsTrees(HeapOf(nodes), nodes[0]);
    hide Wired, WellFormed, TreeOf, LevelOrder;
    var t :| IsTree(HeapOf(nodes), nodes[0], t);
    SameEncoding(t, v);
  }

  /** Serializing a returned tree and building the result makes the same tree again. */
  method CopyTree(root: TreeNode?, ghost heap: set<TreeNode>, ghost t: Tree)
    returns (copy: TreeNode?, ghost copies: set<TreeNode>)
    requires ClosedTrees(heap) && (root != null ==> root in heap) && IsTree(heap, root, t)
    ensures fresh(copies) && ClosedTrees(copies) && (copy != null ==> copy in copies) && IsTree(copies, copy, t)
  {
    hide IsTree, Drain, Wired, WellFormed, TreeOf, LevelOrder;
    PythonAcceptsTrees(heap, root);
    TreeRoundTrip(t);
    var v := PythonSerializeTree(root, heap);
    var built, nodes := PythonBuildTree(v.value);
    copy, copies := built.value, HeapOf(nodes);
    if v.value == [] {
      EmptyTree(t);
      copies := {};
    } else {
      WiredIsTree(v.value, nodes);
    }
  }

  lemma EmptyTree(t: Tree)
    requires Encode(t) == []
    ensures t == Leaf && IsTree({}, null, Leaf)
  {
    TreeRoundTrip(t);
  }

  // ----- what C++ prints on any heap -----

  /** The queue of a printed root. `firsts` are the positions where a node stands for the first time;
      the j-th of them has its children at 2 * j + 1 and 2 * j + 2, any later occurrence has none.
      Everything before `done` has been looked at: all of it, or up to the limit. */
  ghost predicate Queued(root: TreeNode, queue: seq<TreeNode?>, firsts: seq<nat>, done: nat)
    reads queue
  {
    && |queue| == 1 + 2 * |firsts| && queue[0] == root && done <= |queue|
    && (forall j :: 0 <= j < |firsts| ==> firsts[j] < done && queue[firsts[j]] != null)
    && (forall j, k :: 0 <= j < k < |firsts| ==> firsts[j] < firsts[k] && queue[firsts[j]] != queue[firsts[k]])
    && (forall j :: 0 <= j < |firsts| ==> ChildrenAt(queue, firsts[j], j))
    && forall i :: 0 <= i < done && queue[i] != null ==> KnownBy(queue, firsts, i)
  }

  ghost predicate ChildrenAt(queue: seq<TreeNode?>, i: nat, j: nat)
    reads queue
  {
    && i < |queue| && 2 * j + 2 < |queue| && queue[i] != null
    && queue[2 * j + 1] == queue[i].left && queue[2 * j + 2] == queue[i].right
  }

  ghost predicate KnownBy(queue: seq<TreeNode?>, firsts: seq<nat>, i: nat) {
    exists j :: 0 <= j < |firsts| && firsts[j] <= i < |queue| && queue[firsts[j]] == queue[i]
  }

  ghost predicate SeenExactly(queue: seq<TreeNode?>, firsts: seq<nat>, seen: set<TreeNode>) {
    && (forall j :: 0 <= j < |firsts| ==> firsts[j] < |queue| && queue[firsts[j]] in seen)
    && (forall n :: n in seen ==> exists j :: 0 <= j < |firsts| && firsts[j] < |queue| && queue[firsts[j]] == n)
  }

  lemma QueuedSkips(root: TreeNode, queue: seq<TreeNode?>, firsts: seq<nat>, i: nat, seen: set<TreeNode>)
    requires Queued(root, queue, firsts, i) && SeenExactly(queue, firsts, seen) && i < |queue|
    requires queue[i] == null || queue[i] in seen
    ensures Queued(root, queue, firsts, i + 1)
  {
    if queue[i] != null {
      var j :| 0 <= j < |firsts| && firsts[j] < |queue| && queue[firsts[j]] == queue[i];
      assert KnownBy(queue, firsts, i);
    }
  }

  lemma ChildrenGrow(queue: seq<TreeNode?>, firsts: seq<nat>, i: nat, n: TreeNode)
    requires |queue| == 1 + 2 * |firsts| && i < |queue| && queue[i] == n
    requires forall j :: 0 <= j < |firsts| ==> ChildrenAt(queue, firsts[j], j)
    ensures var q, fs := queue + [n.left, n.right], firsts + [i];
            forall j :: 0 <= j < |fs| ==> ChildrenAt(q, fs[j], j)
  {
    var q, fs := queue + [n.left, n.right], firsts + [i];
    forall j | 0 <= j < |fs| ensures ChildrenAt(q, fs[j], j) {
      if j < |firsts| { assert ChildrenAt(queue, firsts[j], j); }
    }
  }

  lemma KnownGrow(queue: seq<TreeNode?>, firsts: seq<nat>, i: nat, n: TreeNode, k: nat)
    requires k < i < |queue| && (forall j :: 0 <= j < |firsts| ==> firsts[j] < i) && KnownBy(queue, firsts, k)
    ensures KnownBy(queue + [n.left, n.right], firsts + [i], k)
  {
    var q, fs := queue + [n.left, n.right], firsts + [i];
    var j :| 0 <= j < |firsts| && firsts[j] <= k < |queue| && queue[firsts[j]] == queue[k];
    assert fs[j] == firsts[j] && q[fs[j]] == q[k];
  }

  lemma KnownLast(queue: seq<TreeNode?>, firsts: seq<nat>, i: nat, n: TreeNode)
    requires i < |queue|
    ensures KnownBy(queue + [n.left, n.right], firsts + [i], i)
  {
    assert (firsts + [i])[|firsts|] == i;
  }

  lemma SeenGrow(queue: seq<TreeNode?>, firsts: seq<nat>, i: nat, seen: set<TreeNode>, n: TreeNode)
    requires SeenExactly(queue, firsts, seen) && i < |queue| && queue[i] == n
    ensures SeenExactly(queue + [n.left, n.right], firsts + [i], seen + {n})
  {
    var q, fs := queue + [n.left, n.right], firsts + [i];
    assert fs[|firsts|] == i && q[i] == n;
    forall m | m in seen ensures exists j :: 0 <= j < |fs| && fs[j] < |q| && q[fs[j]] == m {
      var j :| 0 <= j < |firsts| && firsts[j] < |queue| && queue[firsts[j]] == m;
      assert fs[j] == firsts[j];
    }
  }

  lemma QueuedGrows(root: TreeNode, queue: seq<TreeNode?>, firsts: seq<nat>, i: nat, seen: set<TreeNode>, n: TreeNode)
    requires Queued(root, queue, firsts, i) && SeenExactly(queue, firsts, seen) && i < |queue|
    requires queue[i] == n && n !in seen
    ensures Queued(root, queue + [n.left, n.right], firsts + [i], i + 1)
  {
    hide ChildrenAt, KnownBy;
    var q, fs := queue + [n.left, n.right], firsts + [i];
    ChildrenGrow(queue, firsts, i, n);
    KnownLast(queue, firsts, i, n);
    forall k | 0 <= k <= i && q[k] != null ensures KnownBy(q, fs, k) {
      if k < i { KnownGrow(queue, firsts, i, n, k); }
    }
    forall j | 0 <= j < |fs| ensures fs[j] < i + 1 && q[fs[j]] == if j < |firsts| then queue[firsts[j]] else n {}
  }

  lemma ExpandNode(heap: set<TreeNode>, queue: seq<TreeNode?>, index: nat, seen: set<TreeNode>, n: TreeNode)
    requires ClosedTrees(heap) && Inside(queue, heap) && index < |queue| <= QUEUE_LIMIT && queue[index] == n &&
             n !in seen
    ensures Inside(queue + [n.left, n.right], heap)
    ensures Expand(heap, queue, index, seen) == Expand(heap, queue + [n.left, n.right], index + 1, seen + {n})
  {
  }

  lemma ExpandSkip(heap: set<TreeNode>, queue: seq<TreeNode?>, index: nat, seen: set<TreeNode>)
    requires ClosedTrees(heap) && Inside(queue, heap) && index < |queue| <= QUEUE_LIMIT
    requires queue[index] != null ==> queue[index] in seen
    ensures Expand(heap, queue, index, seen) == Expand(heap, queue, index + 1, seen)
  {
  }

  lemma ExpandDone(heap: set<TreeNode>, queue: seq<TreeNode?>, index: nat, seen: set<TreeNode>)
    requires ClosedTrees(heap) && Inside(queue, heap) && index <= |queue| && !(index < |queue| <= QUEUE_LIMIT)
    ensures Expand(heap, queue, index, seen) == queue
  {
  }

  lemma {:induction false} ExpandQueued(heap: set<TreeNode>, root: TreeNode, queue: seq<TreeNode?>, index: nat,
                                        seen: set<TreeNode>, firsts: seq<nat>)
    returns (all: seq<nat>, done: nat)
    requires ClosedTrees(heap) && Inside(queue, heap) && index <= |queue| <= 200001
    requires Queued(root, queue, firsts, index) && SeenExactly(queue, firsts, seen)
    ensures var r := Expand(heap, queue, index, seen);
            Queued(root, r, all, done) && |r| <= 200001 && (done == |r| || |r| == 200001)
    decreases |heap - seen|, |queue| - index
  {
    hide Queued, SeenExactly, Expand, ClosedTrees;
    all, done := firsts, index;
    if index < |queue| <= QUEUE_LIMIT {
      var n := queue[index];
      if n == null || n in seen {
        QueuedSkips(root, queue, firsts, index, seen);
        ExpandSkip(heap, queue, index, seen);
        all, done := ExpandQueued(heap, root, queue, index + 1, seen, firsts);
      } else {
        Shrinks(heap, seen, n);
        QueuedGrows(root, queue, firsts, index, seen, n);
        SeenGrow(queue, firsts, index, seen, n);
        QueuedOdd(root, queue, firsts, index);
        ExpandNode(heap, queue, index, seen, n);
        all, done := ExpandQueued(heap, root, queue + [n.left, n.right], index + 1, seen + {n}, firsts + [index]);
      }
    } else {
      ExpandDone(heap, queue, index, seen);
    }
  }

  lemma QueuedOdd(root: TreeNode, queue: seq<TreeNode?>, firsts: seq<nat>, done: nat)
    requires Queued(root, queue, firsts, done) && |queue| <= 200000
    ensures |queue| + 2 <= 200001
  {
  }

  /** On every heap, shared and cyclic ones included, C++ prints the values of such a queue. */
  lemma PrintsQueue(heap: set<TreeNode>, root: TreeNode) returns (queue: seq<TreeNode?>, firsts: seq<nat>, done: nat)
    requires ClosedTrees(heap) && root in heap
    ensures Queued(root, queue, firsts, done) && |queue| <= 200001 && (done == |queue| || |queue| == 200001)
    ensures Inside(queue, heap) && Printed(heap, root) == TreeText(Trim(TreeRuntime.Values(heap, queue)))
  {
    var start: seq<TreeNode?> := [root];
    assert Queued(root, start, [], 0) && SeenExactly(start, [], {});
    hide Queued, SeenExactly;
    firsts, done := ExpandQueued(heap, root, start, 0, {}, []);
    queue := Expand(heap, start, 0, {});
  }

  // ----- shared nodes -----

  /** A node that is both children of the root and has a left child of its own: the queue shows
      the node's second place without children. */
  lemma SharedQueue(heap: set<TreeNode>, r: TreeNode, x: TreeNode, y: TreeNode)
    requires heap == {r, x, y} && r != x && x != y && y != r
    requires r.left == x && r.right == x && x.left == y && x.right == null && y.left == null && y.right == null
    ensures ClosedTrees(heap) && Expand(heap, [r], 0, {}) == [r, x, x, y, null, null, null]
    ensures forall t :: !IsTree(heap, r, t)
  {
    assert ClosedTrees(heap);
    ExpandNode(heap, [r], 0, {}, r);
    assert [r] + [r.left, r.right] == [r, x, x];
    ExpandNode(heap, [r, x, x], 1, {} + {r}, x);
    assert [r, x, x] + [x.left, x.right] == [r, x, x, y, null];
    ExpandSkip(heap, [r, x, x, y, null], 2, {} + {r} + {x});
    ExpandNode(heap, [r, x, x, y, null], 3, {} + {r} + {x}, y);
    assert [r, x, x, y, null] + [y.left, y.right] == [r, x, x, y, null, null, null];
    EndsInNulls(heap, [r, x, x, y, null, null, null], 4, {} + {r} + {x} + {y});
    forall t ensures !IsTree(heap, r, t) { TwiceIsNoTree(heap, r, t); }
  }

  lemma TwiceIsNoTree(heap: set<TreeNode>, n: TreeNode, t: Tree)
    requires ClosedTrees(heap) && n in heap && n.left == n.right && n.left != null
    ensures !IsTree(heap, n, t)
  {
    if Shows(heap, n, t) {
      assert n.left in NodesOf(heap, n.left, t.left) && n.right in NodesOf(heap, n.right, t.right);
    }
  }

  lemma SharedPrints(heap: set<TreeNode>, r: TreeNode, x: TreeNode, y: TreeNode, v: Levels)
    requires heap == {r, x, y} && r != x && x != y && y != r
    requires r.left == x && r.right == x && x.left == y && x.right == null && y.left == null && y.right == null
    requires v == [Some(r.val), Some(x.val), Some(x.val), Some(y.val)]
    ensures ClosedTrees(heap) && Printed(heap, r) == TreeText(v) == TreeText(Trim(v)) && forall t :: !IsTree(heap, r, t)
  {
    SharedQueue(heap, r, x, y);
    hide Expand, IsTree, ClosedTrees, Trim, TreeText;
    var w := Values(heap, [r, x, x, y, null, null, null]);
    TrimLength(w, 4);
    TrimLength(v, 4);
    assert w[..4] == v == v[..4];
  }

  lemma {:induction false} EndsInNulls(heap: set<TreeNode>, queue: seq<TreeNode?>, index: nat, seen: set<TreeNode>)
    requires ClosedTrees(heap) && Inside(queue, heap) && index <= |queue| <= QUEUE_LIMIT
    requires forall k :: index <= k < |queue| ==> queue[k] == null
    ensures Expand(heap, queue, index, seen) == queue
    decreases |queue| - index
  {
    if index < |queue| { EndsInNulls(heap, queue, index + 1, seen); }
  }

  method MakeShared(a: int, b: int, c: int) returns (r: TreeNode, x: TreeNode, y: TreeNode)
    ensures r != x && x != y && y != r && r.val == a && x.val == b && y.val == c
    ensures r.left == x && r.right == x && x.left == y && x.right == null && y.left == null && y.right == null
  {
    r := new TreeNode(a);
    x := new TreeNode(b);
    y := new TreeNode(c);
    r.left, r.right, x.left := x, x, y;
  }

  /** C++ prints a root whose two children are one node like a tree that has the grandchild once.
      Python refuses the root, which no tree shows. */
  method SharedLooksLikeTree()
    returns (shared: string, plain: string, refused: Option<Levels>, ghost heap: set<TreeNode>, ghost root: TreeNode)
    ensures shared == plain && refused == None
    ensures ClosedTrees(heap) && root in heap && shared == Printed(heap, root) && forall t :: !IsTree(heap, root, t)
    ensures plain == TreeText([Some(1), Some(2), Some(2), Some(3)])
  {
    hide Printed, IsTree, Drain, ClosedTrees, TreeText;
    var r, x, y := MakeShared(1, 2, 3);
    var v := [Some(1), Some(2), Some(2), Some(3)];
    heap, root := {r, x, y}, r;
    SharedPrints(heap, r, x, y, v);
    PythonAcceptsTrees(heap, r);
    shared := SerializeTree(r, heap);
    refused := PythonSerializeTree(r, heap);
    plain := CanonicalTree(v);
  }
}
