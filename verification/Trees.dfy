/** Level-order encodings of binary trees: which arrays describe a tree, and the round trip
    between trees and arrays. */
module Trees {
  import opened Options

  type Levels = seq<Option<int>>

  function At(v: Levels, i: nat): Option<int> { if i < |v| then v[i] else None }

  /** Nodes before position `i`. The node at `i` has its children at 2 * Rank + 1 and + 2. */
  function Rank(v: Levels, i: nat): (r: nat)
    ensures r <= i && r <= |v|
  {
    if i == 0 then 0
    else if i > |v| then Rank(v, i - 1)
    else Rank(v, i - 1) + if v[i - 1].Some? then 1 else 0
  }

  function Slot(v: Levels, i: nat): nat { 2 * Rank(v, i) + 1 }

  /** The positions of the nodes before position `i`. */
  function Earlier(v: Levels, i: nat): set<int> { set k | 0 <= k < i && k < |v| && v[k].Some? }

  lemma {:induction false} RankCounts(v: Levels, i: nat)
    ensures Rank(v, i) == |Earlier(v, i)|
    decreases i
  {
    if i > 0 {
      RankCounts(v, i - 1);
      if i <= |v| && v[i - 1].Some? {
        assert Earlier(v, i) == Earlier(v, i - 1) + {i - 1};
      } else {
        assert Earlier(v, i) == Earlier(v, i - 1);
      }
    }
  }

  lemma {:induction false} RankGrows(v: Levels, i: nat, j: nat)
    requires i <= j
    ensures Rank(v, i) <= Rank(v, j)
    ensures (exists k :: i <= k < j && At(v, k).Some?) ==> Rank(v, i) < Rank(v, j)
    ensures (forall k :: i <= k < j ==> At(v, k).None?) ==> Rank(v, i) == Rank(v, j)
    decreases j - i
  {
    if i < j {
      RankGrows(v, i + 1, j);
      assert At(v, i).Some? || At(v, i).None?;
    }
  }

  /** Every node after the first is a child of an earlier node. */
  predicate WellFormed(v: Levels) {
    forall i :: 0 <= i < |v| && v[i].Some? ==> i < Slot(v, i)
  }

  lemma WellFormedMeans(v: Levels)
    ensures WellFormed(v) <==> forall i :: 0 <= i < |v| && v[i].Some? ==> i <= 2 * |Earlier(v, i)|
  {
    forall i | 0 <= i < |v| ensures Slot(v, i) == 2 * |Earlier(v, i)| + 1 { RankCounts(v, i); }
    hide Rank, Earlier;
  }

  /** The first position at or after `i` that no earlier node has as a child. */
  function StopFrom(v: Levels, i: nat): (s: nat)
    requires i <= Slot(v, i)
    ensures i <= s == Slot(v, s)
    ensures forall k :: i <= k < s ==> k < Slot(v, k)
    decreases 2 * |v| + 1 - i
  {
    if i == Slot(v, i) then i
    else
      RankGrows(v, i, i + 1);
      StopFrom(v, i + 1)
  }

  /** How much of the array a tree built from position 0 can use. */
  function Stop(v: Levels): nat { StopFrom(v, 0) }

  lemma WellFormedIsBeforeStop(v: Levels)
    ensures WellFormed(v) <==> forall i :: 0 <= i < |v| && v[i].Some? ==> i < Stop(v)
  {
    var s := Stop(v);
    if WellFormed(v) {
      forall i | 0 <= i < |v| && v[i].Some? ensures i < s {
        if i >= s { FirstAfter(v, s, i); }
      }
    }
  }

  /** The first node at or past the stop is nobody's child. */
  lemma {:induction false} FirstAfter(v: Levels, s: nat, i: nat)
    requires s == Slot(v, s) && s <= i < |v| && v[i].Some?
    ensures !WellFormed(v)
    decreases i
  {
    if k: nat :| s <= k < i && v[k].Some? {
      FirstAfter(v, s, k);
    } else {
      assert forall k :: s <= k < i ==> At(v, k).None?;
      RankGrows(v, s, i);
    }
  }

  // ----- trailing nulls -----

  function Trim(v: Levels): (w: Levels)
    ensures |w| <= |v| && (w != [] ==> w[|w| - 1].Some?)
    ensures forall i: nat :: At(w, i) == At(v, i)
  {
    if v == [] || v[|v| - 1].Some? then v else Trim(v[..|v| - 1])
  }

  ghost predicate Agree(v: Levels, w: Levels) { forall i: nat :: At(v, i) == At(w, i) }

  lemma TrimCanonical(v: Levels, w: Levels)
    ensures Trim(v) == Trim(w) <==> Agree(v, w)
  {
    var a, b := Trim(v), Trim(w);
    if Agree(v, w) {
      assert forall i: nat :: At(a, i) == At(b, i);
      assert b != [] ==> At(b, |b| - 1).Some? && At(a, |b| - 1).Some?;
      assert a != [] ==> At(a, |a| - 1).Some? && At(b, |a| - 1).Some?;
      forall i | 0 <= i < |a| ensures a[i] == b[i] { assert At(a, i) == At(b, i); }
    }
    if a == b {
      forall i: nat ensures At(v, i) == At(w, i) { assert At(a, i) == At(b, i); }
    }
  }

  lemma {:induction false} AgreeRank(v: Levels, w: Levels, i: nat)
    requires Agree(v, w)
    ensures Rank(v, i) == Rank(w, i)
    decreases i
  {
    if i > 0 {
      AgreeRank(v, w, i - 1);
      assert At(v, i - 1) == At(w, i - 1);
    }
  }

  // ----- trees -----

  datatype Tree = Leaf | Node(val: int, left: Tree, right: Tree)

  function Size(t: Tree): nat {
    match t
    case Leaf => 0
    case Node(_, l, r) => 1 + Size(l) + Size(r)
  }

  /** The tree that the builders make at position `i`. */
  function TreeOf(v: Levels, i: nat): Tree
    requires WellFormed(v)
    decreases |v| - i
  {
    if i >= |v| || v[i].None? then Leaf
    else Node(v[i].value, TreeOf(v, Slot(v, i)), TreeOf(v, Slot(v, i) + 1))
  }

  lemma {:induction false} AgreeTree(v: Levels, w: Levels, i: nat)
    requires WellFormed(v) && WellFormed(w) && Agree(v, w)
    ensures TreeOf(v, i) == TreeOf(w, i)
    decreases |v| - i
  {
    assert At(v, i) == At(w, i);
    if i < |v| && v[i].Some? {
      AgreeRank(v, w, i);
      AgreeTree(v, w, Slot(v, i));
      AgreeTree(v, w, Slot(v, i) + 1);
    }
  }

  lemma AgreeWellFormed(v: Levels, w: Levels)
    requires Agree(v, w) && WellFormed(v)
    ensures WellFormed(w)
  {
    forall i | 0 <= i < |w| && w[i].Some? ensures i < Slot(w, i) {
      assert At(v, i) == At(w, i);
      AgreeRank(v, w, i);
    }
  }

  function Sizes(q: seq<Tree>): nat { if q == [] then 0 else Size(q[0]) + Sizes(q[1..]) }

  lemma {:induction false} SizesConcat(a: seq<Tree>, b: seq<Tree>)
    ensures Sizes(a + b) == Sizes(a) + Sizes(b)
    decreases |a|
  {
    if a == [] {
      assert a + b == b;
    } else {
      assert (a + b)[0] == a[0] && (a + b)[1..] == a[1..] + b;
      SizesConcat(a[1..], b);
    }
  }

  function Children(q: seq<Tree>): seq<Tree>
    requires q != []
  {
    q[1..] + if q[0].Leaf? then [] else [q[0].left, q[0].right]
  }

  lemma ChildrenSize(q: seq<Tree>)
    requires q != []
    ensures Sizes(Children(q)) == Sizes(q) - (if q[0].Leaf? then 0 else 1)
    ensures |Children(q)| == |q| + (if q[0].Leaf? then -1 else 1)
  {
    if q[0].Node? {
      SizesConcat(q[1..], [q[0].left, q[0].right]);
      assert [q[0].left, q[0].right][1..] == [q[0].right];
      assert Sizes([q[0].right]) == Size(q[0].right) + Sizes([q[0].right][1..]);
    } else {
      assert q[1..] + [] == q[1..];
    }
  }

  function Root(t: Tree): Option<int> { if t.Leaf? then None else Some(t.val) }

  /** Breadth-first values with a null for every missing child: what a queue of subtrees prints. */
  function LevelOrder(q: seq<Tree>): Levels
    decreases Sizes(q), |q|
  {
    if q == [] then []
    else
      ChildrenSize(q);
      [Root(q[0])] + LevelOrder(Children(q))
  }

  function Encode(t: Tree): Levels { Trim(LevelOrder([t])) }

  ghost predicate Ordered(p: Levels) { forall i :: 0 <= i < |p| && p[i].Some? ==> i < Slot(p, i) }

  lemma OrderedSnoc(p: Levels, head: Option<int>)
    requires Ordered(p) && |p| < Slot(p, |p|)
    ensures Ordered(p + [head]) && Slot(p + [head], |p| + 1) == Slot(p, |p|) + if head.Some? then 2 else 0
  {
    PrefixRank(p, p + [head]);
  }

  /** What a printed prefix and the queue behind it determine: positions from |p| on decode to
      the queued trees. */
  lemma {:induction false} QueueDecodes(p: Levels, q: seq<Tree>, w: Levels)
    requires |p| + |q| == Slot(p, |p|) && w == p + LevelOrder(q) && Ordered(p)
    ensures WellFormed(w)
    ensures forall j :: 0 <= j < |q| ==> TreeOf(w, |p| + j) == q[j]
    decreases Sizes(q), |q|
  {
    if q == [] {
      assert w == p;
    } else {
      ChildrenSize(q);
      var p' := p + [Root(q[0])];
      assert w == p' + LevelOrder(Children(q));
      OrderedSnoc(p, Root(q[0]));
      hide TreeOf, Rank, LevelOrder, Sizes, Ordered, WellFormed;
      QueueDecodes(p', Children(q), w);
      HeadDecodes(p, q, w);
    }
  }

  lemma HeadDecodes(p: Levels, q: seq<Tree>, w: Levels)
    requires q != [] && |p| + |q| == Slot(p, |p|) && p + [Root(q[0])] <= w && WellFormed(w)
    requires forall j :: 0 <= j < |Children(q)| ==> TreeOf(w, |p| + 1 + j) == Children(q)[j]
    ensures forall j :: 0 <= j < |q| ==> TreeOf(w, |p| + j) == q[j]
  {
    var next, n := Children(q), |q|;
    PrefixRank(p, w);
    assert w[|p|] == Root(q[0]) && Slot(w, |p|) == |p| + n;
    hide Rank, WellFormed, Slot;
    forall j | 0 <= j < n ensures TreeOf(w, |p| + j) == q[j] {
      if j > 0 {
        assert q[j] == next[j - 1];
        assert TreeOf(w, |p| + 1 + (j - 1)) == next[j - 1];
      } else if q[0].Node? {
        assert next[n - 1] == q[0].left && next[n] == q[0].right;
        assert TreeOf(w, |p| + 1 + (n - 1)) == q[0].left && TreeOf(w, |p| + 1 + n) == q[0].right;
      }
    }
  }

  lemma {:induction false} PrefixRankAt(p: Levels, w: Levels, i: nat)
    requires p <= w && i <= |p|
    ensures Rank(p, i) == Rank(w, i)
    decreases i
  {
    if i > 0 { PrefixRankAt(p, w, i - 1); }
  }

  lemma PrefixRank(p: Levels, w: Levels)
    requires p <= w
    ensures forall i :: 0 <= i <= |p| ==> Rank(p, i) == Rank(w, i)
  {
    forall i | 0 <= i <= |p| ensures Rank(p, i) == Rank(w, i) { PrefixRankAt(p, w, i); }
  }

  /** From trees to arrays and back: every tree is the one its own level order describes. */
  lemma TreeRoundTrip(t: Tree)
    ensures WellFormed(Encode(t)) && TreeOf(Encode(t), 0) == t
  {
    var w := LevelOrder([t]);
    assert w == [] + w;
    QueueDecodes([], [t], w);
    assert TreeOf(w, 0 + 0) == t;
    AgreeWellFormed(w, Encode(t));
    AgreeTree(w, Encode(t), 0);
  }

  function Forest(v: Levels, i: nat, m: nat): (q: seq<Tree>)
    requires WellFormed(v) && i <= m
    ensures |q| == m - i && forall j :: 0 <= j < |q| ==> q[j] == TreeOf(v, i + j)
    decreases m - i
  {
    if i == m then [] else [TreeOf(v, i)] + Forest(v, i + 1, m)
  }

  /** The queue at position `i` holds exactly the positions up to the next free slot. */
  lemma {:induction false} ForestPrints(v: Levels, i: nat)
    requires WellFormed(v) && i <= Slot(v, i)
    ensures var w := LevelOrder(Forest(v, i, Slot(v, i)));
            i + |w| == StopFrom(v, i) && forall k :: 0 <= k < |w| ==> w[k] == At(v, i + k)
    decreases 2 * |v| + 1 - i
  {
    if i < Slot(v, i) {
      RankGrows(v, i, i + 1);
      ForestStep(v, i);
      ForestPrints(v, i + 1);
      var w, rest := LevelOrder(Forest(v, i, Slot(v, i))), LevelOrder(Forest(v, i + 1, Slot(v, i + 1)));
      assert w == [At(v, i)] + rest;
      forall k | 0 <= k < |w| ensures w[k] == At(v, i + k) {
        if k > 0 { assert w[k] == rest[k - 1]; }
      }
    }
  }

  lemma ForestStep(v: Levels, i: nat)
    requires WellFormed(v) && i < Slot(v, i) && i + 1 <= Slot(v, i + 1)
    ensures var q := Forest(v, i, Slot(v, i));
            q != [] && Root(q[0]) == At(v, i) && Children(q) == Forest(v, i + 1, Slot(v, i + 1))
  {
    var q, next := Forest(v, i, Slot(v, i)), Forest(v, i + 1, Slot(v, i + 1));
    assert q[0] == TreeOf(v, i);
    hide Forest;
    assert |Children(q)| == |next|;
    forall j | 0 <= j < |next| ensures Children(q)[j] == next[j] {
      assert next[j] == TreeOf(v, i + 1 + j);
      if j < |q| - 1 { assert q[1..][j] == q[j + 1]; }
    }
  }

  /** From arrays to trees and back: a well-formed array is printed again up to trailing nulls. */
  lemma ArrayRoundTrip(v: Levels)
    requires WellFormed(v)
    ensures Encode(TreeOf(v, 0)) == Trim(v)
  {
    ForestPrints(v, 0);
    var q := Forest(v, 0, Slot(v, 0));
    assert q == [TreeOf(v, 0)];
    var w := LevelOrder(q);
    WellFormedIsBeforeStop(v);
    forall i: nat ensures At(w, i) == At(v, i) {
      if i < |w| { assert w[i] == At(v, 0 + i); }
    }
    TrimCanonical(w, v);
  }
}
