/** Ordered breadth-first discovery and reachability over any finite node type.
    The Go canonicaliser runs these over node indices, the generated C++ and the
    Python driver run them over heap objects; one theory serves all of them. */
module Traversal {
  import opened Sets

  ghost predicate Closed<T>(succ: map<T, seq<T>>) {
    forall x, y :: x in succ && y in succ[x] ==> y in succ
  }

  ghost function Elements<T>(s: seq<T>): set<T> {
    set x | x in s
  }

  ghost predicate Within<T>(s: seq<T>, nodes: set<T>) {
    forall x :: x in s ==> x in nodes
  }

  /** `y` is the end of a walk of `n` edges that starts at `root`. */
  ghost predicate ReachableIn<T>(succ: map<T, seq<T>>, root: T, y: T, n: nat) {
    if n == 0 then y == root
    else exists x :: x in succ && y in succ[x] && ReachableIn(succ, root, x, n - 1)
  }

  ghost predicate Reachable<T>(succ: map<T, seq<T>>, root: T, y: T) {
    exists n: nat :: ReachableIn(succ, root, y, n)
  }

  lemma ReachableRoot<T>(succ: map<T, seq<T>>, root: T)
    ensures Reachable(succ, root, root)
  {
    assert ReachableIn(succ, root, root, 0);
  }

  lemma ReachableStep<T>(succ: map<T, seq<T>>, root: T, x: T, y: T)
    requires Reachable(succ, root, x) && x in succ && y in succ[x]
    ensures Reachable(succ, root, y)
  {
    var n: nat :| ReachableIn(succ, root, x, n);
    assert ReachableIn(succ, root, y, n + 1);
  }

  /** A set that holds the root and is closed under successors holds every reachable node. */
  lemma {:induction false} ClosedSetHoldsReachable<T>(succ: map<T, seq<T>>, root: T, nodes: set<T>, y: T, n: nat)
    requires root in nodes
    requires forall x, z :: x in nodes && x in succ && z in succ[x] ==> z in nodes
    requires ReachableIn(succ, root, y, n)
    ensures y in nodes
  {
    if n > 0 {
      var x :| x in succ && y in succ[x] && ReachableIn(succ, root, x, n - 1);
      ClosedSetHoldsReachable(succ, root, nodes, x, n - 1);
    }
  }

  lemma {:induction false} DistinctBound<T>(s: seq<T>, nodes: set<T>)
    requires Distinct(s) && Within(s, nodes)
    ensures |s| <= |nodes|
  {
    if s != [] {
      DistinctBound(s[1..], nodes - {s[0]});
    }
  }

  lemma {:induction false} DistinctSize<T>(s: seq<T>)
    requires Distinct(s)
    ensures |Elements(s)| == |s|
  {
    if s != [] {
      DistinctSize(s[1..]);
      assert Elements(s) == Elements(s[1..]) + {s[0]};
    }
  }

  /** Appends the unseen elements of `row` to `order`, in order of first occurrence. */
  ghost function Discover<T>(order: seq<T>, row: seq<T>): (r: seq<T>)
    decreases |row|
  {
    if row == [] then order
    else Discover(if row[0] in order then order else order + [row[0]], row[1..])
  }

  lemma {:induction false} DiscoverKeeps<T>(order: seq<T>, row: seq<T>)
    ensures order <= Discover(order, row)
    ensures forall x :: x in Discover(order, row) ==> x in order || x in row
    ensures forall x :: x in order || x in row ==> x in Discover(order, row)
    ensures Distinct(order) ==> Distinct(Discover(order, row))
    decreases |row|
  {
    if row != [] {
      assert row == [row[0]] + row[1..];
      DiscoverKeeps(if row[0] in order then order else order + [row[0]], row[1..]);
    }
  }

  lemma {:induction false} DiscoverSplit<T>(order: seq<T>, row: seq<T>, k: nat)
    requires k <= |row|
    ensures Discover(order, row) == Discover(Discover(order, row[..k]), row[k..])
    decreases |row|
  {
    if k > 0 {
      assert row[..k][1..] == row[1..][..k - 1] && row[k..] == row[1..][k - 1..];
      DiscoverSplit(if row[0] in order then order else order + [row[0]], row[1..], k - 1);
    } else {
      assert row[..0] == [] && row[0..] == row;
    }
  }

  lemma DiscoverWithin<T>(order: seq<T>, row: seq<T>, nodes: set<T>)
    requires Within(order, nodes) && Within(row, nodes)
    ensures Within(Discover(order, row), nodes)
  {
    DiscoverKeeps(order, row);
    forall x | x in Discover(order, row) ensures x in nodes {
      assert x in order || x in row;
    }
  }

  lemma DiscoverOne<T>(order: seq<T>, x: T)
    ensures Discover(order, [x]) == if x in order then order else order + [x]
  {
    assert [x][1..] == [];
  }

  /** A partial numbering: distinct known nodes, the first `cursor` of them expanded. */
  ghost predicate Partial<T>(succ: map<T, seq<T>>, order: seq<T>, cursor: nat) {
    Closed(succ) && Distinct(order) && Within(order, succ.Keys) && cursor <= |order| <= |succ.Keys|
  }

  lemma PartialStep<T>(succ: map<T, seq<T>>, order: seq<T>, cursor: nat)
    requires Partial(succ, order, cursor) && cursor < |order|
    ensures order[cursor] in succ && order <= Discover(order, succ[order[cursor]])
    ensures Partial(succ, Discover(order, succ[order[cursor]]), cursor + 1)
  {
    assert order[cursor] in order;
    DiscoverKeeps(order, succ[order[cursor]]);
    DiscoverWithin(order, succ[order[cursor]], succ.Keys);
    DistinctBound(Discover(order, succ[order[cursor]]), succ.Keys);
  }

  /** Breadth-first order: every dequeued node appends its unseen successors. */
  ghost function Bfs<T>(succ: map<T, seq<T>>, order: seq<T>, cursor: nat): (r: seq<T>)
    requires Partial(succ, order, cursor)
    ensures order <= r && Partial(succ, r, |r|)
    decreases |succ.Keys| - cursor
  {
    if cursor == |order| then order
    else
      PartialStep(succ, order, cursor);
      Bfs(succ, Discover(order, succ[order[cursor]]), cursor + 1)
  }

  /** The order is closed under successors once the nodes before the cursor are expanded. */
  lemma {:induction false} BfsClosed<T>(succ: map<T, seq<T>>, order: seq<T>, cursor: nat)
    requires Partial(succ, order, cursor)
    requires forall k, z :: 0 <= k < cursor && z in succ[order[k]] ==> z in order
    ensures forall x, z :: x in Bfs(succ, order, cursor) && z in succ[x] ==> z in Bfs(succ, order, cursor)
    decreases |succ.Keys| - cursor
  {
    if cursor < |order| {
      PartialStep(succ, order, cursor);
      DiscoverKeeps(order, succ[order[cursor]]);
      BfsClosed(succ, Discover(order, succ[order[cursor]]), cursor + 1);
    }
  }

  lemma {:induction false} BfsReached<T>(succ: map<T, seq<T>>, root: T, order: seq<T>, cursor: nat)
    requires Partial(succ, order, cursor)
    requires forall x :: x in order ==> Reachable(succ, root, x)
    ensures forall x :: x in Bfs(succ, order, cursor) ==> Reachable(succ, root, x)
    decreases |succ.Keys| - cursor
  {
    if cursor < |order| {
      PartialStep(succ, order, cursor);
      var next := Discover(order, succ[order[cursor]]);
      DiscoverKeeps(order, succ[order[cursor]]);
      forall x | x in next ensures Reachable(succ, root, x) {
        if x !in order { ReachableStep(succ, root, order[cursor], x); }
      }
      BfsReached(succ, root, next, cursor + 1);
    }
  }

  lemma PartialRoot<T>(succ: map<T, seq<T>>, root: T)
    requires Closed(succ) && root in succ
    ensures Partial(succ, [root], 0)
  {
    DistinctBound([root], succ.Keys);
  }

  ghost function BfsFrom<T>(succ: map<T, seq<T>>, root: T): (r: seq<T>)
    requires Closed(succ) && root in succ
    ensures Distinct(r) && Within(r, succ.Keys) && |r| > 0 && r[0] == root
  {
    PartialRoot(succ, root);
    Bfs(succ, [root], 0)
  }

  /** Breadth-first order lists exactly the reachable nodes, each once, root first. */
  lemma BfsExact<T>(succ: map<T, seq<T>>, root: T)
    requires Closed(succ) && root in succ
    ensures forall x :: x in BfsFrom(succ, root) <==> Reachable(succ, root, x)
    ensures forall x, z :: x in BfsFrom(succ, root) && z in succ[x] ==> z in BfsFrom(succ, root)
  {
    var r := BfsFrom(succ, root);
    PartialRoot(succ, root);
    ReachableRoot(succ, root);
    BfsClosed(succ, [root], 0);
    BfsReached(succ, root, [root], 0);
    forall x | Reachable(succ, root, x) ensures x in r {
      var n: nat :| ReachableIn(succ, root, x, n);
      ClosedSetHoldsReachable(succ, root, Elements(r), x, n);
    }
  }

  // ----- search with an explicit stack -----

  /** Visited nodes are reachable and their successors are visited or still pending. */
  ghost predicate Searching<T>(succ: map<T, seq<T>>, root: T, visited: set<T>, pending: seq<T>) {
    && (root in visited || root in pending)
    && (forall x :: x in visited ==> x in succ && Reachable(succ, root, x))
    && (forall x :: x in pending ==> x in succ && Reachable(succ, root, x))
    && (forall x, y :: x in visited && y in succ[x] ==> y in visited || y in pending)
  }

  lemma SearchStart<T>(succ: map<T, seq<T>>, root: T)
    requires root in succ
    ensures Searching(succ, root, {}, [root])
  {
    ReachableRoot(succ, root);
  }

  /** Popping `x`: a visited node is dropped, a new one is visited and its successors pushed. */
  lemma SearchPop<T>(succ: map<T, seq<T>>, root: T, visited: set<T>, rest: seq<T>, x: T)
    requires Closed(succ) && Searching(succ, root, visited, rest + [x])
    ensures x in succ && Reachable(succ, root, x)
    ensures x in visited ==> Searching(succ, root, visited, rest)
    ensures Searching(succ, root, visited + {x}, rest + succ[x])
  {
    assert x in rest + [x];
    forall y | y in rest ensures y in succ && Reachable(succ, root, y) { assert y in rest + [x]; }
    forall y | y in succ[x] ensures Reachable(succ, root, y) { ReachableStep(succ, root, x, y); }
  }

  lemma SearchDone<T>(succ: map<T, seq<T>>, root: T, visited: set<T>)
    requires Searching(succ, root, visited, [])
    ensures forall x :: x in visited <==> Reachable(succ, root, x)
  {
    forall x | Reachable(succ, root, x) ensures x in visited {
      var n: nat :| ReachableIn(succ, root, x, n);
      ClosedSetHoldsReachable(succ, root, visited, x, n);
    }
  }

  // ----- numbering nodes when they leave the queue -----

  /** The queue may hold repeats; a node gets its number when it is popped for the first time. */
  ghost function PopLoop<T>(succ: map<T, seq<T>>, nodes: seq<T>, queue: seq<T>, k: nat): seq<T>
    requires Partial(succ, nodes, |nodes|) && Within(queue, succ.Keys) && k <= |queue|
    decreases |succ.Keys| - |nodes|, |queue| - k
  {
    if k == |queue| then nodes
    else if queue[k] in nodes then PopLoop(succ, nodes, queue, k + 1)
    else
      PopStep(succ, nodes, queue[k], queue);
      PopLoop(succ, nodes + [queue[k]], queue + succ[queue[k]], k + 1)
  }

  lemma PopStep<T>(succ: map<T, seq<T>>, nodes: seq<T>, x: T, queue: seq<T>)
    requires Partial(succ, nodes, |nodes|) && Within(queue, succ.Keys) && x in queue && x !in nodes
    ensures x in succ && Within(queue + succ[x], succ.Keys)
    ensures Partial(succ, nodes + [x], |nodes| + 1)
  {
    DistinctBound(nodes + [x], succ.Keys);
  }

  lemma DiscoverNext<T>(order: seq<T>, row: seq<T>, k: nat)
    requires k < |row|
    ensures var r := Discover(order, row[..k]);
            Discover(order, row[..k + 1]) == (if row[k] in r then r else r + [row[k]])
  {
    DiscoverSplit(order, row[..k + 1], k);
    assert row[..k + 1][..k] == row[..k] && row[..k + 1][k..] == [row[k]];
    DiscoverOne(Discover(order, row[..k]), row[k]);
  }

  lemma DiscoverAppend<T>(order: seq<T>, a: seq<T>, b: seq<T>)
    ensures Discover(order, a + b) == Discover(Discover(order, a), b)
  {
    DiscoverSplit(order, a + b, |a|);
    assert (a + b)[..|a|] == a && (a + b)[|a|..] == b;
  }

  lemma DiscoverPrefix<T>(order: seq<T>, row: seq<T>, k: nat)
    requires k <= |row|
    ensures Discover(order, row[..k]) <= Discover(order, row)
  {
    DiscoverSplit(order, row, k);
    DiscoverKeeps(Discover(order, row[..k]), row[k..]);
  }

  lemma PartialQueue<T>(succ: map<T, seq<T>>, queue: seq<T>, k: nat)
    requires Closed(succ) && Within(queue, succ.Keys) && k <= |queue|
    ensures Partial(succ, Discover([], queue), |Discover([], queue[..k])|)
  {
    DiscoverKeeps([], queue);
    DiscoverPrefix([], queue, k);
    DiscoverWithin([], queue, succ.Keys);
    DistinctBound(Discover([], queue), succ.Keys);
  }

  /** Number-on-pop finishes number-on-discovery: the queue without repeats is the discovery
      order, and the popped nodes are the part of it the cursor has passed. */
  lemma {:induction false} PopLoopIsBfs<T>(succ: map<T, seq<T>>, nodes: seq<T>, queue: seq<T>, k: nat)
    requires Partial(succ, nodes, |nodes|) && Within(queue, succ.Keys) && k <= |queue|
    requires nodes == Discover([], queue[..k])
    ensures Partial(succ, Discover([], queue), |nodes|)
    ensures PopLoop(succ, nodes, queue, k) == Bfs(succ, Discover([], queue), |nodes|)
    decreases |succ.Keys| - |nodes|, |queue| - k
  {
    PartialQueue(succ, queue, k);
    if k == |queue| {
      assert queue[..k] == queue;
    } else {
      var x := queue[k];
      DiscoverNext([], queue, k);
      if x in nodes {
        PopLoopIsBfs(succ, nodes, queue, k + 1);
      } else {
        PopStep(succ, nodes, x, queue);
        assert (queue + succ[x])[..k + 1] == queue[..k + 1];
        PopLoopIsBfs(succ, nodes + [x], queue + succ[x], k + 1);
        DiscoverPrefix([], queue, k + 1);
        DiscoverAppend([], queue, succ[x]);
        assert (nodes + [x])[|nodes|] == x;
      }
    }
  }

  /** Both numberings agree on every finite graph. */
  lemma PopOrderIsDiscoveryOrder<T>(succ: map<T, seq<T>>, root: T)
    requires Closed(succ) && root in succ
    ensures PopLoop(succ, [], [root], 0) == BfsFrom(succ, root)
  {
    PopLoopIsBfs(succ, [], [root], 0);
    DiscoverOne([], root);
    assert [] + [root] == [root];
  }

  // ----- renaming nodes -----

  ghost predicate Injective<T, U>(f: map<T, U>) {
    forall x, y :: x in f && y in f && f[x] == f[y] ==> x == y
  }

  ghost function Renamed<T, U>(f: map<T, U>, s: seq<T>): (r: seq<U>)
    requires Within(s, f.Keys)
    ensures |r| == |s| && forall i :: 0 <= i < |s| ==> r[i] == f[s[i]]
  {
    seq(|s|, i requires 0 <= i < |s| => f[s[i]])
  }

  /** `f` carries its domain, a successor-closed part of `a`, onto a part of `b`,
      keeping every ordered successor list. */
  ghost predicate Embeds<T, U>(f: map<T, U>, a: map<T, seq<T>>, b: map<U, seq<U>>) {
    && Injective(f)
    && (forall x :: x in f ==> x in a && Within(a[x], f.Keys))
    && (forall x :: x in f ==> f[x] in b && b[f[x]] == Renamed(f, a[x]))
  }

  lemma {:induction false} DiscoverRenamed<T, U>(f: map<T, U>, order: seq<T>, row: seq<T>)
    requires Injective(f) && Within(order, f.Keys) && Within(row, f.Keys)
    ensures Within(Discover(order, row), f.Keys)
    ensures Renamed(f, Discover(order, row)) == Discover(Renamed(f, order), Renamed(f, row))
    decreases |row|
  {
    if row != [] {
      var next := if row[0] in order then order else order + [row[0]];
      var image := Renamed(f, order);
      assert row[0] in order <==> f[row[0]] in image by {
        if row[0] in order {
          var i :| 0 <= i < |order| && order[i] == row[0];
          assert image[i] == f[row[0]];
        }
        if f[row[0]] in image {
          var i :| 0 <= i < |image| && image[i] == f[row[0]];
          assert order[i] == row[0];
        }
      }
      assert Renamed(f, next) == if f[row[0]] in image then image else image + [f[row[0]]];
      assert Renamed(f, row)[1..] == Renamed(f, row[1..]);
      DiscoverRenamed(f, next, row[1..]);
    }
  }

  lemma {:induction false} BfsRenamed<T, U>(f: map<T, U>, a: map<T, seq<T>>, b: map<U, seq<U>>, order: seq<T>,
                                            cursor: nat)
    requires Closed(b) && Embeds(f, a, b) && Partial(a, order, cursor) && Within(order, f.Keys)
    ensures Partial(b, Renamed(f, order), cursor)
    ensures Within(Bfs(a, order, cursor), f.Keys)
    ensures Renamed(f, Bfs(a, order, cursor)) == Bfs(b, Renamed(f, order), cursor)
    decreases |a.Keys| - cursor
  {
    DistinctBound(Renamed(f, order), b.Keys);
    if cursor < |order| {
      PartialStep(a, order, cursor);
      var x := order[cursor];
      DiscoverRenamed(f, order, a[x]);
      BfsRenamed(f, a, b, Discover(order, a[x]), cursor + 1);
    }
  }

  ghost function IndexOf<T>(s: seq<T>, x: T): (k: nat)
    requires x in s
    ensures k < |s| && s[k] == x
  {
    if s[0] == x then 0 else 1 + IndexOf(s[1..], x)
  }
}
