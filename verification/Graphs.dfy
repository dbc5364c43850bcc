/** Rooted labelled graphs, their canonical numbering, and isomorphism. */
module Graphs {
  import opened Sets
  import opened Traversal
  import opened Text

  datatype Rooted<T> = Rooted(root: T, succ: map<T, seq<T>>, mark: map<T, int>)

  /** The judge's document: node labels and, per node, its ordered neighbour indices. */
  datatype Document = Document(values: seq<int>, neighbors: seq<seq<nat>>)

  ghost predicate Proper<T>(g: Rooted<T>) {
    Closed(g.succ) && g.root in g.succ && g.mark.Keys == g.succ.Keys
  }

  ghost function Order<T>(g: Rooted<T>): (r: seq<T>)
    requires Proper(g)
    ensures Distinct(r) && Within(r, g.succ.Keys) && |r| > 0 && r[0] == g.root
    ensures forall x, y :: x in r && y in g.succ[x] ==> y in r
  {
    BfsExact(g.succ, g.root);
    BfsFrom(g.succ, g.root)
  }

  /** `numbers` are the positions of `row`'s nodes in the numbering `order`. */
  ghost predicate Renumbers<T>(order: seq<T>, row: seq<T>, numbers: seq<nat>) {
    |numbers| == |row| && forall j :: 0 <= j < |row| ==> numbers[j] < |order| && order[numbers[j]] == row[j]
  }

  ghost function Row<T>(order: seq<T>, row: seq<T>): (r: seq<nat>)
    requires forall y :: y in row ==> y in order
    ensures Renumbers(order, row, r)
  {
    seq(|row|, j requires 0 <= j < |row| => IndexOf(order, row[j]))
  }

  ghost function Canon<T>(g: Rooted<T>): (d: Document)
    requires Proper(g)
    ensures |d.values| == |d.neighbors| == |Order(g)|
    ensures forall i :: 0 <= i < |Order(g)| ==> d.values[i] == g.mark[Order(g)[i]]
    ensures forall i :: 0 <= i < |Order(g)| ==> d.neighbors[i] == Row(Order(g), g.succ[Order(g)[i]])
  {
    var order := Order(g);
    Document(seq(|order|, i requires 0 <= i < |order| => g.mark[order[i]]),
             seq(|order|, i requires 0 <= i < |order| => Row(order, g.succ[order[i]])))
  }

  /** `f` is a bijection between the reachable parts that fixes the root and keeps
      labels and ordered successor lists. */
  ghost predicate Isomorphism<T, U>(f: map<T, U>, g: Rooted<T>, h: Rooted<U>)
    requires Proper(g) && Proper(h)
  {
    && Embeds(f, g.succ, h.succ)
    && g.root in f && f[g.root] == h.root
    && (forall x :: x in f ==> g.mark[x] == h.mark[f[x]])
    && (forall x :: x in g.succ ==> (x in f <==> Reachable(g.succ, g.root, x)))
    && (forall y :: y in h.succ ==> (y in f.Values <==> Reachable(h.succ, h.root, y)))
  }

  lemma OrderRenamed<T, U>(f: map<T, U>, g: Rooted<T>, h: Rooted<U>)
    requires Proper(g) && Proper(h)
    requires Embeds(f, g.succ, h.succ) && g.root in f && f[g.root] == h.root
    ensures Within(Order(g), f.Keys) && Renamed(f, Order(g)) == Order(h)
  {
    PartialRoot(g.succ, g.root);
    BfsRenamed(f, g.succ, h.succ, [g.root], 0);
    assert Renamed(f, [g.root]) == [h.root];
  }

  lemma RowRenamed<T, U>(f: map<T, U>, order: seq<T>, row: seq<T>)
    requires Injective(f) && Distinct(order) && Within(order, f.Keys)
    requires forall y :: y in row ==> y in order
    ensures Within(row, f.Keys) && forall y :: y in Renamed(f, row) ==> y in Renamed(f, order)
    ensures Row(Renamed(f, order), Renamed(f, row)) == Row(order, row)
  {
    var image := Renamed(f, order);
    forall y | y in Renamed(f, row) ensures y in image {
      var j :| 0 <= j < |row| && y == f[row[j]];
      assert row[j] in order;
      assert image[IndexOf(order, row[j])] == y;
    }
    var a, b := Row(image, Renamed(f, row)), Row(order, row);
    forall j | 0 <= j < |row| ensures a[j] == b[j] {
      assert image[a[j]] == f[row[j]] && order[b[j]] == row[j];
      assert f[order[a[j]]] == f[order[b[j]]];
    }
  }

  /** An embedding that meets both roots already forces equal canonical documents. */
  lemma EmbeddingSameCanon<T, U>(f: map<T, U>, g: Rooted<T>, h: Rooted<U>)
    requires Proper(g) && Proper(h)
    requires Embeds(f, g.succ, h.succ) && g.root in f && f[g.root] == h.root
    requires forall x :: x in f ==> g.mark[x] == h.mark[f[x]]
    ensures Canon(g) == Canon(h)
  {
    OrderRenamed(f, g, h);
    var a, b := Canon(g), Canon(h);
    forall i | 0 <= i < |Order(g)| ensures a.values[i] == b.values[i] && a.neighbors[i] == b.neighbors[i] {
      assert Order(h)[i] == f[Order(g)[i]];
      RowRenamed(f, Order(g), g.succ[Order(g)[i]]);
    }
    assert a.values == b.values && a.neighbors == b.neighbors;
  }

  lemma IsomorphicSameCanon<T, U>(f: map<T, U>, g: Rooted<T>, h: Rooted<U>)
    requires Proper(g) && Proper(h) && Isomorphism(f, g, h)
    ensures Canon(g) == Canon(h)
  {
    EmbeddingSameCanon(f, g, h);
  }

  /** The renaming two equal canonical documents induce: equal positions correspond. */
  ghost function Matching<T, U>(g: Rooted<T>, h: Rooted<U>): (f: map<T, U>)
    requires Proper(g) && Proper(h) && Canon(g) == Canon(h)
    ensures f.Keys == Elements(Order(g))
    ensures forall i :: 0 <= i < |Order(g)| ==> f[Order(g)[i]] == Order(h)[i]
  {
    var a, b := Order(g), Order(h);
    assert |a| == |Canon(g).values| == |b|;
    map x | x in Elements(a) :: b[IndexOf(a, x)]
  }

  /** Equal rows of numbers name corresponding successors. */
  lemma MatchingRow<T, U>(g: Rooted<T>, h: Rooted<U>, x: T)
    requires Proper(g) && Proper(h) && Canon(g) == Canon(h) && x in Order(g)
    ensures var f := Matching(g, h);
            x in g.succ && Within(g.succ[x], f.Keys) && f[x] in h.succ && h.succ[f[x]] == Renamed(f, g.succ[x])
  {
    var a, b, f := Order(g), Order(h), Matching(g, h);
    assert |a| == |Canon(g).values| == |b|;
    var i := IndexOf(a, x);
    assert Canon(g).neighbors[i] == Row(a, g.succ[x]) && Canon(h).neighbors[i] == Row(b, h.succ[b[i]]);
    var row := Row(a, g.succ[x]);
    forall j | 0 <= j < |row| ensures h.succ[b[i]][j] == f[g.succ[x][j]] {
      assert a[row[j]] == g.succ[x][j] && b[row[j]] == h.succ[b[i]][j];
    }
  }

  lemma MatchingInjective<T, U>(g: Rooted<T>, h: Rooted<U>)
    requires Proper(g) && Proper(h) && Canon(g) == Canon(h)
    ensures Injective(Matching(g, h))
  {
    var a, b, f := Order(g), Order(h), Matching(g, h);
    assert |a| == |Canon(g).values| == |b|;
    forall x, y | x in f && y in f && f[x] == f[y] ensures x == y {
      assert f[x] == b[IndexOf(a, x)] && f[y] == b[IndexOf(a, y)];
    }
  }

  lemma MatchingEmbeds<T, U>(g: Rooted<T>, h: Rooted<U>)
    requires Proper(g) && Proper(h) && Canon(g) == Canon(h)
    ensures Embeds(Matching(g, h), g.succ, h.succ)
  {
    hide Canon, Order, Row, Renamed, Within, Injective;
    MatchingInjective(g, h);
    forall x | x in Order(g)
      ensures var f := Matching(g, h);
              x in g.succ && Within(g.succ[x], f.Keys) && f[x] in h.succ && h.succ[f[x]] == Renamed(f, g.succ[x])
    {
      MatchingRow(g, h, x);
    }
  }

  /** Completeness: equal canonical documents come from isomorphic graphs, and the
      isomorphism is read off the two orders. */
  lemma SameCanonIsomorphic<T, U>(g: Rooted<T>, h: Rooted<U>)
    requires Proper(g) && Proper(h) && Canon(g) == Canon(h)
    ensures Isomorphism(Matching(g, h), g, h)
  {
    var a, b, f := Order(g), Order(h), Matching(g, h);
    assert |a| == |Canon(g).values| == |b|;
    MatchingEmbeds(g, h);
    BfsExact(g.succ, g.root);
    BfsExact(h.succ, h.root);
    assert f[a[0]] == b[0];
    forall x | x in f ensures g.mark[x] == h.mark[f[x]] {
      var i := IndexOf(a, x);
      assert Canon(g).values[i] == g.mark[a[i]] && Canon(h).values[i] == h.mark[b[i]];
    }
    forall y | y in h.succ ensures y in f.Values <==> Reachable(h.succ, h.root, y) {
      if y in b {
        var i := IndexOf(b, y);
        assert a[i] in f && f[a[i]] == y;
      }
      if y in f.Values {
        var x :| x in f && f[x] == y;
        assert b[IndexOf(a, x)] == y;
      }
    }
  }

  // ----- documents -----

  predicate InRange(d: Document) {
    && |d.values| == |d.neighbors|
    && forall i, y :: 0 <= i < |d.neighbors| && y in d.neighbors[i] ==> y < |d.values|
  }

  ghost function AsRooted(d: Document): (g: Rooted<nat>)
    requires InRange(d) && d.values != []
    ensures Proper(g)
  {
    Rooted(0, map i: nat | i < |d.values| :: d.neighbors[i], map i: nat | i < |d.values| :: d.values[i])
  }

  ghost predicate FullyReachable(d: Document)
    requires InRange(d)
  {
    d.values != [] ==> forall i: nat :: i < |d.values| ==> Reachable(AsRooted(d).succ, 0, i)
  }

  /** Every node appears exactly once in the order of an accepted document. */
  lemma OrderPermutation(d: Document)
    requires InRange(d) && d.values != [] && FullyReachable(d)
    ensures var order := Order(AsRooted(d));
            |order| == |d.values| && Distinct(order) && forall i: nat :: i in order <==> i < |d.values|
  {
    var g := AsRooted(d);
    var order := Order(g);
    BfsExact(g.succ, 0);
    DistinctCovers(order, |d.values|);
  }

  /** A duplicate-free list of indices below `n` lists all of them just when its length is `n`. */
  lemma DistinctCovers(s: seq<nat>, n: nat)
    requires Distinct(s) && forall i :: i in s ==> i < n
    ensures |s| == n <==> forall i: nat :: i < n ==> i in s
  {
    DistinctBound(s, NatsBelow(n));
    if i: nat :| i < n && i !in s {
      DistinctBound(s, NatsBelow(n) - {i});
    } else {
      assert Elements(s) == NatsBelow(n);
      DistinctSize(s);
    }
  }

  lemma CanonInRange<T>(g: Rooted<T>)
    requires Proper(g)
    ensures InRange(Canon(g)) && Canon(g).values != []
  {
    var d, order := Canon(g), Order(g);
    forall i, y | 0 <= i < |d.neighbors| && y in d.neighbors[i] ensures y < |d.values| {
      assert d.neighbors[i] == Row(order, g.succ[order[i]]);
    }
  }

  /** Reading the canonical document back as a graph, position `i` stands for the `i`-th node. */
  lemma CanonEmbeds<T>(g: Rooted<T>) returns (back: map<nat, T>)
    requires Proper(g)
    ensures InRange(Canon(g)) && Canon(g).values != []
    ensures Embeds(back, AsRooted(Canon(g)).succ, g.succ)
    ensures back.Keys == AsRooted(Canon(g)).succ.Keys && back[0] == g.root
    ensures forall i :: i in back ==> Canon(g).values[i] == g.mark[back[i]]
  {
    CanonInRange(g);
    var d, order := Canon(g), Order(g);
    var h := AsRooted(d);
    back := map i: nat | i < |order| :: order[i];
    forall i | i in back ensures Within(h.succ[i], back.Keys) && g.succ[back[i]] == Renamed(back, h.succ[i]) {
      assert h.succ[i] == Row(order, g.succ[order[i]]);
    }
  }

  lemma CanonOrder<T>(g: Rooted<T>)
    requires Proper(g)
    ensures InRange(Canon(g)) && Canon(g).values != []
    ensures Canon(AsRooted(Canon(g))) == Canon(g)
    ensures |Order(AsRooted(Canon(g)))| == |Canon(g).values|
  {
    var back := CanonEmbeds(g);
    EmbeddingSameCanon(back, AsRooted(Canon(g)), g);
    OrderRenamed(back, AsRooted(Canon(g)), g);
  }

  /** The canonical document of any graph is itself in range, fully reachable, and a fixed point. */
  lemma CanonIsCanonical<T>(g: Rooted<T>)
    requires Proper(g)
    ensures InRange(Canon(g)) && Canon(g).values != [] && FullyReachable(Canon(g))
    ensures Canon(AsRooted(Canon(g))) == Canon(g)
  {
    CanonOrder(g);
    var h := AsRooted(Canon(g));
    BfsExact(h.succ, 0);
    DistinctCovers(Order(h), |Canon(g).values|);
  }
}
