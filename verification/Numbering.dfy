/** Which numbering the canonical document has, without reference to how it is found: read row by
    row, its numbers come up in order. */
module Numbering {
  import opened Sets
  import opened Traversal
  import opened Graphs

  /** The largest number so far, after a row. */
  function TopOf(row: seq<nat>, top: nat): nat
    decreases |row|
  {
    if row == [] then top else TopOf(row[1..], if row[0] > top then row[0] else top)
  }

  /** Every entry is at most one more than the largest number before it. */
  predicate InOrder(row: seq<nat>, top: nat)
    decreases |row|
  {
    row == [] || (row[0] <= top + 1 && InOrder(row[1..], if row[0] > top then row[0] else top))
  }

  /** The largest of 0 and all entries of the first `i` rows. */
  function TopAfter(rows: seq<seq<nat>>, i: nat): nat
    requires i <= |rows|
  {
    if i == 0 then 0 else TopOf(rows[i - 1], TopAfter(rows, i - 1))
  }

  /** New numbers come up one by one, each before its own row is reached. */
  predicate Numbered(d: Document) {
    forall i :: 0 <= i < |d.neighbors| ==>
      i <= TopAfter(d.neighbors, i) && InOrder(d.neighbors[i], TopAfter(d.neighbors, i))
  }

  /** `n` is 0, or an entry before the j-th of row `i`, reading row by row, is at least `n`. */
  ghost predicate Met(rows: seq<seq<nat>>, i: nat, j: nat, n: nat) {
    n == 0 || exists k, l :: 0 <= k < |rows| && 0 <= l < |rows[k]| && (k < i || (k == i && l < j)) && rows[k][l] >= n
  }

  lemma {:induction false} TopSnoc(row: seq<nat>, x: nat, top: nat)
    ensures TopOf(row + [x], top) == if x > TopOf(row, top) then x else TopOf(row, top)
    decreases |row|
  {
    if row == [] {
      assert row + [x] == [x];
    } else {
      assert (row + [x])[0] == row[0] && (row + [x])[1..] == row[1..] + [x];
      TopSnoc(row[1..], x, if row[0] > top then row[0] else top);
    }
  }

  /** The largest number so far is the largest that has been met. */
  lemma {:induction false} TopMet(rows: seq<seq<nat>>, i: nat, j: nat, n: nat)
    requires i < |rows| && j <= |rows[i]|
    ensures n <= TopOf(rows[i][..j], TopAfter(rows, i)) <==> Met(rows, i, j, n)
    decreases i, j
  {
    if j > 0 {
      TopMet(rows, i, j - 1, n);
      assert rows[i][..j] == rows[i][..j - 1] + [rows[i][j - 1]];
      TopSnoc(rows[i][..j - 1], rows[i][j - 1], TopAfter(rows, i));
    } else if i > 0 {
      TopMet(rows, i - 1, |rows[i - 1]|, n);
      assert rows[i - 1][..|rows[i - 1]|] == rows[i - 1] && rows[i][..0] == [];
    } else {
      assert rows[i][..0] == [];
    }
  }

  lemma {:induction false} InOrderAt(row: seq<nat>, top: nat)
    ensures InOrder(row, top) <==> forall j :: 0 <= j < |row| ==> row[j] <= TopOf(row[..j], top) + 1
    decreases |row|
  {
    if row != [] {
      var next := if row[0] > top then row[0] else top;
      InOrderAt(row[1..], next);
      assert row[..0] == [];
      forall j | 1 <= j < |row| ensures TopOf(row[..j], top) == TopOf(row[1..][..j - 1], next) {
        assert row[..j][0] == row[0] && row[..j][1..] == row[1..][..j - 1];
      }
      hide TopOf;
      assert row[0] <= top + 1 <==> row[0] <= TopOf(row[..0], top) + 1 by { TopNothing(top); }
      forall j | 0 <= j < |row[1..]| ensures row[1..][j] == row[j + 1] {}
    }
  }

  lemma TopNothing(top: nat)
    ensures TopOf([], top) == top
  {
  }

  /** Entry by entry: no row is read before its number has come up, and an entry is at most one more
      than the largest of 0 and all entries before it. */
  lemma NumberedMeans(d: Document)
    ensures Numbered(d) <==>
            forall i :: 0 <= i < |d.neighbors| ==>
              Met(d.neighbors, i, 0, i) &&
              forall j :: 0 <= j < |d.neighbors[i]| && d.neighbors[i][j] > 0 ==>
                Met(d.neighbors, i, j, d.neighbors[i][j] - 1)
  {
    hide TopOf, TopAfter, InOrder, Met;
    var rows := d.neighbors;
    forall i | 0 <= i < |rows|
      ensures i <= TopAfter(rows, i) <==> Met(rows, i, 0, i)
      ensures InOrder(rows[i], TopAfter(rows, i)) <==>
              forall j :: 0 <= j < |rows[i]| && rows[i][j] > 0 ==> Met(rows, i, j, rows[i][j] - 1)
    {
      TopMet(rows, i, 0, i);
      TopNothing(TopAfter(rows, i));
      assert rows[i][..0] == [];
      InOrderAt(rows[i], TopAfter(rows, i));
      forall j | 0 <= j < |rows[i]| && rows[i][j] > 0
        ensures rows[i][j] <= TopOf(rows[i][..j], TopAfter(rows, i)) + 1 <==> Met(rows, i, j, rows[i][j] - 1)
      {
        TopMet(rows, i, j, rows[i][j] - 1);
      }
    }
  }

  /** The document writes down the nodes of `order`, the root first, with their labels and rows. */
  ghost predicate Transcribes<T>(order: seq<T>, g: Rooted<T>, d: Document)
    requires Proper(g)
  {
    && Distinct(order) && order != [] && order[0] == g.root && |d.values| == |d.neighbors| == |order|
    && forall i :: 0 <= i < |order| ==>
         order[i] in g.succ && d.values[i] == g.mark[order[i]] && Renumbers(order, g.succ[order[i]], d.neighbors[i])
  }

  // ----- one row -----

  lemma {:induction false} DiscoverInOrder<T>(order: seq<T>, row: seq<T>, numbers: seq<nat>, top: nat)
    requires Distinct(order) && top < |order| && Renumbers(order, row, numbers) && InOrder(numbers, top)
    ensures TopOf(numbers, top) < |order| && Discover(order[..top + 1], row) == order[..TopOf(numbers, top) + 1]
    decreases |row|
  {
    if row != [] {
      var x, n := row[0], numbers[0];
      assert order[n] == x && (n <= top ==> order[..top + 1][n] == x);
      if n > top { assert order[..top + 1] + [x] == order[..top + 2]; }
      DiscoverInOrder(order, row[1..], numbers[1..], if n > top then n else top);
    }
  }

  /** The next node of an order prefix is either in it or the first behind it. */
  lemma PrefixNext<T>(order: seq<T>, top: nat, n: nat, next: seq<T>)
    requires Distinct(order) && top < |order| && n < |order| && next <= order
    requires next == if order[n] in order[..top + 1] then order[..top + 1] else order[..top + 1] + [order[n]]
    ensures n <= top + 1 && next == order[..(if n > top then n else top) + 1]
  {
    if order[n] in order[..top + 1] {
      var k :| 0 <= k < top + 1 && order[k] == order[n];
      assert n == k;
    } else {
      assert order[top + 1] == next[top + 1] == order[n];
      assert next == order[..top + 2];
    }
  }

  lemma {:induction false} DiscoverNumbers<T>(order: seq<T>, row: seq<T>, numbers: seq<nat>, top: nat)
    requires Distinct(order) && top < |order| && Renumbers(order, row, numbers) &&
             Discover(order[..top + 1], row) <= order
    ensures InOrder(numbers, top) && TopOf(numbers, top) < |order|
    ensures Discover(order[..top + 1], row) == order[..TopOf(numbers, top) + 1]
    decreases |row|
  {
    hide Distinct;
    if row != [] {
      var n := numbers[0];
      var next := if row[0] in order[..top + 1] then order[..top + 1] else order[..top + 1] + [row[0]];
      DiscoverKeeps(next, row[1..]);
      assert order[n] == row[0];
      PrefixNext(order, top, n, next);
      DiscoverNumbers(order, row[1..], numbers[1..], if n > top then n else top);
    }
  }

  // ----- all rows -----

  lemma BfsStep<T>(succ: map<T, seq<T>>, order: seq<T>, cursor: nat)
    requires Partial(succ, order, cursor) && cursor < |order|
    ensures order[cursor] in succ && Partial(succ, Discover(order, succ[order[cursor]]), cursor + 1)
    ensures Bfs(succ, order, cursor) == Bfs(succ, Discover(order, succ[order[cursor]]), cursor + 1)
    ensures Discover(order, succ[order[cursor]]) <= Bfs(succ, order, cursor)
  {
    hide Partial, Discover;
    PartialStep(succ, order, cursor);
  }

  lemma BfsEnd<T>(succ: map<T, seq<T>>, order: seq<T>, cursor: nat)
    requires Partial(succ, order, cursor) && cursor == |order|
    ensures Bfs(succ, order, cursor) == order
  {
  }

  lemma TranscriptRow<T>(g: Rooted<T>, order: seq<T>, d: Document, i: nat)
    requires Proper(g) && Transcribes(order, g, d) && i < |order|
    ensures Distinct(order) && |order| == |d.neighbors| && order[i] in g.succ
    ensures Renumbers(order, g.succ[order[i]], d.neighbors[i])
  {
    hide Proper, Renumbers, Distinct;
  }

  /** One row of the run, when its numbers come up in order. */
  lemma NumberedStep<T>(g: Rooted<T>, order: seq<T>, d: Document, i: nat)
    requires Proper(g) && Transcribes(order, g, d) && i < |order| && i <= TopAfter(d.neighbors, i) < |order|
    requires InOrder(d.neighbors[i], TopAfter(d.neighbors, i))
    requires Partial(g.succ, order[..TopAfter(d.neighbors, i) + 1], i)
    ensures TopAfter(d.neighbors, i + 1) < |order|
    ensures Partial(g.succ, order[..TopAfter(d.neighbors, i + 1) + 1], i + 1)
    ensures Bfs(g.succ, order[..TopAfter(d.neighbors, i) + 1], i) ==
            Bfs(g.succ, order[..TopAfter(d.neighbors, i + 1) + 1], i + 1)
  {
    hide Proper, Partial, Renumbers, Bfs, Discover, TopOf, InOrder, Transcribes, Distinct;
    TranscriptRow(g, order, d, i);
    var top := TopAfter(d.neighbors, i);
    assert order[..top + 1][i] == order[i];
    DiscoverInOrder(order, g.succ[order[i]], d.neighbors[i], top);
    BfsStep(g.succ, order[..top + 1], i);
  }

  lemma {:induction false} TopGrows(row: seq<nat>, top: nat)
    ensures TopOf(row, top) >= top
    decreases |row|
  {
    if row != [] { TopGrows(row[1..], if row[0] > top then row[0] else top); }
  }

  lemma {:induction false} NumberedRun<T>(g: Rooted<T>, order: seq<T>, d: Document, i: nat)
    requires Proper(g) && Transcribes(order, g, d) && Numbered(d) && i <= |order| == |d.neighbors|
    requires i <= TopAfter(d.neighbors, i) + 1 <= |order| && Partial(g.succ, order[..TopAfter(d.neighbors, i) + 1], i)
    ensures Bfs(g.succ, order[..TopAfter(d.neighbors, i) + 1], i) == order
    decreases |order| - i
  {
    hide Proper, Transcribes, Partial, Bfs, InOrder, TopAfter;
    var top := TopAfter(d.neighbors, i);
    if i == |order| {
      assert order[..top + 1] == order;
      BfsEnd(g.succ, order, i);
    } else {
      NumberedStep(g, order, d, i);
      NextReached(d, i);
      NumberedRun(g, order, d, i + 1);
    }
  }

  lemma NextReached(d: Document, i: nat)
    requires Numbered(d) && i < |d.neighbors|
    ensures i + 1 <= TopAfter(d.neighbors, i + 1) + 1
  {
    TopGrows(d.neighbors[i], TopAfter(d.neighbors, i));
  }

  /** One row of the run that ends with `order`: its numbers come up in order. */
  lemma RunStep<T>(g: Rooted<T>, order: seq<T>, d: Document, i: nat)
    requires Proper(g) && Transcribes(order, g, d) && i < |order| && i <= TopAfter(d.neighbors, i) < |order|
    requires Partial(g.succ, order[..TopAfter(d.neighbors, i) + 1], i)
    requires Bfs(g.succ, order[..TopAfter(d.neighbors, i) + 1], i) == order
    ensures InOrder(d.neighbors[i], TopAfter(d.neighbors, i))
  {
    hide Proper, Partial, Renumbers, Bfs, Discover, TopOf, InOrder, Transcribes, Distinct;
    TranscriptRow(g, order, d, i);
    var top := TopAfter(d.neighbors, i);
    assert order[..top + 1][i] == order[i];
    BfsStep(g.succ, order[..top + 1], i);
    DiscoverNumbers(order, g.succ[order[i]], d.neighbors[i], top);
  }

  lemma {:induction false} RunNumbered<T>(g: Rooted<T>, order: seq<T>, d: Document, i: nat)
    requires Proper(g) && Transcribes(order, g, d) && i <= |order| == |d.neighbors|
    requires i <= TopAfter(d.neighbors, i) + 1 <= |order| && Partial(g.succ, order[..TopAfter(d.neighbors, i) + 1], i)
    requires Bfs(g.succ, order[..TopAfter(d.neighbors, i) + 1], i) == order
    ensures forall m :: i <= m < |order| ==>
              m <= TopAfter(d.neighbors, m) && InOrder(d.neighbors[m], TopAfter(d.neighbors, m))
    decreases |order| - i
  {
    hide Proper, Partial, Bfs, InOrder, Transcribes;
    var top := TopAfter(d.neighbors, i);
    if i <= top {
      RunStep(g, order, d, i);
      NumberedStep(g, order, d, i);
      TopGrows(d.neighbors[i], top);
      RunNumbered(g, order, d, i + 1);
    } else {
      BfsEnd(g.succ, order[..top + 1], i);
      assert |order[..top + 1]| == top + 1;
    }
  }

  /** The canonical document lists the nodes in the order in which its rows name them. */
  lemma CanonNumbered<T>(g: Rooted<T>)
    requires Proper(g)
    ensures Transcribes(Order(g), g, Canon(g)) && Numbered(Canon(g))
  {
    var order, d := Order(g), Canon(g);
    forall i | 0 <= i < |order|
      ensures order[i] in g.succ && Renumbers(order, g.succ[order[i]], d.neighbors[i])
    {
      assert order[i] in order;
    }
    PartialRoot(g.succ, g.root);
    assert order[..1] == [g.root];
    RunNumbered(g, order, d, 0);
  }

  lemma SameTranscript<T>(g: Rooted<T>, order: seq<T>, d: Document, e: Document)
    requires Proper(g) && Transcribes(order, g, d) && Transcribes(order, g, e)
    ensures d == e
  {
    hide Proper;
    forall i | 0 <= i < |order| ensures d.values[i] == e.values[i] && d.neighbors[i] == e.neighbors[i] {
      SameNumbers(order, g.succ[order[i]], d.neighbors[i], e.neighbors[i]);
    }
    assert d.values == e.values && d.neighbors == e.neighbors;
  }

  lemma SameNumbers<T>(order: seq<T>, row: seq<T>, a: seq<nat>, b: seq<nat>)
    requires Distinct(order) && Renumbers(order, row, a) && Renumbers(order, row, b)
    ensures a == b
  {
    forall k | 0 <= k < |row| ensures a[k] == b[k] { assert order[a[k]] == order[b[k]]; }
  }

  lemma RootRun<T>(g: Rooted<T>, order: seq<T>)
    requires Proper(g) && order != [] && order[0] == g.root
    ensures Partial(g.succ, order[..1], 0) && Order(g) == Bfs(g.succ, order[..1], 0)
  {
    PartialRoot(g.succ, g.root);
    assert order[..1] == [g.root];
  }

  lemma NumberedOrder<T>(g: Rooted<T>, order: seq<T>, d: Document)
    requires Proper(g) && Transcribes(order, g, d) && Numbered(d)
    ensures order == Order(g)
  {
    hide Proper, Numbered, Bfs, Partial, Order, Distinct, Renumbers;
    RootRun(g, order);
    NumberedRun(g, order, d, 0);
  }

  /** And it is the only one: whoever transcribes the graph so that new numbers come up one by one has
      the canonical document. */
  lemma NumberedIsCanon<T>(g: Rooted<T>, order: seq<T>, d: Document)
    requires Proper(g) && Transcribes(order, g, d) && Numbered(d)
    ensures order == Order(g) && d == Canon(g)
  {
    hide Transcribes, Numbered, Canon;
    NumberedOrder(g, order, d);
    CanonNumbered(g);
    SameTranscript(g, order, d, Canon(g));
  }

  /** The nodes of a document in the order of their numbers. */
  function Indices(n: nat): (order: seq<nat>)
    ensures |order| == n && Distinct(order) && forall i :: 0 <= i < n ==> order[i] == i
  {
    seq(n, i requires 0 <= i < n => i as nat)
  }

  lemma TranscribesItself(d: Document)
    requires InRange(d) && d.values != []
    ensures Transcribes(Indices(|d.values|), AsRooted(d), d)
  {
    hide Indices;
    var order, h := Indices(|d.values|), AsRooted(d);
    forall i | 0 <= i < |order| ensures Renumbers(order, h.succ[order[i]], d.neighbors[i]) {
      forall j | 0 <= j < |d.neighbors[i]| ensures d.neighbors[i][j] < |order| {
        assert d.neighbors[i][j] in d.neighbors[i];
      }
    }
  }

  /** The same between documents: an isomorphic one with that property is the canonical document. */
  lemma NumberedUnique<T>(f: map<nat, T>, d: Document, g: Rooted<T>)
    requires InRange(d) && d.values != [] && Proper(g) && Isomorphism(f, AsRooted(d), g) && Numbered(d)
    ensures d == Canon(g)
  {
    TranscribesItself(d);
    hide Numbered, Transcribes, Isomorphism, InRange, AsRooted, Indices;
    NumberedIsCanon(AsRooted(d), Indices(|d.values|), d);
    IsomorphicSameCanon(f, AsRooted(d), g);
  }
}
