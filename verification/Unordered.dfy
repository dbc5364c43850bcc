/** Unordered comparison of arrays: sort the canonical element texts, join, compare. */
module Unordered {
  import opened Text

  /** Lexicographic order by code. */
  predicate LexLess(a: string, b: string)
    decreases |a|
  {
    b != "" && (a == "" || a[0] < b[0] || (a[0] == b[0] && LexLess(a[1..], b[1..])))
  }

  predicate AtMost(a: string, b: string) { !LexLess(b, a) }

  lemma {:induction false} LexTotal(a: string, b: string)
    ensures LexLess(a, b) || LexLess(b, a) || a == b
    ensures !(LexLess(a, b) && LexLess(b, a)) && !LexLess(a, a)
    decreases |a|
  {
    if a != "" && b != "" {
      LexTotal(a[1..], b[1..]);
      assert a == [a[0]] + a[1..] && b == [b[0]] + b[1..];
    }
    if a != "" { LexTotal(a[1..], a[1..]); }
  }

  lemma {:induction false} AtMostTransitive(a: string, b: string, c: string)
    requires AtMost(a, b) && AtMost(b, c)
    ensures AtMost(a, c)
    decreases |a|
  {
    if a != "" && b != "" && c != "" && a[0] == b[0] && b[0] == c[0] {
      AtMostTransitive(a[1..], b[1..], c[1..]);
    }
  }

  /** At their first difference the first string has the smaller character, or has ended. */
  ghost predicate Before(a: string, b: string) {
    exists k :: 0 <= k <= |a| && k <= |b| && a[..k] == b[..k] && (k == |a| || (k < |b| && a[k] < b[k]))
  }

  lemma {:induction false} AtMostMeans(a: string, b: string)
    ensures AtMost(a, b) <==> Before(a, b)
    decreases |a|
  {
    if a == "" {
      assert a[..0] == b[..0];
    } else if b != "" && a[0] == b[0] {
      AtMostMeans(a[1..], b[1..]);
      if k :| 0 <= k <= |a[1..]| && k <= |b[1..]| && a[1..][..k] == b[1..][..k]
              && (k == |a[1..]| || (k < |b[1..]| && a[1..][k] < b[1..][k])) {
        assert a[..k + 1] == [a[0]] + a[1..][..k] && b[..k + 1] == [b[0]] + b[1..][..k];
      }
      if k :| 0 <= k <= |a| && k <= |b| && a[..k] == b[..k] && (k == |a| || (k < |b| && a[k] < b[k])) {
        assert a[1..][..k - 1] == a[..k][1..] && b[1..][..k - 1] == b[..k][1..];
      }
    } else {
      assert a[..0] == (if b == "" then a[..0] else b[..0]);
      forall k | 1 <= k <= |a| && k <= |b| ensures a[..k] != b[..k] { assert a[..k][0] != b[..k][0]; }
    }
  }

  predicate Sorted(s: seq<string>) { forall i, j :: 0 <= i < j < |s| ==> AtMost(s[i], s[j]) }

  /** Any two sorted arrangements of the same strings are equal, so it does not matter how the
      library sorts. */
  lemma {:induction false} SortedUnique(a: seq<string>, b: seq<string>)
    requires Sorted(a) && Sorted(b) && multiset(a) == multiset(b)
    ensures a == b
    decreases |a|
  {
    assert |a| == |multiset(a)| == |multiset(b)| == |b|;
    if |a| > 0 {
      SameHead(a, b);
      assert a == [a[0]] + a[1..] && b == [b[0]] + b[1..];
      assert multiset(a[1..]) == multiset(a) - multiset{a[0]};
      assert multiset(b[1..]) == multiset(b) - multiset{b[0]};
      SortedUnique(a[1..], b[1..]);
    }
  }

  lemma SameHead(a: seq<string>, b: seq<string>)
    requires Sorted(a) && Sorted(b) && multiset(a) == multiset(b) && |a| > 0
    ensures |b| > 0 && a[0] == b[0]
  {
    assert a[0] in multiset(b);
    var j :| 0 <= j < |b| && b[j] == a[0];
    assert b[0] in multiset(a);
    var i :| 0 <= i < |a| && a[i] == b[0];
    LexTotal(a[0], b[0]);
  }

  /** Where a string belongs in a sorted prefix. */
  method InsertSorted(s: seq<string>, x: string) returns (r: seq<string>)
    requires Sorted(s)
    ensures Sorted(r) && multiset(r) == multiset(s) + multiset{x}
  {
    var i := |s|;
    while i > 0 && LexLess(x, s[i - 1])
      invariant 0 <= i <= |s| && forall k :: i <= k < |s| ==> LexLess(x, s[k])
      decreases i
    {
      i := i - 1;
    }
    r := s[..i] + [x] + s[i..];
    assert s == s[..i] + s[i..];
    forall j, k | 0 <= j < k < |r| ensures AtMost(r[j], r[k]) {
      InsertedOrder(s, x, i, r, j, k);
    }
  }

  lemma InsertedOrder(s: seq<string>, x: string, i: nat, r: seq<string>, j: nat, k: nat)
    requires Sorted(s) && i <= |s| && r == s[..i] + [x] + s[i..] && j < k < |r|
    requires (i > 0 ==> AtMost(s[i - 1], x)) && forall m :: i <= m < |s| ==> LexLess(x, s[m])
    ensures AtMost(r[j], r[k])
  {
    if k == i {
      LexTotal(s[j], s[i - 1]);
      if j < i - 1 { AtMostTransitive(s[j], s[i - 1], x); }
    } else if j == i {
      LexTotal(x, s[k - 1]);
    }
  }

  method SortStrings(s: seq<string>) returns (r: seq<string>)
    ensures Sorted(r) && multiset(r) == multiset(s)
  {
    r := [];
    for i := 0 to |s|
      invariant Sorted(r) && multiset(r) == multiset(s[..i])
    {
      assert s[..i + 1] == s[..i] + [s[i]];
      r := InsertSorted(r, s[i]);
    }
    assert s[..|s|] == s;
  }

  ghost predicate Ascending(s: seq<string>) { forall i, j :: 0 <= i < j < |s| ==> Before(s[i], s[j]) }

  ghost predicate SortedText(items: seq<string>, text: string) {
    exists sorted :: Sorted(sorted) && multiset(sorted) == multiset(items) && text == Array(sorted)
  }

  /** The unordered canonical form of an array with the given element texts. */
  method CanonicalUnordered(items: seq<string>) returns (text: string)
    ensures SortedText(items, text)
    ensures exists sorted :: multiset(sorted) == multiset(items) && text == Array(sorted) && Ascending(sorted)
  {
    var sorted := SortStrings(items);
    forall i, j | 0 <= i < j < |sorted| ensures Before(sorted[i], sorted[j]) { AtMostMeans(sorted[i], sorted[j]); }
    text := Array(sorted);
  }

  lemma PermutedTokens(a: seq<string>, b: seq<string>)
    requires Tokens(a) && multiset(a) == multiset(b)
    ensures Tokens(b)
  {
    forall i | 0 <= i < |b| ensures Token(b[i]) {
      assert b[i] in multiset(a);
      var j :| 0 <= j < |a| && a[j] == b[i];
    }
  }

  /** Two arrays have the same unordered canonical form exactly when their elements' canonical
      texts are equal as multisets, commas and brackets inside the elements notwithstanding. */
  lemma UnorderedIsMultisetEquality(a: seq<string>, b: seq<string>, x: string, y: string)
    requires Tokens(a) && Tokens(b) && SortedText(a, x) && SortedText(b, y)
    ensures x == y <==> multiset(a) == multiset(b)
  {
    var s :| Sorted(s) && multiset(s) == multiset(a) && x == Array(s);
    var t :| Sorted(t) && multiset(t) == multiset(b) && y == Array(t);
    PermutedTokens(a, s);
    PermutedTokens(b, t);
    ArrayInjective(s, t);
    if multiset(a) == multiset(b) { SortedUnique(s, t); }
  }

  /** Self-delimiting elements are needed: on bare texts the comparison would confuse one
      element that contains a comma with two elements. */
  lemma BareTextsCollide()
    ensures Array(["a,b"]) == Array(["a", "b"]) && multiset(["a,b"]) != multiset(["a", "b"])
  {
    assert ["a", "b"][1..] == ["b"];
    assert Join(["a", "b"]) == "a" + "," + "b" == "a,b";
    assert |multiset(["a,b"])| == 1 && |multiset(["a", "b"])| == 2;
  }
}
