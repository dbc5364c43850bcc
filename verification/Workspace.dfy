/** The supervisor restores the workspace between cases: whatever tree a case leaves behind,
    clearing and validation bring back exactly the staged paths, or the run is refused. */
module Workspace {
  import opened Options
  import opened Sets

  /** File names are only compared. */
  type Name = int

  type Path = seq<Name>

  datatype Kind = Directory | Regular | Special

  datatype Entry = Entry(kind: Kind, rootOwned: bool, writable: bool)

  type Tree = map<Path, Entry>

  /** Entries below the workspace root [], each in an existing directory. */
  ghost predicate IsTree(fs: Tree) {
    [] !in fs && forall p :: p in fs && |p| > 1 ==> p[..|p| - 1] in fs && fs[p[..|p| - 1]].kind.Directory?
  }

  predicate Below(dir: Path, p: Path) { |dir| < |p| && p[..|dir|] == dir }

  predicate AtOrBelow(dir: Path, p: Path) { |dir| <= |p| && p[..|dir|] == dir }

  predicate Safe(e: Entry) { !e.kind.Special? && e.rootOwned && !e.writable }

  /** The staged paths and whether each is a directory. */
  type Baseline = map<Path, bool>

  ghost predicate PrefixClosed(b: Baseline) { forall p :: p in b && |p| > 1 ==> p[..|p| - 1] in b }

  ghost predicate Restored(fs: Tree, b: Baseline) {
    fs.Keys == b.Keys && forall p :: p in fs ==> Safe(fs[p]) && fs[p].kind.Directory? == b[p]
  }

  /** The staged part of a tree is still there, of its kinds, root-owned and read-only. */
  ghost predicate Intact(fs: Tree, b: Baseline) {
    forall p :: p in b ==>
        p in fs && fs[p].rootOwned && !fs[p].writable && fs[p].kind == if b[p] then Directory else Regular
  }

  /** What clearing below `dir` leaves: protected paths, and everything elsewhere. */
  ghost function Kept(fs: Tree, dir: Path, b: Baseline): Tree {
    map p | p in fs && (Below(dir, p) ==> p in b) :: fs[p]
  }

  /** Clearing fails on a protected path that is neither a directory nor a regular file. */
  ghost predicate Clearable(fs: Tree, dir: Path, b: Baseline) {
    forall p :: p in fs && Below(dir, p) && p in b ==> !fs[p].kind.Special?
  }

  lemma {:induction false} ClosedUnder(b: Baseline, dir: Path, p: Path)
    requires PrefixClosed(b) && p in b && AtOrBelow(dir, p) && dir != []
    ensures dir in b
    decreases |p|
  {
    if |p| > |dir| {
      var q := p[..|p| - 1];
      assert q[..|dir|] == p[..|dir|];
      ClosedUnder(b, dir, q);
    } else {
      assert p == dir;
    }
  }

  function Children(fs: Tree, dir: Path): set<Path> { set p | p in fs && |p| == |dir| + 1 && p[..|dir|] == dir }

  lemma {:induction false} BelowChild(fs: Tree, dir: Path, p: Path)
    requires IsTree(fs) && p in fs && Below(dir, p)
    ensures p[..|dir| + 1] in Children(fs, dir) && AtOrBelow(p[..|dir| + 1], p)
    decreases |p|
  {
    if |p| == |dir| + 1 {
      assert p[..|dir| + 1] == p;
    } else {
      var q := p[..|p| - 1];
      assert q[..|dir|] == p[..|dir|] && q[..|dir| + 1] == p[..|dir| + 1];
      BelowChild(fs, dir, q);
    }
  }

  predicate Remains(p: Path, dir: Path, b: Baseline, todo: set<Path>) {
    Below(dir, p) ==> p in b || p[..|dir| + 1] in todo
  }

  /** Clearing below `dir` while the children in `todo` are still to be visited. */
  ghost function Partial(fs: Tree, dir: Path, b: Baseline, todo: set<Path>): Tree {
    map p | p in fs && Remains(p, dir, b, todo) :: fs[p]
  }

  ghost predicate Visited(fs: Tree, dir: Path, b: Baseline, todo: set<Path>) {
    forall p :: p in fs && Below(dir, p) && p in b && p[..|dir| + 1] !in todo ==> !fs[p].kind.Special?
  }

  lemma PartialStart(fs: Tree, dir: Path, b: Baseline)
    requires IsTree(fs)
    ensures Partial(fs, dir, b, Children(fs, dir)) == fs && Visited(fs, dir, b, Children(fs, dir))
  {
    forall p | p in fs && Below(dir, p) ensures p[..|dir| + 1] in Children(fs, dir) { BelowChild(fs, dir, p); }
  }

  lemma PartialEnd(fs: Tree, dir: Path, b: Baseline)
    ensures Partial(fs, dir, b, {}) == Kept(fs, dir, b)
    ensures Visited(fs, dir, b, {}) <==> Clearable(fs, dir, b)
  {
  }

  lemma PartialTree(fs: Tree, dir: Path, b: Baseline, todo: set<Path>)
    requires IsTree(fs) && PrefixClosed(b)
    ensures IsTree(Partial(fs, dir, b, todo))
  {
    forall p | p in Partial(fs, dir, b, todo) && |p| > 1 ensures p[..|p| - 1] in Partial(fs, dir, b, todo) {
      var q := p[..|p| - 1];
      if Below(dir, q) {
        assert p[..|dir|] == q[..|dir|] && p[..|dir| + 1] == q[..|dir| + 1];
        assert Below(dir, p);
      }
    }
  }

  /** An unprotected child goes with all that is below it. */
  lemma RemovedChild(fs: Tree, dir: Path, b: Baseline, todo: set<Path>, c: Path)
    requires IsTree(fs) && PrefixClosed(b) && c in todo && |c| == |dir| + 1 && c[..|dir|] == dir && c !in b
    ensures var now := Partial(fs, dir, b, todo);
            (map p | p in now && !AtOrBelow(c, p) :: now[p]) == Partial(fs, dir, b, todo - {c})
    ensures Visited(fs, dir, b, todo) ==> Visited(fs, dir, b, todo - {c})
  {
    forall p | p in fs && AtOrBelow(c, p) ensures p !in b && Below(dir, p) && p[..|dir| + 1] == c {
      if p in b { ClosedUnder(b, c, p); }
      assert p[..|dir|] == p[..|c|][..|dir|];
    }
    forall p | p in fs && Below(dir, p) && p[..|dir| + 1] == c ensures AtOrBelow(c, p) {}
  }

  /** A protected directory keeps its protected entries. */
  lemma ClearedChild(fs: Tree, dir: Path, b: Baseline, todo: set<Path>, c: Path)
    requires IsTree(fs) && c in todo && |c| == |dir| + 1 && c[..|dir|] == dir && c in b
    ensures Kept(Partial(fs, dir, b, todo), c, b) == Partial(fs, dir, b, todo - {c})
  {
    forall p | Below(c, p) ensures Below(dir, p) && p[..|dir| + 1] == c { assert p[..|dir|] == p[..|c|][..|dir|]; }
    forall p | Below(dir, p) && p[..|dir| + 1] == c ensures p == c || Below(c, p) {
      if |p| == |c| { assert p == p[..|c|]; }
    }
  }

  lemma VisitedChild(fs: Tree, dir: Path, b: Baseline, todo: set<Path>, c: Path)
    requires c in todo && |c| == |dir| + 1 && c[..|dir|] == dir && c in b && c in fs && !fs[c].kind.Special?
    requires Visited(fs, dir, b, todo) && Clearable(Partial(fs, dir, b, todo), c, b)
    ensures Visited(fs, dir, b, todo - {c})
  {
    forall p | p in fs && Below(dir, p) && p in b && p[..|dir| + 1] !in todo - {c} ensures !fs[p].kind.Special? {
      if p[..|dir| + 1] == c {
        if |p| == |c| { assert p == p[..|c|]; } else { assert Below(c, p) && p in Partial(fs, dir, b, todo); }
      }
    }
  }

  lemma NoEntriesBelow(fs: Tree, c: Path, b: Baseline, p: Path)
    requires IsTree(fs) && c in fs && !fs[c].kind.Directory? && p in fs && Below(c, p)
    ensures false
    decreases |p|
  {
    var q := p[..|p| - 1];
    assert c != [] && q[..|c|] == p[..|c|];
    if |p| > |c| + 1 { NoEntriesBelow(fs, c, b, q); }
  }

  /** Nothing lies below a regular file. */
  lemma FileKept(fs: Tree, c: Path, b: Baseline)
    requires IsTree(fs) && c in fs && !fs[c].kind.Directory?
    ensures Kept(fs, c, b) == fs && Clearable(fs, c, b)
  {
    forall p | p in fs ensures !Below(c, p) {
      if Below(c, p) { NoEntriesBelow(fs, c, b, p); }
    }
  }

  class Filesystem {
    var fs: Tree

    method RemoveAll(path: Path)
      modifies this
      ensures fs == map p | p in old(fs) && !AtOrBelow(path, p) :: old(fs)[p]
    {
      fs := map p | p in fs && !AtOrBelow(path, p) :: fs[p];
    }

    /** Deletes every unprotected entry below `dir`. */
    method ClearWorkspace(dir: Path, b: Baseline, ghost depth: nat) returns (ok: bool)
      requires IsTree(fs) && PrefixClosed(b) && |dir| <= depth && forall p :: p in fs ==> |p| <= depth
      modifies this
      ensures ok == Clearable(old(fs), dir, b)
      ensures ok ==> fs == Kept(old(fs), dir, b)
      ensures ok <==> forall p :: p in old(fs) && |dir| < |p| && p[..|dir|] == dir && p in b ==>
              !old(fs)[p].kind.Special?
      ensures ok ==> forall p :: p in fs <==> p in old(fs) && (|dir| < |p| && p[..|dir|] == dir ==> p in b)
      ensures ok ==> forall p :: p in fs ==> fs[p] == old(fs)[p]
      decreases depth - |dir|
    {
      ghost var all := fs;
      var todo := Children(fs, dir);
      PartialStart(all, dir, b);
      while todo != {}
        invariant todo <= Children(all, dir) && fs == Partial(all, dir, b, todo) && Visited(all, dir, b, todo)
        decreases |todo|
      {
        hide Partial, Visited, Clearable, Kept, IsTree, PrefixClosed;
        ghost var member := Pick(todo);
        var c :| c in todo;
        PartialTree(all, dir, b, todo);
        var done := ClearChild(dir, c, b, all, todo, depth);
        if !done { return false; }
        todo := todo - {c};
      }
      PartialEnd(all, dir, b);
      ok := true;
    }

    /** One directory entry of the clearing loop. */
    method ClearChild(dir: Path, c: Path, b: Baseline, ghost all: Tree, ghost todo: set<Path>, ghost depth: nat)
      returns (ok: bool)
      requires IsTree(fs) && IsTree(all) && PrefixClosed(b) && |dir| <= depth && forall p :: p in all ==> |p| <= depth
      requires c in todo && todo <= Children(all, dir) && fs == Partial(all, dir, b, todo) && Visited(all, dir, b, todo)
      modifies this
      ensures ok ==> fs == Partial(all, dir, b, todo - {c}) && Visited(all, dir, b, todo - {c})
      ensures !ok ==> !Clearable(all, dir, b)
      decreases depth - |dir|, 0
    {
      assert c[..|dir| + 1] == c;
      if c !in b {
        RemovedChild(all, dir, b, todo, c);
        RemoveAll(c);
        return true;
      }
      if fs[c].kind == Special { return false; }
      ClearedChild(all, dir, b, todo, c);
      if fs[c].kind == Directory {
        assert !Clearable(fs, c, b) ==> !Clearable(all, dir, b) by {
          forall p | Below(c, p) ensures Below(dir, p) { assert p[..|dir|] == p[..|c|][..|dir|]; }
        }
        assert Clearable(fs, c, b) ==> Visited(all, dir, b, todo - {c}) by {
          if Clearable(fs, c, b) { VisitedChild(all, dir, b, todo, c); }
        }
        ok := ClearWorkspace(c, b, depth);
      } else {
        FileKept(fs, c, b);
        VisitedChild(all, dir, b, todo, c);
        ok := true;
      }
    }

    /** Deletes what a case left; the supervisor refuses to go on when clearing fails. */
    method ResetCaseFilesystem(b: Baseline, ghost depth: nat) returns (ok: bool)
      requires IsTree(fs) && PrefixClosed(b) && forall p :: p in fs ==> |p| <= depth
      modifies this
      ensures ok == Clearable(old(fs), [], b)
      ensures ok ==> fs == Kept(old(fs), [], b)
    {
      ok := ClearWorkspace([], b, depth);
    }

    /** The staged tree, if it is all root-owned, not writable, and made of directories and
        regular files. */
    method Snapshot() returns (baseline: Option<Baseline>)
      requires IsTree(fs)
      ensures baseline.Some? <==> forall p :: p in fs ==> Safe(fs[p])
      ensures baseline.Some? <==> forall p :: p in fs ==> !fs[p].kind.Special? && fs[p].rootOwned && !fs[p].writable
      ensures baseline.Some? ==> Restored(fs, baseline.value) && PrefixClosed(baseline.value)
      ensures baseline.Some? ==> baseline.value.Keys == fs.Keys
      ensures baseline.Some? ==> forall p :: p in fs ==> baseline.value[p] == fs[p].kind.Directory?
    {
      if exists p :: p in fs && !Safe(fs[p]) { return None; }
      return Some(map p | p in fs :: fs[p].kind.Directory?);
    }

    method ValidateBaseline(b: Baseline) returns (ok: bool)
      ensures ok <==> b.Keys <= fs.Keys && forall p :: p in b ==> Safe(fs[p]) && fs[p].kind.Directory? == b[p]
      ensures ok <==> forall p :: p in b ==>
                p in fs && fs[p].rootOwned && !fs[p].writable && fs[p].kind == if b[p] then Directory else Regular
    {
      var todo := b.Keys;
      while todo != {}
        invariant todo <= b.Keys
        invariant forall p :: p in b && p !in todo ==> p in fs && Safe(fs[p]) && fs[p].kind.Directory? == b[p]
        decreases |todo|
      {
        ghost var member := Pick(todo);
        var p :| p in todo;
        if p !in fs { return false; }
        var e := fs[p];
        if b[p] != e.kind.Directory? || (!b[p] && !e.kind.Regular?) { return false; }
        if !e.rootOwned { return false; }
        if e.writable { return false; }
        todo := todo - {p};
      }
      ok := true;
    }

    /** One round of the case loop: reset, run the case, which may leave any tree, reset again,
        validate. */
    method RunCase(b: Baseline, leftover: Tree, ghost depth: nat) returns (ok: bool, ghost start: Tree)
      requires IsTree(fs) && PrefixClosed(b) && Restored(fs, b) && IsTree(leftover)
      requires forall p :: p in fs || p in leftover ==> |p| <= depth
      modifies this
      ensures Restored(start, b)
      ensures ok <==> Clearable(leftover, [], b) && b.Keys <= leftover.Keys
                      && forall p :: p in b ==> Safe(leftover[p]) && leftover[p].kind.Directory? == b[p]
      ensures ok <==> Intact(leftover, b)
      ensures ok ==> Restored(fs, b) && IsTree(fs) && fs == Kept(leftover, [], b)
    {
      var cleared := ResetCaseFilesystem(b, depth);
      StartsRestored(old(fs), b);
      start := fs;
      fs := leftover;
      cleared := ResetCaseFilesystem(b, depth);
      if !cleared { return false, start; }
      KeptRestored(leftover, b);
      PartialEnd(leftover, [], b);
      PartialTree(leftover, [], b, {});
      ok := ValidateBaseline(b);
    }

    /** The case loop: by induction every case starts from the staged paths with their kinds. */
    method RunCases(b: Baseline, leftovers: seq<Tree>, ghost depth: nat)
      returns (completed: nat, ghost starts: seq<Tree>)
      requires IsTree(fs) && PrefixClosed(b) && Restored(fs, b)
      requires forall i :: 0 <= i < |leftovers| ==> IsTree(leftovers[i])
      requires forall p :: p in fs ==> |p| <= depth
      requires forall i, p :: 0 <= i < |leftovers| && p in leftovers[i] ==> |p| <= depth
      modifies this
      ensures completed <= |leftovers| && |starts| == if completed < |leftovers| then completed + 1 else completed
      ensures forall i :: 0 <= i < |starts| ==> Restored(starts[i], b)
      ensures forall i :: 0 <= i < |starts| ==> Intact(starts[i], b) && starts[i].Keys == b.Keys
      ensures forall i :: 0 <= i < completed ==> Intact(leftovers[i], b)
      ensures completed < |leftovers| ==> !Intact(leftovers[completed], b)
      ensures completed == |leftovers| ==> Restored(fs, b)
    {
      hide Intact, Restored, IsTree, PrefixClosed;
      starts := [];
      completed := 0;
      while completed < |leftovers|
        invariant completed <= |leftovers| && |starts| == completed
        invariant IsTree(fs) && Restored(fs, b) && forall p :: p in fs ==> |p| <= depth
        invariant forall i :: 0 <= i < |starts| ==>
                    Restored(starts[i], b) && Intact(starts[i], b) && starts[i].Keys == b.Keys
        invariant forall i :: 0 <= i < completed ==> Intact(leftovers[i], b)
      {
        var ok, start := RunCase(b, leftovers[completed], depth);
        RestoredIntact(start, b);
        starts := starts + [start];
        if !ok { return; }
        completed := completed + 1;
      }
    }
  }

  lemma RestoredIntact(fs: Tree, b: Baseline)
    requires Restored(fs, b)
    ensures Intact(fs, b) && fs.Keys == b.Keys
  {
    assert fs.Keys == b.Keys;
    forall p | p in b ensures p in fs && Safe(fs[p]) && fs[p].kind == if b[p] then Directory else Regular {
      assert p in fs.Keys;
    }
  }

  /** On a restored workspace clearing deletes nothing. */
  lemma StartsRestored(fs: Tree, b: Baseline)
    requires Restored(fs, b)
    ensures Clearable(fs, [], b) && Kept(fs, [], b) == fs
  {
  }

  /** Clearing the whole workspace leaves exactly the protected part of what was there. */
  lemma KeptRestored(leftover: Tree, b: Baseline)
    requires IsTree(leftover)
    ensures Kept(leftover, [], b).Keys <= b.Keys && (b.Keys <= leftover.Keys <==> b.Keys <= Kept(leftover, [], b).Keys)
    ensures forall p :: p in Kept(leftover, [], b) ==> Kept(leftover, [], b)[p] == leftover[p]
  {
    forall p | p in leftover ensures Below([], p) {
      assert p != [];
    }
  }
}
