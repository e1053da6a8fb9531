/**
  Filesystem paths: which are valid, what the parent of a path is, and how a directory rename
  relabels the paths below it (`validPath`, `parentExists` and `rename` in
  src/ezfa3fs_live_filesystem.cpp).
 */
module Paths {
  import opened Bytes

  /** Paths are byte strings. */
  type Name = seq<byte>

  const SLASH: byte := 0x2F
  const BACKSLASH: byte := 0x5C
  const DOT: byte := 0x2E

  /** First slash at or after `from`, or the length when there is none. */
  function FindSlash(p: Name, from: nat): (r: nat)
    requires from <= |p|
    ensures from <= r <= |p| && (r < |p| ==> p[r] == SLASH)
    ensures forall k :: from <= k < r ==> p[k] != SLASH
    decreases |p| - from
  {
    if from == |p| || p[from] == SLASH then from else FindSlash(p, from + 1)
  }

  predicate GoodPart(part: Name)
  {
    part != [] && part != [DOT] && part != [DOT, DOT]
  }

  /** Every component between slashes is good. */
  predicate GoodParts(p: Name)
    decreases |p|
  {
    var end := FindSlash(p, 0);
    GoodPart(p[..end]) && (end < |p| ==> GoodParts(p[end + 1..]))
  }

  predicate ValidPath(p: Name)
  {
    p != [] && p[0] != SLASH && BACKSLASH !in p && GoodParts(p)
  }

  method CheckPath(path: Name) returns (ok: bool)
    ensures ok == ValidPath(path)
    ensures ok <==>
      && path != [] && BACKSLASH !in path
      && forall i, j :: 0 <= i <= j <= |path| && Component(path, i, j) ==> path[i..j] != [] && path[i..j] != [DOT] && path[i..j] != [DOT, DOT]
  {
    hide GoodParts, FindSlash, ValidPath, Component, GoodPart;
    ValidPathIs(path);
    ValidPathMeans(path);
    if path == [] || path[0] == SLASH || BACKSLASH in path {
      return false;
    }
    var begin := 0;
    assert path[0..] == path;
    while begin <= |path|
      invariant 0 <= begin <= |path|
      invariant GoodParts(path) == GoodParts(path[begin..])
      decreases |path| - begin
    {
      var end := FindSlash(path, begin);
      GoodPartsStep(path, begin);
      if !GoodPart(path[begin..end]) {
        return false;
      }
      if end == |path| {
        return true;
      }
      begin := end + 1;
    }
    ok := true;
  }

  /** `p[i..j]` is what lies between two slashes, or between a slash and an end of the path. */
  predicate Component(p: Name, i: nat, j: nat)
    requires i <= j <= |p|
  {
    (i == 0 || p[i - 1] == SLASH) && (j == |p| || p[j] == SLASH) && SLASH !in p[i..j]
  }

  lemma ValidPathIs(p: Name)
    ensures ValidPath(p) <==> p != [] && p[0] != SLASH && BACKSLASH !in p && GoodParts(p)
    ensures forall part :: GoodPart(part) <==> part != [] && part != [DOT] && part != [DOT, DOT]
  {}

  /** A path is valid if and only if no component of it is empty, "." or "..", and it has no backslash. */
  lemma ValidPathMeans(p: Name)
    ensures
      ValidPath(p) <==>
      && p != [] && BACKSLASH !in p
      && forall i, j :: 0 <= i <= j <= |p| && Component(p, i, j) ==> p[i..j] != [] && p[i..j] != [DOT] && p[i..j] != [DOT, DOT]
  {
    hide GoodParts, Component;
    if p != [] {
      assert p[0..] == p;
      ComponentsFrom(p, 0);
      if p[0] == SLASH {
        EmptyComponent(p);
      }
    }
  }

  lemma EmptyComponent(p: Name)
    requires p != [] && p[0] == SLASH
    ensures Component(p, 0, 0) && p[0..0] == []
  {}

  /** The components from some component's start on are all good exactly if `GoodParts` says so. */
  lemma {:induction false} ComponentsFrom(p: Name, from: nat)
    requires from <= |p| && (from == 0 || p[from - 1] == SLASH)
    ensures GoodParts(p[from..]) <==> forall i, j :: from <= i <= j <= |p| && Component(p, i, j) ==> GoodPart(p[i..j])
    decreases |p| - from
  {
    hide GoodParts, GoodPart, FindSlash;
    var end := FindSlash(p, from);
    GoodPartsStep(p, from);
    assert Component(p, from, end) by { NoSlashIn(p, from, end); }
    forall i, j | from <= i <= j <= |p| && Component(p, i, j) ensures (i == from && j == end) || (end < |p| && end + 1 <= i) {
      ComponentIsFirst(p, from, i, j);
    }
    if end < |p| {
      ComponentsFrom(p, end + 1);
    }
  }

  lemma ComponentIsFirst(p: Name, from: nat, i: nat, j: nat)
    requires from <= i <= j <= |p| && (from == 0 || p[from - 1] == SLASH) && Component(p, i, j)
    ensures (i == from && j == FindSlash(p, from)) || (FindSlash(p, from) < |p| && FindSlash(p, from) + 1 <= i)
  {
    NoSlashIn(p, i, j);
  }

  lemma NoSlashIn(p: Name, i: nat, j: nat)
    requires i <= j <= |p|
    ensures SLASH !in p[i..j] <==> forall k :: i <= k < j ==> p[k] != SLASH
  {
    forall k | i <= k < j ensures p[i..j][k - i] == p[k] {}
  }

  lemma FindSlashFrom(p: Name, from: nat)
    requires from <= |p|
    ensures FindSlash(p, from) == from + FindSlash(p[from..], 0)
  {}

  lemma GoodPartsUnfold(p: Name)
    ensures GoodParts(p) <==>
      GoodPart(p[..FindSlash(p, 0)]) && (FindSlash(p, 0) < |p| ==> GoodParts(p[FindSlash(p, 0) + 1..]))
  {}

  lemma GoodPartsStep(p: Name, from: nat)
    requires from <= |p|
    ensures
      var end := FindSlash(p, from);
      GoodParts(p[from..]) <==> GoodPart(p[from..end]) && (end < |p| ==> GoodParts(p[end + 1..]))
  {
    hide GoodParts, GoodPart, FindSlash;
    var end := FindSlash(p, from);
    FindSlashFrom(p, from);
    GoodPartsUnfold(p[from..]);
    assert p[from..][..end - from] == p[from..end];
    if end < |p| {
      assert p[from..][end - from + 1..] == p[end + 1..];
    }
  }

  lemma FindSlashIs(p: Name, r: nat)
    requires r <= |p| && (r < |p| ==> p[r] == SLASH) && forall k :: 0 <= k < r ==> p[k] != SLASH
    ensures FindSlash(p, 0) == r
  {}

  /** Components of a joined path are the components of its two halves. */
  lemma {:induction false} GoodPartsJoin(a: Name, b: Name)
    ensures GoodParts(a + [SLASH] + b) <==> GoodParts(a) && GoodParts(b)
    decreases |a|
  {
    hide GoodParts, GoodPart, FindSlash;
    var p := a + [SLASH] + b;
    var end := FindSlash(a, 0);
    FindSlashIs(p, end);
    GoodPartsUnfold(p);
    GoodPartsUnfold(a);
    assert p[..end] == a[..end];
    if end < |a| {
      GoodPartsJoin(a[end + 1..], b);
      assert p[end + 1..] == a[end + 1..] + [SLASH] + b;
    } else {
      assert p[end + 1..] == b;
    }
  }

  // ----- Parents -----

  /** Last slash, or the length when there is none. */
  function LastSlash(p: Name): (r: nat)
    ensures r <= |p| && (r < |p| ==> p[r] == SLASH && forall k :: r < k < |p| ==> p[k] != SLASH)
    ensures r == |p| ==> SLASH !in p
  {
    if p == [] then 0
    else if p[|p| - 1] == SLASH then |p| - 1
    else
      var r := LastSlash(p[..|p| - 1]);
      if r == |p| - 1 then |p| else r
  }

  lemma LastSlashIs(p: Name, r: nat)
    requires r < |p| && p[r] == SLASH && forall k :: r < k < |p| ==> p[k] != SLASH
    ensures LastSlash(p) == r
  {}

  /** A path without a slash lies in the root. */
  predicate AtRoot(p: Name)
  {
    LastSlash(p) == |p|
  }

  function Parent(p: Name): Name
  {
    p[..LastSlash(p)]
  }

  /** `path` lies below directory `dir`. */
  predicate Inside(path: Name, dir: Name)
  {
    |path| > |dir| && path[..|dir|] == dir && path[|dir|] == SLASH
  }

  /** What is left of `path` after the slash that follows `dir`. */
  function Below(path: Name, dir: Name): Name
    requires Inside(path, dir)
  {
    path[|dir| + 1..]
  }

  /** A path lies below a directory exactly if it goes on with a slash there; relabelling exchanges the directory in front of it. */
  lemma InsideMeans(path: Name, dir: Name)
    ensures Inside(path, dir) <==> exists rest :: path == dir + [SLASH] + rest
    ensures forall rest, to: Name :: path == dir + [SLASH] + rest ==> Inside(path, dir) && Relabel(path, dir, to) == to + [SLASH] + rest
  {
    if Inside(path, dir) {
      InsideSplit(path, dir);
    }
    forall rest, to: Name | path == dir + [SLASH] + rest ensures Inside(path, dir) && Relabel(path, dir, to) == to + [SLASH] + rest {
      assert path[..|dir|] == dir && path[|dir|..] == [SLASH] + rest;
    }
  }

  lemma InsideSplit(path: Name, dir: Name)
    requires Inside(path, dir)
    ensures path == dir + [SLASH] + Below(path, dir)
    ensures path[|dir|..] == [SLASH] + Below(path, dir)
  {}

  /** The new path of `path` when directory `from` is renamed to `to`. */
  function Relabel(path: Name, from: Name, to: Name): Name
    requires path == from || Inside(path, from)
  {
    to + path[|from|..]
  }

  /** Relabelling keeps paths valid. */
  lemma RelabelValid(path: Name, from: Name, to: Name)
    requires path == from || Inside(path, from)
    requires ValidPath(path) && ValidPath(to)
    ensures ValidPath(Relabel(path, from, to))
  {
    hide GoodParts, FindSlash;
    if path == from {
      assert Relabel(path, from, to) == to;
    } else {
      var rest := Below(path, from);
      InsideSplit(path, from);
      GoodPartsJoin(from, rest);
      GoodPartsJoin(to, rest);
      var r := Relabel(path, from, to);
      assert r == to + [SLASH] + rest;
      forall k | 0 <= k < |rest| ensures rest[k] != BACKSLASH {
        assert rest[k] == path[|from| + 1 + k];
      }
    }
  }

  /** Relabelling is injective. */
  lemma RelabelInjective(p: Name, q: Name, from: Name, to: Name)
    requires (p == from || Inside(p, from)) && (q == from || Inside(q, from))
    requires Relabel(p, from, to) == Relabel(q, from, to)
    ensures p == q
  {
    assert p[|from|..] == Relabel(p, from, to)[|to|..] && q[|from|..] == Relabel(q, from, to)[|to|..];
    assert p == p[..|from|] + p[|from|..] && q == q[..|from|] + q[|from|..];
  }

  /** A relabelled path is the new directory itself or lies inside it. */
  lemma RelabelInside(path: Name, from: Name, to: Name)
    requires path == from || Inside(path, from)
    ensures path == from ==> Relabel(path, from, to) == to
    ensures path != from ==> Inside(Relabel(path, from, to), to)
  {}

  /** The parent of a path below `dir` is `dir` or below it. */
  lemma ParentInside(path: Name, dir: Name)
    requires Inside(path, dir)
    ensures !AtRoot(path) && (Parent(path) == dir || Inside(Parent(path), dir)) && |Parent(path)| < |path|
  {}

  /** Relabelling commutes with taking parents, below the renamed directory. */
  lemma RelabelParent(path: Name, from: Name, to: Name)
    requires Inside(path, from)
    ensures !AtRoot(path) && (Parent(path) == from || Inside(Parent(path), from))
    ensures !AtRoot(Relabel(path, from, to)) && Parent(Relabel(path, from, to)) == Relabel(Parent(path), from, to)
  {
    ParentInside(path, from);
    var q := Relabel(path, from, to);
    var r := LastSlash(path);
    var s := |to| + r - |from|;
    assert forall k :: |to| <= k < |q| ==> q[k] == path[|from| + k - |to|];
    LastSlashIs(q, s);
    assert q[..s] == to + path[|from|..r];
    assert path[..r][|from|..] == path[|from|..r];
  }

  lemma InsideTransitive(p: Name, q: Name, r: Name)
    requires Inside(p, q) && Inside(q, r)
    ensures Inside(p, r)
  {}
}
