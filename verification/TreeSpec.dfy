/**
  The specification of the filesystem: every operation as a function on the tree from paths to
  directories and files. None means that the operation must be refused.
 */
module TreeSpec {
  import opened Bytes
  import opened Paths
  import opened Volume

  datatype FileWrite = FileWrite(path: Name, bytes: seq<byte>, modifiedTime: u64)

  datatype Command =
    | CreateDirectory(path: Name)
    | PutFiles(files: seq<FileWrite>)
    | RemoveFile(path: Name)
    | RemoveDirectory(path: Name)
    | Rename(from: Name, to: Name)

  predicate IsDir(t: Tree, path: Name)
  {
    path in t && t[path].Dir?
  }

  predicate ParentOk(t: Tree, path: Name)
  {
    AtRoot(path) || IsDir(t, Parent(path))
  }

  /** A path has a place in the tree exactly if it is a single component, or a directory, a slash and a single component. */
  lemma ParentOkMeans(t: Tree, path: Name)
    ensures
      ParentOk(t, path) <==>
      SLASH !in path || exists dir, leaf :: path == dir + [SLASH] + leaf && SLASH !in leaf && IsDir(t, dir)
  {
    hide IsDir;
    var r := LastSlash(path);
    if r < |path| {
      var leaf := path[r + 1..];
      assert path == Parent(path) + [SLASH] + leaf && SLASH !in leaf;
    }
    forall dir, leaf | path == dir + [SLASH] + leaf && SLASH !in leaf ensures Parent(path) == dir && !AtRoot(path) {
      ParentOfJoined(path, dir, leaf);
    }
  }

  lemma ParentOfJoined(path: Name, dir: Name, leaf: Name)
    requires path == dir + [SLASH] + leaf && SLASH !in leaf
    ensures Parent(path) == dir && !AtRoot(path)
  {
    forall k | |dir| < k < |path| ensures path[k] != SLASH {
      assert path[k] == leaf[k - |dir| - 1];
    }
    LastSlashIs(path, |dir|);
  }

  predicate Batch(t: Tree, files: seq<FileWrite>)
  {
    && (forall k :: 0 <= k < |files| ==>
      ValidPath(files[k].path) && ParentOk(t, files[k].path) && !IsDir(t, files[k].path))
    && (forall i, j :: 0 <= i < j < |files| ==> files[i].path != files[j].path)
  }

  function FilePaths(files: seq<FileWrite>): set<Name>
  {
    set i | 0 <= i < |files| :: files[i].path
  }

  function FileNode(f: FileWrite): Node
  {
    File(f.bytes, f.modifiedTime)
  }

  function PutAll(t: Tree, files: seq<FileWrite>): Tree
  {
    if files == [] then t
    else
      var last := |files| - 1;
      PutAll(t, files[..last])[files[last].path := FileNode(files[last])]
  }

  /** The new path of every path when `from` is renamed; a file moves alone, a directory with its subtree. */
  function Moved(t: Tree, n: Name, from: Name, to: Name): Name
  {
    if n == from || (IsDir(t, from) && Inside(n, from)) then Relabel(n, from, to) else n
  }

  function MovedNames(t: Tree, from: Name, to: Name): set<Name>
  {
    set n | n in t :: Moved(t, n, from, to)
  }

  /** A path that the rename takes to `m`. */
  ghost function Origin(t: Tree, m: Name, from: Name, to: Name): (n: Name)
    requires m in MovedNames(t, from, to)
    ensures n in t && Moved(t, n, from, to) == m
  {
    var n :| n in t && Moved(t, n, from, to) == m; n
  }

  ghost function RenameTree(t: Tree, from: Name, to: Name): Tree
  {
    map m | m in MovedNames(t, from, to) :: t[Origin(t, m, from, to)]
  }

  ghost function Apply(t: Tree, c: Command): Option<Tree>
  {
    match c
    case CreateDirectory(path) =>
      if ValidPath(path) && ParentOk(t, path) && path !in t then Some(t[path := Dir(0)]) else None
    case PutFiles(files) =>
      if Batch(t, files) then Some(PutAll(t, files)) else None
    case RemoveFile(path) =>
      if path in t && t[path].File? then Some(t - {path}) else None
    case RemoveDirectory(path) =>
      if IsDir(t, path) && (forall n :: n in t ==> !Inside(n, path)) then Some(t - {path}) else None
    case Rename(from, to) =>
      if from in t && to !in t && ValidPath(to) && ParentOk(t, to) then Some(RenameTree(t, from, to)) else None
  }

  /** Every path hangs below directories up to the root. */
  ghost predicate Namespace(t: Tree)
  {
    forall n :: n in t ==> ParentOk(t, n)
  }

  /** A rename to a place inside the renamed directory itself. */
  predicate IntoItself(t: Tree, c: Command)
  {
    c.Rename? && IsDir(t, c.from) && Inside(c.to, c.from)
  }

  lemma {:induction false} PutAllAt(t: Tree, files: seq<FileWrite>, n: Name)
    ensures n in PutAll(t, files) <==> n in t || exists k :: 0 <= k < |files| && files[k].path == n
    ensures (forall k :: 0 <= k < |files| ==> files[k].path != n) ==>
      (n in t <==> n in PutAll(t, files)) && (n in t ==> PutAll(t, files)[n] == t[n])
  {
    if files != [] {
      var last := |files| - 1;
      PutAllAt(t, files[..last], n);
      if n in PutAll(t, files[..last]) && n !in t {
        var k :| 0 <= k < last && files[..last][k].path == n;
        assert files[k].path == n;
      }
    }
  }

  lemma {:induction false} PutAllFile(t: Tree, files: seq<FileWrite>, k: nat)
    requires k < |files| && forall i, j :: 0 <= i < j < |files| ==> files[i].path != files[j].path
    ensures files[k].path in PutAll(t, files) && PutAll(t, files)[files[k].path] == FileNode(files[k])
  {
    var last := |files| - 1;
    if k < last {
      PutAllFile(t, files[..last], k);
    }
  }

  /** A batch reads back: every batch path holds its bytes and time, every other path is untouched. */
  lemma BatchReadsBack(t: Tree, files: seq<FileWrite>)
    requires Batch(t, files)
    ensures forall k :: 0 <= k < |files| ==>
      files[k].path in PutAll(t, files) && PutAll(t, files)[files[k].path] == FileNode(files[k])
    ensures forall n :: (forall k :: 0 <= k < |files| ==> files[k].path != n) ==>
      (n in PutAll(t, files) <==> n in t) && (n in t ==> PutAll(t, files)[n] == t[n])
  {
    forall k | 0 <= k < |files|
      ensures files[k].path in PutAll(t, files) && PutAll(t, files)[files[k].path] == FileNode(files[k])
    {
      PutAllFile(t, files, k);
    }
    forall n | forall k :: 0 <= k < |files| ==> files[k].path != n
      ensures (n in PutAll(t, files) <==> n in t) && (n in t ==> PutAll(t, files)[n] == t[n])
    {
      PutAllAt(t, files, n);
    }
  }

  lemma PutKeepsNamespace(t: Tree, files: seq<FileWrite>)
    requires Namespace(t) && Batch(t, files)
    ensures Namespace(PutAll(t, files))
  {
    var u := PutAll(t, files);
    BatchReadsBack(t, files);
    forall n | n in u ensures ParentOk(u, n) {
      PutAllAt(t, files, n);
      assert ParentOk(t, n);
      if !AtRoot(n) {
        var p := Parent(n);
        assert IsDir(t, p);
        assert forall k :: 0 <= k < |files| ==> files[k].path != p;
      }
    }
  }

  // ----- Renaming -----

  lemma MovedBack(t: Tree, n: Name, from: Name, to: Name)
    requires n in t
    ensures Moved(t, n, from, to) in RenameTree(t, from, to)
  {}

  /** In a well-formed namespace a rename collides with nothing. */
  lemma MovedInjective(t: Tree, n: Name, m: Name, from: Name, to: Name)
    requires Namespace(t) && to !in t && n in t && m in t
    requires Moved(t, n, from, to) == Moved(t, m, from, to)
    ensures n == m
  {
    var a := n == from || (IsDir(t, from) && Inside(n, from));
    var b := m == from || (IsDir(t, from) && Inside(m, from));
    if a && b {
      RelabelInjective(n, m, from, to);
    } else if a {
      RelabelNotOccupied(t, n, m, from, to);
    } else if b {
      RelabelNotOccupied(t, m, n, from, to);
    }
  }

  lemma RelabelNotOccupied(t: Tree, n: Name, m: Name, from: Name, to: Name)
    requires Namespace(t) && to !in t && n in t && m in t
    requires n == from || Inside(n, from)
    ensures Relabel(n, from, to) != m
  {
    RelabelInside(n, from, to);
    if Relabel(n, from, to) == m && n != from {
      TreeAncestor(t, m, to);
    }
  }

  lemma {:induction false} TreeAncestor(t: Tree, path: Name, dir: Name)
    requires Namespace(t) && path in t && Inside(path, dir)
    ensures IsDir(t, dir)
    decreases |path|
  {
    ParentInside(path, dir);
    assert ParentOk(t, path);
    if Parent(path) != dir {
      TreeAncestor(t, Parent(path), dir);
    }
  }

  /** A rename relabels exactly the renamed file or subtree, loses nothing, and keeps all contents. */
  lemma RenameRelabels(t: Tree, from: Name, to: Name)
    requires Namespace(t) && to !in t
    ensures forall n :: n in t ==>
      Moved(t, n, from, to) in RenameTree(t, from, to) && RenameTree(t, from, to)[Moved(t, n, from, to)] == t[n]
    ensures forall m :: m in RenameTree(t, from, to) ==> exists n :: n in t && Moved(t, n, from, to) == m
  {
    forall n | n in t
      ensures Moved(t, n, from, to) in RenameTree(t, from, to) && RenameTree(t, from, to)[Moved(t, n, from, to)] == t[n]
    {
      MovedBack(t, n, from, to);
      forall k | k in t && Moved(t, k, from, to) == Moved(t, n, from, to) ensures k == n {
        MovedInjective(t, k, n, from, to);
      }
    }
  }

  lemma RenameParentOutside(t: Tree, n: Name, from: Name, to: Name)
    requires Namespace(t) && to !in t && from in t && n in t
    requires n != from && !(IsDir(t, from) && Inside(n, from))
    ensures ParentOk(RenameTree(t, from, to), n)
  {
    RenameRelabels(t, from, to);
    assert ParentOk(t, n);
    if !AtRoot(n) {
      var p := Parent(n);
      if p == from {
        ParentIsInside(n);
      } else if IsDir(t, from) && Inside(p, from) {
        ParentIsInside(n);
        InsideTransitive(n, p, from);
      } else {
        assert Moved(t, p, from, to) == p;
      }
    }
  }

  lemma ParentIsInside(n: Name)
    requires !AtRoot(n)
    ensures Inside(n, Parent(n))
  {}

  lemma RenameParentInside(t: Tree, n: Name, from: Name, to: Name)
    requires Namespace(t) && to !in t && IsDir(t, from) && n in t && Inside(n, from)
    ensures ParentOk(RenameTree(t, from, to), Relabel(n, from, to))
  {
    RenameRelabels(t, from, to);
    RelabelParent(n, from, to);
    assert ParentOk(t, n);
    assert Moved(t, Parent(n), from, to) == Relabel(Parent(n), from, to);
  }

  lemma RenameParentOfTarget(t: Tree, from: Name, to: Name)
    requires Namespace(t) && from in t && to !in t && ParentOk(t, to)
    ensures ParentOk(RenameTree(t, from, to), to) <==> !IntoItself(t, Rename(from, to))
  {
    RenameRelabels(t, from, to);
    var u := RenameTree(t, from, to);
    if !AtRoot(to) {
      var p := Parent(to);
      ParentIsInside(to);
      assert IsDir(t, p);
      if IsDir(t, from) && (p == from || Inside(p, from)) {
        if p != from {
          InsideTransitive(to, p, from);
        }
        NotMovedOnto(t, p, from, to);
      } else {
        assert Moved(t, p, from, to) == p;
        if IsDir(t, from) && Inside(to, from) {
          ParentInside(to, from);
        }
      }
    }
  }

  lemma NotMovedOnto(t: Tree, p: Name, from: Name, to: Name)
    requires Namespace(t) && to !in t && p == Parent(to) && !AtRoot(to)
    requires IsDir(t, from) && (p == from || Inside(p, from))
    ensures p !in RenameTree(t, from, to)
  {}

  /** A rename keeps the namespace well formed if and only if the target is not inside the renamed directory. */
  lemma RenameNamespace(t: Tree, from: Name, to: Name)
    requires Namespace(t) && Apply(t, Rename(from, to)).Some?
    ensures Namespace(RenameTree(t, from, to)) <==> !IntoItself(t, Rename(from, to))
  {
    var u := RenameTree(t, from, to);
    RenameRelabels(t, from, to);
    RenameParentOfTarget(t, from, to);
    assert Moved(t, from, from, to) == to by { RelabelInside(from, from, to); }
    assert to in u;
    if !IntoItself(t, Rename(from, to)) {
      forall m | m in u ensures ParentOk(u, m) {
        var n :| n in t && Moved(t, n, from, to) == m;
        if n == from {
          assert m == to;
        } else if IsDir(t, from) && Inside(n, from) {
          RenameParentInside(t, n, from, to);
        } else {
          RenameParentOutside(t, n, from, to);
        }
      }
    }
  }

  /** `rename("a", "a/b")` is accepted and leaves "a/b" without a parent. */
  lemma RenameIntoItselfOrphans()
    ensures
      var a: Name, b: Name := [0x61], [0x61, SLASH, 0x62];
      var t: Tree := map[a := Dir(0)];
      && Namespace(t) && Apply(t, Rename(a, b)).Some? && !Namespace(Apply(t, Rename(a, b)).value)
  {
    var a: Name, b: Name := [0x61], [0x61, SLASH, 0x62];
    var t: Tree := map[a := Dir(0)];
    assert LastSlash(a) == 1;
    LastSlashIs(b, 1);
    assert Parent(b) == a;
    assert GoodParts([0x62]) by { FindSlashIs([0x62], 1); }
    assert b[..1] == a && b[2..] == [0x62];
    assert GoodParts(b) by { FindSlashIs(b, 1); }
    RenameNamespace(t, a, b);
  }

  /** Every accepted operation keeps the namespace well formed, except a rename into the renamed directory. */
  lemma ApplyKeepsNamespace(t: Tree, c: Command)
    requires Namespace(t) && Apply(t, c).Some?
    ensures Namespace(Apply(t, c).value) <==> !IntoItself(t, c)
  {
    var u := Apply(t, c).value;
    match c {
      case CreateDirectory(path) =>
        forall n | n in u ensures ParentOk(u, n) {
          assert n in t ==> ParentOk(t, n);
        }
      case PutFiles(files) => PutKeepsNamespace(t, files);
      case RemoveFile(path) =>
        forall n | n in u ensures ParentOk(u, n) {
          assert ParentOk(t, n);
        }
      case RemoveDirectory(path) =>
        forall n | n in u ensures ParentOk(u, n) {
          assert ParentOk(t, n);
          if !AtRoot(n) {
            ParentIsInside(n);
          }
        }
      case Rename(from, to) => RenameNamespace(t, from, to);
    }
  }
}
