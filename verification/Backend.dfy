/**
  The staging layer of a writable mount (`LiveMountBackend` in src/ezfa3fs_live_mount_backend.cpp):
  files being written are kept in memory over the filesystem and committed later. What a mount
  shows is the overlay of the two; commits, successful or not, never change it.
 */
module Backend {
  import opened Bytes
  import opened Paths
  import opened Manifest
  import opened Device
  import opened Volume
  import opened TreeSpec
  import opened Answers
  import Tame
  import EntryOps
  import Batches
  import Capacity
  import EditSteps
  import PackedBlock
  import Planning
  import Relocation
  import FS = Filesystem

  datatype MountNode = MountNode(directory: bool, size: nat, modifiedTime: u64)
  datatype PendingFile = PendingFile(bytes: seq<byte>, modifiedTime: u64)

  /** Leading slashes are dropped. */
  function Normalize(path: Name): (r: Name)
    ensures r == [] || r[0] != SLASH
    ensures |r| <= |path| && r == path[|path| - |r|..]
    ensures forall k :: 0 <= k < |path| - |r| ==> path[k] == SLASH
  {
    if path != [] && path[0] == SLASH then Normalize(path[1..]) else path
  }

  function NodeView(n: Node): MountNode
  {
    match n
    case Dir(t) => MountNode(true, 0, t)
    case File(b, t) => MountNode(false, |b|, t)
  }

  function StagedNode(p: PendingFile): Node
  {
    File(p.bytes, p.modifiedTime)
  }

  /** Staged files cover what the filesystem has under their names. */
  function OverlayOf(t: Tree, pending: map<Name, PendingFile>): Tree
  {
    t + map n | n in pending :: StagedNode(pending[n])
  }

  function ViewOf(t: Tree): map<Name, MountNode>
  {
    map n | n in t :: NodeView(t[n])
  }

  function Resized(bytes: seq<byte>, size: nat): (r: seq<byte>)
    ensures |r| == size
    ensures forall k :: 0 <= k < size ==> r[k] == if k < |bytes| then bytes[k] else 0
  {
    if size <= |bytes| then bytes[..size] else bytes + Repeat(0, size - |bytes|)
  }

  /** The contents after a write; a gap before `offset` is filled with zeros. */
  function Overwrite(bytes: seq<byte>, offset: nat, data: seq<byte>): (r: seq<byte>)
    ensures |r| == Max(|bytes|, offset + |data|)
    ensures forall k :: 0 <= k < |r| ==>
      r[k] == if offset <= k < offset + |data| then data[k - offset] else if k < |bytes| then bytes[k] else 0
  {
    var all := if offset + |data| > |bytes| then Resized(bytes, offset + |data|) else bytes;
    Splice(all, offset, data)
  }

  /** `after` has `data` at `offset`, the old bytes around it, and zeros between the old end and `offset`. */
  predicate Written(before: seq<byte>, offset: nat, data: seq<byte>, after: seq<byte>)
  {
    && |after| == Max(|before|, offset + |data|)
    && after[offset..offset + |data|] == data
    && (forall k :: 0 <= k < offset && k < |before| ==> after[k] == before[k])
    && (forall k :: offset + |data| <= k < |before| ==> after[k] == before[k])
    && (forall k :: |before| <= k < offset ==> after[k] == 0)
  }

  /** `after` has `size` bytes: the first ones of `before`, and zeros behind its end. */
  predicate Truncated(before: seq<byte>, size: nat, after: seq<byte>)
  {
    && |after| == size
    && (forall k :: 0 <= k < |before| && k < size ==> after[k] == before[k])
    && (forall k :: |before| <= k < size ==> after[k] == 0)
  }

  lemma OverwriteWrites(bytes: seq<byte>, offset: nat, data: seq<byte>, now: u64)
    ensures Written(bytes, offset, data, StagedNode(PendingFile(Overwrite(bytes, offset, data), now)).bytes)
  {}

  lemma ResizedTruncates(bytes: seq<byte>, size: nat, now: u64)
    ensures Truncated(bytes, size, StagedNode(PendingFile(Resized(bytes, size), now)).bytes)
  {}

  // ----- Batches of staged files -----

  /** Staged files are kept under normalized names. */
  ghost predicate AllNormal(pending: map<Name, PendingFile>)
  {
    forall n :: n in pending ==> Normalize(n) == n
  }

  /** The batch holds these staged files as they are. */
  ghost predicate FromStaged(pending: map<Name, PendingFile>, batch: seq<FileWrite>)
  {
    && Batches.DistinctFiles(batch)
    && forall i :: 0 <= i < |batch| ==> batch[i].path in pending && FileNode(batch[i]) == StagedNode(pending[batch[i].path])
  }

  /** No staged file could be taken for a direct-boot volume. */
  predicate TameStaged(pending: map<Name, PendingFile>)
  {
    forall n :: n in pending && !PackedBlock.ShouldPack(|pending[n].bytes|) ==> Tame.TameBytes(pending[n].bytes)
  }

  lemma TameBatch(pending: map<Name, PendingFile>, batch: seq<FileWrite>)
    requires FromStaged(pending, batch) && TameStaged(pending)
    ensures Tame.TameFiles(batch)
  {
    hide Tame.TameBytes;
  }

  /** The staged, non-empty files that the paths name. */
  ghost function Chosen(pending: map<Name, PendingFile>, paths: seq<Name>): set<Name>
  {
    set p | p in paths && Normalize(p) in pending && pending[Normalize(p)].bytes != [] :: Normalize(p)
  }

  /** The staged files while the bytes of a batch have been moved out of them. */
  ghost function Emptied(pending: map<Name, PendingFile>, taken: set<Name>): map<Name, PendingFile>
  {
    map n | n in pending :: if n in taken then PendingFile([], pending[n].modifiedTime) else pending[n]
  }

  lemma OverlayHas(t: Tree, pending: map<Name, PendingFile>, n: Name)
    ensures n in OverlayOf(t, pending) <==> n in t || n in pending
    ensures n in pending ==> OverlayOf(t, pending)[n] == StagedNode(pending[n]) == File(pending[n].bytes, pending[n].modifiedTime)
    ensures n !in pending && n in t ==> OverlayOf(t, pending)[n] == t[n]
    ensures n !in t ==> !IsDir(t, n)
    ensures n in t ==> (IsDir(t, n) <==> t[n].Dir?)
  {}

  /** A committed file is in the filesystem as it was staged. */
  lemma Committed(t: Tree, pending: map<Name, PendingFile>, batch: seq<FileWrite>, n: Name)
    requires FromStaged(pending, batch) && n in FilePaths(batch)
    ensures n in pending && n in PutAll(t, batch) && PutAll(t, batch)[n] == StagedNode(pending[n])
  {}

  /** Whether a batch of staged files has been committed or not, the overlay is the same. */
  lemma CommittedOverlay(t: Tree, pending: map<Name, PendingFile>, batch: seq<FileWrite>)
    requires FromStaged(pending, batch)
    ensures OverlayOf(PutAll(t, batch), pending) == OverlayOf(t, pending)
    ensures OverlayOf(PutAll(t, batch), pending - FilePaths(batch)) == OverlayOf(t, pending)
  {
    hide OverlayOf, PutAll, FromStaged, FilePaths, StagedNode;
    var u, rest := PutAll(t, batch), pending - FilePaths(batch);
    Capacity.PutAllNames(t, batch);
    forall n
      ensures n in OverlayOf(u, pending) <==> n in OverlayOf(t, pending)
      ensures n in OverlayOf(u, rest) <==> n in OverlayOf(t, pending)
      ensures n in OverlayOf(t, pending) ==>
        OverlayOf(u, pending)[n] == OverlayOf(t, pending)[n] && OverlayOf(u, rest)[n] == OverlayOf(t, pending)[n]
    {
      OverlayHas(t, pending, n);
      OverlayHas(u, pending, n);
      OverlayHas(u, rest, n);
      if n in FilePaths(batch) {
        Committed(t, pending, batch, n);
      } else {
        Batches.NotABatchPath(batch, n);
        PutAllAt(t, batch, n);
      }
    }
  }

  lemma NextOpenAfter(filesystem: FS.Filesystem, t: Tree, c: Command, ok: bool)
    requires filesystem.Refines(t, c, ok) && filesystem.tame && filesystem.flash.checksumSound && filesystem.commitFailed
    ensures Apply(t, c).Some? && (RecoversTo(filesystem.flash.image, t) || RecoversTo(filesystem.flash.image, Apply(t, c).value))
  {
    hide Apply, filesystem.After, RecoversTo;
    filesystem.NextOpen(t, Apply(t, c).value, ok);
  }

  lemma SelectOne(pending: map<Name, PendingFile>, batch: seq<FileWrite>, taken: set<Name>, n: Name)
    requires FromStaged(pending, batch) && taken == FilePaths(batch) && n in pending && n !in taken
    ensures
      var more := batch + [FileWrite(n, pending[n].bytes, pending[n].modifiedTime)];
      && FromStaged(pending, more) && FilePaths(more) == taken + {n}
      && Emptied(pending, taken)[n := PendingFile([], pending[n].modifiedTime)] == Emptied(pending, taken + {n})
      && Emptied(pending, taken)[n] == pending[n]
  {
    var more := batch + [FileWrite(n, pending[n].bytes, pending[n].modifiedTime)];
    Batches.NotABatchPath(batch, n);
    assert more[..|batch|] == batch && more[..|batch| + 1] == more;
    Batches.FilePathsSnoc(more, |batch|);
  }

  lemma RestoreOne(pending: map<Name, PendingFile>, batch: seq<FileWrite>, i: nat)
    requires FromStaged(pending, batch) && i < |batch|
    ensures
      var left := FilePaths(batch[i..]);
      var now := Emptied(pending, left);
      && batch[i].path in now
      && now[batch[i].path := PendingFile(batch[i].bytes, now[batch[i].path].modifiedTime)] == Emptied(pending, FilePaths(batch[i + 1..]))
  {}

  lemma NothingTaken(pending: map<Name, PendingFile>, none: seq<FileWrite>)
    requires none == []
    ensures FromStaged(pending, none) && FilePaths(none) == {} && Emptied(pending, {}) == pending
  {}

  // ----- What the view shows -----

  lemma OverlayPut(t: Tree, pending: map<Name, PendingFile>, n: Name, p: PendingFile)
    ensures OverlayOf(t, pending[n := p]) == OverlayOf(t, pending)[n := StagedNode(p)]
    ensures ViewOf(OverlayOf(t, pending)[n := StagedNode(p)]) == ViewOf(OverlayOf(t, pending))[n := NodeView(StagedNode(p))]
  {
    hide NodeView, StagedNode;
    ViewPut(OverlayOf(t, pending), n, StagedNode(p));
  }

  lemma ViewPut(t: Tree, n: Name, x: Node)
    ensures ViewOf(t[n := x]) == ViewOf(t)[n := NodeView(x)]
  {
    hide NodeView;
  }

  lemma OverlayTree(t: Tree, pending: map<Name, PendingFile>, n: Name, x: Node)
    requires n !in pending
    ensures OverlayOf(t[n := x], pending) == OverlayOf(t, pending)[n := x]
    ensures ViewOf(OverlayOf(t, pending)[n := x]) == ViewOf(OverlayOf(t, pending))[n := NodeView(x)]
  {}

  lemma OverlayRemove(t: Tree, pending: map<Name, PendingFile>, n: Name)
    ensures OverlayOf(t - {n}, pending - {n}) == OverlayOf(t, pending) - {n}
    ensures n !in t ==> OverlayOf(t, pending - {n}) == OverlayOf(t, pending) - {n}
    ensures n !in pending ==> OverlayOf(t - {n}, pending) == OverlayOf(t, pending) - {n}
    ensures ViewOf(OverlayOf(t, pending) - {n}) == ViewOf(OverlayOf(t, pending)) - {n}
  {
    OverlayWithout(t, pending, n);
    hide OverlayOf;
    if n !in t {
      assert t - {n} == t;
    }
    if n !in pending {
      assert pending - {n} == pending;
    }
  }

  lemma OverlayWithout(t: Tree, pending: map<Name, PendingFile>, n: Name)
    ensures OverlayOf(t - {n}, pending - {n}) == OverlayOf(t, pending) - {n}
  {}

  lemma EmptiedAt(pending: map<Name, PendingFile>, taken: set<Name>, n: Name)
    ensures n in Emptied(pending, taken) <==> n in pending
    ensures n in pending && n !in taken ==> Emptied(pending, taken)[n] == pending[n]
  {}

  lemma NoView(image: Image, es: seq<Entry>)
    ensures AllAcceptable(es[..0]) && ViewOf(TreeOf(image, es[..0])) == map[]
  {}

  lemma OneMoreVisible(image: Image, es: seq<Entry>, i: nat)
    requires AllAcceptable(es) && Readable(image, es) && DistinctNames(es) && i < |es|
    ensures AllAcceptable(es[..i + 1]) && AllAcceptable(es[..i])
    ensures ViewOf(TreeOf(image, es[..i + 1]))
         == ViewOf(TreeOf(image, es[..i]))[es[i].name := MountNode(es[i].directory, es[i].size, es[i].modifiedTime)]
  {
    hide FileBytes, Acceptable, Names, TreeOf;
    var so, more := es[..i], es[..i + 1];
    var t := TreeOf(image, so)[es[i].name := NodeOf(image, es[i])];
    NamesSnoc(es, i);
    forall k | 0 <= k < |more| ensures more[k].name in t && t[more[k].name] == NodeOf(image, more[k]) {
      if k < i {
        TreeAt(image, so, k);
      }
    }
    EntryOps.TreeFromEntries(image, more, t);
    NodeSize(image, es[i]);
  }

  lemma NodeSize(image: Image, e: Entry)
    requires Acceptable(e) && (!e.directory ==> FileBytes(image, e).Some?)
    ensures NodeView(NodeOf(image, e)) == MountNode(e.directory, e.size, e.modifiedTime)
  {
    hide FileBytes, ValidPath;
    if !e.directory {
      Relocation.CarriedSize(image, e);
    }
  }

  /** What the filesystem returns for a name is what its tree has there. */
  lemma FileBehind(image: Image, es: seq<Entry>, name: Name)
    requires AllAcceptable(es) && Readable(image, es)
    ensures
      var k := Find(es, name);
      && (name in TreeOf(image, es) <==> k < |es|)
      && (k < |es| ==> (TreeOf(image, es)[name].File? <==> !es[k].directory))
      && (k < |es| && !es[k].directory ==>
        && FileBytes(image, es[k]) == Some(TreeOf(image, es)[name].bytes)
        && |TreeOf(image, es)[name].bytes| == es[k].size)
  {
    hide FileBytes, Acceptable, TreeOf, Find;
    EntryOps.TreeHas(image, es, name);
    var k := Find(es, name);
    if k < |es| && !es[k].directory {
      Relocation.CarriedSize(image, es[k]);
    }
  }

  lemma StagedNotDirectory(t: Tree, pending: map<Name, PendingFile>, batch: seq<FileWrite>)
    requires FromStaged(pending, batch)
    ensures (forall n :: n in pending ==> !IsDir(t, n)) ==> forall n :: n in pending ==> !IsDir(PutAll(t, batch), n)
    ensures batch == [] ==> PutAll(t, batch) == t
  {}

  lemma LeftOut(pending: map<Name, PendingFile>, taken: set<Name>)
    ensures Emptied(pending, taken) - taken == pending - taken
  {}

  /** The child of directory `name` on the way to `entry`. */
  function ChildOf(entry: Name, name: Name): Option<Name>
  {
    var prefix := if name == [] then [] else name + [SLASH];
    if |entry| > |prefix| && entry[..|prefix|] == prefix then
      var rest := entry[|prefix|..];
      Some(rest[..FindSlash(rest, 0)])
    else None
  }

  function Joined(dir: Name, name: Name): Name
  {
    if dir == [] then name else dir + [SLASH] + name
  }

  /** In a well-formed namespace the children of a directory are exactly the names of the entries directly in it. */
  lemma ChildrenAreEntries(t: Tree, dir: Name, c: Name)
    requires Namespace(t) && c != []
    ensures (exists n :: n in t && ChildOf(n, dir) == Some(c)) <==> SLASH !in c && Joined(dir, c) in t
  {
    hide Namespace;
    var full := Joined(dir, c);
    var prefix := if dir == [] then [] else dir + [SLASH];
    assert full == prefix + c;
    if SLASH !in c && full in t {
      assert full[..|prefix|] == prefix && full[|prefix|..] == c && FindSlash(c, 0) == |c| && c[..|c|] == c;
      assert ChildOf(full, dir) == Some(c);
    }
    if n :| n in t && ChildOf(n, dir) == Some(c) {
      var rest := n[|prefix|..];
      assert n == prefix + rest && c == rest[..|c|];
      assert n[..|full|] == full;
      if |c| < |rest| {
        assert n[|full|] == rest[|c|] == SLASH;
        TreeAncestor(t, n, full);
      } else {
        assert n == full;
      }
    }
  }

  lemma ViewHas(t: Tree, n: Name)
    ensures n in ViewOf(t) <==> n in t
    ensures n in t ==> ViewOf(t)[n] == NodeView(t[n]) && (NodeView(t[n]).directory <==> IsDir(t, n))
    ensures n !in t ==> !IsDir(t, n)
  {}

  lemma SameChildren(t: Tree, dir: Name, c: Name)
    ensures (exists n :: n in ViewOf(t) && ChildOf(n, dir) == Some(c)) <==> (exists n :: n in t && ChildOf(n, dir) == Some(c))
  {
    hide ChildOf;
  }

  lemma CreatedTree(t: Tree, n: Name)
    ensures Apply(t, CreateDirectory(n)).Some? ==>
      Apply(t, CreateDirectory(n)).value == t[n := Dir(0)] && IsDir(t[n := Dir(0)], n)
  {}

  lemma DirectoryView()
    ensures NodeView(Dir(0)) == MountNode(true, 0, 0)
  {}

  lemma OthersStillFiles(t: Tree, pending: map<Name, PendingFile>, name: Name)
    requires name !in pending && forall n :: n in pending ==> !IsDir(t, n)
    ensures forall n :: n in pending ==> !IsDir(t[name := Dir(0)], n)
  {}

  lemma EntryOfDirectory(image: Image, es: seq<Entry>, name: Name)
    requires AllAcceptable(es) && name in TreeOf(image, es) && TreeOf(image, es)[name] == Dir(0)
    ensures Find(es, name) < |es|
    ensures
      var e := es[Find(es, name)];
      e.directory && e.size == 0 && e.modifiedTime == 0
  {}

  lemma RemoveApplies(t: Tree, n: Name)
    ensures Apply(t, RemoveFile(n)) == if n in t && t[n].File? then Some(t - {n}) else None
  {}

  lemma StillFiles(t: Tree, pending: map<Name, PendingFile>, name: Name)
    requires forall n :: n in pending ==> !IsDir(t, n)
    ensures forall n :: n in pending ==> !IsDir(t - {name}, n)
    ensures forall n :: n in pending - {name} ==> !IsDir(t - {name}, n)
  {}

  lemma RemoveDirectoryApplies(t: Tree, pending: map<Name, PendingFile>, name: Name)
    requires forall n :: n in pending ==> !IsDir(t, n)
    ensures Apply(t, RemoveDirectory(name)).Some? ==>
      Apply(t, RemoveDirectory(name)).value == t - {name} && name !in pending && IsDir(OverlayOf(t, pending), name)
    ensures Apply(t, RemoveDirectory(name)).Some? && (forall n :: n in pending ==> !Inside(n, name)) ==>
      forall n :: n in OverlayOf(t, pending) ==> !Inside(n, name)
    ensures Apply(t, RemoveDirectory(name)).None? && IsDir(OverlayOf(t, pending), name) ==>
      exists n :: n in OverlayOf(t, pending) && Inside(n, name)
  {
    if Apply(t, RemoveDirectory(name)).None? && IsDir(OverlayOf(t, pending), name) {
      var n :| n in t && Inside(n, name);
      StagedInside(t, pending, name, n);
    }
  }

  lemma StagedInside(t: Tree, pending: map<Name, PendingFile>, name: Name, n: Name)
    requires (n in pending || n in t) && Inside(n, name)
    ensures n in OverlayOf(t, pending) && Inside(n, name)
  {}

  lemma MinLeast(a: nat, b: nat)
    ensures Min(a, b) <= a && Min(a, b) <= b
  {}

  lemma TreeFile(t: Tree, n: Name)
    ensures n in t && t[n].File? ==> !IsDir(t, n)
  {}

  lemma StagedIs(p: PendingFile)
    ensures StagedNode(p) == File(p.bytes, p.modifiedTime)
  {}

  lemma StagedView(p: PendingFile)
    ensures NodeView(StagedNode(p)) == MountNode(false, |p.bytes|, p.modifiedTime)
  {}

  lemma ChosenSnoc(pending: map<Name, PendingFile>, paths: seq<Name>, i: nat)
    requires i < |paths|
    ensures Chosen(pending, paths[..0]) == {}
    ensures Chosen(pending, paths[..i + 1])
         == Chosen(pending, paths[..i])
            + if Normalize(paths[i]) in pending && pending[Normalize(paths[i])].bytes != [] then {Normalize(paths[i])} else {}
  {
    hide Normalize;
    assert paths[..i + 1] == paths[..i] + [paths[i]];
  }

  lemma ChosenOne(pending: map<Name, PendingFile>, path: Name)
    ensures Chosen(pending, [path])
         == if Normalize(path) in pending && pending[Normalize(path)].bytes != [] then {Normalize(path)} else {}
  {
    hide Normalize;
    ChosenSnoc(pending, [path], 0);
    assert [path][..1] == [path];
  }

  lemma NormalizeTwice(path: Name)
    ensures Normalize(Normalize(path)) == Normalize(path)
  {}

  lemma NormalWith(pending: map<Name, PendingFile>, n: Name, p: PendingFile)
    requires AllNormal(pending) && Normalize(n) == n
    ensures AllNormal(pending[n := p])
  {}

  lemma NormalWithout(pending: map<Name, PendingFile>, names: set<Name>)
    ensures AllNormal(pending) ==> AllNormal(pending - names)
  {}

  /** Every staged name is normalized, so choosing all ready names leaves only empty files. */
  lemma AllChosen(pending: map<Name, PendingFile>, paths: seq<Name>)
    requires AllNormal(pending) && forall n :: n in pending && pending[n].bytes != [] ==> n in paths
    ensures forall n :: n in pending && pending[n].bytes != [] ==> n in Chosen(pending, paths)
  {
    hide Normalize;
    forall n | n in pending && pending[n].bytes != [] ensures n in Chosen(pending, paths) {
      assert n in paths && Normalize(n) == n;
    }
  }

  /**
    On an empty volume with a staged file "a", the filesystem admits a directory "a". The cached
    namespace then shows a directory where the overlay has the staged file.
   */
  lemma DirectoryOverStaged()
    ensures
      var a: Name, staged := [0x61], PendingFile([], 0);
      var t: Tree, pending := map[], map[a := staged];
      var u := Apply(t, CreateDirectory(a));
      && Normalize(a) == a && u.Some? && IsDir(u.value, a) && OverlayOf(u.value, pending)[a] == StagedNode(staged)
      && ViewOf(OverlayOf(t, pending))[a := MountNode(true, 0, 0)] != ViewOf(OverlayOf(u.value, pending))
  {
    var a: Name, staged := [0x61], PendingFile([], 0);
    var t: Tree, pending := map[], map[a := staged];
    assert FindSlash(a, 0) == 1;
    var u := t[a := Dir(0)];
    assert Apply(t, CreateDirectory(a)) == Some(u);
    assert ViewOf(OverlayOf(u, pending))[a] == MountNode(false, 0, 0);
  }

  lemma NothingStaged(t: Tree)
    ensures OverlayOf(t, map[]) == t && AllNormal(map[])
  {}

  class LiveMountBackend {
    const filesystem: FS.Filesystem
    var visible: map<Name, MountNode>
    var pending: map<Name, PendingFile>
    var persistencePending: bool

    /** What the mount shows, contents included. */
    ghost function Overlay(): Tree
      requires filesystem.Sound()
      reads this, filesystem, filesystem.flash
    {
      OverlayOf(filesystem.Tree(), pending)
    }

    /** The cached namespace is the overlay's, and nothing staged covers a directory. */
    ghost predicate Consistent()
      reads this, filesystem, filesystem.flash
    {
      && filesystem.Sound() && visible == ViewOf(Overlay()) && AllNormal(pending)
      && forall n :: n in pending ==> !IsDir(filesystem.Tree(), n)
    }

    constructor (fs: FS.Filesystem)
      requires fs.Sound()
      ensures filesystem == fs && pending == map[] && !persistencePending
      ensures Consistent()
    {
      filesystem := fs;
      pending, persistencePending := map[], false;
      visible := map[];
      new;
      hide *;
      LoadVisible();
      EmptyOverlay();
    }

    /** Lists every committed entry. */
    method LoadVisible()
      requires filesystem.Sound() && visible == map[]
      modifies this`visible
      ensures AllAcceptable(filesystem.entries)
      ensures visible == ViewOf(TreeOf(filesystem.flash.image, filesystem.entries))
    {
      hide *;
      filesystem.SoundParts();
      var es := filesystem.entries;
      var i := 0;
      NoView(filesystem.flash.image, es);
      while i < |es|
        invariant 0 <= i <= |es| && AllAcceptable(es[..i])
        invariant visible == ViewOf(TreeOf(filesystem.flash.image, es[..i]))
        modifies this`visible
      {
        var e := es[i];
        OneMoreVisible(filesystem.flash.image, es, i);
        visible := visible[e.name := MountNode(e.directory, e.size, e.modifiedTime)];
        i := i + 1;
      }
      assert es[..i] == es;
    }

    lemma EmptyOverlay()
      requires filesystem.Sound() && pending == map[] && AllAcceptable(filesystem.entries)
      requires visible == ViewOf(TreeOf(filesystem.flash.image, filesystem.entries))
      ensures Consistent()
    {
      hide *;
      filesystem.SoundParts();
      OverlayIs();
      NothingStaged(filesystem.Tree());
    }

    // ----- Reading the mount -----

    method Lookup(path: Name) returns (found: bool, node: MountNode)
      ensures Normalize(path) == [] ==> found && node == MountNode(true, 0, 0)
      ensures Normalize(path) != [] ==> (found <==> Normalize(path) in visible) && (found ==> node == visible[Normalize(path)])
      ensures Consistent() && Normalize(path) != [] ==>
        && (found <==> Normalize(path) in Overlay())
        && (found ==> node == NodeView(Overlay()[Normalize(path)]))
    {
      hide ViewOf, OverlayOf, NodeView, filesystem.Sound, filesystem.Tree;
      var name := Normalize(path);
      if name == [] {
        return true, MountNode(true, 0, 0);
      }
      if Consistent() {
        ViewHas(Overlay(), name);
      }
      if name in visible {
        return true, visible[name];
      }
      return false, MountNode(false, 0, 0);
    }

    /** Staged bytes first, then the filesystem: a read returns a slice of what the overlay holds. */
    method Read(path: Name, offset: nat, size: nat) returns (ok: bool, bytes: seq<byte>)
      requires filesystem.Sound()
      ensures ok ==>
        && Normalize(path) in Overlay() && Overlay()[Normalize(path)].File?
        && var all := Overlay()[Normalize(path)].bytes;
        && offset <= |all| && bytes == all[offset..offset + Min(size, |all| - offset)]
      ensures filesystem.flash.faithful && !ok && Normalize(path) in Overlay() && Overlay()[Normalize(path)].File? ==>
        offset > |Overlay()[Normalize(path)].bytes|
    {
      hide *;
      filesystem.SoundParts();
      OverlayIs();
      var name := Normalize(path);
      OverlayHas(filesystem.Tree(), pending, name);
      if name in pending {
        var all := pending[name].bytes;
        if offset > |all| {
          return false, [];
        }
        MinLeast(size, |all| - offset);
        return true, all[offset..offset + Min(size, |all| - offset)];
      }
      FileBehind(filesystem.flash.image, filesystem.entries, name);
      ok, bytes := filesystem.ReadFileRange(name, offset, size);
    }

    // ----- Committing -----

    /** Writes what is pending to the storage behind the filesystem; `persists` is whether that succeeds. */
    method PersistPendingChanges(persists: bool) returns (ok: bool)
      modifies this`persistencePending
      ensures ok == !persistencePending == (!old(persistencePending) || persists)
    {
      if !persistencePending {
        return true;
      }
      if !persists {
        return false;
      }
      persistencePending := false;
      ok := true;
    }

    /** The staged, non-empty files among the paths, with their bytes moved out of the staging area. */
    method TakeBatch(paths: seq<Name>) returns (batch: seq<FileWrite>)
      modifies this`pending
      ensures FromStaged(old(pending), batch) && pending == Emptied(old(pending), FilePaths(batch))
      ensures FilePaths(batch) == Chosen(old(pending), paths)
    {
      hide Normalize, FromStaged, Emptied, FilePaths;
      batch := [];
      var taken: set<Name> := {};
      NothingTaken(pending, batch);
      ghost var staged := pending;
      var i := 0;
      while i < |paths|
        invariant 0 <= i <= |paths|
        invariant FromStaged(staged, batch) && taken == FilePaths(batch) && pending == Emptied(staged, taken)
        invariant taken == Chosen(staged, paths[..i])
      {
        ChosenSnoc(staged, paths, i);
        var name := Normalize(paths[i]);
        EmptiedAt(staged, taken, name);
        if name in pending && pending[name].bytes != [] && name !in taken {
          SelectOne(staged, batch, taken, name);
          batch := batch + [FileWrite(name, pending[name].bytes, pending[name].modifiedTime)];
          pending := pending[name := PendingFile([], pending[name].modifiedTime)];
          taken := taken + {name};
        }
        i := i + 1;
      }
      assert paths[..i] == paths;
    }

    method RestoreStagedBytes(batch: seq<FileWrite>, ghost staged: map<Name, PendingFile>)
      requires FromStaged(staged, batch) && pending == Emptied(staged, FilePaths(batch))
      modifies this`pending
      ensures pending == staged
    {
      hide FromStaged, Emptied, FilePaths;
      var i := 0;
      assert batch[0..] == batch;
      while i < |batch|
        invariant 0 <= i <= |batch| && pending == Emptied(staged, FilePaths(batch[i..]))
      {
        RestoreOne(staged, batch, i);
        pending := pending[batch[i].path := PendingFile(batch[i].bytes, pending[batch[i].path].modifiedTime)];
        i := i + 1;
      }
      NothingTaken(staged, batch[i..]);
    }

    /**
      Commits the named staged files in one filesystem transaction. Neither success nor a failure
      of the filesystem or of the storage behind it changes anything the mount shows.
     */
    method CommitSelected(paths: seq<Name>, persists: bool) returns (ok: bool, ghost batch: seq<FileWrite>, ghost stored: bool)
      requires filesystem.Usable() && filesystem.Sound() && (filesystem.tame ==> TameStaged(pending))
      modifies this, filesystem, filesystem.flash
      ensures filesystem.Sound() && (filesystem.commitFailed || filesystem.Usable())
      ensures Overlay() == old(Overlay()) && visible == old(visible)
      ensures old(Consistent()) ==> Consistent()
      ensures FromStaged(old(pending), batch) && FilePaths(batch) == Chosen(old(pending), paths)
      ensures ok ==> !filesystem.commitFailed && !persistencePending && pending == old(pending) - FilePaths(batch)
      ensures ok ==> filesystem.Tree() == PutAll(old(filesystem.Tree()), batch)
      ensures !ok ==> pending == old(pending)
      ensures filesystem.Tree() == old(filesystem.Tree())
        || (filesystem.Tree() == PutAll(old(filesystem.Tree()), batch) && (ok || persistencePending))
      ensures !ok && old(persistencePending) ==> persistencePending
      ensures PutAnswered(filesystem.flash.faithful, old(filesystem.Now()), batch, stored, filesystem.Now())
      ensures ok <==> stored && (persists || (batch == [] && !old(persistencePending)))
      ensures !ok && stored ==> persistencePending
      ensures filesystem.commitFailed && filesystem.flash.checksumSound ==>
        SlotsHold(filesystem.flash.image, old(filesystem.Tree()))
        || SlotsHold(filesystem.flash.image, PutAll(old(filesystem.Tree()), batch))
      ensures filesystem.commitFailed && filesystem.flash.checksumSound && filesystem.tame ==>
        RecoversTo(filesystem.flash.image, old(filesystem.Tree()))
        || RecoversTo(filesystem.flash.image, PutAll(old(filesystem.Tree()), batch))
    {
      hide *;
      filesystem.UsableParts();
      ghost var staged, t := pending, filesystem.Tree();
      OverlayIs();
      var files := TakeBatch(paths);
      batch := files;
      Planning.PutSpec(t, files);
      CommittedOverlay(t, staged, files);
      StagedNotDirectory(t, staged, files);
      LeftOut(staged, FilePaths(files));
      NormalWithout(staged, FilePaths(files));
      if files == [] {
        stored := true;
        filesystem.NowIs();
        NothingToPut(filesystem.flash.faithful, filesystem.Now(), files);
        NothingTaken(staged, files);
        ok := PersistPendingChanges(persists);
        OverlayIs();
        return;
      }
      if filesystem.tame {
        TameBatch(staged, files);
      }
      var put := PutBatch(files);
      stored := put;
      if !put {
        RestoreStagedBytes(files, staged);
        OverlayIs();
        ok := false;
        return;
      }
      persistencePending := true;
      ok := PersistPendingChanges(persists);
      if !ok {
        RestoreStagedBytes(files, staged);
        OverlayIs();
        return;
      }
      pending := pending - FilePaths(files);
      OverlayIs();
    }

    method PutBatch(files: seq<FileWrite>) returns (ok: bool)
      requires filesystem.Usable() && filesystem.Sound() && (filesystem.tame ==> Tame.TameFiles(files))
      modifies filesystem, filesystem.flash
      ensures filesystem.Sound() && (filesystem.commitFailed || filesystem.Usable()) && (ok ==> !filesystem.commitFailed)
      ensures filesystem.Tree() == if ok then PutAll(old(filesystem.Tree()), files) else old(filesystem.Tree())
      ensures PutAnswered(filesystem.flash.faithful, old(filesystem.Now()), files, ok, filesystem.Now())
      ensures filesystem.commitFailed && filesystem.flash.checksumSound ==>
        SlotsHold(filesystem.flash.image, old(filesystem.Tree()))
        || SlotsHold(filesystem.flash.image, PutAll(old(filesystem.Tree()), files))
      ensures filesystem.commitFailed && filesystem.flash.checksumSound && filesystem.tame ==>
        RecoversTo(filesystem.flash.image, old(filesystem.Tree()))
        || RecoversTo(filesystem.flash.image, PutAll(old(filesystem.Tree()), files))
    {
      hide *;
      filesystem.UsableParts();
      filesystem.NowIs();
      ghost var t, before := filesystem.Tree(), filesystem.Now();
      Planning.PutSpec(t, files);
      var why;
      ghost var repack;
      ok, why, repack := filesystem.PutFiles(files);
      if filesystem.tame && filesystem.flash.checksumSound && filesystem.commitFailed {
        NextOpenAfter(filesystem, t, TreeSpec.PutFiles(files), ok);
      }
      PutAnsweredIs(filesystem.flash.faithful, before, files, repack, why, filesystem.Now());
      filesystem.RefinesParts(t, TreeSpec.PutFiles(files), ok);
    }

    lemma OverlayIs()
      requires filesystem.Sound()
      ensures Overlay() == OverlayOf(filesystem.Tree(), pending)
      ensures
        Consistent() <==> visible == ViewOf(Overlay()) && AllNormal(pending) && forall n :: n in pending ==> !IsDir(filesystem.Tree(), n)
    {
      hide OverlayOf, ViewOf, filesystem.Sound, filesystem.Tree, IsDir;
    }

    /** Commits one staged file. */
    method CommitFile(path: Name, persists: bool) returns (ok: bool, ghost batch: seq<FileWrite>, ghost stored: bool)
      requires filesystem.Usable() && filesystem.Sound() && (filesystem.tame ==> TameStaged(pending))
      modifies this, filesystem, filesystem.flash
      ensures filesystem.Sound() && (filesystem.commitFailed || filesystem.Usable())
      ensures Overlay() == old(Overlay()) && visible == old(visible)
      ensures old(Consistent()) ==> Consistent()
      ensures !ok ==> pending == old(pending)
      ensures ok ==> pending == old(pending) - Chosen(old(pending), [path])
      ensures FromStaged(old(pending), batch) && FilePaths(batch) == Chosen(old(pending), [path])
      ensures PutAnswered(filesystem.flash.faithful, old(filesystem.Now()), batch, stored, filesystem.Now())
      ensures ok <==> stored && (persists || (batch == [] && !old(persistencePending)))
      ensures !ok && stored ==> persistencePending
      ensures ok && Normalize(path) in old(pending) && old(pending)[Normalize(path)].bytes != [] ==>
        && Normalize(path) in filesystem.Tree() && filesystem.Tree()[Normalize(path)] == StagedNode(old(pending)[Normalize(path)])
        && Normalize(path) !in pending
    {
      hide *;
      ghost var t, staged := filesystem.Tree(), pending;
      ChosenOne(staged, path);
      ok, batch, stored := CommitSelected([path], persists);
      if ok && Normalize(path) in FilePaths(batch) {
        Committed(t, staged, batch, Normalize(path));
      }
    }

    /** Commits every staged file that is not empty; empty ones stay in memory. */
    method Commit(persists: bool) returns (ok: bool, ghost batch: seq<FileWrite>, ghost stored: bool)
      requires filesystem.Usable() && filesystem.Sound() && (filesystem.tame ==> TameStaged(pending))
      modifies this, filesystem, filesystem.flash
      ensures filesystem.Sound() && (filesystem.commitFailed || filesystem.Usable())
      ensures Overlay() == old(Overlay()) && visible == old(visible)
      ensures old(Consistent()) ==> Consistent()
      ensures !ok ==> pending == old(pending)
      ensures ok && old(Consistent()) ==> forall n :: n in pending ==> pending[n].bytes == []
      ensures FromStaged(old(pending), batch)
      ensures PutAnswered(filesystem.flash.faithful, old(filesystem.Now()), batch, stored, filesystem.Now())
      ensures ok <==> stored && (persists || (batch == [] && !old(persistencePending)))
      ensures !ok && stored ==> persistencePending
      ensures filesystem.commitFailed && filesystem.flash.checksumSound ==>
        SlotsHold(filesystem.flash.image, old(filesystem.Tree()))
        || SlotsHold(filesystem.flash.image, PutAll(old(filesystem.Tree()), batch))
      ensures filesystem.commitFailed && filesystem.flash.checksumSound && filesystem.tame ==>
        RecoversTo(filesystem.flash.image, old(filesystem.Tree()))
        || RecoversTo(filesystem.flash.image, PutAll(old(filesystem.Tree()), batch))
    {
      hide *;
      var paths := ReadyPaths();
      OverlayIs();
      if AllNormal(pending) {
        AllChosen(pending, paths);
      }
      ok, batch, stored := CommitSelected(paths, persists);
    }

    method ReadyPaths() returns (paths: seq<Name>)
      ensures forall n :: n in pending && pending[n].bytes != [] ==> n in paths
    {
      paths := [];
      var left := pending.Keys;
      while left != {}
        invariant left <= pending.Keys
        invariant forall n :: n in pending && pending[n].bytes != [] ==> n in left || n in paths
        decreases left
      {
        var n :| n in left;
        if pending[n].bytes != [] {
          paths := paths + [n];
        }
        left := left - {n};
      }
    }

    // ----- Staging -----

    method CreateFile(path: Name, now: u64) returns (ok: bool)
      requires Consistent() && filesystem.Usable()
      modifies this`pending, this`visible
      ensures Consistent()
      ensures
        var name := Normalize(path);
        && (ok <==> ValidPath(name) && ParentOk(filesystem.Tree(), name) && name !in old(Overlay()))
        && Overlay() == if ok then old(Overlay())[name := File([], now)] else old(Overlay())
    {
      hide *;
      var name := Normalize(path);
      ConsistentParts();
      OverlayIs();
      filesystem.UsableParts();
      OverlayHas(filesystem.Tree(), pending, name);
      EditSteps.ParentIsOk(filesystem.flash.image, filesystem.entries, name);
      EntryOps.TreeHas(filesystem.flash.image, filesystem.entries, name);
      var valid := CheckPath(name);
      if name in pending || !valid || !EditSteps.ParentExists(filesystem.entries, name) || Find(filesystem.entries, name) < |filesystem.entries| {
        return false;
      }
      ok := true;
      NormalizeTwice(path);
      StagedIs(PendingFile([], now));
      Stage(name, PendingFile([], now));
    }

    /** Puts a staged file in place and shows it. */
    method Stage(name: Name, file: PendingFile)
      requires Consistent() && filesystem.Sound() && !IsDir(filesystem.Tree(), name) && Normalize(name) == name
      modifies this`pending, this`visible
      ensures Consistent() && filesystem.Sound()
      ensures Overlay() == old(Overlay())[name := StagedNode(file)]
    {
      hide *;
      OverlayIs();
      OverlayPut(filesystem.Tree(), pending, name, file);
      NormalWith(pending, name, file);
      StagedView(file);
      pending := pending[name := file];
      visible := visible[name := MountNode(false, |file.bytes|, file.modifiedTime)];
      OverlayIs();
    }

    /** The staged copy of a file; the filesystem's contents if it has not been staged yet. */
    method StageFile(name: Name) returns (ok: bool, bytes: seq<byte>)
      requires Consistent() && filesystem.Usable()
      ensures ok ==> name in Overlay() && Overlay()[name].File? && Overlay()[name].bytes == bytes && !IsDir(filesystem.Tree(), name)
      ensures filesystem.flash.faithful ==> (ok <==> name in Overlay() && Overlay()[name].File?)
    {
      hide *;
      ConsistentParts();
      OverlayIs();
      filesystem.UsableParts();
      OverlayHas(filesystem.Tree(), pending, name);
      if name in pending {
        return true, pending[name].bytes;
      }
      Planning.PublishableReads(filesystem.flash.image, filesystem.entries);
      FileBehind(filesystem.flash.image, filesystem.entries, name);
      ok, bytes := filesystem.ReadFile(name);
      TreeFile(filesystem.Tree(), name);
    }

    method Write(path: Name, offset: nat, data: seq<byte>, now: u64) returns (ok: bool)
      requires Consistent() && filesystem.Usable()
      modifies this`pending, this`visible
      ensures Consistent()
      ensures ok ==> Normalize(path) in old(Overlay()) && old(Overlay())[Normalize(path)].File?
      ensures ok ==>
        var name := Normalize(path);
        Overlay() == old(Overlay())[name := File(Overwrite(old(Overlay())[name].bytes, offset, data), now)]
      ensures ok ==> Written(old(Overlay())[Normalize(path)].bytes, offset, data, Overlay()[Normalize(path)].bytes)
      ensures !ok ==> Overlay() == old(Overlay())
      ensures filesystem.flash.faithful ==> (ok <==> Normalize(path) in old(Overlay()) && old(Overlay())[Normalize(path)].File?)
    {
      hide *;
      ConsistentParts();
      var name, bytes := Normalize(path), [];
      ok, bytes := StageFile(name);
      if !ok {
        return;
      }
      NormalizeTwice(path);
      StagedIs(PendingFile(Overwrite(bytes, offset, data), now));
      OverwriteWrites(bytes, offset, data, now);
      Stage(name, PendingFile(Overwrite(bytes, offset, data), now));
    }

    method Truncate(path: Name, size: nat, now: u64) returns (ok: bool)
      requires Consistent() && filesystem.Usable()
      modifies this`pending, this`visible
      ensures Consistent()
      ensures ok ==> Normalize(path) in old(Overlay()) && old(Overlay())[Normalize(path)].File?
      ensures ok ==>
        var name := Normalize(path);
        Overlay() == old(Overlay())[name := File(Resized(old(Overlay())[name].bytes, size), now)]
      ensures ok ==> Truncated(old(Overlay())[Normalize(path)].bytes, size, Overlay()[Normalize(path)].bytes)
      ensures !ok ==> Overlay() == old(Overlay())
      ensures filesystem.flash.faithful ==> (ok <==> Normalize(path) in old(Overlay()) && old(Overlay())[Normalize(path)].File?)
    {
      hide *;
      ConsistentParts();
      var name, bytes := Normalize(path), [];
      ok, bytes := StageFile(name);
      if !ok {
        return;
      }
      NormalizeTwice(path);
      StagedIs(PendingFile(Resized(bytes, size), now));
      ResizedTruncates(bytes, size, now);
      Stage(name, PendingFile(Resized(bytes, size), now));
    }

    lemma ConsistentParts()
      requires Consistent()
      ensures filesystem.Sound() && visible == ViewOf(Overlay())
    {
      hide ViewOf, filesystem.Sound, IsDir;
    }

    // ----- The namespace -----

    /** The first components below a directory, each once. */
    method List(path: Name) returns (ok: bool, children: seq<Name>)
      ensures
        var name := Normalize(path);
        ok <==> name == [] || (name in visible && visible[name].directory)
      ensures ok ==> forall c :: c in children <==> exists n :: n in visible && ChildOf(n, Normalize(path)) == Some(c)
      ensures forall i, j :: 0 <= i < j < |children| ==> children[i] != children[j]
      ensures Consistent() ==> (ok <==> Normalize(path) == [] || IsDir(Overlay(), Normalize(path)))
      ensures Consistent() && ok && Namespace(Overlay()) ==>
        forall c :: c != [] ==> (c in children <==> SLASH !in c && Joined(Normalize(path), c) in Overlay())
    {
      hide Normalize, ChildOf, ViewOf, OverlayOf, NodeView, filesystem.Sound, filesystem.Tree, Namespace, Joined, IsDir;
      var name := Normalize(path);
      children := [];
      if Consistent() {
        ViewHas(Overlay(), name);
      }
      if name != [] && (name !in visible || !visible[name].directory) {
        return false, [];
      }
      var left := visible.Keys;
      while left != {}
        invariant left <= visible.Keys
        invariant forall c :: c in children <==> exists n :: n in visible && n !in left && ChildOf(n, name) == Some(c)
        invariant forall i, j :: 0 <= i < j < |children| ==> children[i] != children[j]
        decreases left
      {
        var n :| n in left;
        var child := ChildOf(n, name);
        if child.Some? && child.value !in children {
          children := children + [child.value];
        }
        left := left - {n};
      }
      ok := true;
      if Consistent() && Namespace(Overlay()) {
        forall c | c != [] ensures c in children <==> SLASH !in c && Joined(name, c) in Overlay() {
          SameChildren(Overlay(), name, c);
          ChildrenAreEntries(Overlay(), name, c);
        }
      }
    }

    /** A new directory; it must not be created over a staged file of the same name. */
    method CreateDirectory(path: Name) returns (ok: bool)
      requires Consistent() && filesystem.Usable()
      modifies this, filesystem, filesystem.flash
      ensures filesystem.Sound() && (filesystem.commitFailed || filesystem.Usable()) && (ok ==> !filesystem.commitFailed)
      ensures pending == old(pending)
      ensures persistencePending == (ok || old(persistencePending))
      ensures ok ==> (Consistent() <==> Normalize(path) !in pending)
      ensures ok && Normalize(path) !in pending ==> Overlay() == old(Overlay())[Normalize(path) := Dir(0)]
      ensures !ok ==> Consistent() && Overlay() == old(Overlay())
      ensures !ok && !filesystem.commitFailed ==>
        || Apply(old(filesystem.Tree()), TreeSpec.CreateDirectory(Normalize(path))).None?
        || EditSteps.Refused(EntryOps.Upsert(old(filesystem.entries), DirectoryEntry(Normalize(path))), old(filesystem.generation))
    {
      hide *;
      ConsistentParts();
      OverlayIs();
      var name := Normalize(path);
      ghost var t := filesystem.Tree();
      ok := filesystem.CreateDirectory(name);
      filesystem.RefinesParts(t, TreeSpec.CreateDirectory(name), ok);
      OverlayIs();
      if !ok {
        return;
      }
      persistencePending := true;
      CreatedTree(t, name);
      PublishFilesystemEntry(name);
      if name !in pending {
        OverlayTree(t, pending, name, Dir(0));
        DirectoryView();
        OthersStillFiles(t, pending, name);
      } else {
        assert IsDir(filesystem.Tree(), name);
      }
      OverlayIs();
    }

    method PublishFilesystemEntry(name: Name)
      requires filesystem.Sound() && name in filesystem.Tree() && filesystem.Tree()[name] == Dir(0)
      modifies this`visible
      ensures visible == old(visible)[name := MountNode(true, 0, 0)]
    {
      hide *;
      filesystem.SoundParts();
      EntryOfDirectory(filesystem.flash.image, filesystem.entries, name);
      var k := Find(filesystem.entries, name);
      if k == |filesystem.entries| {
        return;
      }
      var e := filesystem.entries[k];
      visible := visible[name := MountNode(e.directory, e.size, e.modifiedTime)];
    }

    /** Removes a file from the filesystem and from the staging area. */
    method RemoveFile(path: Name) returns (ok: bool)
      requires Consistent() && filesystem.Usable()
      modifies this, filesystem, filesystem.flash
      ensures Consistent() && (filesystem.commitFailed || filesystem.Usable()) && (ok ==> !filesystem.commitFailed)
      ensures ok ==> Normalize(path) in old(Overlay()) && old(Overlay())[Normalize(path)].File?
      ensures Overlay() == if ok then old(Overlay()) - {Normalize(path)} else old(Overlay())
      ensures persistencePending == (old(persistencePending) || (ok && Normalize(path) in old(filesystem.Tree())))
      ensures !ok && !filesystem.commitFailed && Normalize(path) in old(Overlay()) && old(Overlay())[Normalize(path)].File? ==>
        old(filesystem.generation) == EditSteps.LAST_GENERATION
    {
      hide *;
      ConsistentParts();
      filesystem.UsableParts();
      OverlayIs();
      var name := Normalize(path);
      ghost var t := filesystem.Tree();
      OverlayHas(t, pending, name);
      Planning.PublishableReads(filesystem.flash.image, filesystem.entries);
      FileBehind(filesystem.flash.image, filesystem.entries, name);
      RemoveApplies(t, name);
      OverlayRemove(t, pending, name);
      NormalWithout(pending, {name});
      StillFiles(t, pending, name);
      var committed := Find(filesystem.entries, name) < |filesystem.entries| && !filesystem.entries[Find(filesystem.entries, name)].directory;
      if committed {
        ok := filesystem.RemoveFile(name);
        filesystem.RefinesParts(t, TreeSpec.RemoveFile(name), ok);
        if !ok {
          OverlayIs();
          return;
        }
        persistencePending := true;
        pending := pending - {name};
        visible := visible - {name};
        OverlayIs();
        return true;
      }
      if name in pending {
        pending := pending - {name};
        visible := visible - {name};
        OverlayIs();
        return true;
      }
      ok := false;
    }

    /** Removes an empty directory; staged files count as contents. */
    method RemoveDirectory(path: Name) returns (ok: bool)
      requires Consistent() && filesystem.Usable()
      modifies this, filesystem, filesystem.flash
      ensures Consistent() && (filesystem.commitFailed || filesystem.Usable()) && (ok ==> !filesystem.commitFailed)
      ensures ok ==> IsDir(old(Overlay()), Normalize(path)) && forall n :: n in old(Overlay()) ==> !Inside(n, Normalize(path))
      ensures Overlay() == if ok then old(Overlay()) - {Normalize(path)} else old(Overlay())
      ensures persistencePending == (ok || old(persistencePending))
      ensures !ok && !filesystem.commitFailed ==>
        || old(filesystem.generation) == EditSteps.LAST_GENERATION
        || !IsDir(old(Overlay()), Normalize(path)) || exists n :: n in old(Overlay()) && Inside(n, Normalize(path))
    {
      hide *;
      ConsistentParts();
      filesystem.UsableParts();
      OverlayIs();
      var name := Normalize(path);
      ghost var t := filesystem.Tree();
      if exists n :: n in pending && Inside(n, name) {
        ghost var n :| n in pending && Inside(n, name);
        StagedInside(t, pending, name, n);
        return false;
      }
      RemoveDirectoryApplies(t, pending, name);
      OverlayRemove(t, pending, name);
      StillFiles(t, pending, name);
      ok := filesystem.RemoveDirectory(name);
      filesystem.RefinesParts(t, TreeSpec.RemoveDirectory(name), ok);
      if !ok {
        OverlayIs();
        return;
      }
      persistencePending := true;
      visible := visible - {name};
      OverlayIs();
    }
  }
}
