/**
  The parts of mounting, formatting and the namespace operations that are functions of the image
  and the entry list: when an operation applies, and what its edit of the list means.
 */
module EditSteps {
  import opened Bytes
  import opened Paths
  import opened Manifest
  import opened Device
  import opened Opening
  import opened Volume
  import opened TreeSpec
  import opened EntryOps
  import Steps
  import CutSlots
  import ManifestProofs

  const LAST_GENERATION: u64 := 0xFFFF_FFFF_FFFF_FFFF

  /** `parentExists`. */
  predicate ParentExists(es: seq<Entry>, path: Name)
  {
    AtRoot(path) || (var k := Find(es, Parent(path)); k < |es| && es[k].directory)
  }

  lemma ParentIsOk(image: Image, es: seq<Entry>, path: Name)
    requires AllAcceptable(es)
    ensures ParentExists(es, path) <==> ParentOk(TreeOf(image, es), path)
  {
    if !AtRoot(path) {
      TreeHas(image, es, Parent(path));
    }
  }

  /** A commit the code refuses before it touches the flash. */
  predicate Refused(es: seq<Entry>, generation: u64)
  {
    !CommitAccepts(es) || generation == LAST_GENERATION
  }

  /** A freshly formatted flash. */
  lemma EmptyVolume(image: Image)
    requires forall b :: 0 <= b < BLOCK_COUNT && b != 1 ==> image[b] == BLANK_BLOCK
    requires CommitAccepts([]) && image[1] == SuperblockBytes(1, [])
    ensures RecoversTo(image, map[]) && QuietTail(image)
    ensures NewestSlot(image) == Some(Mounted([], 1, 1))
  {
    hide ParseSlot, SuperblockBytes, CommitAccepts;
    CutSlots.NoMarker(image[0]);
    RejectedSlot(image[0]);
    WrittenSlot(1, []);
    assert Durable(image, [], 1, 1) by { assert image[0] == image[1 - 1]; }
    DurableMounts(image, [], 1, 1);
    QuietBlank(image);
    QuietYields(image);
    hide NewestSlot, Durable, OpenedAs, TailYields;
    assert TreeOf(image, []).Keys == {};
    assert TreeOf(image, []) == map[];
  }

  lemma EmptyAccepted()
    ensures CommitAccepts([])
  {}

  lemma MountedAcceptable(b: Block)
    requires ParseSlot(b).Some?
    ensures AllAcceptable(ParseSlot(b).value.entries)
  {
    ManifestProofs.ParsedIsCommittable(b);
  }

  lemma EndInRange(e: Entry)
    requires Acceptable(e)
    ensures e.firstBlock + e.blockCount <= BLOCK_COUNT
  {}

  /** The cursor is the end of the last extent, or the start of the data range. */
  predicate CursorBehind(es: seq<Entry>, cursor: nat)
  {
    && cursor >= FIRST_DATA_BLOCK && (forall k :: 0 <= k < |es| ==> es[k].firstBlock + es[k].blockCount <= cursor)
    && (cursor == FIRST_DATA_BLOCK || exists k :: 0 <= k < |es| && es[k].firstBlock + es[k].blockCount == cursor)
  }

  lemma CursorNext(es: seq<Entry>, i: nat, cursor: nat)
    requires i < |es|
    requires exists was: nat :: CursorBehind(es[..i], was) && cursor == Max(was, es[i].firstBlock + es[i].blockCount)
    ensures CursorBehind(es[..i + 1], cursor)
  {}

  lemma DirectoryJoins(image: Image, es: seq<Entry>, path: Name)
    requires ValidPath(path)
    ensures Joins(image, es, DirectoryEntry(path)) && NodeOf(image, DirectoryEntry(path)) == Dir(0)
  {}

  /** A shorter list never exceeds the capacity of a superblock. */
  lemma RemoveAccepted(es: seq<Entry>, k: nat)
    requires CommitAccepts(es) && k < |es|
    ensures CommitAccepts(RemoveAt(es, k))
  {
    hide CommitAcceptsEntry, Names, RemoveAt, ManifestBytes, DistinctNames;
    RemoveAtIndex(es, k);
    RemoveNames(es, k);
    RemoveShorter(es, k);
    ManifestSize(es);
    ManifestSize(RemoveAt(es, k));
    forall i | 0 <= i < |es| - 1 ensures CommitAcceptsEntry(RemoveAt(es, k)[i]) {
      assert CommitAcceptsEntry(es[Skip(k, i)]);
    }
  }

  lemma ManifestSize(es: seq<Entry>)
    ensures |ManifestBytes(es)| == 4 + |EntriesBytes(es)|
  {}

  lemma {:induction false} RemoveShorter(es: seq<Entry>, k: nat)
    requires k < |es|
    ensures |EntriesBytes(RemoveAt(es, k))| <= |EntriesBytes(es)|
    decreases |es|
  {
    hide EntryBytes;
    var last := |es| - 1;
    if k == last {
      assert RemoveAt(es, k) == es[..last];
    } else {
      RemoveShorter(es[..last], k);
      assert RemoveAt(es, k)[..last - 1] == RemoveAt(es[..last], k);
    }
  }

  lemma NothingInside(image: Image, es: seq<Entry>, path: Name)
    requires AllAcceptable(es)
    ensures (exists i :: 0 <= i < |es| && Inside(es[i].name, path)) <==> (exists n :: n in TreeOf(image, es) && Inside(n, path))
  {}

  lemma NotAccepted(es: seq<Entry>)
    requires !DistinctNames(es)
    ensures !CommitAccepts(es)
  {}

  lemma OpenedAcceptable(image: Image, m: Mounted)
    requires OpenedAs(image) == Some(InSlots(m))
    ensures AllAcceptable(m.entries) && NewestSlot(image) == Some(m) && m.active < 2
  {
    hide ParseSlot, OpenedAs, TailYields;
    OpensSlots(image, m);
    MountedAcceptable(image[m.active]);
  }

  lemma LayoutIs(o: Opened)
    ensures LayoutOf(o) == if o.InSlots? then Transactional else DirectBoot
  {}

  /** What is loaded from slots that hold a tree. */
  lemma MountedTree(image: Image, t: Tree, es: seq<Entry>, generation: u64, active: nat)
    requires SlotsHold(image, t) && NewestSlot(image) == Some(Mounted(es, generation, active))
    ensures Steps.Good(image, es, generation, active) && AllAcceptable(es) && TreeOf(image, es) == t
  {
    hide NewestSlot, Durable, TreeOf;
  }

  // ----- When each operation applies, read off the entry list -----

  lemma CreateSpec(image: Image, es: seq<Entry>, path: Name)
    requires Publishable(image, es) && DistinctNames(es) && AllAcceptable(es)
    ensures
      var t, applies := TreeOf(image, es), ValidPath(path) && ParentExists(es, path) && Find(es, path) == |es|;
      && Apply(t, CreateDirectory(path)) == (if applies then Some(t[path := Dir(0)]) else None)
      && (applies ==>
        && Upsert(es, DirectoryEntry(path)) == es + [DirectoryEntry(path)]
        && Publishable(image, es + [DirectoryEntry(path)])
        && AllAcceptable(es + [DirectoryEntry(path)])
        && TreeOf(image, es + [DirectoryEntry(path)]) == t[path := Dir(0)])
  {
    hide Publishable, TreeOf, AllAcceptable, ParentExists, ParentOk, DistinctNames, ValidPath, Find, NodeOf;
    ParentIsOk(image, es, path);
    TreeHas(image, es, path);
    if ValidPath(path) && Find(es, path) == |es| {
      DirectoryJoins(image, es, path);
      UpsertPublishable(image, es, DirectoryEntry(path));
      PublishableParts(image, Upsert(es, DirectoryEntry(path)));
    }
  }

  lemma PublishableParts(image: Image, es: seq<Entry>)
    requires Publishable(image, es)
    ensures AllAcceptable(es)
  {}

  lemma RemoveFileSpec(image: Image, es: seq<Entry>, path: Name)
    requires Publishable(image, es) && DistinctNames(es) && AllAcceptable(es) && CommitAccepts(es)
    ensures
      var t, k := TreeOf(image, es), Find(es, path);
      && Apply(t, RemoveFile(path)) == (if k < |es| && !es[k].directory then Some(t - {path}) else None)
      && (k < |es| ==> RemovedOk(image, es, k, t - {path}))
  {
    hide Publishable, AllAcceptable, DistinctNames, CommitAccepts, Find, RemoveAt;
    TreeHas(image, es, path);
    var k := Find(es, path);
    if k < |es| {
      RemovePublishable(image, es, k);
      RemoveAccepted(es, k);
      PublishableParts(image, RemoveAt(es, k));
    }
  }

  ghost predicate RemovedOk(image: Image, es: seq<Entry>, k: nat, u: Tree)
    requires k < |es|
  {
    var next := RemoveAt(es, k);
    Publishable(image, next) && CommitAccepts(next) && TreeOf(image, next) == u
  }

  lemma RemovedParts(image: Image, es: seq<Entry>, k: nat, u: Tree)
    requires k < |es| && RemovedOk(image, es, k, u)
    ensures Publishable(image, RemoveAt(es, k)) && CommitAccepts(RemoveAt(es, k))
    ensures AllAcceptable(RemoveAt(es, k)) && TreeOf(image, RemoveAt(es, k)) == u
  {}

  lemma RemoveDirectorySpec(image: Image, es: seq<Entry>, path: Name)
    requires Publishable(image, es) && DistinctNames(es) && AllAcceptable(es) && CommitAccepts(es)
    ensures
      var t, k := TreeOf(image, es), Find(es, path);
      var applies := k < |es| && es[k].directory && !(exists i :: 0 <= i < |es| && Inside(es[i].name, path));
      && Apply(t, RemoveDirectory(path)) == (if applies then Some(t - {path}) else None)
      && (k < |es| ==> RemovedOk(image, es, k, t - {path}))
  {
    hide Publishable, AllAcceptable, DistinctNames, CommitAccepts, Find, RemoveAt, TreeOf, Inside, NodeOf;
    TreeHas(image, es, path);
    NothingInside(image, es, path);
    var k := Find(es, path);
    if k < |es| {
      RemovePublishable(image, es, k);
      RemoveAccepted(es, k);
      PublishableParts(image, RemoveAt(es, k));
    }
  }

  lemma RenameSpec(image: Image, es: seq<Entry>, from: Name, to: Name)
    requires Publishable(image, es) && DistinctNames(es) && AllAcceptable(es)
    ensures
      var t, k := TreeOf(image, es), Find(es, from);
      var applies := k < |es| && Find(es, to) == |es| && ValidPath(to) && ParentExists(es, to);
      && Apply(t, Rename(from, to)) == (if applies then Some(RenameTree(t, from, to)) else None)
      && (k < |es| ==> es[k].directory == IsDir(t, from))
  {
    hide Publishable, AllAcceptable, DistinctNames, Find, TreeOf, ValidPath, NodeOf, ParentExists, ParentOk, RenameTree;
    ParentIsOk(image, es, to);
    TreeHas(image, es, from);
    TreeHas(image, es, to);
  }

  lemma RenameStep(image: Image, es: seq<Entry>, from: Name, to: Name, directory: bool)
    requires Publishable(image, es) && DistinctNames(es) && AllAcceptable(es) && ValidPath(to)
    requires directory == IsDir(TreeOf(image, es), from)
    ensures
      var next := RenameEntries(es, from, to, directory);
      && Publishable(image, next) && AllAcceptable(next)
      && (DistinctNames(next) ==> TreeOf(image, next) == RenameTree(TreeOf(image, es), from, to))
      && (!DistinctNames(next) ==> Refused(next, 0))
  {
    hide Publishable, AllAcceptable, DistinctNames, TreeOf, ValidPath, RenameTree, RenameEntries;
    var next := RenameEntries(es, from, to, directory);
    RenamePublishable(image, es, from, to, directory);
    PublishableParts(image, next);
    if DistinctNames(next) {
      RenameTreeOf(image, es, from, to, directory);
    } else {
      NotAccepted(next);
    }
  }

  lemma RefusedAlways(es: seq<Entry>, generation: u64)
    requires Refused(es, 0)
    ensures Refused(es, generation)
  {}

  lemma RefusedOnlyAtEnd(es: seq<Entry>, generation: u64)
    requires CommitAccepts(es)
    ensures Refused(es, generation) <==> generation == LAST_GENERATION
  {}
}
