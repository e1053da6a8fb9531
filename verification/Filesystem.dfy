/**
  The mounted filesystem (`Filesystem` in src/ezfa3fs_live_filesystem.cpp, transactional layout).
  Every operation is proved to refine the tree operation of the same name, to keep the volume
  sound, to ask the flash only for legal programs and safe erases, and to leave, wherever it
  fails, a flash image that opens as the tree before or the tree after the operation.
 */
module Filesystem {
  import opened Bytes
  import opened Paths
  import opened Manifest
  import opened Device
  import opened Opening
  import opened Volume
  import opened TreeSpec
  import opened EntryOps
  import opened Placement
  import opened Steps
  import opened Allocation
  import opened Carrying
  import opened Relocation
  import opened Batches
  import opened Repacking
  import opened EditSteps
  import opened Reading
  import opened Tame
  import opened Planning
  import opened Verdicts
  import opened BinPacking
  import opened Compaction
  import opened Answers
  import Capacity
  import PackedBlock
  import Crc32

  /** `GarbageCollectionState`. */
  class GcState {
    var nextBlock: nat
    var reclaimed: nat
    var pending: seq<nat>
    var lastReclaimed: seq<nat>
    var synchronized: bool
    var initialized: bool
    /** The blocks of this pass that could not be read; the collector has moved on without them. */
    ghost var missed: set<nat>

    constructor ()
      ensures !initialized
    {
      nextBlock, reclaimed, pending, lastReclaimed := 0, 0, [], [];
      synchronized, initialized, missed := false, false, {};
    }

    method Start(resynchronize: bool)
      modifies this
      ensures initialized && lastReclaimed == []
      ensures resynchronize || !old(initialized) ==>
        nextBlock == FIRST_DATA_BLOCK && pending == [] && !synchronized && missed == {}
      ensures !resynchronize && old(initialized) ==>
        nextBlock == old(nextBlock) && pending == old(pending) && synchronized == old(synchronized) && missed == old(missed)
      ensures reclaimed == if old(initialized) then old(reclaimed) else 0
    {
      lastReclaimed := [];
      if !initialized {
        nextBlock, reclaimed, pending, missed := FIRST_DATA_BLOCK, 0, [], {};
        synchronized, initialized := false, true;
      }
      if resynchronize {
        synchronized, nextBlock, pending, missed := false, FIRST_DATA_BLOCK, [], {};
      }
    }
  }

  class Filesystem {
    const flash: FaultyDevice
    /**
      A promise of the caller: no file it writes puts a block on the flash that `open` could take for
      a direct-boot superblock. Without it nothing is claimed about the last two blocks.
     */
    ghost const tame: bool
    var entries: seq<Entry>
    var generation: u64
    var active: nat
    var nextFree: nat
    var unavailable: seq<bool>
    /** A commit has reached the flash and been reported failed; nothing more may be asked until the next mount. */
    var commitFailed: bool

    ghost predicate Shaped()
      reads `active, `nextFree, `unavailable
    {
      active < 2 && FIRST_DATA_BLOCK <= nextFree <= BLOCK_COUNT && |unavailable| == BLOCK_COUNT
    }

    /** All programs so far were legal, all erases safe, and the last two blocks do not interfere. */
    ghost predicate Careful()
      reads flash
    {
      flash.legal && SafeErases(flash.erases) && (tame && flash.checksumSound ==> QuietTail(flash.image))
    }

    ghost predicate Sound()
      reads this, flash
    {
      Shaped() && Careful() && VolumeOk(flash.image, entries)
    }

    ghost predicate Usable()
      reads this, flash
    {
      !commitFailed && Sound() && Durable(flash.image, entries, generation, active)
    }

    /** The tree the filesystem shows. */
    ghost function Tree(): Tree
      requires Sound()
      reads this, flash
    {
      TreeOf(flash.image, entries)
    }

    ghost function Now(): Snapshot
      reads this, flash
    {
      Snapshot(flash.image, entries, unavailable, nextFree, generation)
    }

    /** How an operation that takes tree `t` to tree `u` may end. */
    ghost predicate After(t: Tree, u: Tree, ok: bool)
      reads this, flash
    {
      && Sound() && (commitFailed || Usable())
      && (ok ==> !commitFailed) && (flash.faithful ==> !commitFailed) && Tree() == (if ok then u else t)
      && (commitFailed && flash.checksumSound ==> SlotsHold(flash.image, t) || SlotsHold(flash.image, u))
    }

    /** The operation did what command `c` says, or nothing. */
    ghost predicate Refines(t: Tree, c: Command, ok: bool)
      reads this, flash
    {
      match Apply(t, c)
      case Some(u) => After(t, u, ok)
      case None => !ok && Usable() && Tree() == t
    }

    lemma Did(t: Tree, c: Command, u: Tree, ok: bool)
      requires Apply(t, c) == Some(u) && After(t, u, ok)
      ensures Refines(t, c, ok)
    {
      hide Apply, After;
    }

    lemma Declined(t: Tree, c: Command)
      requires Apply(t, c) == None && Usable() && Sound() && Tree() == t
      ensures Refines(t, c, false)
    {
      hide Apply, Usable, Sound, Tree;
    }

    lemma SoundParts()
      requires Sound()
      ensures AllAcceptable(entries) && Readable(flash.image, entries) && DistinctNames(entries)
      ensures Tree() == TreeOf(flash.image, entries)
    {
      hide Careful, TreeOf, Shaped;
    }

    lemma RefinesParts(t: Tree, c: Command, ok: bool)
      requires Refines(t, c, ok)
      ensures Sound() && (commitFailed || Usable()) && (ok ==> !commitFailed && Apply(t, c) == Some(Tree())) && (!ok ==> Tree() == t)
      ensures flash.faithful ==> !commitFailed
      ensures commitFailed && flash.checksumSound ==>
        Apply(t, c).Some? && (SlotsHold(flash.image, t) || SlotsHold(flash.image, Apply(t, c).value))
    {
      hide Careful, TreeOf, Shaped, Apply, SlotsHold, Durable, VolumeOk;
    }

    /** What the next open finds after an operation, if files have been tame: the tree before or the tree after it. */
    lemma NextOpen(t: Tree, u: Tree, ok: bool)
      requires After(t, u, ok) && tame && flash.checksumSound
      ensures commitFailed ==> RecoversTo(flash.image, t) || RecoversTo(flash.image, u)
      ensures !commitFailed ==> RecoversTo(flash.image, if ok then u else t)
    {
      hide Shaped, SafeErases, Durable, VolumeOk, TreeOf, SlotsHold, RecoversTo, QuietTail, TailYields, NewestSlot;
      VolumeParts(flash.image, entries);
      if !commitFailed {
        GoodRecovers(flash.image, entries, generation, active);
      }
      SlotsAreThere(flash.image, t);
      SlotsAreThere(flash.image, u);
      QuietYields(flash.image);
      RecoversIfYields(flash.image, t);
      RecoversIfYields(flash.image, u);
    }

    lemma UsableParts()
      requires Usable()
      ensures Sound() && Shaped() && !commitFailed && Ready(entries) && AllAcceptable(entries) && Publishable(flash.image, entries)
      ensures DistinctNames(entries) && CommitAccepts(entries) && Tree() == TreeOf(flash.image, entries)
    {
      hide Durable, Publishable, TreeOf, AllAcceptable;
      VolumeParts(flash.image, entries);
    }

    lemma ShapeIs()
      ensures Shaped() <==> active < 2 && FIRST_DATA_BLOCK <= nextFree <= BLOCK_COUNT && |unavailable| == BLOCK_COUNT
    {}

    lemma NowIs()
      requires Sound()
      ensures Now() == Snapshot(flash.image, entries, unavailable, nextFree, generation) && Sane(Now())
      ensures Tree() == TreeOf(flash.image, entries)
    {
      hide TreeOf, Careful, DistinctNames, Readable, AllAcceptable;
      SoundParts();
    }

    lemma ReadyUsable()
      requires Shaped() && Ready(entries)
      ensures Usable() && Sound() && AllAcceptable(entries) && Tree() == TreeOf(flash.image, entries)
    {
      hide Durable, TreeOf, Careful, Shaped;
      VolumeParts(flash.image, entries);
    }

    lemma ReadyFrom(prior: seq<Entry>)
      requires !commitFailed && Careful() && Good(flash.image, prior, generation, active)
      ensures Ready(prior)
    {}

    lemma Succeeded(t: Tree)
      requires !commitFailed && Shaped() && Careful() && Good(flash.image, entries, generation, active)
      ensures AllAcceptable(entries) && Usable() && After(t, TreeOf(flash.image, entries), true)
    {
      hide Durable, TreeOf, SlotsHold, Careful, Shaped;
      VolumeParts(flash.image, entries);
    }

    lemma Failed(u: Tree)
      requires Shaped() && Careful() && VolumeOk(flash.image, entries)
      requires commitFailed || Good(flash.image, entries, generation, active)
      requires AllAcceptable(entries) && (flash.faithful ==> !commitFailed)
      requires commitFailed && flash.checksumSound ==>
        SlotsHold(flash.image, TreeOf(flash.image, entries)) || SlotsHold(flash.image, u)
      ensures After(TreeOf(flash.image, entries), u, false)
    {
      hide Durable, TreeOf, SlotsHold, Careful, Shaped, VolumeOk;
    }

    lemma NothingDone(t: Tree, u: Tree, w: Tree)
      requires After(t, u, false) && !commitFailed
      ensures After(t, w, false)
    {
      hide Sound, Usable, Tree, SlotsHold;
    }

    constructor (device: FaultyDevice, ghost tame: bool)
      ensures flash == device && this.tame == tame
      ensures entries == [] && generation == 0 && active == 0 && nextFree == FIRST_DATA_BLOCK
      ensures Shaped() && !commitFailed
    {
      flash := device;
      this.tame := tame;
      entries, generation, active, nextFree := [], 0, 0, FIRST_DATA_BLOCK;
      unavailable := seq(BLOCK_COUNT, i => false);
      commitFailed := false;
    }

    // ----- Publishing a manifest -----

    /** Writes the manifest to the older slot. The only place that touches a superblock. */
    method Commit() returns (ok: bool)
      requires active < 2
      modifies this`generation, this`active, this`commitFailed, flash
      ensures SameBut(old(flash.image), flash.image, 1 - old(active))
      ensures old(flash.legal) ==> flash.legal
      ensures flash.erases == old(flash.erases)
        || flash.erases == old(flash.erases) + [EraseEvent(old(flash.image)[0], old(flash.image)[1], 1 - old(active))]
      ensures ok ==>
        && CommitAccepts(entries) && old(generation) < LAST_GENERATION && commitFailed == old(commitFailed)
        && generation == old(generation) + 1 && active == 1 - old(active)
        && flash.image[active] == SuperblockBytes(generation, entries)
      ensures !ok ==> generation == old(generation) && active == old(active)
      ensures Refused(entries, old(generation)) ==>
        !ok && flash.image == old(flash.image) && commitFailed == old(commitFailed)
      ensures !ok && !Refused(entries, old(generation)) ==> commitFailed && !flash.faithful
      ensures flash.checksumSound && !ok && !Refused(entries, generation) ==>
        CommitAccepts(entries) && ChecksumSound(old(flash.image)[1 - active], SuperblockBytes(generation + 1, entries), flash.image[1 - active])
    {
      hide SuperblockBytes, CommitAccepts, ChecksumSound;
      if generation == LAST_GENERATION {
        return false;
      }
      var built, block := BuildSuperblock(generation + 1, entries);
      if !built {
        return false;
      }
      var target := 1 - active;
      ghost var before := flash.image[target];
      ghost var cut;
      ok, cut := flash.ReplaceMetadataBlock(target, block);
      if !ok {
        commitFailed := true;
        return;
      }
      active, generation := target, generation + 1;
    }

    /** The flash agrees with `prior`, whatever the entry list in memory has become. */
    ghost predicate Ready(prior: seq<Entry>)
      reads `active, `generation, `commitFailed, flash
    {
      !commitFailed && Careful() && Good(flash.image, prior, generation, active)
    }

    lemma ReadyParts(prior: seq<Entry>)
      requires Ready(prior)
      ensures !commitFailed && Careful() && Good(flash.image, prior, generation, active) && active < 2
      ensures VolumeOk(flash.image, prior) && AllAcceptable(prior) && CommitAccepts(prior)
    {
      hide ParseSlot, Publishable, AllAcceptable;
      VolumeParts(flash.image, prior);
    }

    /** Commit, seen from a volume that is about to change from `prior` to `entries`. */
    method Publish(ghost prior: seq<Entry>) returns (ok: bool)
      requires Shaped() && Ready(prior) && Publishable(flash.image, entries)
      modifies this`generation, this`active, this`commitFailed, flash
      ensures Careful() && Shaped()
      ensures SameBut(old(flash.image), flash.image, 1 - old(active))
      ensures AllAcceptable(prior) && AllAcceptable(entries)
      ensures VolumeOk(flash.image, prior) && TreeOf(flash.image, prior) == TreeOf(old(flash.image), prior)
      ensures TreeOf(flash.image, entries) == TreeOf(old(flash.image), entries)
      ensures Publishable(flash.image, entries)
      ensures ok ==> !commitFailed && Good(flash.image, entries, generation, active)
      ensures ok && entries == prior ==> BothHold(flash.image, entries)
      ensures ok ==> generation == old(generation) + 1
      ensures !ok && !commitFailed ==>
        flash.image == old(flash.image) && Good(flash.image, prior, generation, active) && Refused(entries, old(generation))
      ensures Refused(entries, old(generation)) ==> !ok && !commitFailed
      ensures !ok ==> generation == old(generation)
      ensures flash.faithful ==> !commitFailed
      ensures commitFailed && flash.checksumSound ==>
        SlotsHold(flash.image, TreeOf(old(flash.image), prior)) || SlotsHold(flash.image, TreeOf(old(flash.image), entries))
    {
      hide VolumeOk, Durable, Publishable, SuperblockBytes, TreeOf, SlotsHold, BothHold, ChecksumSound, CommitAccepts, SafeErase, AllAcceptable,
           QuietTail, TailYields, Careful;
      ghost var before, was, slot := flash.image, active, 1 - active;
      CarefulIs();
      SlotEraseSafe(before, prior, generation, active);
      ok := Commit();
      if tame && flash.checksumSound {
        QuietElsewhere(before, flash.image, slot);
      }
      CarefulIs();
      SlotLost(before, flash.image, prior, slot);
      PublishableKept(before, flash.image, entries, slot);
      if ok {
        Published(before, flash.image, prior, entries, generation - 1, was);
      } else if commitFailed && flash.checksumSound {
        FailedCommitRecovers(before, flash.image, prior, entries, generation, active);
      }
    }

    /** The end of every edit: publish it, or go back to the entries before it. */
    method CommitEdit(prior: seq<Entry>) returns (ok: bool)
      requires Shaped() && Ready(prior) && Publishable(flash.image, entries)
      modifies this`generation, this`active, this`commitFailed, this`entries, flash
      ensures AllAcceptable(prior) && AllAcceptable(old(entries))
      ensures After(TreeOf(old(flash.image), prior), TreeOf(old(flash.image), old(entries)), ok)
      ensures entries == if ok then old(entries) else prior
      ensures !ok && !commitFailed ==> flash.image == old(flash.image) && Refused(old(entries), old(generation))
      ensures Refused(old(entries), old(generation)) ==> !ok && !commitFailed
      ensures generation == old(generation) + if ok then 1 else 0
    {
      hide *;
      ReadyParts(prior);
      ghost var t := TreeOf(flash.image, prior);
      ok := Publish(prior);
      if ok {
        Succeeded(t);
      } else {
        ghost var u := TreeOf(flash.image, entries);
        entries := prior;
        Failed(u);
      }
    }

    // ----- Formatting and mounting -----

    /** A formatted flash opens as the empty tree. */
    static method Format(device: FaultyDevice) returns (ok: bool)
      modifies device
      ensures ok ==> RecoversTo(device.image, map[]) && NewestSlot(device.image) == Some(Mounted([], 1, 1)) && QuietTail(device.image)
      ensures ok ==> BlankRun(device.image, FIRST_DATA_BLOCK, BLOCK_COUNT - FIRST_DATA_BLOCK)
      ensures old(device.legal) ==> device.legal
      ensures device.faithful ==> ok
    {
      hide SuperblockBytes, CommitAccepts, ChecksumSound, RecoversTo, NewestSlot, QuietTail;
      EmptyAccepted();
      var block := 0;
      while block < BLOCK_COUNT
        invariant 0 <= block <= BLOCK_COUNT
        invariant forall b :: 0 <= b < block ==> device.image[b] == BLANK_BLOCK
        invariant old(device.legal) ==> device.legal
      {
        var erased := device.Erase(block);
        if !erased {
          return false;
        }
        block := block + 1;
      }
      ghost var blank := device.image;
      var filesystem := new Filesystem(device, true);
      ok := filesystem.Commit();
      if ok {
        EmptyVolume(device.image);
      }
    }

    /** Loads the transactional volume, if that is what open finds; a direct-boot volume is for another object to load. */
    method Open() returns (ok: bool, layout: Layout)
      modifies this
      ensures ok ==> OpenedAs(flash.image).Some? && layout == LayoutOf(OpenedAs(flash.image).value)
      ensures flash.faithful ==> (ok <==> OpenedAs(flash.image).Some?)
      ensures ok && layout.Transactional? ==> OpenedAs(flash.image) == Some(InSlots(Mounted(entries, generation, active)))
      ensures ok && layout.Transactional? ==> Shaped() && !commitFailed && AllAcceptable(entries)
      ensures ok && layout.Transactional? ==> CursorBehind(entries, nextFree) && forall b :: 0 <= b < BLOCK_COUNT ==> !unavailable[b]
      ensures ok && layout.Transactional? ==>
        forall t :: Careful() && SlotsHold(flash.image, t) ==> Usable() && Sound() && Tree() == t
      ensures !ok || layout.DirectBoot? ==>
        && entries == old(entries) && generation == old(generation) && active == old(active)
        && nextFree == old(nextFree) && unavailable == old(unavailable) && commitFailed == old(commitFailed)
    {
      hide *;
      layout := Transactional;
      var probed, found := Probe(flash);
      if !probed || found.None? {
        return false, layout;
      }
      LayoutIs(found.value);
      layout := LayoutOf(found.value);
      ok := true;
      if found.value.InTail? {
        return;
      }
      var m := found.value.mounted;
      OpenedAcceptable(flash.image, m);
      entries, generation, active := m.entries, m.generation, m.active;
      unavailable := seq(BLOCK_COUNT, i => false);
      commitFailed := false;
      ResetCursor();
      ShapeIs();
      forall t | Careful() && SlotsHold(flash.image, t) ensures Usable() && Sound() && Tree() == t {
        MountedTree(flash.image, t, entries, generation, active);
        ReadyFrom(entries);
        ReadyUsable();
      }
    }

    /** Allocation starts behind the last extent. */
    method ResetCursor()
      requires AllAcceptable(entries)
      modifies this`nextFree
      ensures FIRST_DATA_BLOCK <= nextFree <= BLOCK_COUNT && CursorBehind(entries, nextFree)
    {
      hide Acceptable;
      nextFree := FIRST_DATA_BLOCK;
      var i := 0;
      while i < |entries|
        invariant 0 <= i <= |entries| && FIRST_DATA_BLOCK <= nextFree <= BLOCK_COUNT
        invariant CursorBehind(entries[..i], nextFree)
      {
        assert entries[..i + 1] == entries[..i] + [entries[i]];
        EndInRange(entries[i]);
        nextFree := Max(nextFree, entries[i].firstBlock + entries[i].blockCount);
        CursorNext(entries, i, nextFree);
        i := i + 1;
      }
      assert entries[..i] == entries;
    }

    // ----- Namespace operations -----

    method CreateDirectory(path: Name) returns (ok: bool)
      requires Usable()
      modifies this, flash
      ensures Refines(old(Tree()), TreeSpec.CreateDirectory(path), ok)
      ensures !ok && !commitFailed && Apply(old(Tree()), TreeSpec.CreateDirectory(path)).Some? ==>
        Refused(Upsert(old(entries), DirectoryEntry(path)), old(generation))
      ensures generation == old(generation) + if ok then 1 else 0
    {
      hide *;
      var valid := CheckPath(path);
      UsableParts();
      CreateSpec(flash.image, entries, path);
      ghost var t, c := Tree(), TreeSpec.CreateDirectory(path);
      if !valid || !ParentExists(entries, path) || Find(entries, path) < |entries| {
        Declined(t, c);
        return false;
      }
      var prior := entries;
      entries := entries + [DirectoryEntry(path)];
      ok := CommitEdit(prior);
      Did(t, c, t[path := Dir(0)], ok);
    }

    method RemoveFile(path: Name) returns (ok: bool)
      requires Usable()
      modifies this, flash
      ensures Refines(old(Tree()), TreeSpec.RemoveFile(path), ok)
      ensures !ok && !commitFailed && Apply(old(Tree()), TreeSpec.RemoveFile(path)).Some? ==>
        old(generation) == LAST_GENERATION
      ensures generation == old(generation) + if ok then 1 else 0
    {
      hide *;
      UsableParts();
      RemoveFileSpec(flash.image, entries, path);
      ghost var t, c := Tree(), TreeSpec.RemoveFile(path);
      var k := Find(entries, path);
      if k == |entries| || entries[k].directory {
        Declined(t, c);
        return false;
      }
      ok := RemoveEntry(k, t - {path});
      Did(t, c, t - {path}, ok);
    }

    method RemoveDirectory(path: Name) returns (ok: bool)
      requires Usable()
      modifies this, flash
      ensures Refines(old(Tree()), TreeSpec.RemoveDirectory(path), ok)
      ensures !ok && !commitFailed && Apply(old(Tree()), TreeSpec.RemoveDirectory(path)).Some? ==>
        old(generation) == LAST_GENERATION
      ensures generation == old(generation) + if ok then 1 else 0
    {
      hide *;
      UsableParts();
      RemoveDirectorySpec(flash.image, entries, path);
      ghost var t, c := Tree(), TreeSpec.RemoveDirectory(path);
      var k := Find(entries, path);
      if k == |entries| || !entries[k].directory || exists i :: 0 <= i < |entries| && Inside(entries[i].name, path) {
        Declined(t, c);
        return false;
      }
      ok := RemoveEntry(k, t - {path});
      Did(t, c, t - {path}, ok);
    }

    method RemoveEntry(k: nat, ghost u: Tree) returns (ok: bool)
      requires Shaped() && Ready(entries) && k < |entries| && AllAcceptable(entries) && RemovedOk(flash.image, entries, k, u)
      modifies this, flash
      ensures After(old(TreeOf(flash.image, entries)), u, ok)
      ensures !ok && !commitFailed ==> old(generation) == LAST_GENERATION
      ensures generation == old(generation) + if ok then 1 else 0
    {
      hide *;
      RemovedParts(flash.image, entries, k, u);
      RefusedOnlyAtEnd(RemoveAt(entries, k), generation);
      var prior := entries;
      entries := RemoveAt(entries, k);
      ok := CommitEdit(prior);
    }

    method Rename(from: Name, to: Name) returns (ok: bool)
      requires Usable()
      modifies this, flash
      ensures Refines(old(Tree()), TreeSpec.Rename(from, to), ok)
      ensures !ok && !commitFailed && Apply(old(Tree()), TreeSpec.Rename(from, to)).Some? ==>
        Refused(RenameEntries(old(entries), from, to, IsDir(old(Tree()), from)), old(generation))
      ensures generation == old(generation) + if ok then 1 else 0
    {
      hide *;
      UsableParts();
      RenameSpec(flash.image, entries, from, to);
      ghost var t, c := Tree(), TreeSpec.Rename(from, to);
      var valid := CheckPath(to);
      var k := Find(entries, from);
      if k == |entries| || Find(entries, to) < |entries| || !valid || !ParentExists(entries, to) {
        Declined(t, c);
        return false;
      }
      var prior, next := entries, RenameEntries(entries, from, to, entries[k].directory);
      RenameStep(flash.image, entries, from, to, entries[k].directory);
      ghost var v := TreeOf(flash.image, next);
      entries := next;
      ok := CommitEdit(prior);
      if !DistinctNames(next) {
        RefusedAlways(next, old(generation));
        NothingDone(t, v, RenameTree(t, from, to));
      }
      Did(t, c, RenameTree(t, from, to), ok);
    }

    // ----- Finding space -----

    method FreeBlocks() returns (count: nat)
      requires Shaped()
      ensures count == FreeCount(entries, unavailable, BLOCK_COUNT)
    {
      hide Referenced;
      count := 0;
      var block := FIRST_DATA_BLOCK;
      while block < BLOCK_COUNT
        invariant FIRST_DATA_BLOCK <= block <= BLOCK_COUNT
        invariant count == FreeCount(entries, unavailable, block)
      {
        if !Referenced(entries, block) && !unavailable[block] {
          count := count + 1;
        }
        block := block + 1;
      }
    }

    /** Finds the first spare run between two blocks, or proves that there is none. */
    method Inspect(begin: nat, end: nat, count: nat) returns (result: Search, first: nat)
      requires Shaped() && count > 0 && end <= BLOCK_COUNT
      modifies this`unavailable
      ensures Shaped() && SetAside(flash.image, old(unavailable), unavailable)
      ensures result == Found ==>
        && begin <= first && first + count <= end && SpareRun(flash.image, entries, old(unavailable), first, count)
        && NoRun(flash.image, entries, old(unavailable), begin, first + count - 1, count)
      ensures result == NoExtent ==> NoRun(flash.image, entries, old(unavailable), begin, end, count)
      ensures
        var seen := match result case Found => first + count case NoExtent => end case ReadError => begin;
        forall b :: begin <= b < seen && b < BLOCK_COUNT && !Referenced(entries, b) && flash.image[b] != BLANK_BLOCK ==> unavailable[b]
      ensures flash.faithful ==> result != ReadError
    {
      hide Referenced, Scanned, SpareRun;
      ghost var before := unavailable;
      var run, runStart, block := 0, begin, begin;
      first := 0;
      ScanStart(flash.image, entries, before, begin, count);
      while block < end
        invariant begin <= block && (block <= end || block == begin)
        invariant Shaped() && SetAside(flash.image, before, unavailable)
        invariant Scanned(flash.image, entries, before, begin, block, run, count)
        invariant run > 0 ==> runStart + run == block
        invariant forall b :: begin <= b < block && b < BLOCK_COUNT && !Referenced(entries, b) && flash.image[b] != BLANK_BLOCK ==> unavailable[b]
      {
        SetAsideSpare(flash.image, entries, before, unavailable, block);
        if Referenced(entries, block) || unavailable[block] {
          ScanOver(flash.image, entries, before, begin, block, run, count);
          run := 0;
        } else {
          var read, data := flash.Read(block);
          if !read {
            return ReadError, 0;
          }
          if data != BLANK_BLOCK {
            ScanOver(flash.image, entries, before, begin, block, run, count);
            unavailable := unavailable[block := true];
            run := 0;
          } else {
            assert Spare(flash.image, entries, unavailable, block);
            ScanGrow(flash.image, entries, before, begin, block, run, count);
            ScannedBounds(flash.image, entries, before, begin, block, run, count);
            if run == 0 {
              runStart := block;
            }
            run := run + 1;
            if run == count {
              return Found, runStart;
            }
          }
        }
        block := block + 1;
      }
      ScannedBounds(flash.image, entries, before, begin, block, run, count);
      result := NoExtent;
    }

    /**
      Looks at and above the allocation cursor, then below it. A run that crosses the cursor is
      not found.
     */
    method FindBlankExtent(count: nat) returns (result: Search, first: nat)
      requires Shaped()
      modifies this`unavailable
      ensures Shaped() && SetAside(flash.image, old(unavailable), unavailable)
      ensures count == 0 ==> result == Found && first == nextFree
      ensures count > 0 && result == Found ==> FirstChoice(flash.image, entries, old(unavailable), nextFree, first, count)
      ensures result == NoExtent ==> count > 0 && NoRoom(flash.image, entries, old(unavailable), nextFree, count)
      ensures flash.faithful ==> result != ReadError
    {
      hide *;
      ShapeIs();
      ghost var before := unavailable;
      if count == 0 {
        SetAsideSame(flash.image, unavailable);
        return Found, nextFree;
      }
      var free := FreeBlocks();
      if count > free {
        SetAsideSame(flash.image, unavailable);
        TooMany(flash.image, entries, unavailable, nextFree, BLOCK_COUNT, count);
        TooMany(flash.image, entries, unavailable, FIRST_DATA_BLOCK, nextFree, count);
        NoRoomIs(flash.image, entries, before, nextFree, count);
        return NoExtent, 0;
      }
      result, first := Inspect(nextFree, BLOCK_COUNT, count);
      if result != NoExtent {
        if result == Found {
          ChosenAbove(flash.image, entries, before, nextFree, first, count);
        }
        return;
      }
      ghost var between := unavailable;
      if nextFree > FIRST_DATA_BLOCK {
        result, first := Inspect(FIRST_DATA_BLOCK, nextFree, count);
        SetAsideTrans(flash.image, before, between, unavailable);
        SetAsideNoRun(flash.image, entries, before, between, FIRST_DATA_BLOCK, nextFree, count);
        if result == Found {
          SetAsideRun(flash.image, entries, before, between, first, count);
          SetAsideNoRun(flash.image, entries, before, between, FIRST_DATA_BLOCK, first + count - 1, count);
          ChosenBelow(flash.image, entries, before, nextFree, first, count);
        }
      } else {
        NothingBelow(flash.image, entries, before, FIRST_DATA_BLOCK, nextFree, count);
      }
      if result == NoExtent {
        NoRoomIs(flash.image, entries, before, nextFree, count);
      }
    }

    /** The first spare run below `limit`, or none. */
    method FindBlankExtentBefore(limit: nat, count: nat) returns (result: Search, first: nat)
      requires Shaped() && limit <= BLOCK_COUNT
      modifies this`unavailable
      ensures Shaped() && SetAside(flash.image, old(unavailable), unavailable)
      ensures result == Found ==>
        && count > 0 && FIRST_DATA_BLOCK <= first && first + count <= limit
        && SpareRun(flash.image, entries, old(unavailable), first, count)
        && NoRun(flash.image, entries, old(unavailable), FIRST_DATA_BLOCK, first + count - 1, count)
      ensures result == NoExtent ==> count == 0 || NoRun(flash.image, entries, old(unavailable), FIRST_DATA_BLOCK, limit, count)
      ensures flash.faithful ==> result != ReadError
    {
      hide *;
      ShapeIs();
      if count == 0 || limit <= FIRST_DATA_BLOCK || count > limit - FIRST_DATA_BLOCK {
        SetAsideSame(flash.image, unavailable);
        if count > 0 {
          NothingBelow(flash.image, entries, unavailable, FIRST_DATA_BLOCK, limit, count);
        }
        return NoExtent, 0;
      }
      result, first := Inspect(FIRST_DATA_BLOCK, limit, count);
    }

    // ----- Writing and erasing outside the live data -----

    method MarkRun(first: nat, count: nat)
      requires Shaped() && first + count <= BLOCK_COUNT
      modifies this`unavailable
      ensures Shaped()
      ensures forall b :: 0 <= b < BLOCK_COUNT ==> unavailable[b] == (first <= b < first + count || old(unavailable)[b])
    {
      var i := 0;
      while i < count
        invariant 0 <= i <= count && Shaped()
        invariant forall b :: 0 <= b < BLOCK_COUNT ==> unavailable[b] == (first <= b < first + i || old(unavailable)[b])
      {
        unavailable := unavailable[first + i := true];
        i := i + 1;
      }
    }

    method MarkBlocks(blocks: seq<nat>, value: bool)
      requires Shaped() && forall b :: b in blocks ==> b < BLOCK_COUNT
      modifies this`unavailable
      ensures Shaped()
      ensures forall b :: 0 <= b < BLOCK_COUNT ==> unavailable[b] == if b in blocks then value else old(unavailable)[b]
    {
      var i := 0;
      while i < |blocks|
        invariant 0 <= i <= |blocks| && Shaped()
        invariant forall b :: 0 <= b < BLOCK_COUNT ==> unavailable[b] == if b in blocks[..i] then value else old(unavailable)[b]
      {
        assert blocks[..i + 1] == blocks[..i] + [blocks[i]] && blocks[i] in blocks;
        unavailable := unavailable[blocks[i] := value];
        i := i + 1;
      }
      assert blocks[..i] == blocks;
    }

    /** The volume is as good after a change to blocks its entries do not use. */
    lemma StillReady(before: Image, prior: seq<Entry>)
      requires !commitFailed && Careful() && Good(before, prior, generation, active) && Untouched(before, flash.image, prior)
      ensures Ready(prior) && AllAcceptable(prior) && TreeOf(flash.image, prior) == TreeOf(before, prior)
      ensures BothHold(before, prior) ==> BothHold(flash.image, prior)
    {
      hide Durable, VolumeOk, TreeOf, BothHold, AllAcceptable, Untouched;
      VolumeParts(before, prior);
      UntouchedKeeps(before, flash.image, prior, generation, active);
    }

    /** Writes whole blocks into a blank free run; whatever happens, the volume is untouched. */
    method ProgramPreparedExtent(first: nat, extent: seq<Block>) returns (ok: bool)
      requires Shaped() && Ready(entries) && AllAcceptable(entries)
      requires FreeRun(entries, first, |extent|) && BlankRun(flash.image, first, |extent|)
      requires FIRST_DATA_BLOCK <= first && first + |extent| <= BLOCK_COUNT
      requires tame && flash.checksumSound ==> TailSafe(first, extent)
      modifies this`nextFree, this`unavailable, flash
      ensures Shaped() && Ready(entries) && Untouched(old(flash.image), flash.image, entries)
      ensures TreeOf(flash.image, entries) == TreeOf(old(flash.image), entries)
      ensures SameOutsideRun(old(flash.image), flash.image, first, |extent|)
      ensures ok ==> Stored(flash.image, first, extent) && nextFree == first + |extent| && unavailable == old(unavailable)
      ensures !ok ==> first <= nextFree <= first + |extent| && (extent != [] ==> nextFree > first)
      ensures !ok ==> forall b :: 0 <= b < BLOCK_COUNT ==> unavailable[b] == (first <= b < nextFree || old(unavailable)[b])
      ensures flash.faithful ==> ok
    {
      hide *;
      ShapeIs();
      ReadyParts(entries);
      CarefulIs();
      ghost var before := flash.image;
      var prepared := flash.PrepareForProgram();
      var programmed, completed := false, 0;
      if prepared {
        programmed, completed := flash.ProgramBlocks(first, extent);
        if tame && flash.checksumSound {
          QuietAfterProgram(before, flash.image, first, extent);
        }
      } else {
        SameRun(before, first, |extent|);
      }
      FreeWrite(before, flash.image, entries, first, |extent|);
      CarefulIs();
      StillReady(before, entries);
      if !programmed || completed != |extent| {
        var affected := if completed + 1 < |extent| then completed + 1 else |extent|;
        MarkRun(first, affected);
        ShapeIs();
        nextFree := first + affected;
        ShapeIs();
        return false;
      }
      nextFree := first + |extent|;
      ShapeIs();
      ok := true;
    }

    lemma CarefulIs()
      ensures Careful() <==> flash.legal && SafeErases(flash.erases) && (tame && flash.checksumSound ==> QuietTail(flash.image))
    {}

    /** Erases blocks that both slots agree are garbage. */
    method Reclaim(blocks: seq<nat>) returns (ok: bool)
      requires Shaped() && Ready(entries) && AllAcceptable(entries) && BothHold(flash.image, entries)
      requires forall b :: b in blocks ==> !Referenced(entries, b)
      modifies this`unavailable, flash
      ensures Shaped() && Ready(entries) && BothHold(flash.image, entries)
      ensures TreeOf(flash.image, entries) == TreeOf(old(flash.image), entries)
      ensures SameOutside(old(flash.image), flash.image, Members(blocks))
      ensures forall b :: 0 <= b < BLOCK_COUNT && b !in blocks ==> unavailable[b] == old(unavailable)[b]
      ensures ok ==> forall b :: b in blocks ==> b < BLOCK_COUNT && flash.image[b] == BLANK_BLOCK && !unavailable[b]
      ensures !ok ==> flash.image == old(flash.image) || forall b :: b in blocks ==> b < BLOCK_COUNT && unavailable[b]
      ensures flash.faithful ==> ok
    {
      hide *;
      ShapeIs();
      ReadyParts(entries);
      CarefulIs();
      BlocksInRange(entries, blocks);
      SlotsNotFree(entries, blocks);
      ghost var before, log := flash.image, flash.erases;
      var prepared := flash.PrepareForErase();
      if !prepared {
        SameBlocks(before, Members(blocks));
        CarefulIs();
        ReadyFrom(entries);
        return false;
      }
      MarkBlocks(blocks, true);
      ShapeIs();
      ok := flash.EraseBlocks(blocks);
      if tame && flash.checksumSound {
        QuietAfterErase(before, flash.image);
      }
      BatchEraseSafe(before, entries, log, flash.erases, blocks);
      CarefulIs();
      FreeErase(before, flash.image, entries, Members(blocks));
      StillReady(before, entries);
      if ok {
        MarkBlocks(blocks, false);
        ShapeIs();
      }
    }

    // ----- Garbage collection -----

    method FindGarbage() returns (ok: bool, garbage: seq<nat>)
      requires Shaped()
      modifies this`unavailable
      ensures Shaped()
      ensures ok ==> GarbageBelow(flash.image, entries, unavailable, BLOCK_COUNT, garbage, {})
      ensures ok ==> |garbage| == GarbageCount(flash.image, entries, BLOCK_COUNT)
      ensures flash.faithful ==> ok
    {
      hide Referenced, GarbageBelow;
      garbage := [];
      NoGarbage(flash.image, entries, unavailable, {});
      GarbageCountStart(flash.image, entries);
      var block := FIRST_DATA_BLOCK;
      while block < BLOCK_COUNT
        invariant FIRST_DATA_BLOCK <= block <= BLOCK_COUNT && Shaped()
        invariant GarbageBelow(flash.image, entries, unavailable, block, garbage, {})
        invariant |garbage| == GarbageCount(flash.image, entries, block)
      {
        GarbageStep(flash.image, entries, unavailable, block, garbage, {});
        if !Referenced(entries, block) {
          var read, data := flash.Read(block);
          if !read {
            return false, [];
          }
          if data == BLANK_BLOCK {
            unavailable := unavailable[block := false];
          } else {
            garbage := garbage + [block];
          }
        }
        block := block + 1;
      }
      ok := true;
    }

    /** Erases everything no entry uses, after both slots have been brought to the current entries. */
    method CollectGarbage() returns (ok: bool, reclaimed: nat)
      requires Usable()
      modifies this`generation, this`active, this`commitFailed, this`unavailable, flash
      ensures After(old(Tree()), old(Tree()), ok)
      ensures Shaped() && (ok ==> AllSpare(flash.image, entries, unavailable))
      ensures ok ==> reclaimed == GarbageCount(old(flash.image), entries, BLOCK_COUNT)
      ensures ok ==> SameOnReferenced(old(flash.image), flash.image, entries)
      ensures ok ==> generation == old(generation) + if reclaimed == 0 then 0 else 1
      ensures ok && reclaimed == 0 ==> flash.image == old(flash.image)
      ensures flash.faithful && !ok ==> generation == LAST_GENERATION
    {
      hide *;
      UsableParts();
      ghost var t := TreeOf(flash.image, entries);
      SameImage(flash.image, entries);
      var read, garbage := FindGarbage();
      reclaimed := 0;
      if !read {
        ReadyParts(entries);
        Failed(t);
        return false, 0;
      }
      if garbage == [] {
        ShapeIs();
        NoGarbage(flash.image, entries, unavailable, {});
        NothingMissedIs();
        ReadyParts(entries);
        Succeeded(t);
        return true, 0;
      }
      ShapeIs();
      ghost var before, slot := flash.image, 1 - active;
      RefusedOnlyAtEnd(entries, generation);
      ok := Publish(entries);
      if !ok {
        Failed(t);
        return;
      }
      ReadyFrom(entries);
      ShapeIs();
      GarbageFree(before, entries, unavailable, BLOCK_COUNT, garbage, {});
      PublishedGarbage(before, slot, garbage, BLOCK_COUNT, {});
      ghost var published := flash.image;
      ok := EraseGarbage(garbage, BLOCK_COUNT, {});
      SlotThenSame(before, published, flash.image, entries, slot);
      NothingMissedIs();
      ReadyParts(entries);
      if ok {
        Succeeded(t);
        reclaimed := |garbage|;
      } else {
        Failed(t);
      }
    }

    lemma NothingMissedIs()
      requires Shaped()
      ensures SpareExcept(flash.image, entries, unavailable, {}) <==> AllSpare(flash.image, entries, unavailable)
    {}

    lemma PublishedGarbage(before: Image, slot: nat, garbage: seq<nat>, end: nat, missed: set<nat>)
      requires Shaped() && end <= BLOCK_COUNT && slot < 2 && SameBut(before, flash.image, slot)
      ensures GarbageBelow(before, entries, unavailable, end, garbage, missed) ==>
        GarbageBelow(flash.image, entries, unavailable, end, garbage, missed)
    {}

    method EraseGarbage(garbage: seq<nat>, ghost end: nat, ghost missed: set<nat>) returns (ok: bool)
      requires Shaped() && Ready(entries) && AllAcceptable(entries) && BothHold(flash.image, entries)
      requires end <= BLOCK_COUNT && forall b :: b in garbage ==> !Referenced(entries, b)
      modifies this`unavailable, flash
      ensures Shaped() && Ready(entries) && BothHold(flash.image, entries)
      ensures TreeOf(flash.image, entries) == TreeOf(old(flash.image), entries)
      ensures SameOnReferenced(old(flash.image), flash.image, entries)
      ensures old(GarbageBelow(flash.image, entries, unavailable, end, garbage, missed)) ==>
        && GarbageBelow(flash.image, entries, unavailable, end, garbage, missed)
        && (ok && end == BLOCK_COUNT ==> SpareExcept(flash.image, entries, unavailable, missed))
      ensures flash.faithful ==> ok
    {
      hide *;
      ShapeIs();
      ghost var before, was := flash.image, unavailable;
      ok := Reclaim(garbage);
      ShapeIs();
      OnlyBlocks(before, flash.image, garbage);
      FreeErase(before, flash.image, entries, Members(garbage));
      UntouchedIs(before, flash.image, entries);
      if GarbageBelow(before, entries, was, end, garbage, missed) {
        GarbageKept(before, flash.image, entries, was, unavailable, end, garbage, missed);
      }
    }

    /** What a collection in progress may rely on. */
    ghost predicate Collecting(state: GcState)
      requires Shaped()
      reads this, flash, state
    {
      && state.initialized && FIRST_DATA_BLOCK <= state.nextBlock <= BLOCK_COUNT
      && (forall b :: b in state.pending ==> !Referenced(entries, b))
      && GarbageBelow(flash.image, entries, unavailable, state.nextBlock, state.pending, state.missed)
      && (state.synchronized ==> BothHold(flash.image, entries))
    }

    lemma CollectingIs(state: GcState)
      requires Shaped()
      ensures
        Collecting(state) <==>
        && state.initialized && FIRST_DATA_BLOCK <= state.nextBlock <= BLOCK_COUNT
        && (forall b :: b in state.pending ==> !Referenced(entries, b))
        && GarbageBelow(flash.image, entries, unavailable, state.nextBlock, state.pending, state.missed)
        && (state.synchronized ==> BothHold(flash.image, entries))
    {}

    /** Any change to the filesystem voids this until the collector is resynchronized. */
    ghost predicate Paused(state: GcState)
      requires Shaped()
      reads this, flash, state
    {
      state.initialized ==> Collecting(state)
    }

    /**
      One step of the cooperative collector: looks at one block, or, when all have been seen,
      erases the batch. The caller must pass `resynchronize` on the first step after any mutation.
     */
    method CollectGarbageStep(state: GcState, resynchronize: bool) returns (ok: bool, complete: bool)
      requires Usable() && Shaped() && (resynchronize || Paused(state))
      modifies this`generation, this`active, this`commitFailed, this`unavailable, flash, state
      ensures After(old(Tree()), old(Tree()), ok)
      ensures Shaped() && (!commitFailed ==> Collecting(state))
      ensures ok && complete ==> SpareExcept(flash.image, entries, unavailable, state.missed)
      ensures ok && complete && state.missed == {} ==> AllSpare(flash.image, entries, unavailable)
      ensures
        var at := if resynchronize || !old(state.initialized) then FIRST_DATA_BLOCK else old(state.nextBlock);
        && (ok ==> (complete <==> at == BLOCK_COUNT))
        && (at < BLOCK_COUNT ==> state.nextBlock == at + 1 && !complete && !commitFailed)
        && (ok && complete ==> state.pending == [] && state.nextBlock == BLOCK_COUNT)
        && state.missed
          == (if resynchronize || !old(state.initialized) then {} else old(state.missed))
             + (if at < BLOCK_COUNT && !ok then {at} else {})
      ensures ok && !complete ==> flash.image == old(flash.image)
      ensures
        var restarts := resynchronize || !old(state.initialized);
        var at, pending := if restarts then FIRST_DATA_BLOCK else old(state.nextBlock), if restarts then [] else old(state.pending);
        && (at < BLOCK_COUNT && ok ==>
             state.pending == pending + if !Referenced(entries, at) && old(flash.image)[at] != BLANK_BLOCK then [at] else [])
        && (at < BLOCK_COUNT || pending == [] ==> flash.image == old(flash.image) && generation == old(generation))
        && (at == BLOCK_COUNT && pending == [] ==> ok)
        && (at == BLOCK_COUNT && pending != [] && ok ==>
             state.synchronized && generation == old(generation) + if old(state.synchronized) then 0 else 1)
      ensures flash.faithful && !ok ==> generation == LAST_GENERATION
    {
      hide Usable, Sound, Ready, Tree, After, AllAcceptable, GarbageBelow, BothHold, Referenced, Publishable, Careful,
           Good, TreeOf, SlotsHold, VolumeOk, SpareExcept, AllSpare, DistinctNames, CommitAccepts;
      UsableParts();
      ghost var t := TreeOf(flash.image, entries);
      complete := false;
      state.Start(resynchronize);
      NoGarbage(flash.image, entries, unavailable, state.missed);
      ReadyParts(entries);
      if state.nextBlock < BLOCK_COUNT {
        ok := ScanOne(state);
      } else {
        if state.pending != [] {
          ok := ErasePending(state);
          if !ok {
            return;
          }
        }
        NoGarbage(flash.image, entries, unavailable, state.missed);
        SpareEverywhere(flash.image, entries, unavailable, state.missed);
        ReadyParts(entries);
        ok, complete := true, true;
      }
      if ok {
        Succeeded(t);
      } else {
        Failed(t);
      }
    }

    /**
      A whole pass, step by step, as a caller with nothing else to do makes it: a step that fails
      while blocks are left to look at is passed over. A pass that ends leaves every unreferenced block
      blank and available, other than those at which a step failed.
     */
    method CollectPass(state: GcState) returns (done: bool, failed: set<nat>)
      requires Usable() && Shaped()
      modifies this`generation, this`active, this`commitFailed, this`unavailable, flash, state
      ensures Shaped() && After(old(Tree()), old(Tree()), done)
      ensures done ==> SpareExcept(flash.image, entries, unavailable, failed)
      ensures done && failed == {} ==> AllSpare(flash.image, entries, unavailable)
      ensures flash.faithful && !done ==> generation == LAST_GENERATION
    {
      hide *;
      UsableParts();
      RangeIs();
      ghost var t := Tree();
      var ok, complete := CollectGarbageStep(state, true);
      failed := if ok then {} else {FIRST_DATA_BLOCK};
      while state.nextBlock < BLOCK_COUNT
        invariant Shaped() && !commitFailed && After(t, t, ok) && Collecting(state)
        invariant FIRST_DATA_BLOCK < state.nextBlock <= BLOCK_COUNT && state.missed == failed
        invariant flash.faithful && !ok ==> generation == LAST_GENERATION
        decreases BLOCK_COUNT - state.nextBlock
      {
        StillUsable(t, ok);
        PausedIs(state);
        var at := state.nextBlock;
        ok, complete := CollectGarbageStep(state, false);
        failed := failed + if ok then {} else {at};
      }
      StillUsable(t, ok);
      PausedIs(state);
      done, complete := CollectGarbageStep(state, false);
      assert state.missed == failed;
    }

    lemma RangeIs()
      ensures FIRST_DATA_BLOCK < BLOCK_COUNT
    {}

    lemma StillUsable(t: Tree, ok: bool)
      requires After(t, t, ok) && !commitFailed
      ensures Usable() && Sound() && Tree() == t
    {
      hide Usable, Sound, Tree, SlotsHold;
    }

    lemma PausedIs(state: GcState)
      requires Shaped()
      ensures Collecting(state) ==> Paused(state) && state.initialized
    {
      hide Collecting;
      CollectingIs(state);
    }

    method ScanOne(state: GcState) returns (ok: bool)
      requires Shaped() && Collecting(state) && state.nextBlock < BLOCK_COUNT
      modifies this`unavailable, state`nextBlock, state`pending, state`missed
      ensures Shaped() && Collecting(state) && state.nextBlock == old(state.nextBlock) + 1
      ensures state.missed == old(state.missed) + if ok then {} else {old(state.nextBlock)}
      ensures state.pending == old(state.pending)
        + if ok && !Referenced(entries, old(state.nextBlock)) && flash.image[old(state.nextBlock)] != BLANK_BLOCK then [old(state.nextBlock)] else []
      ensures flash.faithful ==> ok
    {
      hide GarbageBelow, BothHold, Referenced;
      var block := state.nextBlock;
      state.nextBlock := state.nextBlock + 1;
      GarbageStep(flash.image, entries, unavailable, block, state.pending, state.missed);
      if !Referenced(entries, block) {
        var read, data := flash.Read(block);
        if !read {
          state.missed := state.missed + {block};
          return false;
        }
        if data == BLANK_BLOCK {
          unavailable := unavailable[block := false];
        } else {
          state.pending := state.pending + [block];
        }
      }
      ok := true;
    }

    method ErasePending(state: GcState) returns (ok: bool)
      requires Shaped() && Ready(entries) && AllAcceptable(entries) && Publishable(flash.image, entries) && CommitAccepts(entries)
      requires Collecting(state) && state.nextBlock == BLOCK_COUNT
      modifies this`generation, this`active, this`commitFailed, this`unavailable, flash, state
      ensures Shaped() && AllAcceptable(entries) && state.missed == old(state.missed)
      ensures ok ==> Ready(entries) && TreeOf(flash.image, entries) == old(TreeOf(flash.image, entries))
      ensures ok ==> Collecting(state) && state.nextBlock == BLOCK_COUNT && state.pending == []
      ensures ok ==> state.synchronized && generation == old(generation) + if old(state.synchronized) then 0 else 1
      ensures ok ==> state.lastReclaimed == old(state.pending) && state.reclaimed == old(state.reclaimed) + |old(state.pending)|
      ensures ok ==> SpareExcept(flash.image, entries, unavailable, state.missed)
      ensures !ok ==> After(old(TreeOf(flash.image, entries)), old(TreeOf(flash.image, entries)), false)
      ensures !ok && !commitFailed ==> Collecting(state)
      ensures flash.faithful && !ok ==> generation == LAST_GENERATION
    {
      hide *;
      ShapeIs();
      CollectingIs(state);
      ReadyParts(entries);
      ghost var before, t, slot := flash.image, TreeOf(flash.image, entries), 1 - active;
      if !state.synchronized {
        RefusedOnlyAtEnd(entries, generation);
        ok := Publish(entries);
        if !ok {
          ShapeIs();
          CollectingIs(state);
          Failed(t);
          return;
        }
        state.synchronized := true;
        ReadyFrom(entries);
        ShapeIs();
        PublishedGarbage(before, slot, state.pending, BLOCK_COUNT, state.missed);
      }
      ok := EraseGarbage(state.pending, BLOCK_COUNT, state.missed);
      if ok {
        state.reclaimed := state.reclaimed + |state.pending|;
        state.lastReclaimed := state.pending;
        state.pending := [];
        ShapeIs();
        NoGarbage(flash.image, entries, unavailable, state.missed);
        CollectingIs(state);
      } else {
        CollectingIs(state);
        ReadyParts(entries);
        Failed(t);
      }
    }

    // ----- Reading -----

    method ReadPackedBlock(block: nat, generation: u64)
      returns (ok: bool, records: seq<PackedBlock.Record>, locations: seq<PackedBlock.Location>)
      ensures ok ==>
        && block < BLOCK_COUNT && |records| == |locations|
        && PackedBlock.DecodeResult(flash.image[block]) == Some(PackedBlock.Decoded(generation, records, locations))
      ensures flash.faithful && block < BLOCK_COUNT && !ok ==>
        PackedBlock.DecodeResult(flash.image[block]).None? || PackedBlock.DecodeResult(flash.image[block]).value.generation != generation
    {
      hide PackedBlock.DecodeResult;
      var read, data := flash.Read(block);
      if !read {
        return false, [], [];
      }
      var decoded := PackedBlock.Decode(data);
      if decoded.None? || decoded.value.generation != generation {
        return false, [], [];
      }
      DecodedSameLength(data);
      return true, decoded.value.records, decoded.value.locations;
    }

    /** Reads part of a file; whole-block files are not checked against their checksum here. */
    method ReadEntryRange(e: Entry, offset: nat, size: nat) returns (ok: bool, bytes: seq<byte>)
      requires Acceptable(e) && !e.directory
      ensures ok ==> offset <= e.size && |bytes| == Min(size, e.size - offset)
      ensures ok && e.storage == Dedicated ==> bytes == ExtentBytes(flash.image, e)[offset..offset + |bytes|]
      ensures ok && e.storage == Packed && bytes != [] ==>
        var record := PackedBytes(flash.image[e.firstBlock], e);
        record.Some? && |record.value| == e.size && bytes == record.value[offset..offset + |bytes|]
      ensures flash.faithful && !ok ==> offset > e.size || (e.storage == Packed && PackedBytes(flash.image[e.firstBlock], e) == None)
    {
      hide PackedBytes, ExtentBytes, Resolve, ValidPath, PackedBlock.DecodeResult;
      if offset > e.size {
        return false, [];
      }
      var count := Min(size, e.size - offset);
      if count == 0 {
        return true, [];
      }
      if e.storage.Packed? {
        var read, record := ReadPackedEntry(e);
        if !read {
          return false, [];
        }
        return true, record[offset..offset + count];
      }
      ok, bytes := ReadExtent(e, offset, count);
    }

    method ReadPackedEntry(e: Entry) returns (ok: bool, bytes: seq<byte>)
      requires e.firstBlock < BLOCK_COUNT
      ensures ok ==> PackedBytes(flash.image[e.firstBlock], e) == Some(bytes) && |bytes| == e.size
      ensures flash.faithful && !ok ==> PackedBytes(flash.image[e.firstBlock], e) == None
    {
      hide Resolve, PackedBlock.DecodeResult;
      var read, records, locations := ReadPackedBlock(e.firstBlock, e.packedGeneration);
      if !read {
        return false, [];
      }
      var resolved := ResolveRecord(e, records, locations);
      if resolved.None? {
        return false, [];
      }
      ResolvedLength(e, records, locations, 0);
      return true, resolved.value;
    }

    method ReadExtent(e: Entry, offset: nat, count: nat) returns (ok: bool, bytes: seq<byte>)
      requires Acceptable(e) && !e.directory && count > 0 && offset + count <= e.size
      ensures ok ==> |bytes| == count && bytes == ExtentBytes(flash.image, e)[offset..offset + count]
      ensures flash.faithful ==> ok
    {
      hide ExtentBytes, Acceptable;
      ghost var contents := ExtentBytes(flash.image, e);
      var first, last := offset / BLOCK_SIZE, (offset + count - 1) / BLOCK_SIZE;
      var index := first;
      bytes := [];
      while index <= last
        invariant first <= index <= last + 1
        invariant |bytes| <= count && bytes == contents[offset..offset + |bytes|]
        invariant index <= last ==> offset + |bytes| == index * BLOCK_SIZE + if index == first then offset % BLOCK_SIZE else 0
        invariant index > last ==> |bytes| == count
      {
        IndexInExtent(e, offset + count - 1, index);
        var read, data := flash.Read(e.firstBlock + index);
        if !read {
          return false, [];
        }
        var begin := if index == first then offset % BLOCK_SIZE else 0;
        var end := if index == last then (offset + count - 1) % BLOCK_SIZE + 1 else BLOCK_SIZE;
        ExtentSlice(flash.image, e, index, begin, end);
        bytes := bytes + data[begin..end];
        index := index + 1;
      }
      ok := true;
    }

    /** A successful read returns the file and has checked it. */
    method ReadFile(path: Name) returns (ok: bool, bytes: seq<byte>)
      requires AllAcceptable(entries)
      ensures Find(entries, path) == |entries| || entries[Find(entries, path)].directory ==> !ok
      ensures ok ==> Find(entries, path) < |entries| && FileBytes(flash.image, entries[Find(entries, path)]) == Some(bytes)
      ensures ok ==>
        && path in TreeOf(flash.image, entries)
        && TreeOf(flash.image, entries)[path] == File(bytes, entries[Find(entries, path)].modifiedTime)
      ensures flash.faithful && Find(entries, path) < |entries| && !entries[Find(entries, path)].directory && !ok ==>
        FileBytes(flash.image, entries[Find(entries, path)]) == None
    {
      hide ExtentBytes, PackedBytes, ValidPath, TreeOf, FileBytes, Find, IsDir;
      var k := Find(entries, path);
      TreeHas(flash.image, entries, path);
      if k == |entries| || entries[k].directory {
        return false, [];
      }
      var read;
      read, bytes := ReadEntryRange(entries[k], 0, entries[k].size);
      if entries[k].storage.Packed? {
        PackedIsRecord(flash.image, entries[k]);
      }
      if !read {
        return false, [];
      }
      var crc := Crc32.Calculate(bytes);
      WholeRead(flash.image, entries[k], bytes);
      if crc != entries[k].crc {
        return false, [];
      }
      ok := true;
    }

    /** A range read returns that range of the file. */
    method ReadFileRange(path: Name, offset: nat, size: nat) returns (ok: bool, bytes: seq<byte>)
      requires AllAcceptable(entries)
      ensures Find(entries, path) == |entries| || entries[Find(entries, path)].directory ==> !ok
      ensures ok ==>
        var e := entries[Find(entries, path)];
        && offset <= e.size && |bytes| == Min(size, e.size - offset)
        && (FileBytes(flash.image, e).Some? ==>
          |FileBytes(flash.image, e).value| == e.size && bytes == FileBytes(flash.image, e).value[offset..offset + |bytes|])
      ensures flash.faithful && !ok && Find(entries, path) < |entries| && !entries[Find(entries, path)].directory ==>
        offset > entries[Find(entries, path)].size || FileBytes(flash.image, entries[Find(entries, path)]) == None
    {
      hide ExtentBytes, PackedBytes, ValidPath, Find;
      var k := Find(entries, path);
      if k == |entries| || entries[k].directory {
        return false, [];
      }
      CarriedSize(flash.image, entries[k]);
      ok, bytes := ReadEntryRange(entries[k], offset, size);
    }

    /** Certifies that every file of a mounted volume can be read back, whoever wrote it. */
    method Verify() returns (ok: bool)
      requires AllAcceptable(entries)
      ensures ok ==> Readable(flash.image, entries)
      ensures flash.faithful ==> (ok <==> Readable(flash.image, entries))
    {
      hide PackedBytes, ExtentBytes, Acceptable, FileBytes;
      var done: set<nat> := {};
      var i := 0;
      while i < |entries|
        invariant 0 <= i <= |entries|
        invariant forall k :: 0 <= k < |entries| && PackedIn(entries[k], done) ==> FileBytes(flash.image, entries[k]).Some?
        invariant forall k :: 0 <= k < i && !entries[k].directory ==> FileBytes(flash.image, entries[k]).Some?
      {
        var e := entries[i];
        if !e.directory {
          if e.storage.Packed? {
            if e.firstBlock !in done {
              var good := VerifyPacked(e);
              if !good {
                return false;
              }
              done := done + {e.firstBlock};
            }
            assert PackedIn(e, done);
          } else {
            var read, bytes := ReadEntryRange(e, 0, e.size);
            if !read {
              return false;
            }
            var crc := Crc32.Calculate(bytes);
            WholeRead(flash.image, e, bytes);
            if crc != e.crc {
              return false;
            }
          }
        }
        i := i + 1;
      }
      ok := true;
    }

    /** Checks every entry in the packed block of `e`. */
    method VerifyPacked(e: Entry) returns (ok: bool)
      requires AllAcceptable(entries) && e.storage.Packed? && e in entries
      ensures flash.faithful && !ok ==> !Readable(flash.image, entries)
      ensures ok ==> forall k :: 0 <= k < |entries| && PackedIn(entries[k], {e.firstBlock}) ==> FileBytes(flash.image, entries[k]).Some?
    {
      hide ValidPath, FileBytes, Resolve, PackedBlock.DecodeResult, PackedBytes;
      var read, records, locations := ReadPackedBlock(e.firstBlock, e.packedGeneration);
      ReadableDecodes(flash.image, entries, e);
      if !read {
        return false;
      }
      var i := 0;
      while i < |entries|
        invariant 0 <= i <= |entries|
        invariant forall k :: 0 <= k < i && PackedIn(entries[k], {e.firstBlock}) ==> FileBytes(flash.image, entries[k]).Some?
      {
        if entries[i].storage.Packed? && entries[i].firstBlock == e.firstBlock {
          ReadableDecodes(flash.image, entries, entries[i]);
          if entries[i].packedGeneration != e.packedGeneration {
            return false;
          }
          var resolved := ResolveRecord(entries[i], records, locations);
          if resolved.None? {
            return false;
          }
          ResolvedIsRead(flash.image, entries[i], records, locations);
        }
        i := i + 1;
      }
      ok := true;
    }

    // ----- Moving packed records -----

    /** The first live file of a packed block, or the number of entries. */
    method FirstLive(block: nat, skip: set<Name>) returns (k: nat)
      ensures k <= |entries| && (k < |entries| ==> Live(entries[k], block, skip))
      ensures k == |entries| ==> forall i :: 0 <= i < |entries| ==> !Live(entries[i], block, skip)
    {
      hide Live;
      k := 0;
      while k < |entries| && !Live(entries[k], block, skip)
        invariant 0 <= k <= |entries|
        invariant forall i :: 0 <= i < k ==> !Live(entries[i], block, skip)
      {
        k := k + 1;
      }
    }

    /** One live record of a decoded block, under its own identifier or the next number after `count`. */
    method CarryEntry(k: nat, generation: u64, renumber: bool, count: nat, records: seq<PackedBlock.Record>, locations: seq<PackedBlock.Location>)
      returns (p: Option<Pending>)
      requires AllAcceptable(entries) && DistinctNames(entries) && k < |entries| && |records| == |locations|
      requires Acceptable(entries[k]) && !entries[k].directory && entries[k].storage.Packed?
      requires PackedBlock.DecodeResult(flash.image[entries[k].firstBlock]) == Some(PackedBlock.Decoded(generation, records, locations))
      ensures p.Some? ==>
        && CarriedFrom(flash.image, entries[k], p.value)
        && Resolve(entries[k], records, locations, 0) == Some(p.value.record.bytes) && entries[k].packedGeneration == generation
        && (if renumber then p.value.record.id == count + 1 && p.value == Renumbered(CarriedRecord(flash.image, entries[k]), count + 1)
            else SameIdentifier(entries, p.value) && p.value == CarriedRecord(flash.image, entries[k]))
      ensures Readable(flash.image, entries) && count < 0xFFFF_FFFF ==> p.Some?
    {
      hide *;
      ReadableDecodes(flash.image, entries, entries[k]);
      if entries[k].packedGeneration != generation || (renumber && count >= 0xFFFF_FFFF) {
        return None;
      }
      var bytes := ResolveRecord(entries[k], records, locations);
      if bytes.None? {
        return None;
      }
      var id: u32 := if renumber then count + 1 else entries[k].packedRecordId;
      p := Some(Pending(entries[k].name, PackedBlock.Record(id, entries[k].modifiedTime, bytes.value), entries[k].crc));
      ResolvedCarries(flash.image, entries[k], records, locations, p.value);
      SameIdentifierIs(entries, k, p.value);
      if renumber {
        CarriedIsRenumbered(flash.image, entries[k], p.value, count + 1);
      } else {
        CarriedIsRecord(flash.image, entries[k], p.value);
      }
    }

    /** Reads the live records of one packed block and appends them to the pending ones. */
    method CarryBlock(block: nat, skip: set<Name>, renumber: bool, pending: seq<Pending>, ghost done: set<nat>)
      returns (ok: bool, result: seq<Pending>)
      requires AllAcceptable(entries) && DistinctNames(entries) && block !in done
      requires Carried(flash.image, entries, pending, skip, done, block, 0)
      ensures ok ==> Carried(flash.image, entries, result, skip, done + {block}, block, 0)
      ensures ok ==> |pending| <= |result| && result[..|pending|] == pending
      ensures ok && renumber ==> forall i :: |pending| <= i < |result| ==> result[i].record.id == i + 1
      ensures ok && renumber ==>
        result == pending + NumberedFrom(CarriedBlock(flash.image, entries, skip, block, |entries|), |pending|)
      ensures ok ==>
        forall k :: 0 <= k < |entries| && Live(entries[k], block, skip) ==>
          BlockGeneration(entries, block, skip, |entries|, entries[k].packedGeneration)
      ensures ok && !renumber ==> forall i :: |pending| <= i < |result| ==> SameIdentifier(entries, result[i])
      ensures ok && !renumber ==> result == pending + CarriedBlock(flash.image, entries, skip, block, |entries|)
      ensures ok ==> |result| <= |pending| + |entries|
      ensures ok && AllCompatible(entries) ==> FitsOneBlock(RecordsOf(result[|pending|..]))
      ensures flash.faithful && Readable(flash.image, entries) && |pending| + |entries| < 0xFFFF_FFFF ==> ok
    {
      hide Carried, Live, Acceptable, FileBytes, Resolve, PackedBlock.DecodeResult, DistinctNames, CarriedFrom, Readable, SameIdentifier, AllCompatible,
           Gathered, FitsOneBlock, RecordsOf, AllAcceptable, CarriedBlock, CarriedRecord, NumberedFrom, Renumbered, BlockGeneration;
      result := pending;
      ghost var added: seq<Pending> := [];
      NothingCarried(flash.image, entries, skip, block);
      var first := FirstLive(block, skip);
      if first == |entries| {
        CarryEmpty(flash.image, entries, pending, skip, done, block, 0);
        NothingFits([]);
        assert pending[|pending|..] == [];
        NothingLive(flash.image, entries, skip, block, |entries|);
        NumberedNone(|pending|);
        return true, pending;
      }
      LiveIs(entries[first], block, skip);
      ReadableDecodes(flash.image, entries, entries[first]);
      var generation := entries[first].packedGeneration;
      var read, records, locations := ReadPackedBlock(block, generation);
      if !read {
        return false, [];
      }
      var i := 0;
      ghost var chosen: set<nat> := {};
      GatheredNone(entries, records, locations, block, skip);
      NothingFits([]);
      NumberedNone(|pending|);
      NoBlockGeneration(entries, block, skip, generation);
      while i < |entries|
        invariant 0 <= i <= |entries|
        invariant Carried(flash.image, entries, result, skip, done, block, i)
        invariant result == pending + added && |added| <= i
        invariant AllCompatible(entries) ==>
          Gathered(entries, records, locations, block, skip, i, chosen, RecordsOf(added))
        invariant renumber ==> forall k :: 0 <= k < |added| ==> added[k].record.id == |pending| + k + 1
        invariant renumber ==> added == NumberedFrom(CarriedBlock(flash.image, entries, skip, block, i), |pending|)
        invariant BlockGeneration(entries, block, skip, i, generation)
        invariant !renumber ==> forall k :: 0 <= k < |added| ==> SameIdentifier(entries, added[k])
        invariant !renumber ==> added == CarriedBlock(flash.image, entries, skip, block, i)
      {
        CarriedBlockStep(flash.image, entries, skip, block, i);
        if Live(entries[i], block, skip) {
          LiveIs(entries[i], block, skip);
          var carried := CarryEntry(i, generation, renumber, |result|, records, locations);
          if carried.None? {
            return false, [];
          }
          var p := carried.value;
          NumberedSnoc(CarriedBlock(flash.image, entries, skip, block, i), CarriedRecord(flash.image, entries[i]), |pending|);
          CarryAdd(flash.image, entries, result, p, skip, done, block, i);
          GroupGrows(added, p);
          if AllCompatible(entries) {
            chosen := GatheredAdd(entries, records, locations, block, skip, i, chosen, RecordsOf(added), p.record);
          }
          result, added := result + [p], added + [p];
        } else {
          CarrySkip(flash.image, entries, result, skip, done, block, i);
          if AllCompatible(entries) {
            GatheredSkip(entries, records, locations, block, skip, i, chosen, RecordsOf(added));
          }
        }
        BlockGenerationNext(entries, block, skip, i, generation);
        i := i + 1;
      }
      if AllCompatible(entries) {
        GatheredFits(flash.image[block], PackedBlock.Decoded(generation, records, locations), entries, block, skip, i, chosen,
                     RecordsOf(added));
      }
      CarryDone(flash.image, entries, result, skip, done, block);
      assert result[|pending|..] == added;
      GenerationOfFirst(entries, block, skip, generation);
      ok := true;
    }

    /** Replaces or appends one entry. */
    method PlaceEntry(e: Entry)
      modifies this`entries
      ensures entries == Upsert(old(entries), e)
    {
      var k := Find(entries, e.name);
      if k < |entries| {
        entries := entries[k := e];
      } else {
        entries := entries + [e];
      }
    }

    /** Publishes the new places of all packed records, bin by bin. */
    method PlaceRecords(pending: seq<Pending>, bins: seq<seq<nat>>, locations: seq<seq<PackedBlock.Location>>, generation: u64, first: nat)
      requires Planned(pending, bins, generation) && Positioned(bins, first) && LocatedBins(pending, bins, generation, locations)
      modifies this`entries
      ensures entries == UpsertAll(old(entries), PackedEntries(pending, bins, generation, first))
    {
      hide *;
      PositionedIs(bins, first);
      ghost var es, placed := entries, PackedEntries(pending, bins, generation, first);
      UpsertNone(es, placed, bins);
      var b := 0;
      while b < |bins|
        invariant 0 <= b <= |bins|
        invariant |Slots(bins[..b])| <= |placed| && entries == UpsertAll(es, placed[..|Slots(bins[..b])|])
      {
        PlacedSoFar(pending, bins, generation, first, b);
        ghost var n := |Slots(bins[..b])|;
        var k := 0;
        while k < |bins[b]|
          invariant 0 <= k <= |bins[b]| && n + k <= |placed| && entries == UpsertAll(es, placed[..n + k])
        {
          PlacedAt(pending, bins, generation, first, b, k, locations);
          UpsertAllSnoc(es, placed, n + k);
          PlaceEntry(PackedEntry(pending[bins[b][k]], first + b, generation, locations[b][k]));
          k := k + 1;
        }
        b := b + 1;
      }
      assert bins[..b] == bins;
      assert |placed| == |Slots(bins)| && placed[..|placed|] == placed;
    }

    /** Publishes the whole-block files of a batch. */
    method PlaceFiles(files: seq<FileWrite>, first: nat)
      requires FilesFit(files, first)
      modifies this`entries
      ensures entries == UpsertAll(old(entries), FileEntries(files, first))
    {
      hide *;
      ghost var es, placed := entries, FileEntries(files, first);
      UpsertNone(es, placed, []);
      var offset, i := first, 0;
      BlocksOfNone(files);
      while i < |files|
        invariant 0 <= i <= |files|
        invariant offset == first + BlocksOf(files[..i]) && entries == UpsertAll(es, placed[..i])
      {
        FileEntryIs(files, first, i);
        FilesSnoc(files, i);
        UpsertAllSnoc(es, placed, i);
        var crc := Crc32.Calculate(files[i].bytes);
        PlaceEntry(DedicatedEntry(files[i], offset));
        offset := offset + DataBlocks(|files[i].bytes|);
        i := i + 1;
      }
      assert placed[..|placed|] == placed;
    }

    // ----- Compaction of packed blocks -----

    /** The packed blocks in use, in ascending order. */
    method SourceBlocks() returns (blocks: seq<nat>)
      requires AllAcceptable(entries)
      ensures AllPackedIn(entries, Members(blocks))
      ensures forall b :: b in blocks ==> exists k :: 0 <= k < |entries| && entries[k].storage.Packed? && entries[k].firstBlock == b
      ensures forall i, j :: 0 <= i < j < |blocks| ==> blocks[i] < blocks[j]
      ensures forall b :: b in blocks ==> FIRST_DATA_BLOCK <= b < BLOCK_COUNT
    {
      hide ValidPath;
      var inUse: set<nat> := {};
      var i := 0;
      while i < |entries|
        invariant 0 <= i <= |entries|
        invariant forall k :: 0 <= k < i && entries[k].storage.Packed? ==> entries[k].firstBlock in inUse
        invariant forall b :: b in inUse ==> exists k :: 0 <= k < i && entries[k].storage.Packed? && entries[k].firstBlock == b
        invariant forall b :: b in inUse ==> FIRST_DATA_BLOCK <= b < BLOCK_COUNT
      {
        if entries[i].storage.Packed? {
          assert Acceptable(entries[i]);
          inUse := inUse + {entries[i].firstBlock};
        }
        i := i + 1;
      }
      blocks := [];
      var block := FIRST_DATA_BLOCK;
      while block < BLOCK_COUNT
        invariant FIRST_DATA_BLOCK <= block <= BLOCK_COUNT
        invariant forall b :: b in blocks <==> b in inUse && b < block
        invariant forall i, j :: 0 <= i < j < |blocks| ==> blocks[i] < blocks[j]
      {
        if block in inUse {
          assert forall k :: 0 <= k < |blocks| ==> blocks[k] in blocks;
          blocks := blocks + [block];
        }
        block := block + 1;
      }
    }

    /** All live packed records, renumbered from one, block by block. */
    method GatherPacked(blocks: seq<nat>) returns (ok: bool, pending: seq<Pending>, generation: u64)
      requires AllAcceptable(entries) && DistinctNames(entries)
      requires forall i, j :: 0 <= i < j < |blocks| ==> blocks[i] < blocks[j]
      requires forall b :: b in blocks ==> b < BLOCK_COUNT
      ensures ok ==> Carried(flash.image, entries, pending, {}, Members(blocks), 0, 0) && generation != 0
      ensures flash.faithful && Readable(flash.image, entries) && |entries| < 0x1_0000 && !ok ==> GenerationsUsedUp(entries)
      ensures ok ==> pending == LivePacked(flash.image, entries, blocks) && Outdated(entries, blocks, generation)
      ensures ok ==> forall i :: 0 <= i < |pending| ==> pending[i].record.id == i + 1
      ensures ok && AllCompatible(entries) && Plannable(RecordsOf(pending)) ==> |PlanOf(RecordsOf(pending)).bins| <= |blocks|
    {
      hide Carried, Live, DistinctNames, AllAcceptable, Members, Readable, AllCompatible, FitsOneBlock, RecordsOf, Concat, Plannable, PlanOf,
           LivePacked, NumberedFrom, CarriedBlock, Outdated, BlockGeneration;
      pending, generation := [], 1;
      NoLivePacked(flash.image, entries, blocks[..0]);
      OutdatedNone(entries, blocks[..0]);
      ghost var groups: seq<seq<PackedBlock.Record>> := [];
      NothingFits(pending);
      NoGroups(groups);
      CarryNone(flash.image, entries, {}, 0);
      var i := 0;
      assert Members(blocks[..0]) == {};
      while i < |blocks|
        invariant 0 <= i <= |blocks|
        invariant Carried(flash.image, entries, pending, {}, Members(blocks[..i]), 0, 0)
        invariant pending == LivePacked(flash.image, entries, blocks[..i]) && Outdated(entries, blocks[..i], generation)
        invariant forall i :: 0 <= i < |pending| ==> pending[i].record.id == i + 1
        invariant generation != 0
        invariant |entries| < 0x1_0000 ==> |pending| <= i * 0x1_0000
        invariant |groups| == i && RecordsOf(pending) == Concat(groups)
        invariant AllCompatible(entries) ==> forall g :: 0 <= g < |groups| ==> FitsOneBlock(groups[g])
      {
        AscendingBound(blocks, i);
        ghost var done := Members(blocks[..i]);
        MembersSnoc(blocks, i);
        var k := FirstLive(blocks[i], {});
        if k < |entries| && entries[k].packedGeneration == LAST_GENERATION {
          LiveIs(entries[k], blocks[i], {});
          return false, [], 1;
        }
        CarryStart(flash.image, entries, pending, {}, done, 0, blocks[i]);
        var before := pending;
        ok, pending := CarryBlock(blocks[i], {}, true, pending, done);
        if !ok {
          return false, [], 1;
        }
        CarryStart(flash.image, entries, pending, {}, done + {blocks[i]}, blocks[i], 0);
        assert pending == before + pending[|before|..];
        RecordsOfConcat(before, pending[|before|..]);
        ConcatSnoc(groups, RecordsOf(pending[|before|..]));
        groups := groups + [RecordsOf(pending[|before|..])];
        forall j | 0 <= j < |pending| ensures pending[j].record.id == j + 1 {
          if j < |before| {
            assert pending[..|before|][j] == before[j];
          }
        }
        LivePackedSnoc(flash.image, entries, blocks, i);
        ghost var lower := generation;
        if k < |entries| && entries[k].packedGeneration + 1 > generation {
          generation := entries[k].packedGeneration + 1;
        }
        OutdatedNext(entries, blocks, i, lower, k, generation);
        i := i + 1;
      }
      assert blocks[..i] == blocks;
      if AllCompatible(entries) && Plannable(RecordsOf(pending)) {
        NoMoreBins(pending, groups);
      }
      ok := true;
    }

    /** Publishes moved files in both slots, then erases the blocks they have left. */
    method SettleMove(prior: seq<Entry>, destination: nat, count: nat, sources: seq<nat>) returns (ok: bool)
      requires Shaped() && Ready(prior) && Publishable(flash.image, entries)
      requires AllAcceptable(prior) && AllAcceptable(entries) && DistinctNames(entries)
      requires TreeOf(flash.image, entries) == TreeOf(flash.image, prior)
      requires destination + count <= BLOCK_COUNT && forall b :: b in sources ==> !Referenced(entries, b)
      modifies this, flash
      ensures Shaped() && After(old(TreeOf(flash.image, prior)), old(TreeOf(flash.image, prior)), ok)
      ensures ok ==> entries == old(entries)
      ensures flash.faithful && !ok ==> generation == LAST_GENERATION
      ensures ok ==> Emptied(flash.image, unavailable, sources)
      ensures ok ==> SameAround(old(flash.image), old(unavailable), flash.image, unavailable, sources)
      ensures nextFree == if ok then FIRST_DATA_BLOCK else old(nextFree)
      ensures !ok && generation == old(generation) ==>
        entries == prior && forall b :: destination <= b < destination + count ==> unavailable[b]
    {
      hide *;
      ghost var t := TreeOf(flash.image, prior);
      ghost var before, was, slot := flash.image, unavailable, active;
      ShapeIs();
      ReadyParts(prior);
      Capacity.SameNamesAccepted(prior, entries);
      RefusedOnlyAtEnd(entries, generation);
      ok := Publish(prior);
      if !ok {
        entries := prior;
        MarkRun(destination, count);
        Failed(t);
        return;
      }
      ReadyFrom(entries);
      RefusedOnlyAtEnd(entries, generation);
      ghost var first := flash.image;
      ShapeIs();
      SlotOnly(before, first, 1 - slot);
      slot := active;
      ok := Publish(entries);
      if !ok {
        Failed(t);
        return;
      }
      SlotOnly(first, flash.image, 1 - slot);
      ReadyFrom(entries);
      ShapeIs();
      ghost var published := flash.image;
      ok := Reclaim(sources);
      ReadyParts(entries);
      if !ok {
        Failed(t);
        return;
      }
      ShapeIs();
      EmptiedIs(flash.image, unavailable, sources);
      ReclaimedAround(before, was, published, flash.image, unavailable, sources);
      nextFree := FIRST_DATA_BLOCK;
      ShapeIs();
      ReadyParts(entries);
      Succeeded(t);
    }

    /**
      Gathers the live records of all packed blocks into as few blocks as first fit needs, when
      that saves a block or moves everything towards the start. Nothing visible changes.
     */
    method CompactPackedBlocks()
      returns (ok: bool, report: Report, ghost pending: seq<Pending>, ghost sources: seq<nat>, ghost first: nat)
      requires Usable()
      modifies this, flash
      ensures Shaped() && After(old(Tree()), old(Tree()), ok)
      ensures ok ==> SourcesOf(old(entries), sources) && Carried(old(flash.image), old(entries), pending, {}, Members(sources), 0, 0)
      ensures ok ==> AllAcceptable(old(entries)) && pending == LivePacked(old(flash.image), old(entries), sources)
      ensures
        var stays := PackedStays(old(flash.image), old(entries), old(unavailable), old(nextFree), pending, sources);
        && (ok ==> report == if stays then Report(0, 0) else Report(|pending|, |sources|))
        && (ok && stays ==> entries == old(entries) && flash.image == old(flash.image) && nextFree == old(nextFree))
        && (ok && !stays ==> nextFree == FIRST_DATA_BLOCK)
        && (ok && !stays ==> |pending| > 0 && RepackedAs(old(entries), pending, entries))
        && (ok && !stays ==>
             && Destination(old(flash.image), old(entries), old(unavailable), old(nextFree), BinsFor(pending), sources, first)
             && PackedWithin(entries, first, BinsFor(pending)))
        && (ok && !stays ==> PackedTight(entries, RecordsOf(pending), |sources|) && Vacated(sources))
        && (ok && !stays ==> LeftBehind(flash.image, entries, unavailable, sources))
      ensures ok ==> TidyKept(old(flash.image), old(entries), old(unavailable), flash.image, entries, unavailable)
      ensures flash.faithful && !ok ==> generation == LAST_GENERATION || GenerationsUsedUp(old(entries))
    {
      hide *;
      UsableParts();
      ReadyParts(entries);
      ghost var t := TreeOf(flash.image, entries);
      report, pending, sources, first := Report(0, 0), [], [], 0;
      var blocks := SourceBlocks();
      FewEntries(entries);
      PublishableReads(flash.image, entries);
      var read, gathered, packedGeneration := GatherPacked(blocks);
      if !read {
        Failed(t);
        ok := false;
        return;
      }
      pending, sources := gathered, blocks;
      SourcesAre(entries, blocks);
      OutdatedIsNew(entries, blocks, packedGeneration);
      ok := true;
      ghost var image, es, was, cursor := flash.image, entries, unavailable, nextFree;
      NothingPacked(image, es, was, cursor, gathered, blocks);
      TidySame(image, es, was);
      if gathered == [] {
        Succeeded(t);
        return;
      }
      CarriedPlannable(flash.image, entries, gathered, {}, Members(blocks));
      NumberedPlannable(gathered);
      var planned, bins := BuildPlan(RecordsOf(gathered));
      if !planned {
        Failed(t);
        ok := false;
        return;
      }
      CarriedWrites(flash.image, entries, pending, Members(blocks), 0);
      PlannedIs(gathered, bins, packedGeneration);
      CarriedSomewhere(flash.image, entries, gathered, {}, Members(blocks));
      PackedStaysIs(image, es, was, cursor, gathered, blocks, |bins|);
      var search, destination;
      ShapeIs();
      if |bins| < |blocks| {
        search, destination := FindBlankExtent(|bins|);
        if search == Found {
          ChoiceIsRoom(image, es, was, cursor, destination, |bins|);
          ChoiceParts(image, es, was, cursor, destination, |bins|);
        }
      } else {
        search, destination := FindBlankExtentBefore(blocks[0], |bins|);
        if search == Found {
          RunFound(image, es, was, FIRST_DATA_BLOCK, blocks[0], destination, |bins|);
        }
      }
      if search == ReadError {
        Failed(t);
        ok := false;
        return;
      }
      SetAsideTidy(image, es, was, unavailable);
      if search == NoExtent {
        Succeeded(t);
        return;
      }
      SpareIsFree(flash.image, entries, was, destination, |bins|);
      ghost var between := unavailable;
      ok := MovePacked(blocks, gathered, bins, packedGeneration, destination);
      report := Report(|gathered|, |blocks|);
      first := destination;
      if ok {
        PlannableIs(RecordsOf(pending));
        DestinationIs(image, es, was, cursor, pending, |bins|, sources, first);
        RepackedIs(es, gathered, bins, packedGeneration, destination, entries);
        PackedTightIs(entries, RecordsOf(pending), |sources|, destination);
        TidyTrans(image, es, was, image, es, between, flash.image, entries, unavailable);
      }
    }

    /** These blocks hold nothing any more. */
    ghost predicate Vacated(blocks: seq<nat>)
      requires Shaped()
      reads this, flash
    {
      Emptied(flash.image, unavailable, blocks) && forall b :: b in blocks ==> !Referenced(entries, b)
    }

    method MovePacked(blocks: seq<nat>, pending: seq<Pending>, bins: seq<seq<nat>>, packedGeneration: u64, destination: nat)
      returns (ok: bool)
      requires Shaped() && Ready(entries) && AllAcceptable(entries)
      requires Carried(flash.image, entries, pending, {}, Members(blocks), 0, 0) && AllPackedIn(entries, Members(blocks))
      requires forall b :: b in blocks ==> exists k :: 0 <= k < |entries| && entries[k].storage.Packed? && entries[k].firstBlock == b
      requires Planned(pending, bins, packedGeneration) && DistinctNames(entries)
      requires FIRST_DATA_BLOCK <= destination && destination + |bins| <= BLOCK_COUNT
      requires FreeRun(entries, destination, |bins|) && BlankRun(flash.image, destination, |bins|)
      modifies this, flash
      ensures Shaped() && After(old(TreeOf(flash.image, entries)), old(TreeOf(flash.image, entries)), ok)
      ensures ok ==> Vacated(blocks) && PackedWithin(entries, destination, |bins|) && nextFree == FIRST_DATA_BLOCK
      ensures ok ==> Positioned(bins, destination)
      ensures ok ==> entries == UpsertAll(old(entries), PackedEntries(pending, bins, packedGeneration, destination))
      ensures ok ==> LeftBehind(flash.image, entries, unavailable, blocks)
      ensures ok ==> TidyKept(old(flash.image), old(entries), old(unavailable), flash.image, entries, unavailable)
      ensures flash.faithful && !ok ==> generation == LAST_GENERATION
    {
      hide *;
      ghost var before, t := flash.image, TreeOf(flash.image, entries);
      ghost var es, was := entries, unavailable;
      ShapeIs();
      PositionedIs(bins, destination);
      var extent, locations := EncodeBins(pending, bins, packedGeneration);
      QuietBins(pending, bins, packedGeneration);
      QuietIsSafe(extent, destination);
      var programmed := ProgramPreparedExtent(destination, extent);
      ReadyUsable();
      UsableParts();
      if !programmed {
        ReadyParts(entries);
        Failed(t);
        return false;
      }
      UntouchedIs(before, flash.image, entries);
      CarriedFrame(before, flash.image, entries, pending, {}, Members(blocks), 0);
      Repacked(flash.image, entries, pending, bins, packedGeneration, destination, Members(blocks), 0);
      SourcesFree(entries, UpsertAll(entries, PackedEntries(pending, bins, packedGeneration, destination)), blocks);
      RepackReuses(flash.image, entries, pending, bins, packedGeneration, destination, blocks);
      var prior := entries;
      PlaceRecords(pending, bins, locations, packedGeneration, destination);
      ghost var stored := flash.image;
      ok := SettleMove(prior, destination, |bins|, blocks);
      VacatedIs(blocks);
      if ok {
        MoveKeepsTidy(before, es, was, stored, flash.image, entries, unavailable, destination, |bins|, |bins|, blocks);
        EmptiedLeft(flash.image, entries, unavailable, blocks);
      }
    }

    lemma VacatedIs(blocks: seq<nat>)
      requires Shaped()
      ensures
        Vacated(blocks) <==> Emptied(flash.image, unavailable, blocks) && forall b :: b in blocks ==> !Referenced(entries, b)
    {}

    // ----- Compaction of whole-block files -----

    /** The files that may move, highest first. */
    method MovableFiles() returns (candidates: seq<nat>)
      ensures forall k: nat :: k in candidates <==> k < |entries| && Movable(entries[k])
      ensures Descending(entries, candidates)
    {
      hide Movable, Inserted, Descending;
      candidates := [];
      assert Descending(entries, []) by { NoneDescending(entries); }
      var k := 0;
      while k < |entries|
        invariant 0 <= k <= |entries|
        invariant forall i: nat :: i in candidates <==> i < k && Movable(entries[i])
        invariant Descending(entries, candidates)
      {
        if Movable(entries[k]) {
          var at := 0;
          DescendingInRange(entries, candidates);
          while at < |candidates| && entries[candidates[at]].firstBlock > entries[k].firstBlock
            invariant 0 <= at <= |candidates|
            invariant forall i :: 0 <= i < at ==> entries[candidates[i]].firstBlock > entries[k].firstBlock
          {
            at := at + 1;
          }
          InsertDescending(entries, candidates, at, k);
          candidates := Inserted(candidates, at, k);
        }
        k := k + 1;
      }
    }

    /** Moves the highest file that fits into a spare run below it, or shows that none does. */
    method RelocateOne() returns (ok: bool, relocated: bool, blocks: nat, ghost move: Move)
      requires Shaped() && Ready(entries) && AllAcceptable(entries)
      modifies this, flash
      ensures Shaped() && After(old(TreeOf(flash.image, entries)), old(TreeOf(flash.image, entries)), ok)
      ensures ok && relocated ==> FirstBlockSum(entries) < old(FirstBlockSum(entries))
      ensures ok && relocated ==>
        && NextMove(old(flash.image), old(entries), old(unavailable), move) && move.file < |old(entries)|
        && entries == old(entries)[move.file := MovedEntry(old(entries)[move.file], move.destination)]
        && blocks == old(entries)[move.file].blockCount && nextFree == FIRST_DATA_BLOCK
      ensures ok && !relocated ==>
        && entries == old(entries) && flash.image == old(flash.image) && nextFree == old(nextFree)
        && Compacted(flash.image, entries, unavailable)
      ensures ok ==> TidyKept(old(flash.image), old(entries), old(unavailable), flash.image, entries, unavailable)
      ensures flash.faithful && !ok ==> generation == LAST_GENERATION
    {
      hide *;
      ReadyParts(entries);
      ghost var t, image, es, first := TreeOf(flash.image, entries), flash.image, entries, unavailable;
      var candidates := MovableFiles();
      DescendingInRange(entries, candidates);
      var i := 0;
      move := Move(0, 0);
      ShapeIs();
      SetAsideSame(image, first);
      while i < |candidates|
        invariant 0 <= i <= |candidates| && Shaped() && |unavailable| == BLOCK_COUNT && !commitFailed
        invariant flash.image == image && entries == es && Ready(entries) && SetAside(image, first, unavailable)
        invariant nextFree == old(nextFree)
        invariant forall j :: 0 <= j < i ==> Stuck(image, es, unavailable, candidates[j])
      {
        var k := candidates[i];
        assert k in candidates;
        MovableIs(entries[k]);
        AcceptableAt(entries, k);
        ghost var was := unavailable;
        var search, destination := FindBlankExtentBefore(entries[k].firstBlock, entries[k].blockCount);
        ShapeIs();
        if search == ReadError {
          ReadyParts(entries);
          Failed(t);
          return false, false, 0, move;
        }
        SetAsideTrans(image, first, was, unavailable);
        if search == Found {
          SpareIsFree(image, es, was, destination, es[k].blockCount);
          blocks := entries[k].blockCount;
          move := Move(k, destination);
          NextMoveIs(image, es, was, candidates, i, destination);
          SetAsideNext(image, es, first, was, move);
          SetAsideTidy(image, es, first, unavailable);
          ghost var between := unavailable;
          ok := RelocateFile(k, destination);
          if ok {
            MovedOneIs(es, entries, move);
            TidyTrans(image, es, first, image, es, between, flash.image, entries, unavailable);
          }
          relocated := true;
          return;
        }
        forall j | 0 <= j < i + 1 ensures Stuck(image, es, unavailable, candidates[j]) {
          if j < i {
            SetAsideStuck(image, es, was, unavailable, candidates[j]);
          } else {
            StuckIs(image, es, was, k);
            SetAsideStuck(image, es, was, unavailable, k);
          }
        }
        i := i + 1;
      }
      CompactedIs(image, es, unavailable, candidates);
      SetAsideTidy(image, es, first, unavailable);
      ReadyParts(entries);
      Succeeded(t);
      return true, false, 0, move;
    }

    /** Copies one file to its destination, switches the manifest over and erases the source. */
    method RelocateFile(k: nat, destination: nat) returns (ok: bool)
      requires Shaped() && Ready(entries) && AllAcceptable(entries) && k < |entries| && Movable(entries[k])
      requires FIRST_DATA_BLOCK <= destination && destination + entries[k].blockCount <= entries[k].firstBlock < BLOCK_COUNT
      requires FreeRun(entries, destination, entries[k].blockCount)
      requires BlankRun(flash.image, destination, entries[k].blockCount)
      modifies this, flash
      ensures Shaped() && After(old(TreeOf(flash.image, entries)), old(TreeOf(flash.image, entries)), ok)
      ensures ok ==> FirstBlockSum(entries) < old(FirstBlockSum(entries))
      ensures ok ==> MovedOne(old(entries), entries, k, destination) && nextFree == FIRST_DATA_BLOCK
      ensures ok ==> TidyKept(old(flash.image), old(entries), old(unavailable), flash.image, entries, unavailable)
      ensures ok ==> Vacated(BlockRange(old(entries)[k].firstBlock, old(entries)[k].blockCount))
      ensures flash.faithful && !ok ==> generation == LAST_GENERATION
    {
      hide *;
      ReadyUsable();
      UsableParts();
      ReadyParts(entries);
      MovableIs(entries[k]);
      AcceptableAt(entries, k);
      FindIs(entries, k);
      ghost var before, t := flash.image, TreeOf(flash.image, entries);
      ghost var es, was := entries, unavailable;
      ShapeIs();
      var original := entries[k];
      var read, bytes := ReadFile(original.name);
      PublishableReads(flash.image, entries);
      if !read {
        Failed(t);
        return false;
      }
      PaddedFits(flash.image, original, bytes);
      ShorterRun(flash.image, entries, destination, original.blockCount, |Padded(bytes)|);
      CarefulIs();
      if tame && flash.checksumSound {
        QuietRelocation(flash.image, original, destination, bytes);
      }
      var programmed := ProgramPreparedExtent(destination, Padded(bytes));
      ReadyUsable();
      UsableParts();
      ReadyParts(entries);
      if !programmed {
        Failed(t);
        return false;
      }
      UntouchedIs(before, flash.image, entries);
      NodeFrame(before, flash.image, entries, k);
      var target: u32 := destination;
      FileRelocation(flash.image, entries, k, target, bytes);
      RelocationLowers(entries, k, target);
      var sources := BlockRange(original.firstBlock, original.blockCount);
      SourceFree(flash.image, entries, k, target, sources);
      RelocationReuses(entries, k, target, sources);
      var prior := entries;
      entries := entries[k := MovedEntry(original, target)];
      OneMoved(prior, entries, k, target);
      ghost var stored := flash.image;
      ok := SettleMove(prior, destination, original.blockCount, sources);
      VacatedIs(sources);
      if ok {
        MoveKeepsTidy(before, es, was, stored, flash.image, entries, unavailable,
                      destination, |Padded(bytes)|, original.blockCount, sources);
      }
    }

    /**
      Both compactions, the second one to a fixed point. Nothing visible changes. `middle` are the
      entries after repacking, `moves` the moves after it.
     */
    method CompactFiles()
      returns (ok: bool, report: Report, ghost pending: seq<Pending>, ghost sources: seq<nat>, ghost middle: seq<Entry>, ghost moves: seq<Move>)
      requires Usable()
      modifies this, flash
      ensures Shaped() && After(old(Tree()), old(Tree()), ok)
      ensures ok ==> SourcesOf(old(entries), sources) && AllAcceptable(old(entries))
      ensures ok ==> pending == LivePacked(old(flash.image), old(entries), sources)
      ensures
        var stays := PackedStays(old(flash.image), old(entries), old(unavailable), old(nextFree), pending, sources);
        && (ok ==> CompactedAs(old(entries), pending, sources, stays, middle, moves, entries, report))
        && (ok && !stays ==> PackedTight(entries, RecordsOf(pending), |sources|))
        && (ok && !stays ==> LeftBehind(flash.image, entries, unavailable, sources))
      ensures ok ==> Compacted(flash.image, entries, unavailable)
      ensures ok ==> TidyKept(old(flash.image), old(entries), old(unavailable), flash.image, entries, unavailable)
      ensures ok && report.files == 0 ==> entries == old(entries)
      ensures ok ==> nextFree == if report.files == 0 then old(nextFree) else FIRST_DATA_BLOCK
      ensures flash.faithful && !ok ==> generation == LAST_GENERATION || GenerationsUsedUp(old(entries))
    {
      hide *;
      UsableParts();
      ghost var t, image, es, was := Tree(), flash.image, entries, unavailable;
      ghost var cursor, first := nextFree, 0;
      middle, moves := [], [];
      ok, report, pending, sources, first := CompactPackedBlocks();
      if !ok {
        return;
      }
      ghost var stays := PackedStays(image, es, was, cursor, pending, sources);
      middle := entries;
      CompactedStart(es, pending, sources, stays, middle, report);
      var relocated := true;
      while relocated
        invariant Shaped() && After(t, t, true)
        invariant CompactedAs(es, pending, sources, stays, middle, moves, entries, report)
        invariant stays || PackedTight(entries, RecordsOf(pending), |sources|)
        invariant stays || LeftBehind(flash.image, entries, unavailable, sources)
        invariant TidyKept(image, es, was, flash.image, entries, unavailable)
        invariant nextFree == if report.files == 0 then cursor else FIRST_DATA_BLOCK
        invariant !relocated ==> Compacted(flash.image, entries, unavailable)
        decreases FirstBlockSum(entries) + if relocated then 1 else 0
      {
        AfterUsable(t);
        UsableParts();
        ghost var image', es', was' := flash.image, entries, unavailable;
        var blocks;
        ghost var move;
        ok, relocated, blocks, move := RelocateOne();
        if !ok {
          return;
        }
        TidyTrans(image, es, was, image', es', was', flash.image, entries, unavailable);
        if relocated {
          NextGoesDown(image', es', was', move);
          CompactedNext(es, pending, sources, stays, middle, moves, es', report, move);
          PackedStayPut(es', move, RecordsOf(pending), |sources|, sources);
          moves := moves + [move];
          report := Report(report.files + 1, report.blocks + blocks);
        }
        if !stays {
          LeftBehindKept(image', es', was', flash.image, entries, unavailable, sources);
        }
      }
      NothingReported(es, pending, sources, stays, middle, moves, entries, report);
      ok := true;
    }

    lemma AfterUsable(t: Tree)
      requires After(t, t, true)
      ensures Usable() && Sound() && !commitFailed && Tree() == t
    {
      hide Usable, Sound, Tree;
    }

    /**
      Collects garbage, then compacts. Afterwards no block is garbage, and what was moved is told by the
      entries before the call alone, since every unreferenced block could be used.
     */
    method Compact()
      returns (ok: bool, reclaimed: nat, report: Report,
               ghost pending: seq<Pending>, ghost sources: seq<nat>, ghost middle: seq<Entry>, ghost moves: seq<Move>)
      requires Usable()
      modifies this, flash
      ensures Shaped() && After(old(Tree()), old(Tree()), ok)
      ensures ok ==> SourcesOf(old(entries), sources) && AllAcceptable(old(entries))
      ensures ok ==> pending == LivePacked(old(flash.image), old(entries), sources)
      ensures
        var stays := PackedStaysClean(old(entries), old(nextFree), pending, sources);
        && (ok ==> CompactedAs(old(entries), pending, sources, stays, middle, moves, entries, report))
        && (ok && !stays ==> PackedTight(entries, RecordsOf(pending), |sources|))
        && (ok && !stays ==> LeftBehind(flash.image, entries, unavailable, sources))
      ensures ok ==> Compacted(flash.image, entries, unavailable) && AllSpare(flash.image, entries, unavailable)
      ensures ok ==> reclaimed == GarbageCount(old(flash.image), old(entries), BLOCK_COUNT)
      ensures ok && report.files == 0 ==> entries == old(entries)
      ensures ok ==> nextFree == if report.files == 0 then old(nextFree) else FIRST_DATA_BLOCK
      ensures flash.faithful && !ok ==> generation == LAST_GENERATION || GenerationsUsedUp(old(entries))
    {
      hide *;
      UsableParts();
      ShapeIs();
      ghost var t, image, es := Tree(), flash.image, entries;
      report, pending, sources, middle, moves := Report(0, 0), [], [], [], [];
      ok, reclaimed := CollectGarbage();
      if !ok {
        return;
      }
      AfterUsable(t);
      ShapeIs();
      ghost var clean, spare, cursor := flash.image, unavailable, nextFree;
      ok, report, pending, sources, middle, moves := CompactFiles();
      ShapeIs();
      if ok {
        LivePackedFrame(image, clean, es, sources);
        StaysWhenClean(clean, es, spare, cursor, pending, sources);
        AllSpareKept(clean, es, spare, flash.image, entries, unavailable);
      }
    }

    // ----- Writing files -----

    /**
      Space for a batch: what is blank already, then garbage collection, then compaction. On a device
      that does what it is asked to, and with generations left, it fails only when all of that has been tried.
     */
    method AllocateExtent(count: nat) returns (ok: bool, first: nat)
      requires Usable() && count > 0
      modifies this, flash
      ensures Shaped() && After(old(Tree()), old(Tree()), ok)
      ensures ok ==>
        && FIRST_DATA_BLOCK <= first && first + count <= BLOCK_COUNT
        && FreeRun(entries, first, count) && BlankRun(flash.image, first, count)
        && FirstChoice(flash.image, entries, unavailable, nextFree, first, count)
      ensures flash.faithful && !ok ==>
        || generation == LAST_GENERATION || GenerationsUsedUp(old(entries))
        || NothingLeft(flash.image, entries, unavailable, nextFree, count)
      ensures flash.faithful && !NoFreeRoom(old(entries), old(nextFree), count) ==>
        (if ok then entries == old(entries) else generation == LAST_GENERATION)
      ensures flash.faithful && count > FreeCount(old(entries), Available(), BLOCK_COUNT) ==> entries == old(entries)
      ensures ok || (flash.faithful && generation != LAST_GENERATION && !GenerationsUsedUp(old(entries))) ==>
        entries == old(entries) || nextFree == FIRST_DATA_BLOCK
      ensures flash.faithful && !NoRoom(old(flash.image), old(entries), old(unavailable), old(nextFree), count) ==>
        && ok && flash.image == old(flash.image) && entries == old(entries)
        && FirstChoice(old(flash.image), old(entries), old(unavailable), old(nextFree), first, count)
    {
      hide *;
      UsableParts();
      ghost var t := Tree();
      var search;
      search, first := FindSpace(count);
      if search != NoExtent {
        return search == Found, first;
      }
      AfterUsable(t);
      var reclaimed;
      ok, reclaimed := CollectGarbage();
      if !ok {
        return;
      }
      AfterUsable(t);
      ShapeIs();
      ghost var image, es, was := flash.image, entries, unavailable;
      NoRoomWhenClean(flash.image, entries, unavailable, nextFree, count);
      search, first := FindSpace(count);
      if search != NoExtent {
        return search == Found, first;
      }
      ShapeIs();
      AllSpareKept(image, es, was, flash.image, entries, unavailable);
      AfterUsable(t);
      UsableParts();
      was := unavailable;
      var free := FreeBlocks();
      SpareCount(flash.image, entries, unavailable, BLOCK_COUNT);
      if count > free {
        NothingLeftIs(flash.image, entries, unavailable, nextFree, count);
        ReadyParts(entries);
        Failed(t);
        return false, 0;
      }
      var report;
      ghost var pending, sources, middle, moves;
      ok, report, pending, sources, middle, moves := CompactFiles();
      if !ok {
        return;
      }
      ShapeIs();
      AllSpareKept(image, es, was, flash.image, entries, unavailable);
      AfterUsable(t);
      image, es, was := flash.image, entries, unavailable;
      search, first := FindSpace(count);
      if search == NoExtent {
        ShapeIs();
        AllSpareKept(image, es, was, flash.image, entries, unavailable);
        NothingLeftIs(flash.image, entries, unavailable, nextFree, count);
        AfterUsable(t);
        UsableParts();
        ReadyParts(entries);
        Failed(t);
      }
      return search == Found, first;
    }

    /** One search; `search == Found` is success. */
    method FindSpace(count: nat) returns (search: Search, first: nat)
      requires Usable() && count > 0
      modifies this`unavailable
      ensures Shaped() && After(old(Tree()), old(Tree()), search != ReadError)
      ensures search == Found ==>
        && FIRST_DATA_BLOCK <= first && first + count <= BLOCK_COUNT
        && FreeRun(entries, first, count) && BlankRun(flash.image, first, count)
      ensures search == Found ==>
        && FirstChoice(flash.image, entries, old(unavailable), nextFree, first, count)
        && FirstChoice(flash.image, entries, unavailable, nextFree, first, count)
      ensures search == NoExtent ==>
        && NoRoom(flash.image, entries, old(unavailable), nextFree, count)
        && NoRoom(flash.image, entries, unavailable, nextFree, count)
      ensures TidyKept(flash.image, entries, old(unavailable), flash.image, entries, unavailable)
      ensures Compacted(flash.image, entries, old(unavailable)) ==> Compacted(flash.image, entries, unavailable)
      ensures flash.faithful ==> search != ReadError
    {
      hide *;
      UsableParts();
      ghost var was, t := unavailable, Tree();
      search, first := FindBlankExtent(count);
      ReadyParts(entries);
      SetAsideTidy(flash.image, entries, was, unavailable);
      SetAsideCompacted(flash.image, entries, was, unavailable);
      if search == Found {
        ChoiceParts(flash.image, entries, was, nextFree, first, count);
        SpareIsFree(flash.image, entries, was, first, count);
        SetAsideChoice(flash.image, entries, was, unavailable, nextFree, first, count);
      }
      if search == NoExtent {
        SetAsideNoRoom(flash.image, entries, was, unavailable, nextFree, count);
      }
      if search == ReadError {
        Failed(t);
      } else {
        Succeeded(t);
      }
    }

    /** Admits a batch, splits it into packed and whole-block files and lists the packed blocks it overwrites. */
    method Classify(files: seq<FileWrite>)
      returns (ok: bool, packed: seq<FileWrite>, dedicated: seq<FileWrite>, names: set<Name>, repack: set<nat>)
      requires AllAcceptable(entries)
      ensures ok <==> AcceptedSoFar(TreeOf(flash.image, entries), entries, files, |files|)
      ensures ok ==> packed == Selected(files, true) && dedicated == Selected(files, false) && names == FilePaths(files)
      ensures ok ==> forall b :: b in repack ==> InUse(entries, b)
      ensures ok && DistinctNames(entries) ==> repack == OverwrittenBlocks(entries, names)
    {
      hide *;
      ghost var t := TreeOf(flash.image, entries);
      packed, dedicated, names, repack := [], [], {}, {};
      AcceptNone(t, entries, files);
      NoFiles(files);
      var manifestSize := 4;
      var k := 0;
      NoEntryBytes(entries);
      NothingOverwritten(entries);
      while k < |entries|
        invariant 0 <= k <= |entries| && manifestSize == 4 + |EntriesBytes(entries[..k])|
      {
        EntriesSnoc(entries, k);
        manifestSize := manifestSize + ENTRY_SIZE + |entries[k].name|;
        k := k + 1;
      }
      assert entries[..k] == entries;
      var i := 0;
      while i < |files|
        invariant 0 <= i <= |files| && AcceptedSoFar(t, entries, files, i)
        invariant manifestSize == 4 + |EntriesBytes(entries)| + Growth(entries, files[..i])
        invariant packed == Selected(files[..i], true) && dedicated == Selected(files[..i], false)
        invariant names == FilePaths(files[..i])
        invariant forall b :: b in repack ==> InUse(entries, b)
        invariant DistinctNames(entries) ==> repack == OverwrittenBlocks(entries, names)
      {
        var f := files[i];
        AcceptNext(t, entries, files, i);
        AdmissibleIs(flash.image, entries, f);
        GrowthSnoc(entries, files, i);
        FitsIs(entries, files, i);
        SelectedSnoc(files, i, true);
        SelectedSnoc(files, i, false);
        FilePathsSnoc(files, i);
        if DistinctNames(entries) {
          OverwrittenNext(entries, names, f.path);
        }
        var valid := CheckPath(f.path);
        if !valid || !ParentExists(entries, f.path) || f.path in names {
          return false, packed, dedicated, names, repack;
        }
        names := names + {f.path};
        var existing := Find(entries, f.path);
        if existing < |entries| && entries[existing].directory {
          return false, packed, dedicated, names, repack;
        }
        if existing == |entries| {
          manifestSize := manifestSize + ENTRY_SIZE + |f.path|;
        }
        if |f.path| > LARGEST_NAME || manifestSize > BLOCK_SIZE - SUPERBLOCK_HEADER {
          return false, packed, dedicated, names, repack;
        }
        if existing < |entries| && entries[existing].storage.Packed? {
          InUseAt(entries, existing);
          repack := repack + {entries[existing].firstBlock};
        }
        if PackedBlock.ShouldPack(|f.bytes|) {
          packed := packed + [f];
        } else {
          dedicated := dedicated + [f];
        }
        i := i + 1;
      }
      assert files[..i] == files;
      ok := true;
    }

    /** The fullest packed block that can take at least the smallest of the new records. */
    method ChooseRepack(packed: seq<FileWrite>) returns (choice: Option<nat>, smallest: nat)
      requires packed != []
      ensures smallest < |packed| && |packed[smallest].bytes| == Shortest(packed)
      ensures Fullest(entries, PackedBlock.EncodedRecordSize(Shortest(packed)), choice)
    {
      hide LiveBytes, InUse, PackedBlock.EncodedRecordSize, Measured, FirstUse, Shortest, InOrder;
      smallest := 0;
      var i := 1;
      while i < |packed|
        invariant 1 <= i <= |packed| && 0 <= smallest < i
        invariant forall j :: 0 <= j < i ==> |packed[smallest].bytes| <= |packed[j].bytes|
      {
        if |packed[i].bytes| < |packed[smallest].bytes| {
          smallest := i;
        }
        i := i + 1;
      }
      ShortestIs(packed, smallest);
      var incoming := PackedBlock.EncodedRecordSize(|packed[smallest].bytes|);
      var blocks, lengths := MeasureBlocks();
      MeasuredUse(entries, blocks, lengths);
      choice := None;
      var used, a := 0, 0;
      ghost var best := 0;
      while a < |blocks|
        invariant 0 <= a <= |blocks|
        invariant choice.None? ==> used == 0 && forall b :: 0 <= b < a ==> !TakesMore(entries, blocks[b], incoming)
        invariant choice.Some? ==> 0 <= best < a && blocks[best] == choice.value && lengths[best] == used
        invariant choice.Some? ==> TakesMore(entries, choice.value, incoming) && used == Occupied(entries, choice.value)
        invariant forall b :: 0 <= b < a && TakesMore(entries, blocks[b], incoming) ==> lengths[b] <= used
        invariant choice.Some? ==> forall b :: 0 <= b < best && TakesMore(entries, blocks[b], incoming) ==> lengths[b] < used
      {
        if lengths[a] <= BLOCK_SIZE && incoming <= BLOCK_SIZE - lengths[a] && lengths[a] > used {
          choice, used, best := Some(blocks[a]), lengths[a], a;
        }
        a := a + 1;
      }
      forall b: nat | TakesMore(entries, b, incoming) ensures choice.Some? && (b == choice.value || Better(entries, choice.value, b)) {
        assert b in blocks;
        var c :| 0 <= c < |blocks| && blocks[c] == b;
      }
    }

    method MeasureBlocks() returns (blocks: seq<nat>, lengths: seq<nat>)
      ensures |blocks| == |lengths| && Measured(entries, |entries|, blocks, lengths) && InOrder(entries, |entries|, blocks)
    {
      hide LiveBytes, InUse, PackedBlock.EncodedRecordSize, Measured, InOrder;
      blocks, lengths := [], [];
      MeasureNone(entries);
      OrderNone(entries);
      var i := 0;
      while i < |entries|
        invariant 0 <= i <= |entries| && |blocks| == |lengths| && Measured(entries, i, blocks, lengths) && InOrder(entries, i, blocks)
      {
        OrderNext(entries, i, blocks, lengths);
        if entries[i].storage.Packed? {
          var at := 0;
          while at < |blocks| && blocks[at] != entries[i].firstBlock
            invariant 0 <= at <= |blocks| && forall b :: 0 <= b < at ==> blocks[b] != entries[i].firstBlock
          {
            at := at + 1;
          }
          MeasureMore(entries, i, blocks, lengths, at);
          var size := PackedBlock.EncodedRecordSize(entries[i].size);
          if at < |blocks| {
            lengths := lengths[at := lengths[at] + size];
          } else {
            blocks, lengths := blocks + [entries[i].firstBlock], lengths + [PackedBlock.HEADER_SIZE + size];
          }
        } else {
          MeasureOther(entries, i, blocks, lengths);
        }
        i := i + 1;
      }
    }

    /** A record identifier and a generation above every one in use. */
    method NextIdentifiers() returns (ok: bool, id: nat, generation: u64)
      ensures ok ==> id > 0 && generation > 0
      ensures ok ==> generation == 1 || exists k :: 0 <= k < |entries| && entries[k].storage.Packed? && generation == entries[k].packedGeneration + 1
      ensures ok ==> id == 1 || exists k :: 0 <= k < |entries| && entries[k].storage.Packed? && id == entries[k].packedRecordId + 1
      ensures ok ==> forall k :: 0 <= k < |entries| && entries[k].storage.Packed? ==>
        entries[k].packedRecordId < id && entries[k].packedGeneration < generation
      ensures ok ==> id == NextId(entries)
      ensures ok <==> !GenerationsUsedUp(entries)
    {
      hide NextId;
      id, generation := 1, 1;
      NextIdNone(entries);
      var i := 0;
      ghost var a: nat, b: nat := 0, 0;
      assert entries[..|entries|] == entries;
      while i < |entries|
        invariant 0 <= i <= |entries| && id == NextId(entries[..i]) && generation > 0
        invariant forall k :: 0 <= k < i && entries[k].storage.Packed? ==> entries[k].packedGeneration != LAST_GENERATION
        invariant id == 1 || (a < i && entries[a].storage.Packed? && id == entries[a].packedRecordId + 1)
        invariant generation == 1 || (b < i && entries[b].storage.Packed? && generation == entries[b].packedGeneration + 1)
        invariant forall k :: 0 <= k < i && entries[k].storage.Packed? ==>
          entries[k].packedRecordId < id && entries[k].packedGeneration < generation
      {
        NextIdSnoc(entries, i);
        if entries[i].storage.Packed? {
          if entries[i].packedRecordId + 1 > id {
            a := i;
          }
          id := Max(id, entries[i].packedRecordId + 1);
          if entries[i].packedGeneration == LAST_GENERATION {
            return false, 1, 1;
          }
          if entries[i].packedGeneration + 1 > generation {
            b := i;
          }
          generation := Max(generation, entries[i].packedGeneration + 1);
        }
        i := i + 1;
      }
      ok := true;
    }

    /** The live records of the blocks that are rewritten, other than those the batch replaces. */
    method CarryAll(repack: set<nat>, names: set<Name>) returns (ok: bool, pending: seq<Pending>)
      requires AllAcceptable(entries) && DistinctNames(entries) && forall b :: b in repack ==> b < BLOCK_COUNT
      ensures ok ==> Carried(flash.image, entries, pending, names, repack, 0, 0)
      ensures ok ==> pending == CarriedBlocks(flash.image, entries, names, repack, BLOCK_COUNT)
      ensures ok ==> forall i :: 0 <= i < |pending| ==> SameIdentifier(entries, pending[i])
      ensures flash.faithful && Readable(flash.image, entries) && |entries| < 0x1_0000 ==> ok
    {
      hide Carried, DistinctNames, AllAcceptable, Readable, SameIdentifier, FitsOneBlock, AllCompatible, RecordsOf, CarriedBlock, CarriedBlocks;
      pending := [];
      ghost var done: set<nat> := {};
      CarryNone(flash.image, entries, names, 0);
      NoBlocksCarried(flash.image, entries, names, repack);
      var block := 0;
      while block < BLOCK_COUNT
        invariant 0 <= block <= BLOCK_COUNT
        invariant Carried(flash.image, entries, pending, names, done, 0, 0) && forall b :: b in done <==> b in repack && b < block
        invariant pending == CarriedBlocks(flash.image, entries, names, repack, block)
        invariant forall i :: 0 <= i < |pending| ==> SameIdentifier(entries, pending[i])
        invariant |entries| < 0x1_0000 ==> |pending| <= block * 0x1_0000
      {
        CarriedBlocksStep(flash.image, entries, names, repack, block);
        if block in repack {
          CarryStart(flash.image, entries, pending, names, done, 0, block);
          var before := pending;
          ok, pending := CarryBlock(block, names, false, pending, done);
          if !ok {
            return;
          }
          forall i | 0 <= i < |pending| ensures SameIdentifier(entries, pending[i]) {
            if i < |before| {
              assert pending[..|before|][i] == before[i];
            }
          }
          CarryStart(flash.image, entries, pending, names, done + {block}, block, 0);
          done := done + {block};
        }
        block := block + 1;
      }
      assert done == repack;
      ok := true;
    }

    /** Writes an extent into free space; after a failed program it tries elsewhere, three times in all. */
    method WriteExtent(extent: seq<Block>) returns (ok: bool, first: nat)
      requires Usable() && extent != [] && (tame ==> QuietExtent(extent))
      modifies this, flash
      ensures Shaped() && After(old(Tree()), old(Tree()), ok)
      ensures ok ==>
        && FIRST_DATA_BLOCK <= first && first + |extent| <= BLOCK_COUNT
        && FreeRun(entries, first, |extent|) && Stored(flash.image, first, extent) && nextFree == first + |extent|
      ensures flash.faithful && !ok ==>
        || generation == LAST_GENERATION || GenerationsUsedUp(old(entries))
        || NothingLeft(flash.image, entries, unavailable, nextFree, |extent|)
      ensures flash.faithful && !ok && !NoFreeRoom(old(entries), old(nextFree), |extent|) ==> generation == LAST_GENERATION
      ensures flash.faithful && !NoRoom(old(flash.image), old(entries), old(unavailable), old(nextFree), |extent|) ==>
        ok && FirstChoice(old(flash.image), old(entries), old(unavailable), old(nextFree), first, |extent|)
    {
      hide *;
      UsableParts();
      ghost var t := Tree();
      ghost var image, was := flash.image, unavailable;
      ghost var roomy := !NoRoom(image, entries, was, nextFree, |extent|);
      var attempt, programmed := 1, false;
      first := 0;
      ReadyParts(entries);
      Succeeded(t);
      while attempt <= 3 && !programmed
        invariant Shaped() && After(t, t, true)
        invariant flash.faithful && attempt > 1 ==> programmed
        invariant 1 <= attempt && (attempt == 1 ==> !programmed)
        invariant attempt == 1 ==> entries == old(entries) && nextFree == old(nextFree) && flash.image == image && unavailable == was
        invariant attempt > 1 && flash.faithful && roomy ==>
          FirstChoice(image, old(entries), was, old(nextFree), first, |extent|)
        invariant programmed ==>
          && FIRST_DATA_BLOCK <= first && first + |extent| <= BLOCK_COUNT
          && FreeRun(entries, first, |extent|) && Stored(flash.image, first, extent) && nextFree == first + |extent|
        decreases 4 - attempt
      {
        AfterUsable(t);
        var placed;
        placed, first := AllocateExtent(|extent|);
        if !placed {
          return false, 0;
        }
        AfterUsable(t);
        UsableParts();
        SetCursor(first, |extent|);
        if tame {
          QuietIsSafe(extent, first);
        }
        programmed := ProgramPreparedExtent(first, extent);
        ReadyUsable();
        ReadyParts(entries);
        Succeeded(t);
        attempt := attempt + 1;
      }
      ok := programmed;
      if !ok {
        AfterUsable(t);
        UsableParts();
        ReadyParts(entries);
        Failed(t);
      }
    }

    method SetCursor(first: nat, count: nat)
      requires Shaped() && FIRST_DATA_BLOCK <= first && first + count <= BLOCK_COUNT
      modifies this`nextFree
      ensures Shaped() && nextFree == first
    {
      nextFree := first;
    }

    /** Puts a planned batch on flash and publishes it. */
    method WriteBatch(pending: seq<Pending>, bins: seq<seq<nat>>, packedGeneration: u64, files: seq<FileWrite>, count: nat, ghost u: Tree)
      returns (ok: bool)
      requires Usable() && Planned(pending, bins, packedGeneration) && BatchApart(pending, files)
      requires count == BlocksOf(files) && |bins| + count <= BLOCK_COUNT - FIRST_DATA_BLOCK
      requires Writes(Tree(), pending, files, u) && Capacity.ManifestFits(u.Keys)
      requires tame ==> QuietExtent(BinsExtent(pending, bins, packedGeneration) + FilesExtent(files))
      modifies this, flash
      ensures After(old(Tree()), u, ok)
      ensures ok ==> BatchStoredAs(entries, pending, files)
      ensures flash.faithful && !ok ==>
        || generation == LAST_GENERATION || GenerationsUsedUp(old(entries))
        || NothingLeft(flash.image, entries, unavailable, nextFree, |bins| + count)
      ensures flash.faithful && !ok && !NoFreeRoom(old(entries), old(nextFree), |bins| + count) ==> generation == LAST_GENERATION
    {
      hide *;
      UsableParts();
      ShapeIs();
      ghost var t := Tree();
      var total, first := |bins| + count, nextFree;
      var extent, locations := EncodeBins(pending, bins, packedGeneration);
      var rest := JoinFiles(files);
      if total != 0 {
        ok, first := WriteExtent(extent + rest);
        if !ok {
          AfterOther(t, u);
          return;
        }
        AfterUsable(t);
        UsableParts();
      } else {
        NothingToStore(flash.image, entries, first, extent + rest);
      }
      BatchExtentIs(pending, bins, packedGeneration, files);
      BatchIsReady(pending, bins, packedGeneration, files, first);
      BatchPublished(flash.image, entries, pending, bins, packedGeneration, files, first, u);
      BatchIsStored(entries, pending, bins, packedGeneration, files, first);
      UpsertAllConcat(entries, PackedEntries(pending, bins, packedGeneration, first), FileEntries(files, first + |bins|));
      Capacity.AcceptedNames(UpsertAll(entries, BatchEntries(pending, bins, packedGeneration, files, first)));
      RefusedOnlyAtEnd(UpsertAll(entries, BatchEntries(pending, bins, packedGeneration, files, first)), generation);
      var prior := entries;
      PlaceRecords(pending, bins, locations, packedGeneration, first);
      PlaceFiles(files, first + |bins|);
      ok := CommitEdit(prior);
      AfterFaithful(t, u, ok);
    }

    lemma AfterFaithful(t: Tree, u: Tree, ok: bool)
      requires After(t, u, ok)
      ensures flash.faithful ==> !commitFailed
    {
      hide Sound, Usable, Tree, SlotsHold;
    }

    lemma AfterOther(t: Tree, u: Tree)
      requires After(t, t, false)
      ensures After(t, u, false)
    {
      hide Sound, Usable, Tree, SlotsHold;
    }

    /** Gathers, plans and writes an admitted batch. */
    method StoreBatch(files: seq<FileWrite>, packed: seq<FileWrite>, dedicated: seq<FileWrite>, names: set<Name>, repack: set<nat>)
      returns (ok: bool, why: Ending)
      requires Usable() && AcceptedSoFar(Tree(), entries, files, |files|) && Batch(Tree(), files)
      requires packed == Selected(files, true) && dedicated == Selected(files, false) && names == FilePaths(files)
      requires (forall b :: b in repack ==> b < BLOCK_COUNT) && (tame ==> TameFiles(files))
      modifies this, flash
      ensures After(old(Tree()), PutAll(old(Tree()), files), ok)
      ensures (ok <==> why == Done) && why != Rejected && (ok ==> StoredBySize(entries, files))
      ensures Ends(old(flash.image), old(entries), files, repack, why)
      ensures flash.faithful ==> why != ReadFailed
      ensures flash.faithful && why == WriteFailed ==> AllAcceptable(old(entries)) && NoPlace(old(Now()), files, repack, Now())
    {
      hide *;
      UsableParts();
      ReadyParts(entries);
      NowIs();
      ghost var image, es, start := flash.image, entries, Now();
      ghost var t, u := Tree(), PutAll(Tree(), files);
      Failed(u);
      EndsIs(image, es, files, repack);
      var numbered, id, packedGeneration := NextIdentifiers();
      if !numbered {
        return false, GenerationsExhausted;
      }
      FewEntries(entries);
      PublishableReads(image, es);
      var carriedAll, carried := CarryAll(repack, names);
      if !carriedAll {
        return false, ReadFailed;
      }
      ExhaustedIs(es, files);
      var within, incoming := NumberRecords(packed, id);
      if !within {
        return false, IdentifiersExhausted;
      }
      var pending := carried + incoming;
      RecordsAre(image, es, files, repack, carried, incoming);
      CarriedPlannable(image, es, carried, names, repack);
      ClashExactly(image, es, carried, files, incoming, id, repack);
      var planned, bins := BuildPlan(RecordsOf(pending));
      if !planned {
        return false, IdentifiersClash;
      }
      CarriedOnly(image, es, files, carried, repack);
      var counted, count := CountBlocks(dedicated);
      NeededIs(image, es, files, repack, pending);
      if !counted || |bins| > BLOCK_COUNT - FIRST_DATA_BLOCK - count {
        return false, TooLarge;
      }
      BatchPaths(t, files, carried, incoming);
      BatchWrites(t, files, carried, incoming);
      PlannedIs(pending, bins, packedGeneration);
      QuietBatch(files, pending, bins, packedGeneration);
      BatchApartIs(pending, dedicated);
      Capacity.AdmittedFits(t, entries, files);
      Capacity.PutAllNames(t, files);
      ok := WriteBatch(pending, bins, packedGeneration, dedicated, count, u);
      if ok {
        BySize(entries, files, carried, incoming);
      }
      why := if ok then Done else WriteFailed;
      AfterSound(t, u, ok);
      NowIs();
      NoPlaceIs(start, files, repack, |bins| + count, Now());
    }

    /**
      Writes a batch of files in one commit. Small files share packed blocks with the live
      neighbours of what they replace; everything else gets whole blocks. `why` is the branch that
      ended the operation, `repack` the packed blocks it set out to rewrite.
     */
    method PutFiles(files: seq<FileWrite>) returns (ok: bool, why: Ending, ghost repack: set<nat>)
      requires Usable() && (tame ==> TameFiles(files))
      modifies this, flash
      ensures Refines(old(Tree()), TreeSpec.PutFiles(files), ok)
      ensures ok <==> why == Done
      ensures AllAcceptable(old(entries)) && Answered(flash.faithful, old(Now()), files, repack, why, Now())
    {
      hide *;
      UsableParts();
      ReadyParts(entries);
      NowIs();
      ghost var start := Now();
      ghost var t, c, u := Tree(), TreeSpec.PutFiles(files), PutAll(Tree(), files);
      PutSpec(t, files);
      AcceptedIsBatch(t, entries, files);
      if files == [] {
        AcceptNone(t, entries, files);
        StoredNone(entries, files);
        Succeeded(t);
        Did(t, c, t, true);
        NowIs();
        AnsweredIs(flash.faithful, start, files, {}, Done, Now());
        return true, Done, {};
      }
      var admitted, packed, dedicated, names, rewritten := Classify(files);
      if !admitted {
        if Batch(t, files) {
          Failed(u);
          Did(t, c, u, false);
        } else {
          Declined(t, c);
        }
        NowIs();
        AnsweredIs(flash.faithful, start, files, {}, Rejected, Now());
        return false, Rejected, {};
      }
      RewritesIs(entries, files);
      if packed != [] && rewritten == {} {
        var choice, smallest := ChooseRepack(packed);
        if choice.Some? {
          rewritten := {choice.value};
        }
      }
      repack := rewritten;
      RewritesInRange(entries, files, repack);
      ok, why := StoreBatch(files, packed, dedicated, names, rewritten);
      Did(t, c, u, ok);
      AfterSound(t, u, ok);
      NowIs();
      AnsweredIs(flash.faithful, start, files, repack, why, Now());
    }

    lemma AfterSound(t: Tree, u: Tree, ok: bool)
      requires After(t, u, ok)
      ensures Sound()
    {
      hide Sound, Usable, Tree, SlotsHold;
    }
  }
}
