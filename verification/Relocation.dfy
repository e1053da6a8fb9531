/**
  Replacing entries by entries that were just written elsewhere: the tree after a batch, and the
  tree after compaction, which is the tree before it.
 */
module Relocation {
  import opened Bytes
  import opened Paths
  import opened Manifest
  import opened Device
  import opened Volume
  import opened TreeSpec
  import opened EntryOps
  import opened Placement
  import opened Carrying
  import opened PackedBlock
  import BinPacking
  import Crc32

  /** Overwriting, characterized name by name. */
  lemma OverwrittenIs(image: Image, t: Tree, placed: seq<Entry>, u: Tree)
    requires AllAcceptable(placed) && DistinctNames(placed)
    requires u.Keys == t.Keys + Names(placed)
    requires forall j :: 0 <= j < |placed| ==> placed[j].name in u && u[placed[j].name] == NodeOf(image, placed[j])
    requires forall n :: n in t && n !in Names(placed) ==> u[n] == t[n]
    ensures Overwritten(image, t, placed) == u
  {
    hide Overwritten, NodeOf, Acceptable;
    var o := Overwritten(image, t, placed);
    forall n ensures n in o <==> n in u {
      OverwrittenAt(image, t, placed, n);
    }
    forall n | n in o ensures o[n] == u[n] {
      OverwrittenAt(image, t, placed, n);
      if n in Names(placed) {
        var j :| 0 <= j < |placed| && placed[j].name == n;
        OverwrittenPlaced(image, t, placed, j);
      }
    }
  }

  /** After the replacement every entry is a placed one or an old one of another name. */
  lemma {:induction false} UpsertAllReplaces(image: Image, es: seq<Entry>, placed: seq<Entry>, k: nat)
    requires Publishable(image, es) && DistinctNames(es) && Placeable(image, es, placed) && k < |UpsertAll(es, placed)|
    ensures
      var x := UpsertAll(es, placed)[k];
      x in placed || (x in es && x.name !in Names(placed))
    decreases |placed|
  {
    hide Publishable, Upsert, Joins, Compatible, Acceptable;
    if placed != [] {
      var last := |placed| - 1;
      var before, e := UpsertAll(es, placed[..last]), placed[last];
      PlaceablePrefix(image, es, placed, last);
      UpsertAllPublishable(image, es, placed[..last]);
      UpsertAt(before, e, k);
      assert placed == placed[..last + 1];
      NamesSnoc(placed, last);
      if k != Find(before, e.name) {
        UpsertAllReplaces(image, es, placed[..last], k);
      }
    } else {
      assert Names(placed) == {};
    }
  }

  lemma PlaceablePrefix(image: Image, es: seq<Entry>, placed: seq<Entry>, n: nat)
    requires Placeable(image, es, placed) && n <= |placed|
    ensures Placeable(image, es, placed[..n])
  {}

  lemma {:induction false} UpsertAllConcat(es: seq<Entry>, a: seq<Entry>, b: seq<Entry>)
    ensures UpsertAll(es, a + b) == UpsertAll(UpsertAll(es, a), b)
    decreases |b|
  {
    hide Upsert;
    if b == [] {
      assert a + b == a;
    } else {
      var last := |b| - 1;
      UpsertAllConcat(es, a, b[..last]);
      assert (a + b)[..|a + b| - 1] == a + b[..last];
    }
  }

  lemma UpsertAllSnoc(es: seq<Entry>, placed: seq<Entry>, n: nat)
    requires n < |placed|
    ensures UpsertAll(es, placed[..n + 1]) == Upsert(UpsertAll(es, placed[..n]), placed[n])
  {
    hide Upsert;
    assert placed[..n + 1][..n] == placed[..n];
  }

  // ----- Whole-block files that move -----

  function MovedEntry(e: Entry, destination: u32): Entry
  {
    e.(firstBlock := destination)
  }

  lemma MovedReads(image: Image, e: Entry, destination: u32, bytes: seq<byte>)
    requires Acceptable(e) && !e.directory && e.storage == Dedicated && FileBytes(image, e) == Some(bytes)
    requires FIRST_DATA_BLOCK <= destination && destination + e.blockCount <= BLOCK_COUNT
    requires Stored(image, destination, Padded(bytes))
    ensures Acceptable(MovedEntry(e, destination)) && FileBytes(image, MovedEntry(e, destination)) == Some(bytes)
    ensures NodeOf(image, MovedEntry(e, destination)) == NodeOf(image, e)
  {
    hide ValidPath, Padded;
    var moved := MovedEntry(e, destination);
    assert e.size == |bytes| && e.crc == Crc32.Crc(bytes);
    ExtentReads(image, moved, bytes);
  }

  /** Moving one file into a free run changes nothing in the tree, and frees its old blocks. */
  lemma FileRelocation(image: Image, es: seq<Entry>, k: nat, destination: u32, bytes: seq<byte>)
    requires Publishable(image, es) && DistinctNames(es) && k < |es| && Acceptable(es[k])
    requires !es[k].directory && es[k].storage == Dedicated && FileBytes(image, es[k]) == Some(bytes)
    requires FIRST_DATA_BLOCK <= destination && destination + es[k].blockCount <= BLOCK_COUNT
    requires Stored(image, destination, Padded(bytes)) && FreeRun(es, destination, es[k].blockCount)
    ensures
      var next := es[k := MovedEntry(es[k], destination)];
      && AllAcceptable(es) && AllAcceptable(next) && Publishable(image, next) && DistinctNames(next)
      && TreeOf(image, next) == TreeOf(image, es)
  {
    hide Padded, FileBytes, Acceptable, AllCompatible, Compatible, FreeRun, TreeOf, NodeOf;
    var e, moved := es[k], MovedEntry(es[k], destination);
    MovedReads(image, e, destination, bytes);
    forall i | 0 <= i < |es| && es[i].name != moved.name ensures Compatible(es[i], moved) {
      FreshCompatible(es, i, moved, destination, e.blockCount);
    }
    FindIs(es, k);
    assert Upsert(es, moved) == es[k := moved];
    UpsertPublishable(image, es, moved);
    TreeAt(image, es, k);
  }

  /** The old extent of a moved file is free. */
  lemma RelocationFrees(es: seq<Entry>, k: nat, destination: u32, b: nat)
    requires AllCompatible(es) && k < |es| && Acceptable(es[k])
    requires !es[k].directory && es[k].storage == Dedicated && FreeRun(es, destination, es[k].blockCount)
    requires Occupies(es[k], b)
    ensures !Referenced(es[k := MovedEntry(es[k], destination)], b)
  {
    hide ValidPath;
    var next := es[k := MovedEntry(es[k], destination)];
    forall i | 0 <= i < |next| ensures !Occupies(next[i], b) {
      if i == k {
        assert Referenced(es, b);
      } else if i < k {
        assert Compatible(es[i], es[k]);
      } else {
        assert Compatible(es[k], es[i]);
      }
    }
  }

  /** What every relocation lowers. */
  function FirstBlockSum(es: seq<Entry>): nat
  {
    if es == [] then 0 else FirstBlockSum(es[..|es| - 1]) + es[|es| - 1].firstBlock
  }

  lemma {:induction false} RelocationLowers(es: seq<Entry>, k: nat, destination: u32)
    requires k < |es|
    ensures FirstBlockSum(es[k := MovedEntry(es[k], destination)]) == FirstBlockSum(es) - es[k].firstBlock + destination
    decreases |es|
  {
    var last := |es| - 1;
    var next := es[k := MovedEntry(es[k], destination)];
    if k == last {
      assert next[..last] == es[..last];
    } else {
      RelocationLowers(es[..last], k, destination);
      assert next[..last] == es[..last][k := MovedEntry(es[..last][k], destination)];
    }
  }

  // ----- Packed files that move -----

  /** Every packed file's block is among these. */
  ghost predicate AllPackedIn(es: seq<Entry>, blocks: set<nat>)
  {
    forall k :: 0 <= k < |es| && es[k].storage.Packed? ==> es[k].firstBlock in blocks
  }

  lemma PackedNames(image: Image, es: seq<Entry>, pending: seq<Pending>, blocks: set<nat>, block: nat, k: nat)
    requires AllAcceptable(es) && AllPackedIn(es, blocks) && Carried(image, es, pending, {}, blocks, block, 0)
    requires k < |es| && es[k].storage.Packed?
    ensures es[k].name in PathsOf(pending)
  {
    hide CarriedFrom, Find, PathsOf, ValidPath;
    assert Visited(es, k, {}, blocks, block, 0);
  }

  lemma PlacedNames(pending: seq<Pending>, bins: seq<seq<nat>>, generation: u64, files: seq<FileWrite>, first: nat)
    requires BatchReady(pending, bins, generation, files, first)
    ensures Names(BatchEntries(pending, bins, generation, files, first)) == PathsOf(pending) + FilePaths(files)
  {
    hide Planned, Slots, SlotEntry, FileEntry, FilesFit, DistinctPaths, BlocksOf;
    var placed := BatchEntries(pending, bins, generation, files, first);
    forall n | n in Names(placed) ensures n in PathsOf(pending) + FilePaths(files) {
      var j :| 0 <= j < |placed| && placed[j].name == n;
      PlacedNode(pending, bins, generation, files, first, j);
    }
    forall n | n in PathsOf(pending) ensures n in Names(placed) {
      var i :| 0 <= i < |pending| && pending[i].path == n;
      var j := SlotOf(pending, bins, generation, first, i);
      assert placed[j].name == n;
    }
    forall i | 0 <= i < |files| ensures files[i].path in Names(placed) {
      FileEntryFields(files, first + |bins|, i);
      assert placed[|Slots(bins)| + i].name == files[i].path;
    }
  }

  /** The node placed under a name, read off the pending records. */
  lemma PlacedNode(pending: seq<Pending>, bins: seq<seq<nat>>, generation: u64, files: seq<FileWrite>, first: nat, j: nat)
    requires BatchReady(pending, bins, generation, files, first) && j < |BatchEntries(pending, bins, generation, files, first)|
    ensures
      var n, node := BatchEntries(pending, bins, generation, files, first)[j].name, BatchNode(pending, bins, files, j);
      || (exists i :: 0 <= i < |pending| && pending[i].path == n && node == Some(PendingNode(pending[i])))
      || (exists i :: 0 <= i < |files| && files[i].path == n && node == Some(FileNode(files[i])))
  {
    hide Planned, Slots, SlotEntry, FileEntry, FilesFit, DistinctPaths, BlocksOf, ValidPath, Locations, CanEncode, EncodedRecordSize;
    if j < |Slots(bins)| {
      SlotEntryFields(pending, bins, generation, first, j);
      var i := bins[Slots(bins)[j].0][Slots(bins)[j].1];
      assert pending[i].path == SlotEntry(pending, bins, generation, first, j).name;
    } else {
      FileEntryFields(files, first + |bins|, j - |Slots(bins)|);
    }
  }

  function PendingNode(p: Pending): Node
  {
    File(p.record.bytes, p.record.modifiedTime)
  }

  /** Tree `u` is tree `t` with the pending records and the files written into it. */
  ghost predicate Writes(t: Tree, pending: seq<Pending>, files: seq<FileWrite>, u: Tree)
  {
    && u.Keys == t.Keys + PathsOf(pending) + FilePaths(files)
    && (forall i :: 0 <= i < |pending| ==> pending[i].path in u && u[pending[i].path] == PendingNode(pending[i]))
    && (forall i :: 0 <= i < |files| ==> files[i].path in u && u[files[i].path] == FileNode(files[i]))
    && forall n :: n in t && n !in PathsOf(pending) && (forall i :: 0 <= i < |files| ==> files[i].path != n) ==> u[n] == t[n]
  }

  /** Publishing a written batch: the volume stays sound and the tree becomes `u`. */
  lemma BatchPublished(image: Image, es: seq<Entry>, pending: seq<Pending>, bins: seq<seq<nat>>, generation: u64,
                       files: seq<FileWrite>, first: nat, u: Tree)
    requires Publishable(image, es) && DistinctNames(es) && AllAcceptable(es)
    requires BatchReady(pending, bins, generation, files, first)
    requires Stored(image, first, BatchExtent(pending, bins, generation, files))
    requires FreeRun(es, first, |bins| + BlocksOf(files))
    requires Writes(TreeOf(image, es), pending, files, u)
    ensures
      var placed := BatchEntries(pending, bins, generation, files, first);
      var next := UpsertAll(es, placed);
      && Placeable(image, es, placed) && DistinctNames(placed)
      && Publishable(image, next) && DistinctNames(next) && AllAcceptable(next) && TreeOf(image, next) == u
  {
    hide Publishable, BatchReady, Stored, BatchExtent, FreeRun, BatchEntries, Placeable, UpsertAll, TreeOf, NodeOf, PathsOf, BatchNode, Acceptable;
    var placed := BatchEntries(pending, bins, generation, files, first);
    BatchPlaceable(image, es, pending, bins, generation, files, first);
    UpsertAllPublishable(image, es, placed);
    PublishableAcceptable(image, UpsertAll(es, placed));
    PlacedNames(pending, bins, generation, files, first);
    forall j | 0 <= j < |placed| ensures placed[j].name in u && u[placed[j].name] == NodeOf(image, placed[j]) {
      PlacedNode(pending, bins, generation, files, first, j);
    }
    OverwrittenIs(image, TreeOf(image, es), placed, u);
  }

  lemma PublishableAcceptable(image: Image, es: seq<Entry>)
    requires Publishable(image, es)
    ensures AllAcceptable(es)
  {}

  /** Rewriting what is there already changes nothing. */
  lemma CarriedWrites(image: Image, es: seq<Entry>, pending: seq<Pending>, blocks: set<nat>, block: nat)
    requires AllAcceptable(es) && Carried(image, es, pending, {}, blocks, block, 0)
    ensures Writes(TreeOf(image, es), pending, [], TreeOf(image, es))
    ensures forall i :: 0 <= i < |pending| ==> PendingOk(pending[i])
  {
    hide HasSource, TreeOf, Acceptable;
    var t := TreeOf(image, es);
    forall i | 0 <= i < |pending| ensures pending[i].path in t && t[pending[i].path] == PendingNode(pending[i]) && PendingOk(pending[i]) {
      CarriedNode(image, es, pending[i], {}, blocks, block, 0);
    }
  }

  /** Packed blocks whose files have all moved are free. */
  lemma PackedRelocationFrees(image: Image, es: seq<Entry>, pending: seq<Pending>, bins: seq<seq<nat>>, generation: u64,
                              first: nat, blocks: set<nat>, block: nat, owner: nat)
    requires Publishable(image, es) && DistinctNames(es) && AllAcceptable(es) && AllPackedIn(es, blocks)
    requires BatchReady(pending, bins, generation, [], first) && FreeRun(es, first, |bins|)
    requires Placeable(image, es, BatchEntries(pending, bins, generation, [], first))
    requires Carried(image, es, pending, {}, blocks, block, 0)
    requires owner < |es| && es[owner].storage.Packed?
    ensures !Referenced(UpsertAll(es, BatchEntries(pending, bins, generation, [], first)), es[owner].firstBlock)
  {
    hide BatchReady, FreeRun, BatchEntries, Placeable, UpsertAll, Carried, AllPackedIn, PathsOf, Readable, Publishable, ValidPath;
    var placed, b := BatchEntries(pending, bins, generation, [], first), es[owner].firstBlock;
    var next := UpsertAll(es, placed);
    PlacedNames(pending, bins, generation, [], first);
    forall k | 0 <= k < |next| ensures !Occupies(next[k], b) {
      UpsertAllReplaces(image, es, placed, k);
      if next[k] in placed {
        var j :| 0 <= j < |placed| && placed[j] == next[k];
        PlacedElsewhere(es, pending, bins, generation, first, j, owner);
      } else {
        var i :| 0 <= i < |es| && es[i] == next[k];
        if es[i].storage.Packed? {
          PackedNames(image, es, pending, blocks, block, i);
        }
        OthersElsewhere(image, es, i, owner);
      }
    }
    assert Acceptable(es[owner]);
  }

  /** All packed files lie in one run of blocks. */
  ghost predicate PackedWithin(es: seq<Entry>, first: nat, count: nat)
  {
    forall k :: 0 <= k < |es| && es[k].storage.Packed? ==> first <= es[k].firstBlock < first + count
  }

  lemma PackedRelocationGathers(image: Image, es: seq<Entry>, pending: seq<Pending>, bins: seq<seq<nat>>, generation: u64,
                                first: nat, blocks: set<nat>, block: nat)
    requires Publishable(image, es) && DistinctNames(es) && AllAcceptable(es) && AllPackedIn(es, blocks)
    requires BatchReady(pending, bins, generation, [], first)
    requires Placeable(image, es, BatchEntries(pending, bins, generation, [], first))
    requires Carried(image, es, pending, {}, blocks, block, 0)
    ensures PackedWithin(UpsertAll(es, BatchEntries(pending, bins, generation, [], first)), first, |bins|)
  {
    hide FreeRun, Placeable, UpsertAll, Carried, AllPackedIn, PathsOf, Readable, Publishable, ValidPath, SlotEntry, Slots, Planned,
         FilesFit, Acceptable, DistinctNames;
    var placed := BatchEntries(pending, bins, generation, [], first);
    var next := UpsertAll(es, placed);
    PlacedNames(pending, bins, generation, [], first);
    forall k | 0 <= k < |next| && next[k].storage.Packed? ensures first <= next[k].firstBlock < first + |bins| {
      UpsertAllReplaces(image, es, placed, k);
      if next[k] in placed {
        var j :| 0 <= j < |placed| && placed[j] == next[k];
        SlotEntryFields(pending, bins, generation, first, j);
      } else {
        var i :| 0 <= i < |es| && es[i] == next[k];
        PackedNames(image, es, pending, blocks, block, i);
      }
    }
  }

  /** Repacking all live packed files: same tree, every old packed block is free, as many packed blocks as bins. */
  lemma Repacked(image: Image, es: seq<Entry>, pending: seq<Pending>, bins: seq<seq<nat>>, generation: u64,
                 first: nat, blocks: set<nat>, block: nat)
    requires Publishable(image, es) && DistinctNames(es) && AllAcceptable(es)
    requires Carried(image, es, pending, {}, blocks, block, 0) && AllPackedIn(es, blocks)
    requires Planned(pending, bins, generation) && Positioned(bins, first)
    requires Stored(image, first, BinsExtent(pending, bins, generation)) && FreeRun(es, first, |bins|)
    ensures
      var next := UpsertAll(es, PackedEntries(pending, bins, generation, first));
      && Publishable(image, next) && DistinctNames(next) && AllAcceptable(next)
      && TreeOf(image, next) == TreeOf(image, es) && PackedWithin(next, first, |bins|)
      && forall k :: 0 <= k < |es| && es[k].storage.Packed? ==> !Referenced(next, es[k].firstBlock)
  {
    hide PackedWithin, Publishable, DistinctNames, AllAcceptable, Stored, FreeRun, Carried, Planned, AllPackedIn, UpsertAll, TreeOf,
         PackedEntries, BinsExtent, Referenced, Placeable, PathsOf;
    RepackReady(image, es, pending, bins, generation, first, blocks, block);
    CarriedWrites(image, es, pending, blocks, block);
    BatchPublished(image, es, pending, bins, generation, [], first, TreeOf(image, es));
    PackedRelocationGathers(image, es, pending, bins, generation, first, blocks, block);
    forall k | 0 <= k < |es| && es[k].storage.Packed?
      ensures !Referenced(UpsertAll(es, BatchEntries(pending, bins, generation, [], first)), es[k].firstBlock)
    {
      PackedRelocationFrees(image, es, pending, bins, generation, first, blocks, block, k);
    }
  }

  lemma RepackReady(image: Image, es: seq<Entry>, pending: seq<Pending>, bins: seq<seq<nat>>, generation: u64,
                    first: nat, blocks: set<nat>, block: nat)
    requires Carried(image, es, pending, {}, blocks, block, 0)
    requires Planned(pending, bins, generation) && Positioned(bins, first)
    ensures BatchReady(pending, bins, generation, [], first)
    ensures BatchExtent(pending, bins, generation, []) == BinsExtent(pending, bins, generation)
    ensures BatchEntries(pending, bins, generation, [], first) == PackedEntries(pending, bins, generation, first)
    ensures BlocksOf([]) == 0
  {
    hide Planned, HasSource, SlotEntry, BinBlock, Slots;
  }

  /** The planner accepts carried records whenever their identifiers differ. */
  lemma CarriedPlannable(image: Image, es: seq<Entry>, pending: seq<Pending>, skip: set<Name>, blocks: set<nat>)
    requires AllAcceptable(es) && Carried(image, es, pending, skip, blocks, 0, 0)
    ensures forall i :: 0 <= i < |pending| ==> 0 < |pending[i].record.bytes| <= THRESHOLD
  {
    hide Find, PackedBytes, ValidPath, FileBytes;
    forall i | 0 <= i < |pending| ensures 0 < |pending[i].record.bytes| <= THRESHOLD {
      assert HasSource(image, es, pending[i], skip, blocks, 0, 0);
      var e := es[Find(es, pending[i].path)];
      CarriedSize(image, e);
      assert Acceptable(e);
    }
  }

  lemma CarriedSize(image: Image, e: Entry)
    requires Acceptable(e) && !e.directory
    ensures FileBytes(image, e).Some? ==> |FileBytes(image, e).value| == e.size
  {
    hide Resolve, ValidPath, DecodeResult;
    if e.storage.Packed? {
      var decoded := DecodeResult(image[e.firstBlock]);
      if decoded.Some? {
        DecodedSameLength(image[e.firstBlock]);
        ResolvedLength(e, decoded.value.records, decoded.value.locations, 0);
      }
    }
  }

  lemma {:induction false} ResolvedLength(e: Entry, records: seq<Record>, locations: seq<Location>, k: nat)
    requires |records| == |locations| && k <= |records|
    ensures Resolve(e, records, locations, k).Some? ==> |Resolve(e, records, locations, k).value| == e.size
    decreases |records| - k
  {
    if k < |records| {
      ResolvedLength(e, records, locations, k + 1);
    }
  }

  lemma NumberedPlannable(pending: seq<Pending>)
    requires forall i :: 0 <= i < |pending| ==> 0 < |pending[i].record.bytes| <= THRESHOLD
    requires forall i :: 0 <= i < |pending| ==> pending[i].record.id == i + 1
    ensures BinPacking.Plannable(RecordsOf(pending))
  {}

  lemma OthersElsewhere(image: Image, es: seq<Entry>, i: nat, owner: nat)
    requires Publishable(image, es) && AllAcceptable(es) && i < |es| && owner < |es|
    requires es[owner].storage.Packed? && es[i].storage.Dedicated?
    ensures !Occupies(es[i], es[owner].firstBlock)
  {
    hide ValidPath, Readable;
    assert Acceptable(es[i]) && Acceptable(es[owner]);
    if i < owner {
      assert Compatible(es[i], es[owner]);
    } else {
      assert i > owner;
      assert Compatible(es[owner], es[i]);
    }
  }

  lemma PlacedElsewhere(es: seq<Entry>, pending: seq<Pending>, bins: seq<seq<nat>>, generation: u64, first: nat, j: nat, owner: nat)
    requires BatchReady(pending, bins, generation, [], first) && FreeRun(es, first, |bins|)
    requires j < |BatchEntries(pending, bins, generation, [], first)|
    requires owner < |es| && es[owner].storage.Packed? && Acceptable(es[owner])
    ensures !Occupies(BatchEntries(pending, bins, generation, [], first)[j], es[owner].firstBlock)
  {
    hide Planned, Slots, SlotEntry, ValidPath, Locations, CanEncode, EncodedRecordSize;
    SlotEntryFields(pending, bins, generation, first, j);
    assert Occupies(es[owner], es[owner].firstBlock);
    assert Referenced(es, es[owner].firstBlock);
  }

}
