/**
  The parts of batch writes and compaction that do not touch the flash: admission, numbering,
  encoding and placing records, choosing what to move, and the reasons for which a batch fails.
 */
module Planning {
  import opened Bytes
  import opened Paths
  import opened Manifest
  import opened Device
  import opened Volume
  import opened TreeSpec
  import opened EntryOps
  import opened Placement
  import opened Allocation
  import opened Relocation
  import opened Batches
  import Steps
  import BinPacking
  import EditSteps
  import Reading
  import PackedBlock
  import PackedBlockProofs
  import Crc32
  import ManifestProofs

  /** No generation above the largest one in use is left for packed blocks. */
  predicate GenerationsUsedUp(es: seq<Entry>)
  {
    exists k :: 0 <= k < |es| && es[k].storage.Packed? && es[k].packedGeneration == EditSteps.LAST_GENERATION
  }

  lemma {:induction false} AscendingBound(blocks: seq<nat>, i: nat)
    requires i < |blocks| && (forall i, j :: 0 <= i < j < |blocks| ==> blocks[i] < blocks[j])
    requires forall b :: b in blocks ==> b < BLOCK_COUNT
    ensures i <= blocks[i] < BLOCK_COUNT
    decreases i
  {
    assert blocks[i] in blocks;
    if i > 0 {
      AscendingBound(blocks, i - 1);
    }
  }

  lemma FewEntries(es: seq<Entry>)
    requires CommitAccepts(es)
    ensures |es| < 0x1_0000
  {
    hide CommitAcceptsEntry, EntryBytes, EntriesBytes;
    EditSteps.ManifestSize(es);
    ManifestProofs.ManyEntries(es);
  }

  lemma MembersSnoc(blocks: seq<nat>, i: nat)
    requires i < |blocks| && forall i, j :: 0 <= i < j < |blocks| ==> blocks[i] < blocks[j]
    ensures Members(blocks[..i + 1]) == Members(blocks[..i]) + {blocks[i]} && blocks[i] !in Members(blocks[..i])
  {}

  lemma PlannedIs(pending: seq<Pending>, bins: seq<seq<nat>>, generation: u64)
    requires BinPacking.Plannable(RecordsOf(pending)) && bins == BinPacking.PlanOf(RecordsOf(pending)).bins && generation != 0
    requires forall i :: 0 <= i < |pending| ==> PendingOk(pending[i])
    ensures Planned(pending, bins, generation)
    ensures pending != [] ==> bins != []
  {}

  lemma PublishableReads(image: Image, es: seq<Entry>)
    requires Publishable(image, es)
    ensures AllAcceptable(es) && Readable(image, es) && AllCompatible(es)
    ensures forall k :: 0 <= k < |es| && !es[k].directory ==> FileBytes(image, es[k]).Some?
  {}

  lemma UntouchedIs(before: Image, after: Image, es: seq<Entry>)
    requires Steps.Untouched(before, after, es)
    ensures SameOnReferenced(before, after, es)
  {}

  lemma SourcesFree(es: seq<Entry>, next: seq<Entry>, blocks: seq<nat>)
    requires forall k :: 0 <= k < |es| && es[k].storage.Packed? ==> !Referenced(next, es[k].firstBlock)
    requires forall b :: b in blocks ==> exists k :: 0 <= k < |es| && es[k].storage.Packed? && es[k].firstBlock == b
    ensures forall b :: b in blocks ==> !Referenced(next, b)
  {}

  // ----- Why a batch may fail -----

  datatype Ending =
    | Done
    | Rejected
    | GenerationsExhausted
    | IdentifiersExhausted
    | IdentifiersClash
    | TooLarge
    | ReadFailed
    | WriteFailed

  lemma CarriedEligible(es: seq<Entry>, p: Pending)
    requires AllAcceptable(es) && Reading.SameIdentifier(es, p) && 0 < |p.record.bytes| <= PackedBlock.THRESHOLD
    ensures BinPacking.Eligible(p.record)
  {}

  lemma IncomingEligible(files: seq<FileWrite>, incoming: seq<Pending>, id: nat, i: nat)
    requires NewRecords(Selected(files, true), incoming) && id > 0 && i < |incoming| && incoming[i].record.id == id + i
    ensures BinPacking.Eligible(incoming[i].record)
  {
    SelectedIn(files, true, Selected(files, true)[i]);
  }

  // ----- Admitting a batch -----

  lemma PutSpec(t: Tree, files: seq<FileWrite>)
    ensures Apply(t, PutFiles(files)) == if Batch(t, files) then Some(PutAll(t, files)) else None
    ensures files == [] ==> Batch(t, files) && PutAll(t, files) == t
  {}

  /** All paths of a batch are valid and different. */
  ghost predicate BatchApart(pending: seq<Pending>, files: seq<FileWrite>)
  {
    && DistinctPaths(pending) && DistinctFiles(files)
    && (forall i :: 0 <= i < |files| ==> ValidPath(files[i].path))
    && (forall i, j :: 0 <= i < |pending| && 0 <= j < |files| ==> pending[i].path != files[j].path)
  }

  lemma BatchApartIs(pending: seq<Pending>, files: seq<FileWrite>)
    requires DistinctPaths(pending) && DistinctFiles(files)
    requires forall i :: 0 <= i < |files| ==> ValidPath(files[i].path)
    requires forall i, j :: 0 <= i < |pending| && 0 <= j < |files| ==> pending[i].path != files[j].path
    ensures BatchApart(pending, files)
  {}

  lemma BatchExtentIs(pending: seq<Pending>, bins: seq<seq<nat>>, generation: u64, files: seq<FileWrite>)
    requires Planned(pending, bins, generation)
    ensures BatchExtent(pending, bins, generation, files) == BinsExtent(pending, bins, generation) + FilesExtent(files)
    ensures |BatchExtent(pending, bins, generation, files)| == |bins| + BlocksOf(files)
  {}

  lemma BatchIsReady(pending: seq<Pending>, bins: seq<seq<nat>>, generation: u64, files: seq<FileWrite>, first: nat)
    requires Planned(pending, bins, generation) && BatchApart(pending, files)
    requires FIRST_DATA_BLOCK <= first && first + |bins| + BlocksOf(files) <= BLOCK_COUNT
    ensures BatchReady(pending, bins, generation, files, first)
    ensures Positioned(bins, first) && FilesFit(files, first + |bins|)
    ensures BatchEntries(pending, bins, generation, files, first)
         == PackedEntries(pending, bins, generation, first) + FileEntries(files, first + |bins|)
  {
    hide Planned, BlocksOf, ValidPath, PackedEntries, FileEntries;
  }

  lemma NothingToStore(image: Image, es: seq<Entry>, first: nat, extent: seq<Block>)
    requires extent == []
    ensures FreeRun(es, first, 0) && Stored(image, first, extent)
  {}

  lemma NoFiles(files: seq<FileWrite>)
    ensures Selected(files[..0], true) == [] && Selected(files[..0], false) == []
    ensures FilePaths(files[..0]) == {} && (forall es :: Growth(es, files[..0]) == 0)
  {}

  lemma NoEntryBytes(es: seq<Entry>)
    ensures |EntriesBytes(es[..0])| == 0
    ensures forall e :: |EntryBytes(e)| == ENTRY_SIZE + |e.name|
  {}

  lemma AdmissibleIs(image: Image, es: seq<Entry>, f: FileWrite)
    requires AllAcceptable(es)
    ensures
      Admissible(TreeOf(image, es), f) <==>
      && ValidPath(f.path) && EditSteps.ParentExists(es, f.path)
      && !(Find(es, f.path) < |es| && es[Find(es, f.path)].directory)
  {
    hide TreeOf, AllAcceptable, Find, ValidPath, EditSteps.ParentExists, ParentOk;
    EditSteps.ParentIsOk(image, es, f.path);
    TreeHas(image, es, f.path);
  }

  lemma FitsIs(es: seq<Entry>, files: seq<FileWrite>, i: nat)
    requires i < |files|
    ensures
      FitsManifest(es, files, i) <==>
      && |files[i].path| <= LARGEST_NAME
      && 4 + |EntriesBytes(es)| + Growth(es, files[..i + 1]) <= BLOCK_SIZE - SUPERBLOCK_HEADER
  {}

  lemma InUseAt(es: seq<Entry>, k: nat)
    requires k < |es| && es[k].storage.Packed?
    ensures InUse(es, es[k].firstBlock)
  {}

  /** Pending records for the small files of a batch, numbered from `id` on. */
  method NumberRecords(packed: seq<FileWrite>, id: nat) returns (ok: bool, pending: seq<Pending>)
    ensures ok ==> NewRecords(packed, pending)
    ensures ok ==> forall i :: 0 <= i < |pending| ==> pending[i].record.id == id + i
    ensures ok <==> packed == [] || id + |packed| <= 0x1_0000_0000
  {
    pending := [];
    var i := 0;
    while i < |packed|
      invariant 0 <= i <= |packed| && NewRecords(packed[..i], pending)
      invariant forall k :: 0 <= k < i ==> pending[k].record.id == id + k
      invariant i > 0 ==> id + i <= 0x1_0000_0000
    {
      if id + i > 0xFFFF_FFFF {
        return false, [];
      }
      var crc := Crc32.Calculate(packed[i].bytes);
      pending := pending + [Pending(packed[i].path, PackedBlock.Record(id + i, packed[i].modifiedTime, packed[i].bytes), crc)];
      i := i + 1;
    }
    assert packed[..i] == packed;
    ok := true;
  }

  /** The blocks the whole-block files of a batch need, if the data range has that many. */
  method CountBlocks(files: seq<FileWrite>) returns (ok: bool, count: nat)
    ensures ok <==> BlocksOf(files) <= BLOCK_COUNT - FIRST_DATA_BLOCK
    ensures ok ==> count == BlocksOf(files)
  {
    hide BlocksOf, DataBlocks;
    count := 0;
    BlocksOfNone(files);
    var i := 0;
    assert files[..|files|] == files;
    while i < |files|
      invariant 0 <= i <= |files| && count == BlocksOf(files[..i]) <= BLOCK_COUNT - FIRST_DATA_BLOCK
    {
      FilesSnoc(files, i);
      BlocksMonotone(files, i + 1, |files|);
      var blocks := DataBlocks(|files[i].bytes|);
      if blocks > BLOCK_COUNT - FIRST_DATA_BLOCK - count {
        return false, 0;
      }
      count := count + blocks;
      i := i + 1;
    }
    ok := true;
  }

  /** The blocks of the whole-block files, one file after the other. */
  method JoinFiles(files: seq<FileWrite>) returns (extent: seq<Block>)
    ensures extent == FilesExtent(files)
  {
    hide FilesExtent, Padded;
    extent := [];
    var i := 0;
    assert files[..|files|] == files;
    NoFilesExtent(files);
    while i < |files|
      invariant 0 <= i <= |files| && extent == FilesExtent(files[..i])
    {
      FilesSnoc(files, i);
      extent := extent + Padded(files[i].bytes);
      i := i + 1;
    }
  }

  lemma NoFilesExtent(files: seq<FileWrite>)
    ensures FilesExtent(files[..0]) == []
  {}

  // ----- Moving whole-block files -----

  function Inserted(s: seq<nat>, at: nat, x: nat): (r: seq<nat>)
    requires at <= |s|
    ensures |r| == |s| + 1 && forall y :: y in r <==> y in s || y == x
    ensures (forall i :: 0 <= i < at ==> r[i] == s[i]) && r[at] == x && (forall i :: at < i < |r| ==> r[i] == s[i - 1])
  {
    s[..at] + [x] + s[at..]
  }

  /** Indexes of entries, those with the highest first blocks first. */
  predicate Descending(es: seq<Entry>, candidates: seq<nat>)
  {
    && (forall i :: 0 <= i < |candidates| ==> candidates[i] < |es|)
    && forall i, j :: 0 <= i < j < |candidates| ==> es[candidates[i]].firstBlock >= es[candidates[j]].firstBlock
  }

  lemma NoneDescending(es: seq<Entry>)
    ensures Descending(es, [])
  {}

  lemma DescendingInRange(es: seq<Entry>, candidates: seq<nat>)
    requires Descending(es, candidates)
    ensures forall i :: 0 <= i < |candidates| ==> candidates[i] < |es|
  {}

  lemma InsertDescending(es: seq<Entry>, candidates: seq<nat>, at: nat, k: nat)
    requires Descending(es, candidates) && at <= |candidates| && k < |es|
    requires forall i :: 0 <= i < at ==> es[candidates[i]].firstBlock > es[k].firstBlock
    requires at < |candidates| ==> es[candidates[at]].firstBlock <= es[k].firstBlock
    ensures Descending(es, Inserted(candidates, at, k))
  {}

  /** Counts of what compaction has moved. */
  datatype Report = Report(files: nat, blocks: nat)

  /** These are the packed blocks in use, in ascending order. */
  ghost predicate SourcesOf(es: seq<Entry>, sources: seq<nat>)
  {
    && AllPackedIn(es, Members(sources))
    && (forall b :: b in sources ==> InUse(es, b))
    && forall i, j :: 0 <= i < j < |sources| ==> sources[i] < sources[j]
  }

  lemma SourcesAre(es: seq<Entry>, blocks: seq<nat>)
    requires AllPackedIn(es, Members(blocks)) && forall i, j :: 0 <= i < j < |blocks| ==> blocks[i] < blocks[j]
    requires forall b :: b in blocks ==> exists k :: 0 <= k < |es| && es[k].storage.Packed? && es[k].firstBlock == b
    ensures SourcesOf(es, blocks)
  {}

  /** One file has moved down, nothing else has changed. */
  predicate MovedOne(before: seq<Entry>, after: seq<Entry>, k: nat, destination: nat)
  {
    && k < |before| && destination < before[k].firstBlock
    && after == before[k := MovedEntry(before[k], destination)]
  }

  lemma OneMoved(before: seq<Entry>, after: seq<Entry>, k: nat, destination: u32)
    requires k < |before| && destination < before[k].firstBlock && after == before[k := MovedEntry(before[k], destination)]
    ensures MovedOne(before, after, k, destination)
  {}

  lemma MovableIs(e: Entry)
    ensures Movable(e) <==> !e.directory && e.blockCount != 0 && e.storage.Dedicated?
  {}

  lemma AcceptableAt(es: seq<Entry>, k: nat)
    requires AllAcceptable(es) && k < |es|
    ensures Acceptable(es[k])
    ensures Movable(es[k]) ==> FIRST_DATA_BLOCK <= es[k].firstBlock < BLOCK_COUNT && es[k].firstBlock + es[k].blockCount <= BLOCK_COUNT
    ensures BLOCK_COUNT < 0x1_0000_0000
  {}

  lemma StuckIs(image: Image, es: seq<Entry>, unavailable: seq<bool>, k: nat)
    requires k < |es|
    requires NoRun(image, es, unavailable, FIRST_DATA_BLOCK, es[k].firstBlock, es[k].blockCount)
    ensures Stuck(image, es, unavailable, k)
  {}

  lemma CompactedIs(image: Image, es: seq<Entry>, unavailable: seq<bool>, candidates: seq<nat>)
    requires forall k: nat :: k in candidates <==> k < |es| && Movable(es[k])
    requires forall j :: 0 <= j < |candidates| ==> Stuck(image, es, unavailable, candidates[j])
    ensures Compacted(image, es, unavailable)
  {}

  lemma PaddedFits(image: Image, e: Entry, bytes: seq<byte>)
    requires Acceptable(e) && !e.directory && FileBytes(image, e) == Some(bytes)
    ensures |Padded(bytes)| <= e.blockCount
  {
    hide FileBytes, ValidPath;
    CarriedSize(image, e);
    DataBlocksBound(|bytes|);
  }

  function BlockRange(first: nat, count: nat): (s: seq<nat>)
    ensures |s| == count && forall i :: 0 <= i < count ==> s[i] == first + i
  {
    seq(count, i requires 0 <= i => first + i)
  }

  lemma SourceFree(image: Image, es: seq<Entry>, k: nat, destination: u32, sources: seq<nat>)
    requires Publishable(image, es) && k < |es| && Acceptable(es[k]) && Movable(es[k])
    requires FreeRun(es, destination, es[k].blockCount)
    requires sources == BlockRange(es[k].firstBlock, es[k].blockCount)
    ensures forall b :: b in sources ==> !Referenced(es[k := MovedEntry(es[k], destination)], b)
  {
    hide Referenced, Acceptable, FreeRun, Readable, AllAcceptable;
    forall b | b in sources ensures !Referenced(es[k := MovedEntry(es[k], destination)], b) {
      RelocationFrees(es, k, destination, b);
    }
  }

  // ----- Encoding and placing a plan -----

  /** The locations `Encode` returns for bin `b`. */
  ghost predicate LocatedAt(pending: seq<Pending>, bins: seq<seq<nat>>, generation: u64, b: nat, located: seq<PackedBlock.Location>)
    requires Planned(pending, bins, generation) && b < |bins|
  {
    PlannedBin(pending, bins, generation, b);
    located == BinLocations(RecordsOf(pending), bins[b])
  }

  ghost predicate LocatedBins(pending: seq<Pending>, bins: seq<seq<nat>>, generation: u64, locations: seq<seq<PackedBlock.Location>>)
    requires Planned(pending, bins, generation)
  {
    && |locations| == |bins|
    && forall b :: 0 <= b < |bins| ==> LocatedAt(pending, bins, generation, b, locations[b])
  }

  method EncodeBin(pending: seq<Pending>, bins: seq<seq<nat>>, generation: u64, b: nat)
    returns (block: Block, located: seq<PackedBlock.Location>)
    requires Planned(pending, bins, generation) && b < |bins|
    ensures block == BinBlock(pending, bins, generation, b) && LocatedAt(pending, bins, generation, b, located)
  {
    PlannedBin(pending, bins, generation, b);
    hide Planned, PackedBlock.Encoded, PackedBlock.Encodable, PackedBlock.Locations, PackedBlock.CanEncode, RecordsOf, BinPacking.BinRecords;
    var records := BinPacking.BinRecords(RecordsOf(pending), bins[b]);
    PackedBlockProofs.EncodedLayout(generation, records);
    var ok, bytes;
    ok, bytes, located := PackedBlock.Encode(generation, records);
    block := bytes;
  }

  method EncodeBins(pending: seq<Pending>, bins: seq<seq<nat>>, generation: u64)
    returns (extent: seq<Block>, locations: seq<seq<PackedBlock.Location>>)
    requires Planned(pending, bins, generation)
    ensures extent == BinsExtent(pending, bins, generation)
    ensures LocatedBins(pending, bins, generation, locations)
  {
    hide Planned, LocatedAt, BinBlock;
    extent, locations := [], [];
    var b := 0;
    while b < |bins|
      invariant 0 <= b <= |bins| && |extent| == |locations| == b
      invariant forall k :: 0 <= k < b ==> extent[k] == BinBlock(pending, bins, generation, k)
      invariant forall k :: 0 <= k < b ==> LocatedAt(pending, bins, generation, k, locations[k])
    {
      var block, located := EncodeBin(pending, bins, generation, b);
      extent, locations := extent + [block], locations + [located];
      b := b + 1;
    }
  }

  lemma PositionedIs(bins: seq<seq<nat>>, first: nat)
    ensures Positioned(bins, first) <==> FIRST_DATA_BLOCK <= first && first + |bins| <= BLOCK_COUNT
    ensures Positioned(bins, first) ==> first + |bins| < 0x1_0000_0000
  {}

  lemma UpsertNone(es: seq<Entry>, placed: seq<Entry>, bins: seq<seq<nat>>)
    ensures UpsertAll(es, placed[..0]) == es && |Slots(bins[..0])| == 0
  {}

  lemma BlocksOfNone(files: seq<FileWrite>)
    ensures BlocksOf(files[..0]) == 0
  {}

  lemma PlacedSoFar(pending: seq<Pending>, bins: seq<seq<nat>>, generation: u64, first: nat, b: nat)
    requires Planned(pending, bins, generation) && Positioned(bins, first) && b < |bins|
    ensures |Slots(bins[..b + 1])| == |Slots(bins[..b])| + |bins[b]| <= |PackedEntries(pending, bins, generation, first)|
  {
    hide Planned, Slots;
    SlotsSnoc(bins, b);
    assert bins[..|bins|] == bins;
    if bins[b] != [] {
      SlotAt(bins, b, |bins[b]| - 1, |bins|);
    } else {
      SlotsGrow(bins, b, |bins|);
    }
  }

  lemma {:induction false} SlotsGrow(bins: seq<seq<nat>>, b: nat, n: nat)
    requires b <= n <= |bins|
    ensures |Slots(bins[..b])| <= |Slots(bins[..n])|
    decreases n
  {
    hide Slots;
    if b < n {
      SlotsSnoc(bins, n - 1);
      SlotsGrow(bins, b, n - 1);
    }
  }

  lemma PlanIndexes(pending: seq<Pending>, bins: seq<seq<nat>>, generation: u64, b: nat)
    requires Planned(pending, bins, generation) && b < |bins|
    ensures forall k :: 0 <= k < |bins[b]| ==> bins[b][k] < |pending| && |pending[bins[b][k]].record.bytes| < 0x1_0000_0000
  {
    PlannedBin(pending, bins, generation, b);
    hide Planned;
    forall k | 0 <= k < |bins[b]| ensures bins[b][k] < |pending| && |pending[bins[b][k]].record.bytes| < 0x1_0000_0000 {
      PlannedSmall(pending, bins, generation, bins[b][k]);
    }
  }

  lemma PlannedSmall(pending: seq<Pending>, bins: seq<seq<nat>>, generation: u64, i: nat)
    requires Planned(pending, bins, generation) && i < |pending|
    ensures |pending[i].record.bytes| < 0x1_0000_0000
  {
    SmallRecord(pending, i);
  }

  lemma PlacedAt(pending: seq<Pending>, bins: seq<seq<nat>>, generation: u64, first: nat, b: nat, k: nat,
                 locations: seq<seq<PackedBlock.Location>>)
    requires Planned(pending, bins, generation) && Positioned(bins, first) && b < |bins| && k < |bins[b]|
    requires LocatedBins(pending, bins, generation, locations)
    ensures bins[b][k] < |pending| && |pending[bins[b][k]].record.bytes| < 0x1_0000_0000
    ensures |locations| == |bins| && |locations[b]| == |bins[b]|
    ensures |Slots(bins[..b])| + k < |PackedEntries(pending, bins, generation, first)|
    ensures PackedEntries(pending, bins, generation, first)[|Slots(bins[..b])| + k]
         == PackedEntry(pending[bins[b][k]], first + b, generation, locations[b][k])
  {
    hide Planned, Slots, PackedEntry, BinLocations, Positioned, RecordsOf;
    PositionedIs(bins, first);
    PlanIndexes(pending, bins, generation, b);
    assert bins[..|bins|] == bins;
    SlotAt(bins, b, k, |bins|);
    assert LocatedAt(pending, bins, generation, b, locations[b]);
  }

  lemma FileEntryIs(files: seq<FileWrite>, first: nat, i: nat)
    requires FilesFit(files, first) && i < |files|
    ensures |files[i].bytes| <= BLOCK_SIZE * BLOCK_COUNT && first + BlocksOf(files[..i]) < 0x1_0000_0000
    ensures FileEntries(files, first)[i] == DedicatedEntry(files[i], first + BlocksOf(files[..i]))
  {
    hide DedicatedEntry, FilesFit;
    FileFits(files, first, i);
  }

  // ----- How a batch is stored -----

  predicate StoredAs(es: seq<Entry>, n: Name, storage: Storage, blocks: nat)
  {
    var k := Find(es, n);
    k < |es| && !es[k].directory && es[k].storage == storage && es[k].blockCount == blocks
  }

  /** Records are in packed blocks, files in extents of their own. */
  predicate BatchStoredAs(es: seq<Entry>, pending: seq<Pending>, files: seq<FileWrite>)
  {
    && (forall i :: 0 <= i < |pending| ==> StoredAs(es, pending[i].path, Packed, 1))
    && forall i :: 0 <= i < |files| ==> StoredAs(es, files[i].path, Dedicated, DataBlocks(|files[i].bytes|))
  }

  /** Files of up to 16 KiB, other than empty ones, are packed; the others get as many blocks as they need. */
  predicate StoredBySize(es: seq<Entry>, files: seq<FileWrite>)
  {
    forall i :: 0 <= i < |files| ==>
      if PackedBlock.ShouldPack(|files[i].bytes|) then StoredAs(es, files[i].path, Packed, 1)
      else StoredAs(es, files[i].path, Dedicated, DataBlocks(|files[i].bytes|))
  }

  lemma BatchIsStored(es: seq<Entry>, pending: seq<Pending>, bins: seq<seq<nat>>, generation: u64, files: seq<FileWrite>, first: nat)
    requires BatchReady(pending, bins, generation, files, first)
    requires DistinctNames(BatchEntries(pending, bins, generation, files, first))
    ensures BatchStoredAs(UpsertAll(es, BatchEntries(pending, bins, generation, files, first)), pending, files)
  {
    hide Find, UpsertAll, SlotEntry, FileEntry, Slots, Planned, FilesFit, DistinctNames, Acceptable;
    var placed := BatchEntries(pending, bins, generation, files, first);
    forall i | 0 <= i < |pending| ensures StoredAs(UpsertAll(es, placed), pending[i].path, Packed, 1) {
      var j := SlotOf(pending, bins, generation, first, i);
      SlotEntryFields(pending, bins, generation, first, j);
      assert placed[j] == SlotEntry(pending, bins, generation, first, j);
      UpsertAllFinds(es, placed, j);
    }
    forall i | 0 <= i < |files|
      ensures StoredAs(UpsertAll(es, placed), files[i].path, Dedicated, DataBlocks(|files[i].bytes|))
    {
      FileEntryFields(files, first + |bins|, i);
      FileEntryIs(files, first + |bins|, i);
      assert placed[|Slots(bins)| + i] == FileEntries(files, first + |bins|)[i];
      UpsertAllFinds(es, placed, |Slots(bins)| + i);
    }
  }

  lemma BySize(es: seq<Entry>, files: seq<FileWrite>, carried: seq<Pending>, incoming: seq<Pending>)
    requires NewRecords(Selected(files, true), incoming)
    requires BatchStoredAs(es, carried + incoming, Selected(files, false))
    ensures StoredBySize(es, files)
  {
    hide Selected, StoredAs;
    forall i | 0 <= i < |files|
      ensures
        if PackedBlock.ShouldPack(|files[i].bytes|) then StoredAs(es, files[i].path, Packed, 1)
        else StoredAs(es, files[i].path, Dedicated, DataBlocks(|files[i].bytes|))
    {
      SelectedIn(files, true, files[i]);
      SelectedIn(files, false, files[i]);
      if PackedBlock.ShouldPack(|files[i].bytes|) {
        var j :| 0 <= j < |Selected(files, true)| && Selected(files, true)[j] == files[i];
        assert (carried + incoming)[|carried| + j] == incoming[j];
      } else {
        var j :| 0 <= j < |Selected(files, false)| && Selected(files, false)[j] == files[i];
      }
    }
  }

  lemma StoredNone(es: seq<Entry>, files: seq<FileWrite>)
    requires files == []
    ensures StoredBySize(es, files)
  {}
}
