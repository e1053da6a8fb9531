/**
  Where a batch of writes goes: packed records bin by bin, then whole-block files, all in one run
  of blocks; and why the resulting entries may join the volume.
 */
module Placement {
  import opened Bytes
  import opened Paths
  import opened Manifest
  import opened Device
  import opened Volume
  import opened TreeSpec
  import opened PackedBlock
  import opened BinPacking
  import EntryOps
  import Crc32
  import PackedBlockProofs

  /** A record on its way into a packed block. */
  datatype Pending = Pending(path: Name, record: Record, crc: bv32)

  ghost predicate PendingOk(p: Pending)
  {
    && ValidPath(p.path) && p.crc == Crc32.Crc(p.record.bytes)
  }

  function RecordsOf(pending: seq<Pending>): (r: seq<Record>)
    ensures |r| == |pending|
  {
    seq(|pending|, k requires 0 <= k < |pending| => pending[k].record)
  }

  /** A file's whole blocks. */
  function DataBlocks(size: nat): nat
  {
    (size + BLOCK_SIZE - 1) / BLOCK_SIZE
  }

  /** Block `i` of a file, padded with blank bytes. */
  function PaddedBlock(bytes: seq<byte>, i: nat): (b: Block)
  {
    seq(BLOCK_SIZE, k requires 0 <= k < BLOCK_SIZE =>
      if i * BLOCK_SIZE + k < |bytes| then bytes[i * BLOCK_SIZE + k] else BLANK)
  }

  function Padded(bytes: seq<byte>): (s: seq<Block>)
    ensures |s| == DataBlocks(|bytes|)
  {
    seq(DataBlocks(|bytes|), i requires 0 <= i < DataBlocks(|bytes|) => PaddedBlock(bytes, i))
  }

  lemma PaddedAt(bytes: seq<byte>, i: nat)
    requires i < |bytes|
    ensures i / BLOCK_SIZE < |Padded(bytes)| && Padded(bytes)[i / BLOCK_SIZE][i % BLOCK_SIZE] == bytes[i]
  {}

  // ----- Slots: bin by bin, record by record -----

  function Slots(bins: seq<seq<nat>>): seq<(nat, nat)>
  {
    if bins == [] then []
    else
      var last := |bins| - 1;
      Slots(bins[..last]) + seq(|bins[last]|, k => (last, k))
  }

  lemma {:induction false} SlotIn(bins: seq<seq<nat>>, j: nat)
    requires j < |Slots(bins)|
    ensures Slots(bins)[j].0 < |bins| && Slots(bins)[j].1 < |bins[Slots(bins)[j].0]|
    ensures |Slots(bins)| == |Flatten(bins)|
    ensures Flatten(bins)[j] == bins[Slots(bins)[j].0][Slots(bins)[j].1]
    decreases |bins|
  {
    var last := |bins| - 1;
    SlotsLength(bins);
    SlotsLength(bins[..last]);
    if j < |Slots(bins[..last])| {
      SlotIn(bins[..last], j);
    }
  }

  lemma {:induction false} SlotsLength(bins: seq<seq<nat>>)
    ensures |Slots(bins)| == |Flatten(bins)|
  {
    if bins != [] {
      SlotsLength(bins[..|bins| - 1]);
    }
  }

  lemma {:induction false} SlotsOrdered(bins: seq<seq<nat>>, i: nat, j: nat)
    requires i < j < |Slots(bins)|
    ensures Slots(bins)[i].0 < Slots(bins)[j].0
      || (Slots(bins)[i].0 == Slots(bins)[j].0 && Slots(bins)[i].1 < Slots(bins)[j].1)
    decreases |bins|
  {
    var last := |bins| - 1;
    if i < |Slots(bins[..last])| {
      SlotIn(bins[..last], i);
      if j < |Slots(bins[..last])| {
        SlotsOrdered(bins[..last], i, j);
      }
    }
  }

  /** A list with the elements of `Range(n)` has no repetitions. */
  lemma OnceDistinct(s: seq<nat>, n: nat, i: nat, j: nat)
    requires multiset(s) == multiset(Range(n)) && i < j < |s|
    ensures s[i] != s[j]
  {
    if s[i] == s[j] {
      var x := s[i];
      assert s == s[..i] + [x] + s[i + 1..j] + [x] + s[j + 1..];
      assert multiset(s)[x] >= 2;
      RangeOnce(n, x);
    }
  }

  lemma {:induction false} RangeOnce(n: nat, x: nat)
    ensures multiset(Range(n))[x] <= 1
    ensures forall y: nat :: y in Range(n) <==> y < n
  {
    assert forall y: nat :: y < n ==> Range(n)[y] == y;
    if n > 0 {
      RangeOnce(n - 1, x);
      RangeSnoc(n - 1);
    }
  }

  /** Where position `k` of bin `b` comes in the enumeration. */
  lemma {:induction false} SlotAt(bins: seq<seq<nat>>, b: nat, k: nat, n: nat)
    requires b < n <= |bins| && k < |bins[b]|
    ensures |Slots(bins[..b])| + k < |Slots(bins[..n])| && Slots(bins[..n])[|Slots(bins[..b])| + k] == (b, k)
    decreases n
  {
    SlotsSnoc(bins, n - 1);
    hide Slots;
    if b < n - 1 {
      SlotAt(bins, b, k, n - 1);
    }
  }

  lemma SlotsSnoc(bins: seq<seq<nat>>, n: nat)
    requires n < |bins|
    ensures Slots(bins[..n + 1]) == Slots(bins[..n]) + seq(|bins[n]|, k => (n, k))
    ensures |Slots(bins[..n + 1])| == |Slots(bins[..n])| + |bins[n]|
  {
    assert bins[..n + 1][..n] == bins[..n];
  }

  // ----- Packed entries -----

  function PackedEntry(p: Pending, block: u32, generation: u64, location: Location): Entry
    requires |p.record.bytes| < 0x1_0000_0000
  {
    Entry(p.path, |p.record.bytes|, p.record.modifiedTime, p.crc, block, 1, false, Packed,
          generation, location.id, location.offset)
  }

  /** A first-fit plan for the pending records. */
  ghost predicate Planned(pending: seq<Pending>, bins: seq<seq<nat>>, generation: u64)
  {
    && Plannable(RecordsOf(pending)) && bins == PlanOf(RecordsOf(pending)).bins && generation != 0
    && forall k :: 0 <= k < |pending| ==> PendingOk(pending[k])
  }

  /** Bin `b` goes to block `first + b`. */
  predicate Positioned(bins: seq<seq<nat>>, first: nat)
  {
    FIRST_DATA_BLOCK <= first && first + |bins| <= BLOCK_COUNT
  }

  /** Encodable contents of bin `b`. */
  ghost predicate BinOk(records: seq<Record>, bins: seq<seq<nat>>, generation: u64, b: nat)
  {
    && b < |bins|
    && (forall k :: 0 <= k < |bins[b]| ==> bins[b][k] < |records|)
    && Encodable(generation, BinRecords(records, bins[b]))
  }

  lemma PlannedBin(pending: seq<Pending>, bins: seq<seq<nat>>, generation: u64, b: nat)
    requires Planned(pending, bins, generation) && b < |bins|
    ensures BinOk(RecordsOf(pending), bins, generation, b)
  {
    hide PlanOf, Encodable;
    BinsEncodable(RecordsOf(pending), generation, b);
  }

  function BinLocations(records: seq<Record>, bin: seq<nat>): (l: seq<Location>)
    requires forall k :: 0 <= k < |bin| ==> bin[k] < |records|
    requires CanEncode(BinRecords(records, bin))
    ensures |l| == |bin|
  {
    Locations(BinRecords(records, bin), HEADER_SIZE)
  }

  /** The entry of slot `j`. */
  ghost function SlotEntry(pending: seq<Pending>, bins: seq<seq<nat>>, generation: u64, first: nat, j: nat): (e: Entry)
    requires Planned(pending, bins, generation) && Positioned(bins, first) && j < |Slots(bins)|
  {
    SlotIn(bins, j);
    var (b, k) := Slots(bins)[j];
    PlannedBin(pending, bins, generation, b);
    SmallRecord(pending, bins[b][k]);
    PackedEntry(pending[bins[b][k]], first + b, generation, BinLocations(RecordsOf(pending), bins[b])[k])
  }

  lemma SmallRecord(pending: seq<Pending>, i: nat)
    requires Plannable(RecordsOf(pending)) && i < |pending|
    ensures 0 < |pending[i].record.bytes| <= THRESHOLD && pending[i].record.id != 0
  {
    assert Eligible(RecordsOf(pending)[i]);
  }

  ghost function PackedEntries(pending: seq<Pending>, bins: seq<seq<nat>>, generation: u64, first: nat): (s: seq<Entry>)
    requires Planned(pending, bins, generation) && Positioned(bins, first)
    ensures |s| == |Slots(bins)|
  {
    seq(|Slots(bins)|, j requires 0 <= j < |Slots(bins)| => SlotEntry(pending, bins, generation, first, j))
  }

  /** Every bin's encoding is in its block. */
  ghost predicate BinsStored(image: Image, pending: seq<Pending>, bins: seq<seq<nat>>, generation: u64, first: nat)
    requires Planned(pending, bins, generation) && Positioned(bins, first)
  {
    forall b :: 0 <= b < |bins| ==>
      (PlannedBin(pending, bins, generation, b);
       image[first + b] == Encoded(generation, BinRecords(RecordsOf(pending), bins[b])))
  }

  lemma {:induction false} ResolveFinds(e: Entry, records: seq<Record>, locations: seq<Location>, k: nat, n: nat)
    requires |records| == |locations| && k <= n < |records| && DistinctIds(records)
    requires records[n].id == e.packedRecordId && locations[n].offset == e.packedRecordOffset
    requires records[n].modifiedTime == e.modifiedTime && |records[n].bytes| == e.size && Crc32.Crc(records[n].bytes) == e.crc
    ensures Resolve(e, records, locations, k) == Some(records[n].bytes)
    decreases n - k
  {
    if k < n {
      assert records[k].id != records[n].id;
      ResolveFinds(e, records, locations, k + 1, n);
    }
  }

  /** An entry made for record `k` of an encoded block reads back as that record. */
  lemma PackedReadsBack(block: Block, records: seq<Record>, generation: u64, k: nat, e: Entry)
    requires Encodable(generation, records) && block == Encoded(generation, records) && k < |records|
    requires e.packedGeneration == generation && e.packedRecordId == records[k].id
    requires e.packedRecordOffset == Locations(records, HEADER_SIZE)[k].offset
    requires e.modifiedTime == records[k].modifiedTime && e.size == |records[k].bytes| && e.crc == Crc32.Crc(records[k].bytes)
    ensures PackedBytes(block, e) == Some(records[k].bytes)
  {
    hide Encoded, DecodeResult, Resolve, Locations;
    PackedBlockProofs.RoundTrip(generation, records);
    ResolveFinds(e, records, Locations(records, HEADER_SIZE), 0, k);
  }

  lemma SlotEntryFields(pending: seq<Pending>, bins: seq<seq<nat>>, generation: u64, first: nat, j: nat)
    requires Planned(pending, bins, generation) && Positioned(bins, first) && j < |Slots(bins)|
    ensures Slots(bins)[j].0 < |bins| && Slots(bins)[j].1 < |bins[Slots(bins)[j].0]|
    ensures BinOk(RecordsOf(pending), bins, generation, Slots(bins)[j].0)
    ensures
      var b, k := Slots(bins)[j].0, Slots(bins)[j].1;
      var records, e := BinRecords(RecordsOf(pending), bins[b]), SlotEntry(pending, bins, generation, first, j);
      && e.name == pending[bins[b][k]].path && e.firstBlock == first + b && e.blockCount == 1
      && !e.directory && e.storage == Packed && e.packedGeneration == generation
      && records[k] == pending[bins[b][k]].record
      && e.packedRecordId == records[k].id && e.packedRecordOffset == Locations(records, HEADER_SIZE)[k].offset
      && e.modifiedTime == records[k].modifiedTime && e.size == |records[k].bytes| && e.crc == Crc32.Crc(records[k].bytes)
      && 0 < |records[k].bytes| <= THRESHOLD && records[k].id != 0
      && HEADER_SIZE <= e.packedRecordOffset < BLOCK_SIZE
      && ValidPath(e.name)
  {
    hide PlanOf, Plannable, Slots, ValidPath, PayloadSize, EncodedRecordSize, Locations, DistinctIds;
    SlotIn(bins, j);
    var b, k := Slots(bins)[j].0, Slots(bins)[j].1;
    PlannedBin(pending, bins, generation, b);
    SmallRecord(pending, bins[b][k]);
    var records := BinRecords(RecordsOf(pending), bins[b]);
    PackedBlockProofs.LocationBounds(records, k);
    PositiveSize(|records[k].bytes|);
    assert PendingOk(pending[bins[b][k]]);
  }

  lemma SlotEntryReads(image: Image, pending: seq<Pending>, bins: seq<seq<nat>>, generation: u64, first: nat, j: nat)
    requires Planned(pending, bins, generation) && Positioned(bins, first) && j < |Slots(bins)|
    requires BinsStored(image, pending, bins, generation, first)
    ensures Slots(bins)[j].0 < |bins| && Slots(bins)[j].1 < |bins[Slots(bins)[j].0]|
    ensures bins[Slots(bins)[j].0][Slots(bins)[j].1] < |pending|
    ensures
      var p, e := pending[bins[Slots(bins)[j].0][Slots(bins)[j].1]], SlotEntry(pending, bins, generation, first, j);
      && e.name == p.path && !e.directory && Acceptable(e)
      && first <= e.firstBlock < first + |bins| && e.blockCount == 1
      && FileBytes(image, e) == Some(p.record.bytes) && e.modifiedTime == p.record.modifiedTime
  {
    hide Slots, SlotEntry, ValidPath, Locations, Encoded, CanEncode, PlanOf, Plannable, PackedBytes;
    SlotEntryFields(pending, bins, generation, first, j);
    var b, k := Slots(bins)[j].0, Slots(bins)[j].1;
    var e := SlotEntry(pending, bins, generation, first, j);
    var records := BinRecords(RecordsOf(pending), bins[b]);
    PackedReadsBack(image[first + b], records, generation, k, e);
  }

  lemma SlotEntriesCompatible(pending: seq<Pending>, bins: seq<seq<nat>>, generation: u64, first: nat, i: nat, j: nat)
    requires Planned(pending, bins, generation) && Positioned(bins, first) && i < j < |Slots(bins)|
    ensures Compatible(SlotEntry(pending, bins, generation, first, i), SlotEntry(pending, bins, generation, first, j))
  {
    hide Slots, SlotEntry, ValidPath, Locations, CanEncode, PlanOf, Plannable, EncodedRecordSize;
    SlotEntryFields(pending, bins, generation, first, i);
    SlotEntryFields(pending, bins, generation, first, j);
    SlotsOrdered(bins, i, j);
    var b := Slots(bins)[i].0;
    if b == Slots(bins)[j].0 {
      var records := BinRecords(RecordsOf(pending), bins[b]);
      CanEncodeUsed(records);
      PackedBlockProofs.LocationsDisjoint(records, Slots(bins)[i].1, Slots(bins)[j].1);
      PositiveSize(|records[Slots(bins)[i].1].bytes|);
    }
  }

  lemma CanEncodeUsed(records: seq<Record>)
    requires CanEncode(records)
    ensures Used(records) <= BLOCK_SIZE
  {}

  ghost predicate DistinctPaths(pending: seq<Pending>)
  {
    forall i, j :: 0 <= i < j < |pending| ==> pending[i].path != pending[j].path
  }

  lemma SlotNamesDistinct(pending: seq<Pending>, bins: seq<seq<nat>>, generation: u64, first: nat, i: nat, j: nat)
    requires Planned(pending, bins, generation) && Positioned(bins, first) && i < j < |Slots(bins)| && DistinctPaths(pending)
    ensures SlotEntry(pending, bins, generation, first, i).name != SlotEntry(pending, bins, generation, first, j).name
  {
    hide Slots, SlotEntry, ValidPath, Locations, CanEncode, PlanOf, Plannable, Flatten;
    SlotEntryFields(pending, bins, generation, first, i);
    SlotEntryFields(pending, bins, generation, first, j);
    PlannedOnce(pending, bins, generation);
    SlotIn(bins, i);
    SlotIn(bins, j);
    OnceDistinct(Flatten(bins), |pending|, i, j);
  }

  lemma PlannedOnce(pending: seq<Pending>, bins: seq<seq<nat>>, generation: u64)
    requires Planned(pending, bins, generation)
    ensures ExactlyOnce(bins, |pending|)
  {
    hide PlanOf;
    PlacesEachOnce(RecordsOf(pending));
  }

  /** Every pending record has a slot. */
  lemma SlotOf(pending: seq<Pending>, bins: seq<seq<nat>>, generation: u64, first: nat, i: nat) returns (j: nat)
    requires Planned(pending, bins, generation) && Positioned(bins, first) && i < |pending|
    ensures j < |Slots(bins)| && SlotEntry(pending, bins, generation, first, j).name == pending[i].path
    ensures Slots(bins)[j].0 < |bins| && Slots(bins)[j].1 < |bins[Slots(bins)[j].0]|
    ensures bins[Slots(bins)[j].0][Slots(bins)[j].1] == i
  {
    hide Slots, SlotEntry, ValidPath, Locations, CanEncode, PlanOf, Plannable, Flatten;
    PlannedOnce(pending, bins, generation);
    assert Range(|pending|)[i] == i;
    InMultiset(Range(|pending|), i);
    InMultiset(Flatten(bins), i);
    j :| 0 <= j < |Flatten(bins)| && Flatten(bins)[j] == i;
    SlotsLength(bins);
    SlotIn(bins, j);
    SlotEntryFields(pending, bins, generation, first, j);
  }

  // ----- Whole-block files -----

  function BlocksOf(files: seq<FileWrite>): nat
  {
    if files == [] then 0
    else
      var last := |files| - 1;
      BlocksOf(files[..last]) + DataBlocks(|files[last].bytes|)
  }

  function FilesExtent(files: seq<FileWrite>): (s: seq<Block>)
    ensures |s| == BlocksOf(files)
  {
    if files == [] then []
    else
      var last := |files| - 1;
      FilesExtent(files[..last]) + Padded(files[last].bytes)
  }

  lemma FilesSnoc(files: seq<FileWrite>, k: nat)
    requires k < |files|
    ensures BlocksOf(files[..k + 1]) == BlocksOf(files[..k]) + DataBlocks(|files[k].bytes|)
    ensures FilesExtent(files[..k + 1]) == FilesExtent(files[..k]) + Padded(files[k].bytes)
  {
    hide Padded, DataBlocks;
    assert files[..k + 1][..k] == files[..k];
  }

  lemma {:induction false} BlocksMonotone(files: seq<FileWrite>, i: nat, j: nat)
    requires i <= j <= |files|
    ensures BlocksOf(files[..i]) <= BlocksOf(files[..j])
    decreases j - i
  {
    hide DataBlocks;
    if i < j {
      FilesSnoc(files, j - 1);
      BlocksMonotone(files, i, j - 1);
    }
  }

  /** File `k` has its own blocks in the extent. */
  lemma {:induction false} FileSlice(files: seq<FileWrite>, k: nat, n: nat, b: nat)
    requires k < n <= |files| && b < DataBlocks(|files[k].bytes|)
    ensures BlocksOf(files[..k]) + b < |FilesExtent(files[..n])|
    ensures FilesExtent(files[..n])[BlocksOf(files[..k]) + b] == Padded(files[k].bytes)[b]
    decreases n
  {
    hide BlocksOf, FilesExtent, Padded, DataBlocks;
    FilesSnoc(files, n - 1);
    if k < n - 1 {
      FileSlice(files, k, n - 1, b);
    }
  }

  function DedicatedEntry(f: FileWrite, block: u32): Entry
    requires |f.bytes| <= BLOCK_SIZE * BLOCK_COUNT
  {
    DataBlocksBound(|f.bytes|);
    Entry(f.path, |f.bytes|, f.modifiedTime, Crc32.Crc(f.bytes), block, DataBlocks(|f.bytes|), false, Dedicated, 0, 0, 0)
  }

  lemma DataBlocksBound(size: nat)
    ensures size <= DataBlocks(size) * BLOCK_SIZE < size + BLOCK_SIZE
    ensures size <= BLOCK_SIZE * BLOCK_COUNT ==> DataBlocks(size) <= BLOCK_COUNT
  {}

  ghost predicate FilesFit(files: seq<FileWrite>, first: nat)
  {
    && FIRST_DATA_BLOCK <= first && first + BlocksOf(files) <= BLOCK_COUNT
    && forall k :: 0 <= k < |files| ==> ValidPath(files[k].path)
  }

  lemma FileFits(files: seq<FileWrite>, first: nat, k: nat)
    requires FilesFit(files, first) && k < |files|
    ensures first + BlocksOf(files[..k]) + DataBlocks(|files[k].bytes|) <= first + BlocksOf(files) <= BLOCK_COUNT
    ensures |files[k].bytes| <= BLOCK_SIZE * BLOCK_COUNT
  {
    assert files[..|files|] == files;
    FilesSnoc(files, k);
    BlocksMonotone(files, k + 1, |files|);
    DataBlocksBound(|files[k].bytes|);
  }

  ghost function FileEntry(files: seq<FileWrite>, first: nat, k: nat): Entry
    requires FilesFit(files, first) && k < |files|
  {
    FileFits(files, first, k);
    DedicatedEntry(files[k], first + BlocksOf(files[..k]))
  }

  ghost function FileEntries(files: seq<FileWrite>, first: nat): (s: seq<Entry>)
    requires FilesFit(files, first)
    ensures |s| == |files|
  {
    seq(|files|, k requires 0 <= k < |files| => FileEntry(files, first, k))
  }

  /** An extent that holds a file's padded blocks reads back as the file. */
  lemma ExtentReads(image: Image, e: Entry, bytes: seq<byte>)
    requires Acceptable(e) && !e.directory && e.storage == Dedicated && e.size == |bytes| && e.crc == Crc32.Crc(bytes)
    requires Stored(image, e.firstBlock, Padded(bytes))
    ensures FileBytes(image, e) == Some(bytes)
  {
    hide ValidPath, DataBlocks, Padded, Acceptable;
    forall i | 0 <= i < e.size ensures ExtentBytes(image, e)[i] == bytes[i] {
      ByteInExtent(e, i);
      PaddedAt(bytes, i);
      assert image[e.firstBlock + i / BLOCK_SIZE] == Padded(bytes)[i / BLOCK_SIZE];
    }
    assert ExtentBytes(image, e) == bytes;
  }

  /** A part of a stored extent is stored where it lies. */
  lemma StoredPart(image: Image, first: nat, whole: seq<Block>, offset: nat, part: seq<Block>)
    requires Stored(image, first, whole) && offset + |part| <= |whole|
    requires forall b :: 0 <= b < |part| ==> whole[offset + b] == part[b]
    ensures Stored(image, first + offset, part)
  {}

  lemma FileStored(image: Image, files: seq<FileWrite>, first: nat, k: nat)
    requires FilesFit(files, first) && k < |files| && Stored(image, first, FilesExtent(files))
    ensures Stored(image, first + BlocksOf(files[..k]), Padded(files[k].bytes))
  {
    hide BlocksOf, FilesExtent, DataBlocks, Padded, FilesFit, Stored;
    FileFits(files, first, k);
    var whole, offset, part := FilesExtent(files), BlocksOf(files[..k]), Padded(files[k].bytes);
    assert files[..|files|] == files;
    forall b | 0 <= b < |part| ensures offset + b < |whole| && whole[offset + b] == part[b] {
      FileSlice(files, k, |files|, b);
    }
    StoredPart(image, first, whole, offset, part);
  }

  lemma FileEntryFields(files: seq<FileWrite>, first: nat, k: nat)
    requires FilesFit(files, first) && k < |files|
    ensures
      var e := FileEntry(files, first, k);
      && e.name == files[k].path && !e.directory && Acceptable(e) && e.storage == Dedicated
      && e.firstBlock == first + BlocksOf(files[..k]) && e.firstBlock + e.blockCount <= first + BlocksOf(files)
      && e.size == |files[k].bytes| && e.crc == Crc32.Crc(files[k].bytes) && e.modifiedTime == files[k].modifiedTime
  {
    FileFits(files, first, k);
    DataBlocksBound(|files[k].bytes|);
    hide BlocksOf, ValidPath, DataBlocks;
    assert ValidPath(files[k].path);
  }

  /** A whole-block file reads back as the bytes that were put in the extent. */
  lemma FileEntryReads(image: Image, files: seq<FileWrite>, first: nat, k: nat)
    requires FilesFit(files, first) && k < |files| && Stored(image, first, FilesExtent(files))
    ensures
      var e := FileEntry(files, first, k);
      && e.name == files[k].path && !e.directory && Acceptable(e) && e.storage == Dedicated
      && first <= e.firstBlock && e.firstBlock + e.blockCount <= first + BlocksOf(files)
      && FileBytes(image, e) == Some(files[k].bytes) && e.modifiedTime == files[k].modifiedTime
  {
    hide BlocksOf, FilesExtent, Padded, FilesFit, FileEntry, Acceptable, FileBytes, Stored, DataBlocks;
    FileEntryFields(files, first, k);
    FileStored(image, files, first, k);
    ExtentReads(image, FileEntry(files, first, k), files[k].bytes);
  }

  lemma FileEntriesCompatible(files: seq<FileWrite>, first: nat, i: nat, j: nat)
    requires FilesFit(files, first) && i < j < |files|
    ensures Compatible(FileEntry(files, first, i), FileEntry(files, first, j))
  {
    hide ValidPath, DataBlocks;
    FileFits(files, first, i);
    FileFits(files, first, j);
    FilesSnoc(files, i);
    BlocksMonotone(files, i + 1, j);
  }

  // ----- The whole batch -----

  ghost function BinBlock(pending: seq<Pending>, bins: seq<seq<nat>>, generation: u64, b: nat): Block
    requires Planned(pending, bins, generation) && b < |bins|
  {
    PlannedBin(pending, bins, generation, b);
    PackedBlockProofs.EncodedLayout(generation, BinRecords(RecordsOf(pending), bins[b]));
    Encoded(generation, BinRecords(RecordsOf(pending), bins[b]))
  }

  ghost function BinsExtent(pending: seq<Pending>, bins: seq<seq<nat>>, generation: u64): (s: seq<Block>)
    requires Planned(pending, bins, generation)
    ensures |s| == |bins|
  {
    seq(|bins|, b requires 0 <= b < |bins| => BinBlock(pending, bins, generation, b))
  }

  /** Everything known about a batch once its extent is on flash. */
  ghost predicate BatchReady(pending: seq<Pending>, bins: seq<seq<nat>>, generation: u64, files: seq<FileWrite>, first: nat)
  {
    && Planned(pending, bins, generation) && Positioned(bins, first)
    && FilesFit(files, first + |bins|)
    && DistinctPaths(pending)
    && (forall i, j :: 0 <= i < j < |files| ==> files[i].path != files[j].path)
    && (forall i, j :: 0 <= i < |pending| && 0 <= j < |files| ==> pending[i].path != files[j].path)
  }

  ghost function BatchExtent(pending: seq<Pending>, bins: seq<seq<nat>>, generation: u64, files: seq<FileWrite>): (s: seq<Block>)
    requires Planned(pending, bins, generation)
    ensures |s| == |bins| + BlocksOf(files)
  {
    BinsExtent(pending, bins, generation) + FilesExtent(files)
  }

  ghost function BatchEntries(pending: seq<Pending>, bins: seq<seq<nat>>, generation: u64, files: seq<FileWrite>, first: nat): seq<Entry>
    requires BatchReady(pending, bins, generation, files, first)
  {
    PackedEntries(pending, bins, generation, first) + FileEntries(files, first + |bins|)
  }

  lemma BatchStored(image: Image, pending: seq<Pending>, bins: seq<seq<nat>>, generation: u64, files: seq<FileWrite>, first: nat)
    requires BatchReady(pending, bins, generation, files, first)
    requires Stored(image, first, BatchExtent(pending, bins, generation, files))
    ensures BinsStored(image, pending, bins, generation, first)
    ensures Stored(image, first + |bins|, FilesExtent(files))
  {
    hide BlocksOf, FilesExtent, Planned, Encoded;
    var extent := BatchExtent(pending, bins, generation, files);
    forall b | 0 <= b < |bins| ensures image[first + b] == BinBlock(pending, bins, generation, b) {
      assert extent[b] == BinsExtent(pending, bins, generation)[b];
    }
    forall b | first + |bins| <= b < first + |bins| + BlocksOf(files)
      ensures image[b] == FilesExtent(files)[b - (first + |bins|)]
    {
      assert extent[b - first] == FilesExtent(files)[b - (first + |bins|)];
    }
  }

  /** A run of blocks no entry uses. */
  ghost predicate FreeRun(es: seq<Entry>, first: nat, count: nat)
  {
    forall b :: first <= b < first + count ==> !Referenced(es, b)
  }

  lemma FreshCompatible(es: seq<Entry>, k: nat, e: Entry, first: nat, count: nat)
    requires k < |es| && FreeRun(es, first, count)
    requires !e.directory && first <= e.firstBlock && e.firstBlock + e.blockCount <= first + count
    ensures Compatible(es[k], e)
  {
    var a := es[k];
    if !a.directory && a.blockCount != 0 && e.blockCount != 0
       && a.firstBlock < e.firstBlock + e.blockCount && e.firstBlock < a.firstBlock + a.blockCount {
      var b := Max(a.firstBlock, e.firstBlock);
      assert Occupies(a, b) && Referenced(es, b);
    }
  }

  ghost function BatchNode(pending: seq<Pending>, bins: seq<seq<nat>>, files: seq<FileWrite>, j: nat): Option<Node>
  {
    if j < |Slots(bins)| then
      SlotIn(bins, j);
      var i := bins[Slots(bins)[j].0][Slots(bins)[j].1];
      if i < |pending| then Some(File(pending[i].record.bytes, pending[i].record.modifiedTime)) else None
    else if j - |Slots(bins)| < |files| then Some(FileNode(files[j - |Slots(bins)|]))
    else None
  }

  lemma BatchEntryJoins(image: Image, es: seq<Entry>, pending: seq<Pending>, bins: seq<seq<nat>>, generation: u64,
                        files: seq<FileWrite>, first: nat, j: nat)
    requires BatchReady(pending, bins, generation, files, first)
    requires BinsStored(image, pending, bins, generation, first)
    requires Stored(image, first + |bins|, FilesExtent(files))
    requires FreeRun(es, first, |bins| + BlocksOf(files))
    requires j < |BatchEntries(pending, bins, generation, files, first)|
    ensures
      var e := BatchEntries(pending, bins, generation, files, first)[j];
      && EntryOps.Joins(image, es, e) && Acceptable(e) && !e.directory && Some(NodeOf(image, e)) == BatchNode(pending, bins, files, j)
  {
    hide BlocksOf, FilesExtent, Planned, Slots, SlotEntry, FileEntry, FileBytes, Acceptable, Compatible, FreeRun, FilesFit, DistinctPaths;
    var e := BatchEntries(pending, bins, generation, files, first)[j];
    if j < |Slots(bins)| {
      SlotEntryReads(image, pending, bins, generation, first, j);
    } else {
      FileEntryReads(image, files, first + |bins|, j - |Slots(bins)|);
    }
    forall k | 0 <= k < |es| ensures Compatible(es[k], e) {
      FreshCompatible(es, k, e, first, |bins| + BlocksOf(files));
    }
  }

  lemma BatchEntriesApart(pending: seq<Pending>, bins: seq<seq<nat>>, generation: u64, files: seq<FileWrite>, first: nat, i: nat, j: nat)
    requires BatchReady(pending, bins, generation, files, first)
    requires i < j < |BatchEntries(pending, bins, generation, files, first)|
    ensures
      var s := BatchEntries(pending, bins, generation, files, first);
      Compatible(s[i], s[j]) && s[i].name != s[j].name
  {
    hide BlocksOf, FilesExtent, Planned, Slots, SlotEntry, ValidPath;
    var n := |Slots(bins)|;
    if j < n {
      SlotEntriesCompatible(pending, bins, generation, first, i, j);
      SlotNamesDistinct(pending, bins, generation, first, i, j);
    } else if i >= n {
      FileEntriesCompatible(files, first + |bins|, i - n, j - n);
    } else {
      SlotEntryFields(pending, bins, generation, first, i);
      FileFits(files, first + |bins|, j - n);
    }
  }

  /** Once its extent is on flash in a free run, a batch's entries may all be published. */
  lemma BatchPlaceable(image: Image, es: seq<Entry>, pending: seq<Pending>, bins: seq<seq<nat>>, generation: u64,
                       files: seq<FileWrite>, first: nat)
    requires BatchReady(pending, bins, generation, files, first)
    requires Stored(image, first, BatchExtent(pending, bins, generation, files))
    requires FreeRun(es, first, |bins| + BlocksOf(files))
    ensures
      var placed := BatchEntries(pending, bins, generation, files, first);
      && EntryOps.Placeable(image, es, placed) && DistinctNames(placed) && AllAcceptable(placed)
      && forall j :: 0 <= j < |placed| ==> Some(NodeOf(image, placed[j])) == BatchNode(pending, bins, files, j)
  {
    hide BlocksOf, FilesExtent, Planned, Slots, FileBytes, Acceptable, Compatible, FreeRun, EntryOps.Joins, BatchEntries, NodeOf;
    BatchStored(image, pending, bins, generation, files, first);
    var placed := BatchEntries(pending, bins, generation, files, first);
    forall j | 0 <= j < |placed|
      ensures EntryOps.Joins(image, es, placed[j]) && Acceptable(placed[j])
        && Some(NodeOf(image, placed[j])) == BatchNode(pending, bins, files, j)
    {
      BatchEntryJoins(image, es, pending, bins, generation, files, first, j);
    }
    forall i, j | 0 <= i < j < |placed| ensures Compatible(placed[i], placed[j]) && placed[i].name != placed[j].name {
      BatchEntriesApart(pending, bins, generation, files, first, i, j);
    }
  }
}
