/**
  What a flash image means: the tree of files and directories its entries describe, the
  allocation invariant, and which superblock slot speaks for the image.
 */
module Volume {
  import opened Bytes
  import opened Paths
  import opened Manifest
  import opened Device
  import opened Opening
  import Crc32
  import CutSlots
  import PackedBlock
  import PackedBlockProofs
  import ManifestProofs

  datatype Node = Dir(dirTime: u64) | File(bytes: seq<byte>, fileTime: u64)
  type Tree = map<Name, Node>

  // ----- Where entries lie -----

  predicate Occupies(e: Entry, b: nat)
  {
    !e.directory && e.firstBlock <= b < e.firstBlock + e.blockCount
  }

  /** Blocks an allocation must avoid; everything outside the data range counts as referenced. */
  predicate Referenced(es: seq<Entry>, b: nat)
  {
    b < FIRST_DATA_BLOCK || b >= BLOCK_COUNT || exists k :: 0 <= k < |es| && Occupies(es[k], b)
  }

  /** Two entries of one volume: disjoint extents, or different records of one packed block. */
  predicate Compatible(a: Entry, b: Entry)
  {
    || a.directory || b.directory || a.blockCount == 0 || b.blockCount == 0
    || a.firstBlock + a.blockCount <= b.firstBlock || b.firstBlock + b.blockCount <= a.firstBlock
    || (&& a.storage.Packed? && b.storage.Packed? && a.firstBlock == b.firstBlock
        && a.packedGeneration == b.packedGeneration && a.packedRecordOffset != b.packedRecordOffset)
  }

  ghost predicate AllCompatible(es: seq<Entry>)
  {
    forall i, j :: 0 <= i < j < |es| ==> Compatible(es[i], es[j])
  }

  // ----- What entries contain -----

  /** The record an entry refers to, if its id, offset, time, size and checksum all agree. */
  function Resolve(e: Entry, records: seq<PackedBlock.Record>, locations: seq<PackedBlock.Location>, k: nat): Option<seq<byte>>
    requires |records| == |locations| && k <= |records|
    decreases |records| - k
  {
    if k == |records| then None
    else if records[k].id != e.packedRecordId || locations[k].offset != e.packedRecordOffset then
      Resolve(e, records, locations, k + 1)
    else if records[k].modifiedTime != e.modifiedTime || |records[k].bytes| != e.size
            || Crc32.Crc(records[k].bytes) != e.crc then None
    else Some(records[k].bytes)
  }

  lemma DecodedSameLength(block: seq<byte>)
    ensures PackedBlock.DecodeResult(block).Some? ==>
      |PackedBlock.DecodeResult(block).value.records| == |PackedBlock.DecodeResult(block).value.locations|
  {
    if PackedBlock.DecodeResult(block).Some? {
      PackedBlockProofs.AcceptedIsEncodable(block);
    }
  }

  function PackedBytes(block: Block, e: Entry): Option<seq<byte>>
  {
    DecodedSameLength(block);
    match PackedBlock.DecodeResult(block)
    case None => None
    case Some(d) =>
      if d.generation != e.packedGeneration then None else Resolve(e, d.records, d.locations, 0)
  }

  /** Byte `i` of the extent starting at `first`. */
  function ExtentByte(image: Image, first: nat, i: nat): byte
    requires first + i / BLOCK_SIZE < BLOCK_COUNT
  {
    image[first + i / BLOCK_SIZE][i % BLOCK_SIZE]
  }

  lemma ByteInExtent(e: Entry, i: nat)
    requires Acceptable(e) && !e.directory && i < e.size
    ensures e.firstBlock + i / BLOCK_SIZE < e.firstBlock + e.blockCount <= BLOCK_COUNT
  {}

  function ExtentBytes(image: Image, e: Entry): (s: seq<byte>)
    requires Acceptable(e) && !e.directory
    ensures |s| == e.size
  {
    seq(e.size, i requires 0 <= i < e.size => ByteInExtent(e, i); ExtentByte(image, e.firstBlock, i))
  }

  /** What reading the whole file returns; None when it cannot be read. */
  function FileBytes(image: Image, e: Entry): Option<seq<byte>>
    requires Acceptable(e) && !e.directory
  {
    if e.storage.Packed? then PackedBytes(image[e.firstBlock], e)
    else if Crc32.Crc(ExtentBytes(image, e)) == e.crc then Some(ExtentBytes(image, e))
    else None
  }

  ghost predicate Readable(image: Image, es: seq<Entry>)
    requires AllAcceptable(es)
  {
    forall k :: 0 <= k < |es| && !es[k].directory ==> FileBytes(image, es[k]).Some?
  }

  function NodeOf(image: Image, e: Entry): Node
    requires Acceptable(e)
  {
    if e.directory then Dir(e.modifiedTime)
    else
      var contents := FileBytes(image, e);
      File(if contents.Some? then contents.value else [], e.modifiedTime)
  }

  /** Index of the first entry with this name, or the length. */
  function Find(es: seq<Entry>, name: Name): (r: nat)
    ensures r <= |es| && (r < |es| ==> es[r].name == name)
    ensures forall k :: 0 <= k < r ==> es[k].name != name
    decreases |es|
  {
    if es == [] then 0
    else if es[0].name == name then 0
    else
      var r := Find(es[1..], name);
      assert forall k :: 0 <= k < |es| - 1 ==> es[1..][k] == es[k + 1];
      r + 1
  }

  lemma FindIs(es: seq<Entry>, k: nat)
    requires k < |es| && DistinctNames(es)
    ensures Find(es, es[k].name) == k
  {}

  lemma FindMiss(es: seq<Entry>, name: Name)
    ensures name in Names(es) <==> Find(es, name) < |es|
  {}

  ghost function TreeOf(image: Image, es: seq<Entry>): (t: Tree)
    requires AllAcceptable(es)
    ensures t.Keys == Names(es)
  {
    map n | n in Names(es) :: (FindMiss(es, n); NodeOf(image, es[Find(es, n)]))
  }

  /** The node of every entry is found under its name. */
  lemma TreeAt(image: Image, es: seq<Entry>, k: nat)
    requires AllAcceptable(es) && DistinctNames(es) && k < |es|
    ensures es[k].name in TreeOf(image, es) && TreeOf(image, es)[es[k].name] == NodeOf(image, es[k])
  {
    FindIs(es, k);
  }

  /** Entries that `commit` may publish: placed apart and readable. */
  ghost predicate Publishable(image: Image, es: seq<Entry>)
  {
    AllAcceptable(es) && AllCompatible(es) && Readable(image, es)
  }

  /** The allocation invariant of a mounted volume. */
  ghost predicate VolumeOk(image: Image, es: seq<Entry>)
  {
    CommitAccepts(es) && Publishable(image, es)
  }

  // ----- Contents depend only on referenced blocks -----

  ghost predicate SameOnReferenced(a: Image, b: Image, es: seq<Entry>)
  {
    forall k :: FIRST_DATA_BLOCK <= k < BLOCK_COUNT && Referenced(es, k) ==> a[k] == b[k]
  }

  lemma FileBytesFrame(a: Image, b: Image, e: Entry)
    requires Acceptable(e) && !e.directory
    requires forall k :: 0 <= k < BLOCK_COUNT && Occupies(e, k) ==> a[k] == b[k]
    ensures FileBytes(a, e) == FileBytes(b, e)
  {
    if e.storage.Packed? {
      assert Occupies(e, e.firstBlock);
    } else {
      forall i | 0 <= i < e.size ensures ExtentBytes(a, e)[i] == ExtentBytes(b, e)[i] {
        ByteInExtent(e, i);
        assert Occupies(e, e.firstBlock + i / BLOCK_SIZE);
      }
      assert ExtentBytes(a, e) == ExtentBytes(b, e);
    }
  }

  lemma NodeFrame(a: Image, b: Image, es: seq<Entry>, k: nat)
    requires AllAcceptable(es) && SameOnReferenced(a, b, es) && k < |es|
    ensures NodeOf(a, es[k]) == NodeOf(b, es[k])
    ensures !es[k].directory ==> FileBytes(a, es[k]) == FileBytes(b, es[k])
  {
    if !es[k].directory {
      forall j | 0 <= j < BLOCK_COUNT && Occupies(es[k], j) ensures a[j] == b[j] {
        assert Referenced(es, j);
      }
      FileBytesFrame(a, b, es[k]);
    }
  }

  /** Changing unreferenced blocks changes neither the tree nor the invariant. */
  lemma Frame(a: Image, b: Image, es: seq<Entry>)
    requires AllAcceptable(es) && SameOnReferenced(a, b, es)
    ensures TreeOf(a, es) == TreeOf(b, es)
    ensures Readable(a, es) ==> Readable(b, es)
    ensures Publishable(a, es) ==> Publishable(b, es)
    ensures VolumeOk(a, es) ==> VolumeOk(b, es)
  {
    forall k | 0 <= k < |es|
      ensures NodeOf(a, es[k]) == NodeOf(b, es[k])
      ensures !es[k].directory ==> FileBytes(a, es[k]) == FileBytes(b, es[k])
    {
      NodeFrame(a, b, es, k);
    }
    forall n | n in Names(es) ensures TreeOf(a, es)[n] == TreeOf(b, es)[n] {
      FindMiss(es, n);
    }
  }

  // ----- Superblock slots -----

  /** Slot `active` holds these entries, and the other slot nothing newer. */
  ghost predicate Durable(image: Image, es: seq<Entry>, generation: u64, active: nat)
  {
    && active < 2
    && ParseSlot(image[active]) == Some(Superblock(generation, es))
    && (ParseSlot(image[1 - active]).Some? ==> ParseSlot(image[1 - active]).value.generation < generation)
  }

  lemma ChooseNewest(s0: Option<Superblock>, s1: Option<Superblock>, es: seq<Entry>, generation: u64, active: nat)
    requires active < 2
    requires active == 0 ==> s0 == Some(Superblock(generation, es)) && (s1.Some? ==> s1.value.generation < generation)
    requires active == 1 ==> s1 == Some(Superblock(generation, es)) && (s0.Some? ==> s0.value.generation < generation)
    ensures Choose(s0, s1) == Some(Mounted(es, generation, active))
  {}

  /** A durable volume is the newest of the two slots; open finds it if and only if the last two blocks yield. */
  lemma DurableMounts(image: Image, es: seq<Entry>, generation: u64, active: nat)
    requires Durable(image, es, generation, active)
    ensures NewestSlot(image) == Some(Mounted(es, generation, active))
    ensures OpenedAs(image) == Some(InSlots(Mounted(es, generation, active))) <==> TailYields(image)
  {
    hide ParseSlot, Choose, OpenedAs, TailYields;
    if active == 1 {
      assert image[0] == image[1 - active];
    } else {
      assert image[1] == image[1 - active];
    }
    ChooseNewest(ParseSlot(image[0]), ParseSlot(image[1]), es, generation, active);
    OpensSlots(image, Mounted(es, generation, active));
  }

  /** The two slots hold a sound volume with exactly this tree, every file readable. */
  ghost predicate SlotsHold(image: Image, t: Tree)
  {
    && NewestSlot(image).Some?
    && var m := NewestSlot(image).value;
    && Durable(image, m.entries, m.generation, m.active)
    && VolumeOk(image, m.entries)
    && TreeOf(image, m.entries) == t
  }

  /** Opening this image yields that volume. */
  ghost predicate RecoversTo(image: Image, t: Tree)
  {
    && SlotsHold(image, t)
    && OpenedAs(image) == Some(InSlots(NewestSlot(image).value))
  }

  lemma SlotsAreThere(image: Image, t: Tree)
    ensures SlotsHold(image, t) ==> NewestSlot(image).Some?
  {
    hide Durable, VolumeOk, TreeOf, NewestSlot;
  }

  /** Open finds what the slots hold if and only if the last two blocks yield. */
  lemma RecoversIfYields(image: Image, t: Tree)
    ensures RecoversTo(image, t) <==> SlotsHold(image, t) && TailYields(image)
  {
    hide Durable, VolumeOk, TreeOf, OpenedAs, TailYields, NewestSlot;
    if SlotsHold(image, t) {
      OpensSlots(image, NewestSlot(image).value);
    }
  }

  /** Both slots hold the same entries. */
  ghost predicate BothHold(image: Image, es: seq<Entry>)
  {
    && ParseSlot(image[0]).Some? && ParseSlot(image[0]).value.entries == es
    && ParseSlot(image[1]).Some? && ParseSlot(image[1]).value.entries == es
  }

  /**
    A safe erase: a data block is erased only while both slots agree that it is free, a slot only
    while the other slot is valid and newer.
   */
  ghost predicate SafeErase(ev: EraseEvent)
  {
    var s0, s1 := ParseSlot(ev.slot0), ParseSlot(ev.slot1);
    if ev.block == 0 then s1.Some? && (s0.Some? ==> s0.value.generation < s1.value.generation)
    else if ev.block == 1 then s0.Some? && (s1.Some? ==> s1.value.generation < s0.value.generation)
    else s0.Some? && s1.Some? && s0.value.entries == s1.value.entries && !Referenced(s0.value.entries, ev.block)
  }

  ghost predicate SafeErases(log: seq<EraseEvent>)
  {
    forall k :: 0 <= k < |log| ==> SafeErase(log[k])
  }

  /** What slot `slot` may hold after a commit attempt that was reported failed. */
  lemma FailedCommitRecovers(before: Image, after: Image, es: seq<Entry>, next: seq<Entry>, generation: u64, active: nat)
    requires Durable(before, es, generation, active) && VolumeOk(before, es)
    requires generation + 1 < 0x1_0000_0000_0000_0000
    requires CommitAccepts(next) && Publishable(before, next)
    requires SameBut(before, after, 1 - active)
    requires ChecksumSound(before[1 - active], SuperblockBytes(generation + 1, next), after[1 - active])
    ensures SlotsHold(after, TreeOf(before, es)) || SlotsHold(after, TreeOf(before, next))
    ensures TailYields(after) ==> RecoversTo(after, TreeOf(before, es)) || RecoversTo(after, TreeOf(before, next))
  {
    hide VolumeOk, Publishable, CommitAccepts, SuperblockBytes, ParseSlot, ChecksumAccepts, TreeOf, AllAcceptable, SameOnReferenced, NewestSlot, ManifestBytes, OpenedAs, TailYields;
    var slot := 1 - active;
    assert VolumeOk(before, next) by { VolumeFromParts(before, next); }
    SlotsOnly(before, after, es);
    SlotsOnly(before, after, next);
    VolumeParts(before, es);
    VolumeParts(before, next);
    Frame(before, after, es);
    Frame(before, after, next);
    if after[slot] == SuperblockBytes(generation + 1, next) {
      WrittenSlot(generation + 1, next);
      DurableMounts(after, next, generation + 1, slot);
    } else {
      assert Durable(after, es, generation, active) by {
        if after[slot] != before[slot] {
          RejectedSlot(after[slot]);
        }
      }
      DurableMounts(after, es, generation, active);
    }
    RecoversIfYields(after, TreeOf(before, es));
    RecoversIfYields(after, TreeOf(before, next));
  }

  /** No hypothesis is needed when the write was cut in the header or within the last bytes of the manifest. */
  lemma CutCommitRecovers(before: Image, after: Image, es: seq<Entry>, next: seq<Entry>, generation: u64, active: nat, n: nat)
    requires Durable(before, es, generation, active) && VolumeOk(before, es)
    requires generation + 1 < 0x1_0000_0000_0000_0000
    requires CommitAccepts(next) && Publishable(before, next)
    requires SameBut(before, after, 1 - active) && n <= BLOCK_SIZE
    requires after[1 - active] == CutSlots.Cut(SuperblockBytes(generation + 1, next), n)
    requires n < SUPERBLOCK_HEADER || SUPERBLOCK_HEADER + |ManifestBytes(next)| <= n + 4
    ensures SlotsHold(after, TreeOf(before, es)) || SlotsHold(after, TreeOf(before, next))
    ensures TailYields(after) ==> RecoversTo(after, TreeOf(before, es)) || RecoversTo(after, TreeOf(before, next))
  {
    hide VolumeOk, Publishable, CommitAccepts, SuperblockBytes, Durable, TreeOf, SlotsHold, RecoversTo, TailYields, ManifestBytes;
    hide CutSlots.SlotAccepts, CutSlots.Sealed, Get32;
    ManifestProofs.CommitAcceptsFits(next);
    CutSlots.CommitSeals(generation + 1, next);
    SealedSize(generation + 1, next);
    CutSlots.CutDecided(SuperblockBytes(generation + 1, next), n);
    FailedCommitRecovers(before, after, es, next, generation, active);
  }

  lemma SealedSize(generation: u64, es: seq<Entry>)
    requires CommitAccepts(es)
    ensures Get32(SuperblockBytes(generation, es), 20) == |ManifestBytes(es)|
  {
    hide SuperblockBytes, ManifestBytes, CommitAccepts, SuperblockHeader, Get32, Get64, GetCrc, HeaderAccepted;
    ManifestProofs.CommitAcceptsFits(es);
    ManifestProofs.SuperblockLayout(generation, es);
    ManifestProofs.SuperblockFields(SuperblockBytes(generation, es), generation, |ManifestBytes(es)|, Crc32.Crc(ManifestBytes(es)));
  }

  /** A superblock that was wholly written is read back as it was meant. */
  lemma WrittenSlot(generation: u64, es: seq<Entry>)
    requires CommitAccepts(es) && AllAcceptable(es)
    ensures ParseSlot(SuperblockBytes(generation, es)) == Some(Superblock(generation, es))
  {
    ManifestProofs.CommitOpenRoundTrip(generation, es);
  }

  lemma RejectedSlot(b: Block)
    requires !ChecksumAccepts(b)
    ensures ParseSlot(b) == None
  {}

  lemma VolumeFromParts(image: Image, es: seq<Entry>)
    requires CommitAccepts(es) && Publishable(image, es)
    ensures VolumeOk(image, es)
  {}

  lemma VolumeParts(image: Image, es: seq<Entry>)
    requires VolumeOk(image, es)
    ensures CommitAccepts(es) && Publishable(image, es) && AllAcceptable(es)
  {}

  lemma SlotsOnly(before: Image, after: Image, es: seq<Entry>)
    requires forall k :: FIRST_DATA_BLOCK <= k < BLOCK_COUNT ==> before[k] == after[k]
    ensures SameOnReferenced(before, after, es)
  {}
}
