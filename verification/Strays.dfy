/**
  Concrete volumes that `open` overlooks: a file on a transactional volume that looks like a
  direct-boot superblock, and a boot ROM that looks like a transactional one.
 */
module Strays {
  import opened Bytes
  import opened Paths
  import opened Manifest
  import opened Device
  import opened DirectManifest
  import opened CutSlots
  import opened Opening
  import opened Volume
  import opened Placement
  import opened DirectBoot
  import Crc32
  import EditSteps
  import Tame

  // ----- A file in block 510 -----

  /** For instance an empty direct-boot volume, of any generation. */
  function Bait(g: u64): Block
  {
    EmptyListing();
    DirectSuperblock(g, 1, [])
  }

  lemma BaitParses(g: u64)
    ensures ParseDirect(Bait(g)) == Some(DirectVolume(g, 1, []))
  {
    hide DirectSuperblock, ParseDirect, DirectCommitAccepts;
    EmptyListing();
    NothingListed([], 1);
    DirectRoundTrip(g, 1, []);
  }

  /** A file whose one block, 510, is the bait. */
  function BaitFile(b: Block): Entry
  {
    Entry([0x61], BLOCK_SIZE, 0, Crc32.Crc(b), DATA_END, 1, false, Dedicated, 0, 0, 0)
  }

  lemma OneEntryFits(e: Entry)
    requires CommitAcceptsEntry(e) && |e.name| <= 8
    ensures CommitAccepts([e]) && DirectCommitAccepts([e])
  {
    hide EntryBytes, CommitAcceptsEntry, LittleEndian, EntryHeader;
    EntryLength(e);
    assert [e][..0] == [];
    assert EntriesBytes([e]) == EntriesBytes([]) + EntryBytes(e);
  }

  lemma EntryLength(e: Entry)
    ensures |EntryBytes(e)| == ENTRY_SIZE + |e.name|
  {}

  lemma BaitFields(b: Block)
    ensures |BaitFile(b).name| == 1 && CommitAcceptsEntry(BaitFile(b)) && Acceptable(BaitFile(b))
  {
    assert FindSlash([0x61], 0) == 1;
  }

  lemma BaitFileAccepted(b: Block)
    ensures Acceptable(BaitFile(b)) && CommitAccepts([BaitFile(b)]) && AllAcceptable([BaitFile(b)])
  {
    hide BaitFile, Acceptable, CommitAcceptsEntry, CommitAccepts, DirectCommitAccepts;
    BaitFields(b);
    OneEntryFits(BaitFile(b));
  }

  lemma OneBlockPadded(b: Block)
    ensures Padded(b) == [b]
  {
    assert PaddedBlock(b, 0) == b;
  }

  /** The bait is a file of the volume in slot 0, and slot 1 has been lost. */
  ghost predicate Baited(image: Image, b: Block)
  {
    && CommitAccepts([BaitFile(b)]) && image[0] == SuperblockBytes(2, [BaitFile(b)]) && ParseSlot(image[1]).None?
    && image[DATA_END] == b && ParseDirect(image[DATA_END + 1]).None?
  }

  /** The slots hold the volume with its file, and open finds a direct-boot volume: whatever the file says. */
  lemma FileHidesVolume(image: Image, b: Block, v: DirectVolume)
    requires Baited(image, b) && ParseDirect(b) == Some(v) && v.generation > 2
    ensures AllAcceptable([BaitFile(b)]) && SlotsHold(image, TreeOf(image, [BaitFile(b)]))
    ensures OpenedAs(image) == Some(InTail(v, DATA_END)) && !TailYields(image)
    ensures forall t :: !RecoversTo(image, t)
    ensures !Tame.TameBytes(b)
  {
    hide *;
    BaitFileAccepted(b);
    BaitIs(image, b);
    BaitVolume(image, b);
    BaitOpens(image, b, v);
    forall t ensures !RecoversTo(image, t) {
      RecoversIfYields(image, t);
    }
    NotTame(b);
  }

  lemma BaitIs(image: Image, b: Block)
    requires Baited(image, b)
    ensures image[0] == SuperblockBytes(2, [BaitFile(b)]) && image[DATA_END] == b
    ensures ParseSlot(image[1]).None? && ParseDirect(image[DATA_END + 1]).None?
  {}

  lemma BaitVolume(image: Image, b: Block)
    requires Baited(image, b) && Acceptable(BaitFile(b)) && CommitAccepts([BaitFile(b)]) && AllAcceptable([BaitFile(b)])
    ensures SlotsHold(image, TreeOf(image, [BaitFile(b)])) && ParseSlot(image[0]) == Some(Superblock(2, [BaitFile(b)]))
  {
    hide CommitAccepts, SuperblockBytes, ParseSlot, Acceptable, FileBytes, TreeOf, NewestSlot, ParseDirect;
    var es := [BaitFile(b)];
    WrittenSlot(2, es);
    OneBlockPadded(b);
    ExtentReads(image, BaitFile(b), b);
    assert VolumeOk(image, es) by {
      VolumeFromParts(image, es);
    }
    assert Durable(image, es, 2, 0) by {
      assert image[1 - 0] == image[1];
    }
    DurableMounts(image, es, 2, 0);
  }

  lemma BaitOpens(image: Image, b: Block, v: DirectVolume)
    requires ParseSlot(image[0]) == Some(Superblock(2, [BaitFile(b)])) && ParseSlot(image[1]).None? && v.generation > 2
    requires ParseDirect(image[DATA_END]) == Some(v) && ParseDirect(image[DATA_END + 1]).None?
    ensures OpenedAs(image) == Some(InTail(v, DATA_END)) && !TailYields(image)
  {
    hide ParseSlot, ParseDirect, OpenedAs, BaitFile;
    OpensDirect(image, v, DATA_END);
    TailIs(image, 2);
  }

  lemma NotTame(b: Block)
    ensures ParseDirect(b).Some? ==> !Tame.TameBytes(b)
  {
    hide ParseDirect, DirectQuiet, Padded, Cut;
    OneBlockPadded(b);
    QuietWhole(b);
    assert |Padded(b)| == 1 && Padded(b)[0] == b;
  }

  /** There are such flashes, with an empty direct-boot volume as the file. */
  lemma BaitedFlash(g: u64) returns (image: Image)
    requires g > 2
    ensures Baited(image, Bait(g)) && ParseDirect(Bait(g)) == Some(DirectVolume(g, 1, []))
  {
    hide Bait, BaitFile, BaitSlot, Baited, TwoBlocks, ParseSlot, ParseDirect, CommitAccepts, SlotQuiet, DirectQuiet;
    BaitParses(g);
    BaitFileAccepted(Bait(g));
    BlankQuiet(BLANK_BLOCK);
    QuietWhole(BLANK_BLOCK);
    image := TwoBlocks(BaitSlot(Bait(g)), Bait(g));
    BaitedIs(image, Bait(g));
  }

  function BaitSlot(b: Block): Block
    requires CommitAccepts([BaitFile(b)])
  {
    SuperblockBytes(2, [BaitFile(b)])
  }

  lemma BaitedIs(image: Image, b: Block)
    requires CommitAccepts([BaitFile(b)]) && image[0] == BaitSlot(b) && ParseSlot(image[1]).None?
    requires image[DATA_END] == b && ParseDirect(image[DATA_END + 1]).None?
    ensures Baited(image, b)
  {}

  function TwoBlocks(slot: Block, tail: Block): (image: Image)
    ensures image[0] == slot && image[1] == BLANK_BLOCK && image[DATA_END] == tail && image[DATA_END + 1] == BLANK_BLOCK
  {
    var image := seq(BLOCK_COUNT, b requires 0 <= b < BLOCK_COUNT => if b == 0 then slot else if b == DATA_END then tail else BLANK_BLOCK);
    assert |image| == BLOCK_COUNT;
    image
  }

  // ----- A ROM that begins with a superblock -----

  /** The first block of a transactional cartridge of some generation, saved as a ROM. */
  function Dump(g: u64): Block
  {
    EditSteps.EmptyAccepted();
    SuperblockBytes(g, [])
  }

  /** The dump is installed like any ROM, and the next open mounts it instead of the volume it is in. */
  lemma RomHidesVolume(image: Image, second: Block, g: u64)
    requires Stored(image, 0, Padded(Dump(g))) && ParseSlot(image[1]).None? && TailBelow(image, g)
    ensures RomFits([], 1, ROM, Dump(g), 0) && EmptyFilesAbove([], DataBlocks(|Dump(g)|))
    ensures ParseSlot(second).None? ==> (g >= 2 ==> !RomYields(Dump(g), second, 2))
    ensures OpenedAs(image) == Some(InSlots(Mounted([], g, 0))) && !PlainRom(Dump(g))
  {
    hide *;
    DumpParses(g);
    DumpFits(g);
    OneBlockPadded(Dump(g));
    DumpFront(image, second, g);
    DumpOpens(image, g);
  }

  lemma DumpParses(g: u64)
    ensures ParseSlot(Dump(g)) == Some(Superblock(g, []))
  {
    hide SuperblockBytes, ParseSlot, CommitAccepts;
    EditSteps.EmptyAccepted();
    WrittenSlot(g, []);
  }

  lemma DumpRom(g: u64)
    ensures RomName(ROM) && |ROM| == 5 && DataBlocks(|Dump(g)|) == 1
    ensures RomEntry(ROM, Dump(g), 0).name == ROM && CommitAcceptsEntry(RomEntry(ROM, Dump(g), 0))
  {
    hide Dump;
    assert FindSlash(ROM, 0) == 5;
  }

  lemma DumpFits(g: u64)
    ensures RomFits([], 1, ROM, Dump(g), 0) && EmptyFilesAbove([], DataBlocks(|Dump(g)|))
  {
    hide Dump, RomEntry, RomName, DirectCommitAccepts, DataBlocks, CommitAcceptsEntry;
    DumpRom(g);
    OneEntryFits(RomEntry(ROM, Dump(g), 0));
    assert [RomEntry(ROM, Dump(g), 0)] + [] == [RomEntry(ROM, Dump(g), 0)];
  }

  lemma DumpFront(image: Image, second: Block, g: u64)
    requires Stored(image, 0, Padded(Dump(g))) && Padded(Dump(g)) == [Dump(g)] && ParseSlot(Dump(g)) == Some(Superblock(g, []))
    ensures image[0] == Dump(g) && (ParseSlot(second).None? ==> (g >= 2 ==> !RomYields(Dump(g), second, 2))) && !PlainRom(Dump(g))
  {
    hide Dump, ParseSlot, Padded, SlotQuiet, Cut;
    QuietWhole(Dump(g));
    assert Padded(Dump(g))[0] == Dump(g);
  }

  lemma DumpOpens(image: Image, g: u64)
    requires ParseSlot(image[0]) == Some(Superblock(g, [])) && ParseSlot(image[1]).None? && TailBelow(image, g)
    ensures OpenedAs(image) == Some(InSlots(Mounted([], g, 0)))
  {
    hide ParseSlot, OpenedAs, TailBelow;
    OpensSlots(image, Mounted([], g, 0));
  }
}
