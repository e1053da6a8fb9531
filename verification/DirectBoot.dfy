/**
  The direct-boot layout of src/ezfa3fs_live_filesystem.cpp: installing and removing the boot ROM
  at cartridge offset zero, and what a reopen then finds.
 */
module DirectBoot {
  import opened Bytes
  import opened Paths
  import opened Manifest
  import opened Device
  import opened Opening
  import opened DirectManifest
  import opened Placement
  import Crc32
  import Volume
  import EntryOps
  import EditSteps
  import CutSlots

  /** Both metadata blocks are accepted and carry one generation. */
  predicate Tied(image: Image)
  {
    var a, b := ParseDirect(image[DATA_END]), ParseDirect(image[DATA_END + 1]);
    a.Some? && b.Some? && a.value.generation == b.value.generation
  }

  function Other(active: nat): nat
  {
    if active == DATA_END then DATA_END + 1 else DATA_END
  }

  function RomEntry(path: Name, bytes: seq<byte>, time: u64): Entry
    requires DataBlocks(|bytes|) <= DATA_END
  {
    DataBlocksBound(|bytes|);
    Entry(path, |bytes|, time, Crc32.Crc(bytes), 0, DataBlocks(|bytes|), false, Dedicated, 0, 0, 0)
  }

  predicate HasRom(es: seq<Entry>): (r: bool)
    ensures r ==> es != []
  {
    es != [] && BootRom(es[0])
  }

  /** A ROM fixes the slot to its own length. */
  function RomSlot(es: seq<Entry>, recorded: u32): u32
  {
    if HasRom(es) then es[0].blockCount else recorded
  }

  /** No empty file starts below `blocks`. */
  predicate EmptyFilesAbove(es: seq<Entry>, blocks: nat)
  {
    forall k :: 0 <= k < |es| && !es[k].directory && es[k].blockCount == 0 ==> es[k].firstBlock >= blocks
  }

  /** No file lies in blocks `lo` to `hi`. */
  predicate Unoccupied(es: seq<Entry>, lo: nat, hi: nat)
  {
    forall k, b :: 0 <= k < |es| && lo <= b < hi ==> !Volume.Occupies(es[k], b)
  }

  /** Putting a ROM in front of entries that an open accepted. */
  lemma RomInFront(es: seq<Entry>, slot: nat, path: Name, bytes: seq<byte>, time: u64)
    requires AllPlaced(es, slot) && !HasRom(es) && RomName(path) && bytes != [] && DataBlocks(|bytes|) <= DATA_END
    requires Unoccupied(es, slot, DataBlocks(|bytes|))
    ensures AllPlaced([RomEntry(path, bytes, time)] + es, DataBlocks(|bytes|)) <==> EmptyFilesAbove(es, DataBlocks(|bytes|))
  {
    hide RomName, BootRom, DirectAcceptable, RomEntry, Unoccupied, DataBlocks, HasRom;
    var blocks, rom := DataBlocks(|bytes|), RomEntry(path, bytes, time);
    var all := [rom] + es;
    RomAcceptable(path, bytes, time);
    forall k | 0 <= k < |es| ensures all[k + 1] == es[k] && DirectAcceptable(es[k]) {}
    if EmptyFilesAbove(es, blocks) {
      forall k | 0 <= k < |all| ensures DirectAcceptable(all[k]) && Placed(all[k], blocks, k == 0) {
        if k > 0 {
          StartsAbove(es, slot, k - 1, blocks);
          assert all[k] == es[k - 1];
        }
      }
    } else {
      var k :| 0 <= k < |es| && !es[k].directory && es[k].blockCount == 0 && es[k].firstBlock < blocks;
      assert !Placed(all[k + 1], blocks, false);
    }
  }

  lemma RomAcceptable(path: Name, bytes: seq<byte>, time: u64)
    requires RomName(path) && bytes != [] && DataBlocks(|bytes|) <= DATA_END
    ensures
      var rom := RomEntry(path, bytes, time);
      && DirectAcceptable(rom) && BootRom(rom) && Placed(rom, DataBlocks(|bytes|), true)
      && rom.name == path && CommitAcceptsEntry(rom) == (|path| <= LARGEST_NAME)
  {}

  lemma StartsAbove(es: seq<Entry>, slot: nat, k: nat, blocks: nat)
    requires AllPlaced(es, slot) && !HasRom(es) && k < |es| && Unoccupied(es, slot, blocks)
    ensures es[k].directory || es[k].blockCount == 0 || es[k].firstBlock >= blocks
  {
    assert Placed(es[k], slot, k == 0);
    if !es[k].directory && es[k].blockCount > 0 && slot <= es[k].firstBlock < blocks {
      assert Volume.Occupies(es[k], es[k].firstBlock);
    }
  }

  /** Taking the ROM away never hides a file. */
  lemma WithoutRom(es: seq<Entry>, slot: nat)
    requires AllPlaced(es, slot) && HasRom(es) && DirectCommitAccepts(es) && slot > 0
    ensures AllPlaced(es[1..], slot) && DirectCommitAccepts(es[1..]) && !HasRom(es[1..])
  {
    hide EntryBytes, RomName, DirectAcceptable, CommitAcceptsEntry, DirectCommitAccepts;
    CommitsWithoutFirst(es);
    forall k | 0 <= k < |es| - 1 ensures DirectAcceptable(es[1..][k]) && Placed(es[1..][k], slot, k == 0) {
      assert es[1..][k] == es[k + 1] && DirectAcceptable(es[k + 1]);
      assert Placed(es[k + 1], slot, false);
    }
    assert |es| > 1 ==> es[1..][0] == es[1] && Placed(es[1], slot, false);
  }

  lemma CommitsWithoutFirst(es: seq<Entry>)
    requires DirectCommitAccepts(es) && es != []
    ensures DirectCommitAccepts(es[1..])
  {
    hide EntryBytes, CommitAcceptsEntry, EntriesBytes, LittleEndian;
    forall k | 0 <= k < |es| - 1 ensures CommitAcceptsEntry(es[1..][k]) {
      assert es[1..][k] == es[k + 1];
    }
    EditSteps.RemoveShorter(es, 0);
    RemoveFirst(es);
  }

  lemma RemoveFirst(es: seq<Entry>)
    requires es != []
    ensures EntryOps.RemoveAt(es, 0) == es[1..]
  {}

  /**
    A volume whose slot was left at one block, with an empty file placed right behind it: after a
    two-block ROM is installed the manifest is committed, and no open accepts it.
   */
  lemma GrownSlotHidesVolume(generation: u64, bytes: seq<byte>)
    requires |bytes| == BLOCK_SIZE + 1
    ensures
      var empty := Entry([0x65], 0, 0, 0, 1, 0, false, Dedicated, 0, 0, 0);
      && AllPlaced([empty], 1) && RomName(ROM) && DataBlocks(|bytes|) == 2 && Unoccupied([empty], 1, 2)
      && DirectCommitAccepts([RomEntry(ROM, bytes, 0), empty])
      && ParseDirect(DirectSuperblock(generation, 2, [RomEntry(ROM, bytes, 0), empty])) == None
  {
    hide DirectSuperblock, ParseDirect, RomEntry, DirectCommitAccepts, RomName, DirectAcceptable, BootRom;
    var empty := Entry([0x65], 0, 0, 0, 1, 0, false, Dedicated, 0, 0, 0);
    ExampleRom(bytes);
    ExampleEmpty(empty);
    RomInFront([empty], 1, ROM, bytes, 0);
    assert [RomEntry(ROM, bytes, 0)] + [empty] == [RomEntry(ROM, bytes, 0), empty];
    ExampleCommits(RomEntry(ROM, bytes, 0), empty);
    assert !EmptyFilesAbove([empty], 2) by {
      assert [empty][0].firstBlock == 1;
    }
    DirectRoundTrip(generation, 2, [RomEntry(ROM, bytes, 0), empty]);
  }

  /** "a.gba" */
  const ROM: Name := [0x61, DOT, 0x67, 0x62, 0x61]

  lemma ExampleRom(bytes: seq<byte>)
    requires |bytes| == BLOCK_SIZE + 1
    ensures RomName(ROM) && DataBlocks(|bytes|) == 2
    ensures RomEntry(ROM, bytes, 0).name == ROM && CommitAcceptsEntry(RomEntry(ROM, bytes, 0))
  {}

  lemma ExampleEmpty(empty: Entry)
    requires empty == Entry([0x65], 0, 0, 0, 1, 0, false, Dedicated, 0, 0, 0)
    ensures DirectAcceptable(empty) && AllPlaced([empty], 1) && !HasRom([empty]) && Unoccupied([empty], 1, 2)
  {}

  lemma ExampleCommits(rom: Entry, empty: Entry)
    requires rom.name == ROM && CommitAcceptsEntry(rom)
    requires empty == Entry([0x65], 0, 0, 0, 1, 0, false, Dedicated, 0, 0, 0)
    ensures DirectCommitAccepts([rom, empty])
  {
    hide EntryBytes;
    var all := [rom, empty];
    assert all[..1] == [rom] && all[..1][..0] == [];
    assert rom.name != empty.name;
    assert |EntriesBytes(all[..1])| == 53 && |EntriesBytes(all)| == 102;
  }

  /** The slot only has to be large enough. */
  lemma SmallerSlot(es: seq<Entry>, recorded: nat, slot: nat)
    requires AllPlaced(es, recorded) && slot <= recorded && (HasRom(es) ==> es[0].blockCount <= slot)
    ensures AllPlaced(es, slot)
  {}

  /** What a failed commit leaves in its metadata block, if the checksum catches what is not whole. */
  ghost predicate LeftBehind(before: Block, generation: u64, slot: u32, es: seq<Entry>, after: Block)
  {
    DirectCommitAccepts(es) && (ParseDirect(after).None? || after == before || after == DirectSuperblock(generation, slot, es))
  }

  lemma RejectedDirect(b: Block)
    ensures !CutSlots.SlotAccepts(b) ==> ParseDirect(b).None?
  {
    hide ParseListing;
  }

  /** After a failed commit the next open finds the volume before it or the volume after it. */
  lemma LeftBehindMounts(before: Image, after: Image, was: nat, prior: DirectVolume, slot: u32, es: seq<Entry>)
    requires (was == DATA_END || was == DATA_END + 1) && after[was] == before[was] && prior.generation < EditSteps.LAST_GENERATION
    requires ParseDirect(before[was]) == Some(prior)
    requires ParseDirect(before[Other(was)]).Some? ==> ParseDirect(before[Other(was)]).value.generation < prior.generation
    requires LeftBehind(before[Other(was)], prior.generation + 1, slot, es, after[Other(was)])
    ensures !Tied(after)
    ensures
      || NewestDirect(after) == NewestDirect(before)
      || (&& 0 < slot <= DATA_END && AllPlaced(es, slot)
          && NewestDirect(after) == Some((DirectVolume(prior.generation + 1, slot, es), Other(was))))
  {
    hide ParseDirect, DirectSuperblock, EntriesAccepted, ManifestBytes, AllPlaced;
    if after[Other(was)] == DirectSuperblock(prior.generation + 1, slot, es) {
      DirectRoundTrip(prior.generation + 1, slot, es);
    }
  }

  // ----- The first two blocks -----

  /** With the ROM in place, the first two blocks hold no transactional superblock that goes before `generation`. */
  predicate RomYields(bytes: seq<byte>, second: Block, generation: u64)
  {
    var blocks := Padded(bytes);
    blocks != [] ==> FrontYields(blocks[0], if |blocks| > 1 then blocks[1] else second, generation)
  }

  /**
    What the next open finds once the ROM is in place and the listing is committed: the new volume, the
    old one where an empty file is in the way, or neither.
   */
  ghost predicate RomOpens(before: Image, after: Image, bytes: seq<byte>, es: seq<Entry>, now: DirectVolume, at: nat)
  {
    && (OpenedAs(after) == Some(InTail(now, at)) <==> EmptyFilesAbove(es, now.slot) && RomYields(bytes, before[1], now.generation))
    && (EmptyFilesAbove(es, now.slot) ==> NewestDirect(after) == Some((now, at)))
    && (!EmptyFilesAbove(es, now.slot) ==>
      && NewestDirect(after) == NewestDirect(before)
      && (NewestDirect(before).Some? ==>
        var (v, was) := NewestDirect(before).value;
        OpenedAs(after) == Some(InTail(v, was)) <==> RomYields(bytes, before[1], v.generation)))
  }

  lemma RomOpensIs(before: Image, after: Image, bytes: seq<byte>, es: seq<Entry>, now: DirectVolume, at: nat)
    requires forall g: u64 :: FrontYields(after[0], after[1], g) == RomYields(bytes, before[1], g)
    requires EmptyFilesAbove(es, now.slot) ==> NewestDirect(after) == Some((now, at))
    requires !EmptyFilesAbove(es, now.slot) ==> NewestDirect(after) == NewestDirect(before) && NewestDirect(after) != Some((now, at))
    ensures RomOpens(before, after, bytes, es, now, at)
  {
    hide NewestDirect, OpenedAs, FrontYields, RomYields, EmptyFilesAbove;
    OpensDirect(after, now, at);
    if NewestDirect(before).Some? {
      OpensDirect(after, NewestDirect(before).value.0, NewestDirect(before).value.1);
    }
  }

  /** Nothing in the first two blocks of the ROM could be taken for a transactional superblock. */
  predicate PlainRom(bytes: seq<byte>)
  {
    forall i :: 0 <= i < 2 && i < |Padded(bytes)| ==> CutSlots.SlotQuiet(Padded(bytes)[i])
  }

  ghost predicate AllWiped(before: Image, after: Image)
  {
    forall b :: 0 <= b < BLOCK_COUNT && Probed(b) ==> Wiped(before[b], after[b])
  }

  lemma FrontWiped(before: Image, after: Image)
    requires AllWiped(before, after)
    ensures QuietFront(before) ==> QuietFront(after)
  {
    hide CutSlots.SlotQuiet, CutSlots.DirectQuiet;
    assert Probed(0) && Probed(1);
  }

  lemma FrontInstalled(before: Image, after: Image, bytes: seq<byte>)
    requires forall b :: 0 <= b < |Padded(bytes)| && Probed(b) ==> Wiped(before[b], after[b]) || CutOf(Padded(bytes)[b], after[b])
    requires forall b :: |Padded(bytes)| <= b < BLOCK_COUNT ==> after[b] == before[b]
    ensures QuietFront(before) && PlainRom(bytes) ==> QuietFront(after)
  {
    hide CutSlots.SlotQuiet, CutSlots.DirectQuiet, Padded, CutSlots.Cut;
    if QuietFront(before) && PlainRom(bytes) {
      FrontBlockQuiet(before, after, bytes, 0);
      FrontBlockQuiet(before, after, bytes, 1);
    }
  }

  lemma FrontBlockQuiet(before: Image, after: Image, bytes: seq<byte>, b: nat)
    requires b < 2 && CutSlots.SlotQuiet(before[b]) && (b < |Padded(bytes)| ==> CutSlots.SlotQuiet(Padded(bytes)[b]))
    requires b < |Padded(bytes)| ==> Wiped(before[b], after[b]) || CutOf(Padded(bytes)[b], after[b])
    requires b >= |Padded(bytes)| ==> after[b] == before[b]
    ensures CutSlots.SlotQuiet(after[b])
  {
    hide CutSlots.SlotQuiet, CutSlots.DirectQuiet, Padded, CutSlots.Cut;
    if b < |Padded(bytes)| && !Wiped(before[b], after[b]) {
      var n: nat :| n <= BLOCK_SIZE && after[b] == CutSlots.Cut(Padded(bytes)[b], n);
      CutSlots.QuietCut(Padded(bytes)[b], n);
    }
  }

  lemma FrontIsRom(before: Image, after: Image, bytes: seq<byte>)
    requires Stored(after, 0, Padded(bytes)) && Padded(bytes) != [] && (|Padded(bytes)| == 1 ==> after[1] == before[1])
    ensures forall g: u64 :: FrontYields(after[0], after[1], g) == RomYields(bytes, before[1], g)
  {
    hide Padded, FrontYields;
    assert after[0] == Padded(bytes)[0];
    assert |Padded(bytes)| > 1 ==> after[1] == Padded(bytes)[1];
  }

  lemma FrontKept(before: Image, after: Image, target: nat)
    requires SameBut(before, after, target) && target >= DATA_END
    ensures after[0] == before[0] && after[1] == before[1] && (QuietFront(before) ==> QuietFront(after))
  {
    hide CutSlots.SlotQuiet;
  }

  lemma SameTail(before: Image, after: Image)
    requires after[DATA_END] == before[DATA_END] && after[DATA_END + 1] == before[DATA_END + 1]
    ensures NewestDirect(after) == NewestDirect(before)
  {
    hide ParseDirect;
  }

  lemma FrontErased(before: Image, after: Image)
    requires SameBut(before, after, 0) && Wiped(before[0], after[0])
    ensures QuietFront(before) ==> QuietFront(after)
  {
    hide CutSlots.SlotQuiet, CutSlots.DirectQuiet;
  }

  lemma BlankFront(image: Image, generation: u64)
    requires image[0] == BLANK_BLOCK
    ensures FrontYields(image[0], image[1], generation) <==> ParseSlot(image[1]).None?
  {
    hide ParseSlot, CutSlots.SlotQuiet, CutSlots.DirectQuiet;
    CutSlots.BlankQuiet(BLANK_BLOCK);
    CutSlots.QuietWhole(BLANK_BLOCK);
  }

  lemma FrontBlank(image: Image)
    requires image[0] == BLANK_BLOCK && image[1] == BLANK_BLOCK
    ensures QuietFront(image) && forall g: u64 :: FrontYields(image[0], image[1], g)
  {
    hide CutSlots.SlotQuiet, CutSlots.DirectQuiet, ParseSlot;
    CutSlots.BlankQuiet(BLANK_BLOCK);
    CutSlots.QuietWhole(BLANK_BLOCK);
  }

  /** Every block a listed file occupies is as it was. */
  ghost predicate FilesKept(before: Image, after: Image, es: seq<Entry>)
  {
    forall k, b :: 0 <= k < |es| && 0 <= b < BLOCK_COUNT && Volume.Occupies(es[k], b) ==> after[b] == before[b]
  }

  /** All further erases are of blocks that were not blank. */
  ghost predicate OnlyStale(before: Image, log: seq<EraseEvent>, longer: seq<EraseEvent>)
  {
    && |longer| >= |log| && longer[..|log|] == log
    && forall k :: |log| <= k < |longer| ==> longer[k].block < BLOCK_COUNT && before[longer[k].block] != BLANK_BLOCK
  }

  lemma NothingErased(before: Image, log: seq<EraseEvent>)
    ensures OnlyStale(before, log, log)
  {}

  lemma OneMoreStale(before: Image, log: seq<EraseEvent>, longer: seq<EraseEvent>, e: EraseEvent)
    requires OnlyStale(before, log, longer) && e.block < BLOCK_COUNT && before[e.block] != BLANK_BLOCK
    ensures OnlyStale(before, log, longer + [e])
  {}

  /** The end of the last extent. */
  predicate FirstUnused(es: seq<Entry>, cursor: nat)
  {
    && (forall k :: 0 <= k < |es| ==> es[k].firstBlock + es[k].blockCount <= cursor)
    && (cursor == 0 || exists k :: 0 <= k < |es| && es[k].firstBlock + es[k].blockCount == cursor)
  }

  class DirectFilesystem {
    const flash: FaultyDevice
    var entries: seq<Entry>
    var generation: u64
    var active: nat
    var slot: u32
    var nextFree: nat
    /** A commit has reached the flash and been reported failed; nothing more may be asked until the next mount. */
    var commitFailed: bool

    /** The active metadata block says what memory says, and the other one is older. */
    ghost predicate Held()
      reads this, flash
    {
      && (active == DATA_END || active == DATA_END + 1) && !commitFailed
      && var v, w := ParseDirect(flash.image[active]), ParseDirect(flash.image[Other(active)]);
      && v.Some? && v.value.entries == entries && v.value.generation == generation
      && (w.Some? ==> w.value.generation < generation)
      && slot == RomSlot(entries, v.value.slot)
    }

    lemma HeldMounts()
      requires Held()
      ensures NewestDirect(flash.image) == Some((ParseDirect(flash.image[active]).value, active)) && !Tied(flash.image)
    {
      hide ParseDirect;
    }

    lemma HeldIsPlaced()
      requires Held()
      ensures 0 < slot <= DATA_END && AllPlaced(entries, slot) && DirectCommitAccepts(entries)
    {
      hide ParseDirect, RomName, DirectCommitAccepts;
      ParsedIsPlaced(flash.image[active]);
      var recorded := ParseDirect(flash.image[active]).value.slot;
      if HasRom(entries) {
        assert Placed(entries[0], recorded, true);
        SmallerSlot(entries, recorded, slot);
      }
    }

    lemma HeldFrom(v: DirectVolume)
      requires NewestDirect(flash.image) == Some((v, active)) && entries == v.entries && generation == v.generation
      requires slot == RomSlot(entries, v.slot) && !commitFailed
      ensures !Tied(flash.image) ==> Held()
    {
      hide ParseDirect, HasRom;
    }

    /** What a commit over a held volume leaves for the next open. */
    lemma Published(was: nat, prior: DirectVolume)
      requires (was == DATA_END || was == DATA_END + 1) && active == Other(was)
      requires ParseDirect(flash.image[was]) == Some(prior) && generation == prior.generation + 1
      requires DirectCommitAccepts(entries) && flash.image[active] == DirectSuperblock(generation, slot, entries) && !commitFailed
      requires 0 < slot <= DATA_END && (HasRom(entries) ==> entries[0].blockCount == slot)
      ensures Held() <==> AllPlaced(entries, slot)
      ensures !Tied(flash.image)
      ensures OpenedAs(flash.image) == Some(InTail(DirectVolume(generation, slot, entries), active)) <==>
        AllPlaced(entries, slot) && FrontYields(flash.image[0], flash.image[1], generation)
      ensures NewestDirect(flash.image) ==
        if AllPlaced(entries, slot) then Some((DirectVolume(generation, slot, entries), active)) else Some((prior, was))
    {
      hide ParseDirect, HasRom, DirectSuperblock, DirectCommitAccepts, AllPlaced, OpenedAs, FrontYields;
      DirectRoundTrip(generation, slot, entries);
      OpensDirect(flash.image, DirectVolume(generation, slot, entries), active);
    }

    constructor (device: FaultyDevice, slotBlocks: u32)
      ensures flash == device && entries == [] && generation == 0 && active == 0 && slot == slotBlocks && nextFree == 0
      ensures !commitFailed
    {
      flash := device;
      entries, generation, active, slot, nextFree, commitFailed := [], 0, 0, slotBlocks, 0, false;
    }

    /** Writes the manifest to the metadata block that is not active. */
    method Commit() returns (ok: bool)
      modifies this`generation, this`active, this`commitFailed, flash
      ensures SameBut(old(flash.image), flash.image, Other(old(active)))
      ensures old(flash.legal) ==> flash.legal
      ensures ok ==>
        && DirectCommitAccepts(entries) && old(generation) < EditSteps.LAST_GENERATION && commitFailed == old(commitFailed)
        && generation == old(generation) + 1 && active == Other(old(active))
        && flash.image[active] == DirectSuperblock(generation, slot, entries)
      ensures !ok ==> generation == old(generation) && active == old(active)
      ensures !ok && !(DirectCommitAccepts(entries) && generation < EditSteps.LAST_GENERATION) ==>
        flash.image == old(flash.image) && commitFailed == old(commitFailed)
      ensures !ok && DirectCommitAccepts(entries) && generation < EditSteps.LAST_GENERATION ==>
        && commitFailed && !flash.faithful
        && (flash.checksumSound ==> LeftBehind(old(flash.image)[Other(active)], generation + 1, slot, entries, flash.image[Other(active)]))
      ensures flash.faithful ==> (ok <==> DirectCommitAccepts(entries) && old(generation) < EditSteps.LAST_GENERATION)
    {
      hide DirectSuperblock, DirectCommitAccepts, ParseDirect;
      if generation == EditSteps.LAST_GENERATION {
        return false;
      }
      var built, block := BuildDirect(generation + 1, slot, entries);
      if !built {
        return false;
      }
      var target := Other(active);
      ghost var cut;
      ok, cut := flash.ReplaceMetadataBlock(target, block);
      if ok {
        active, generation := target, generation + 1;
      } else {
        commitFailed := true;
        if flash.checksumSound {
          RejectedDirect(flash.image[target]);
        }
      }
    }

    /** `formatDirectBootEmpty`: an empty volume that reserves `slotBlocks` for a ROM. */
    static method FormatEmpty(device: FaultyDevice, slotBlocks: u32) returns (ok: bool)
      modifies device
      ensures ok ==> NewestDirect(device.image) == Some((DirectVolume(1, slotBlocks, []), DATA_END)) && !Tied(device.image)
      ensures ok ==> OpenedAs(device.image) == Some(InTail(DirectVolume(1, slotBlocks, []), DATA_END))
      ensures ok ==> BlankRun(device.image, 0, DATA_END) && QuietFront(device.image)
      ensures old(device.legal) ==> device.legal
      ensures device.faithful ==> (ok <==> 0 < slotBlocks <= DATA_END)
    {
      hide DirectSuperblock, DirectCommitAccepts, ParseDirect, OpenedAs, FrontYields, QuietFront;
      if slotBlocks == 0 || slotBlocks > DATA_END {
        return false;
      }
      var block := 0;
      while block < BLOCK_COUNT
        invariant 0 <= block <= BLOCK_COUNT
        invariant forall b :: 0 <= b < block ==> device.image[b] == BLANK_BLOCK
        invariant old(device.legal) ==> device.legal
      {
        var erased := device.Erase(block);
        if !erased {
          return false;
        }
        block := block + 1;
      }
      var fs := new DirectFilesystem(device, slotBlocks);
      NothingListed([], slotBlocks);
      EmptyListing();
      ok := fs.Commit();
      if ok {
        DirectRoundTrip(1, slotBlocks, []);
        BlankRejected();
        FrontBlank(device.image);
        OpensDirect(device.image, DirectVolume(1, slotBlocks, []), DATA_END);
      }
    }

    /**
      Loads the direct-boot volume, if that is what open finds; a transactional volume is for another
      object to load. A ROM that is present fixes the slot to its own length.
     */
    method Open() returns (ok: bool, layout: Layout)
      modifies this
      ensures ok ==> OpenedAs(flash.image).Some? && layout == LayoutOf(OpenedAs(flash.image).value)
      ensures flash.faithful ==> (ok <==> OpenedAs(flash.image).Some?)
      ensures ok && layout.DirectBoot? ==>
        && NewestDirect(flash.image).Some?
        && var m := NewestDirect(flash.image).value;
        && OpenedAs(flash.image) == Some(InTail(m.0, m.1))
        && entries == m.0.entries && generation == m.0.generation && active == m.1
        && slot == RomSlot(entries, m.0.slot) && !commitFailed
      ensures ok && layout.DirectBoot? && !Tied(flash.image) ==> Held()
      ensures ok && layout.DirectBoot? ==> FirstUnused(entries, nextFree)
      ensures !ok || layout.Transactional? ==>
        && entries == old(entries) && generation == old(generation) && active == old(active)
        && slot == old(slot) && nextFree == old(nextFree) && commitFailed == old(commitFailed)
    {
      hide ParseDirect, RomSlot, Held, Tied, OpenedAs, NewestDirect, FrontYields;
      layout := DirectBoot;
      var probed, found := Probe(flash);
      if !probed || found.None? {
        return false, layout;
      }
      layout := LayoutOf(found.value);
      ok := true;
      if found.value.InSlots? {
        return;
      }
      var v, at := found.value.volume, found.value.at;
      OpensDirect(flash.image, v, at);
      entries, generation, active, commitFailed := v.entries, v.generation, at, false;
      slot := RomSlot(entries, v.slot);
      ResetCursor();
      HeldFrom(v);
    }

    method ResetCursor()
      modifies this`nextFree
      ensures FirstUnused(entries, nextFree)
    {
      nextFree := 0;
      var i := 0;
      while i < |entries|
        invariant 0 <= i <= |entries| && forall k :: 0 <= k < i ==> entries[k].firstBlock + entries[k].blockCount <= nextFree
        invariant nextFree == 0 || exists k :: 0 <= k < i && entries[k].firstBlock + entries[k].blockCount == nextFree
      {
        nextFree := Max(nextFree, entries[i].firstBlock + entries[i].blockCount);
        i := i + 1;
      }
    }

    /** The file that occupies a block, or the number of entries. */
    method Occupant(block: nat) returns (k: nat)
      ensures k <= |entries| && (k < |entries| ==> Volume.Occupies(entries[k], block))
      ensures k == |entries| ==> forall i :: 0 <= i < |entries| ==> !Volume.Occupies(entries[i], block)
    {
      k := 0;
      while k < |entries| && !Volume.Occupies(entries[k], block)
        invariant 0 <= k <= |entries| && forall i :: 0 <= i < k ==> !Volume.Occupies(entries[i], block)
      {
        k := k + 1;
      }
    }

    method SlotCanGrow(count: nat) returns (free: bool)
      ensures free <==> Unoccupied(entries, slot, count)
    {
      var block: nat := slot;
      while block < count
        invariant slot <= block && (block <= count || block == slot) && Unoccupied(entries, slot, Min(block, count))
      {
        var k := Occupant(block);
        if k < |entries| {
          return false;
        }
        block := block + 1;
      }
      free := true;
    }

    /** Erases one block unless it is blank. */
    method BlankOne(block: nat) returns (ok: bool)
      requires block < DATA_END
      modifies flash
      ensures SameBut(old(flash.image), flash.image, block)
      ensures old(flash.legal) ==> flash.legal
      ensures ok ==> flash.image[block] == BLANK_BLOCK
      ensures flash.erases == old(flash.erases)
        || (flash.erases == old(flash.erases) + [EraseEvent(old(flash.image)[0], old(flash.image)[1], block)]
            && old(flash.image)[block] != BLANK_BLOCK)
      ensures ok ==> flash.refused == (old(flash.refused) && flash.erases == old(flash.erases))
      ensures flash.checksumSound && Probed(block) ==> Wiped(old(flash.image)[block], flash.image[block])
      ensures flash.faithful ==> ok
    {
      hide Wiped;
      WipedOr(flash.image, flash.image);
      var read, bytes := flash.Read(block);
      if !read {
        return false;
      }
      ok := true;
      if bytes != BLANK_BLOCK {
        ok := flash.PrepareForErase();
        if ok {
          ok := flash.Erase(block);
        }
      }
    }

    /** Erases what is not blank between the end of the slot and `count`. */
    method BlankGrowth(count: nat) returns (ok: bool)
      requires count <= DATA_END
      modifies flash
      ensures forall b :: 0 <= b < BLOCK_COUNT && !(slot <= b < count) ==> flash.image[b] == old(flash.image)[b]
      ensures old(flash.legal) ==> flash.legal
      ensures ok ==> BlankRun(flash.image, slot, Max(slot, count) - slot)
      ensures OnlyStale(old(flash.image), old(flash.erases), flash.erases)
      ensures ok && flash.erases != old(flash.erases) ==> !flash.refused
      ensures flash.checksumSound ==> AllWiped(old(flash.image), flash.image)
      ensures flash.faithful ==> ok
    {
      hide Wiped, OnlyStale;
      WipedOr(flash.image, flash.image);
      NothingErased(flash.image, flash.erases);
      var block: nat := slot;
      while block < count
        invariant slot <= block && (block <= count || block == slot)
        invariant BlankRun(flash.image, slot, block - slot)
        invariant forall b :: 0 <= b < BLOCK_COUNT && !(slot <= b < count) ==> flash.image[b] == old(flash.image)[b]
        invariant old(flash.legal) ==> flash.legal
        invariant flash.checksumSound ==> AllWiped(old(flash.image), flash.image)
        invariant forall b :: block <= b < count ==> flash.image[b] == old(flash.image)[b]
        invariant OnlyStale(old(flash.image), old(flash.erases), flash.erases)
        invariant flash.erases != old(flash.erases) ==> !flash.refused
      {
        ghost var before, log := flash.image, flash.erases;
        ok := BlankOne(block);
        if flash.checksumSound {
          StillWiped(old(flash.image), before, flash.image, block);
        }
        if flash.erases != log {
          OneMoreStale(old(flash.image), old(flash.erases), log, EraseEvent(before[0], before[1], block));
        }
        if !ok {
          return;
        }
        block := block + 1;
      }
      ok := true;
    }

    /** `resizeDirectBootSlot`: grows only over blocks no file occupies, and leaves them blank. */
    method ResizeSlot(count: nat) returns (ok: bool)
      modifies this`slot, this`nextFree, flash
      ensures forall b :: 0 <= b < BLOCK_COUNT && !(old(slot) <= b < count) ==> flash.image[b] == old(flash.image)[b]
      ensures old(flash.legal) ==> flash.legal
      ensures ok ==> slot == count && nextFree == Max(old(nextFree), count)
      ensures ok ==> 0 < count <= DATA_END && Unoccupied(entries, old(slot), count)
      ensures ok ==> BlankRun(flash.image, old(slot), Max(old(slot), count) - old(slot))
      ensures !ok ==> slot == old(slot) && nextFree == old(nextFree)
      ensures !(0 < count <= DATA_END && Unoccupied(entries, old(slot), count)) ==> !ok && flash.image == old(flash.image)
      ensures flash.checksumSound ==> AllWiped(old(flash.image), flash.image)
      ensures flash.faithful ==> (ok <==> 0 < count <= DATA_END && Unoccupied(entries, old(slot), count))
    {
      hide Unoccupied, BlankRun, Wiped;
      WipedOr(flash.image, flash.image);
      if count == 0 || count > DATA_END {
        return false;
      }
      ok := SlotCanGrow(count);
      if !ok {
        return;
      }
      ok := BlankGrowth(count);
      if ok {
        slot, nextFree := count, Max(nextFree, count);
      }
    }

    /** `findStaleDirectBootRomBlocks`: block zero and every block that is not blank. */
    method FindStale(count: nat) returns (ok: bool, stale: seq<nat>)
      requires count <= DATA_END
      ensures ok ==> Prepared(flash.image, 0, count, stale) && (count > 0 ==> 0 in stale)
      ensures forall b :: b in stale ==> b < count
      ensures ok ==> forall b: nat :: b in stale <==> b < count && (b == 0 || flash.image[b] != BLANK_BLOCK)
      ensures flash.faithful ==> ok
    {
      stale := [];
      var block := 0;
      while block < count
        invariant 0 <= block <= count && Prepared(flash.image, 0, block, stale)
        invariant block > 0 ==> 0 in stale
        invariant forall b :: b in stale ==> b < block
        invariant forall b: nat :: b in stale <==> b < block && (b == 0 || flash.image[b] != BLANK_BLOCK)
      {
        var read, bytes := flash.Read(block);
        if !read {
          return false, stale;
        }
        if block == 0 || bytes != BLANK_BLOCK {
          stale := stale + [block];
        }
        block := block + 1;
      }
      ok := true;
    }

    /** Prepares the slot and writes the ROM into it, without publishing anything. */
    method InstallRom(bytes: seq<byte>) returns (ok: bool)
      requires slot <= DATA_END
      modifies this`slot, this`nextFree, flash
      ensures forall b :: DataBlocks(|bytes|) <= b < BLOCK_COUNT ==> flash.image[b] == old(flash.image)[b]
      ensures old(flash.legal) ==> flash.legal
      ensures ok ==> RoomForRom(entries, old(slot), bytes) && slot == DataBlocks(|bytes|) && Stored(flash.image, 0, Padded(bytes))
      ensures !ok ==> slot == old(slot) && nextFree == old(nextFree)
      ensures !RoomForRom(entries, old(slot), bytes) ==> flash.image == old(flash.image)
      ensures flash.checksumSound && QuietFront(old(flash.image)) && PlainRom(bytes) ==> QuietFront(flash.image)
      ensures flash.faithful ==> (ok <==> RoomForRom(entries, old(slot), bytes))
    {
      hide DataBlocks, Unoccupied, Prepared, QuietFront, PlainRom, Wiped, CutOf, Padded;
      var oldSlot, oldNext := slot, nextFree;
      var blocks := DataBlocks(|bytes|);
      ok := ResizeSlot(blocks);
      if flash.checksumSound {
        FrontWiped(old(flash.image), flash.image);
      }
      if !ok {
        return;
      }
      ghost var before := flash.image;
      var found, stale := FindStale(blocks);
      if !found {
        slot, nextFree := oldSlot, oldNext;
        return false;
      }
      var completed;
      ok, completed := flash.ReplaceBlocks(0, Padded(bytes), stale);
      if flash.checksumSound {
        FrontInstalled(before, flash.image, bytes);
      }
      if !ok || completed != blocks {
        slot, nextFree := oldSlot, oldNext;
        ok := false;
      }
    }

    /**
      `putFile` while the volume awaits its boot ROM. No program asks for a 0-to-1 transition and no
      listed file is touched. The next open finds the new volume if and only if no empty file starts
      below the end of the ROM and what is then in the first two blocks, which `open` looks at first, is not
      a transactional superblock that goes before it.
     */
    method PutRom(path: Name, bytes: seq<byte>, time: u64) returns (ok: bool)
      requires Held() && !HasRom(entries)
      modifies this, flash
      ensures old(flash.legal) ==> flash.legal
      ensures FilesKept(old(flash.image), flash.image, old(entries))
      ensures ok ==> RomFits(old(entries), old(slot), path, bytes, time)
      ensures ok ==> entries == [RomEntry(path, bytes, time)] + old(entries) && nextFree == slot == DataBlocks(|bytes|)
      ensures ok ==> old(generation) < EditSteps.LAST_GENERATION && generation == old(generation) + 1 && active == Other(old(active))
      ensures ok ==> !Tied(flash.image)
      ensures ok ==> Stored(flash.image, 0, Padded(bytes))
      ensures ok ==> (Held() <==> EmptyFilesAbove(old(entries), DataBlocks(|bytes|)))
      ensures ok ==> RomOpens(old(flash.image), flash.image, bytes, old(entries), DirectVolume(generation, slot, entries), active)
      ensures flash.checksumSound && QuietFront(old(flash.image)) && PlainRom(bytes) ==> QuietFront(flash.image)
      ensures !ok ==> entries == old(entries) && slot == old(slot) && nextFree == old(nextFree) && active == old(active)
      ensures !ok ==> flash.image[active] == old(flash.image)[active]
      ensures !ok && !commitFailed ==> Held() && generation == old(generation)
      ensures commitFailed ==> !ok && !flash.faithful
      ensures commitFailed && flash.checksumSound ==>
        || NewestDirect(flash.image) == old(NewestDirect(flash.image))
        || (&& RomFits(old(entries), old(slot), path, bytes, time) && old(generation) < EditSteps.LAST_GENERATION
            && EmptyFilesAbove(old(entries), DataBlocks(|bytes|)) && Stored(flash.image, 0, Padded(bytes))
            && NewestDirect(flash.image)
               == Some((DirectVolume(old(generation) + 1, DataBlocks(|bytes|), [RomEntry(path, bytes, time)] + old(entries)), Other(old(active)))))
      ensures commitFailed && flash.checksumSound ==> !Tied(flash.image)
      ensures flash.faithful ==>
        (ok <==> RomFits(old(entries), old(slot), path, bytes, time) && old(generation) < EditSteps.LAST_GENERATION)
    {
      hide ParseDirect, RomName, BootRom, DataBlocks, Unoccupied, DirectCommitAccepts, DirectSuperblock, AllPlaced, RomEntry;
      hide EmptyFilesAbove, FilesKept, HasRom, Held, NewestDirect, RoomForRom, OpenedAs, FrontYields, QuietFront, PlainRom, RomYields, Padded, RomOpens, Tied,
           LeftBehind, RomSlot, Wiped, CutOf, Probed, CutSlots.SlotQuiet, Volume.Occupies;
      HeldIsPlaced();
      HeldParts();
      HeldMounts();
      ghost var before, was, prior := flash.image, active, ParseDirect(flash.image[active]).value;
      var oldEntries, oldSlot, oldNext := entries, slot, nextFree;
      SameFilesKept(before, entries);
      if !RomName(path) || bytes == [] {
        return false;
      }
      ok := InstallRom(bytes);
      RoomKeepsFiles(before, flash.image, oldEntries, oldSlot, bytes, Other(was));
      if !ok {
        StillHeld(before, prior);
        return;
      }
      RomInFront(oldEntries, oldSlot, path, bytes, time);
      ghost var installed := flash.image;
      ok := ListRom(path, bytes, time, prior);
      FrontKept(installed, flash.image, Other(was));
      RoomKeepsFiles(before, flash.image, oldEntries, oldSlot, bytes, Other(was));
      SameTail(before, installed);
      if !ok {
        slot, nextFree := oldSlot, oldNext;
        if !commitFailed {
          StillHeld(before, prior);
        }
        return;
      }
      FrontIsRom(before, flash.image, bytes);
      RomOpensIs(before, flash.image, bytes, oldEntries, DirectVolume(generation, slot, entries), active);
    }

    /** The end of `PutRom`: the ROM is on the flash and goes in front of the listing. */
    method ListRom(path: Name, bytes: seq<byte>, time: u64, ghost prior: DirectVolume) returns (ok: bool)
      requires (active == DATA_END || active == DATA_END + 1) && !commitFailed
      requires ParseDirect(flash.image[active]) == Some(prior) && entries == prior.entries && generation == prior.generation
      requires var w := ParseDirect(flash.image[Other(active)]); w.Some? ==> w.value.generation < generation
      requires RomName(path) && bytes != [] && 0 < slot <= DATA_END && slot == DataBlocks(|bytes|)
      requires AllPlaced([RomEntry(path, bytes, time)] + entries, slot) <==> EmptyFilesAbove(entries, slot)
      modifies this`entries, this`generation, this`active, this`nextFree, this`commitFailed, flash
      ensures SameBut(old(flash.image), flash.image, Other(old(active))) && (old(flash.legal) ==> flash.legal)
      ensures ok ==>
        && entries == [RomEntry(path, bytes, time)] + old(entries) && DirectCommitAccepts(entries) && !commitFailed && nextFree == slot
        && old(generation) < EditSteps.LAST_GENERATION && generation == old(generation) + 1 && active == Other(old(active))
        && !Tied(flash.image) && (Held() <==> EmptyFilesAbove(old(entries), slot))
      ensures ok && EmptyFilesAbove(old(entries), slot) ==>
        NewestDirect(flash.image) == Some((DirectVolume(generation, slot, entries), active))
      ensures ok && !EmptyFilesAbove(old(entries), slot) ==>
        NewestDirect(flash.image) == old(NewestDirect(flash.image)) == Some((prior, old(active)))
      ensures !ok ==> entries == old(entries) && generation == old(generation) && active == old(active)
      ensures !ok && !commitFailed ==> flash.image == old(flash.image)
      ensures commitFailed ==>
        && !ok && !flash.faithful && DirectCommitAccepts([RomEntry(path, bytes, time)] + old(entries))
        && old(generation) < EditSteps.LAST_GENERATION
      ensures commitFailed && flash.checksumSound ==>
        && !Tied(flash.image)
        && (|| NewestDirect(flash.image) == old(NewestDirect(flash.image))
            || (EmptyFilesAbove(old(entries), slot)
                && NewestDirect(flash.image)
                   == Some((DirectVolume(old(generation) + 1, slot, [RomEntry(path, bytes, time)] + old(entries)), Other(old(active))))))
      ensures flash.faithful ==>
        (ok <==> DirectCommitAccepts([RomEntry(path, bytes, time)] + old(entries)) && old(generation) < EditSteps.LAST_GENERATION)
    {
      hide *;
      ghost var before, was := flash.image, active;
      OldMounts(was, prior);
      var listed := entries;
      entries, nextFree := [RomEntry(path, bytes, time)] + entries, slot;
      RomFirst(entries, path, bytes, time);
      ok := Commit();
      ActiveKept(before, was);
      if !ok {
        if commitFailed && flash.checksumSound {
          LeftBehindMounts(before, flash.image, was, prior, slot, entries);
        }
        entries := listed;
        return;
      }
      Published(was, prior);
    }

    /** Before a commit the active metadata block speaks for the flash. */
    lemma OldMounts(was: nat, prior: DirectVolume)
      requires (was == DATA_END || was == DATA_END + 1) && ParseDirect(flash.image[was]) == Some(prior)
      requires var w := ParseDirect(flash.image[Other(was)]); w.Some? ==> w.value.generation < prior.generation
      ensures NewestDirect(flash.image) == Some((prior, was))
    {
      hide ParseDirect;
    }

    lemma ActiveKept(before: Image, was: nat)
      requires SameBut(before, flash.image, Other(was)) && (was == DATA_END || was == DATA_END + 1)
      ensures flash.image[was] == before[was]
    {}

    /** The metadata is as it was, and so is memory. */
    lemma StillHeld(before: Image, prior: DirectVolume)
      requires (active == DATA_END || active == DATA_END + 1) && !commitFailed
      requires flash.image[active] == before[active] && flash.image[Other(active)] == before[Other(active)]
      requires ParseDirect(before[active]) == Some(prior) && entries == prior.entries && generation == prior.generation
      requires ParseDirect(before[Other(active)]).Some? ==> ParseDirect(before[Other(active)]).value.generation < generation
      requires slot == RomSlot(entries, prior.slot)
      ensures Held() && NewestDirect(flash.image) == NewestDirect(before)
    {
      hide ParseDirect, RomSlot;
    }

    lemma HeldParts()
      requires Held()
      ensures (active == DATA_END || active == DATA_END + 1) && ParseDirect(flash.image[active]).Some?
      ensures ParseDirect(flash.image[active]).value.generation == generation
      ensures ParseDirect(flash.image[active]).value.entries == entries
      ensures var w := ParseDirect(flash.image[Other(active)]); w.Some? ==> w.value.generation < generation
      ensures slot == RomSlot(entries, ParseDirect(flash.image[active]).value.slot) && !commitFailed
    {
      hide ParseDirect, HasRom;
    }

    /** `removeFile` on the boot ROM: unlisted first, then its first block is erased. */
    method RemoveRom() returns (ok: bool)
      requires Held() && HasRom(entries)
      modifies this, flash
      ensures old(flash.legal) ==> flash.legal
      ensures FilesKept(old(flash.image), flash.image, old(entries)[1..])
      ensures ok ==> Held() && entries == old(entries)[1..] && flash.image[0] == BLANK_BLOCK && nextFree == slot && !flash.refused
      ensures ok ==> NewestDirect(flash.image) == Some((DirectVolume(generation, slot, entries), active))
      ensures ok ==>
        (OpenedAs(flash.image) == Some(InTail(DirectVolume(generation, slot, entries), active)) <==> ParseSlot(old(flash.image)[1]).None?)
      ensures flash.checksumSound && QuietFront(old(flash.image)) ==> QuietFront(flash.image)
      ensures entries == old(entries)[1..] ==>
        old(generation) < EditSteps.LAST_GENERATION && generation == old(generation) + 1 && active == Other(old(active)) && slot == old(slot)
      ensures !ok && !commitFailed ==> Held()
      ensures !ok && !commitFailed && entries == old(entries) ==>
        flash.image == old(flash.image) && generation == old(generation) && active == old(active) && slot == old(slot)
      ensures !ok ==> entries == old(entries) || (entries == old(entries)[1..] && !commitFailed)
      ensures commitFailed ==> !ok && !flash.faithful
      ensures commitFailed && flash.checksumSound ==> !Tied(flash.image) && FilesKept(old(flash.image), flash.image, old(entries))
      ensures commitFailed && flash.checksumSound ==>
        || NewestDirect(flash.image) == old(NewestDirect(flash.image))
        || (old(generation) < EditSteps.LAST_GENERATION
            && NewestDirect(flash.image) == Some((DirectVolume(old(generation) + 1, old(slot), old(entries)[1..]), Other(old(active)))))
      ensures flash.faithful ==> (ok <==> old(generation) < EditSteps.LAST_GENERATION)
    {
      hide ParseDirect, DirectCommitAccepts, DirectSuperblock, AllPlaced, HasRom, Held, NewestDirect, FilesKept, LeftBehind, Tied, RomSlot, OpenedAs, FrontYields, QuietFront, Wiped, ParseSlot;
      HeldIsPlaced();
      HeldParts();
      ghost var before, was, prior := flash.image, active, ParseDirect(flash.image[active]).value;
      WithoutRom(entries, slot);
      RestDiffers(entries);
      var listed := entries;
      entries := entries[1..];
      ok := Commit();
      FrontKept(before, flash.image, Other(was));
      ghost var committed := flash.image;
      RestKept(before, flash.image, entries, slot, Other(was));
      if !ok {
        MetadataOnly(before, flash.image, listed, slot, Other(was));
        if commitFailed && flash.checksumSound {
          LeftBehindMounts(before, flash.image, was, prior, slot, entries);
        }
        entries := listed;
        if !commitFailed {
          StillHeld(before, prior);
        }
        return;
      }
      Published(was, prior);
      var prepared := flash.PrepareForErase();
      if !prepared {
        Published(was, prior);
        return false;
      }
      ok := flash.Erase(0);
      if flash.checksumSound {
        FrontErased(committed, flash.image);
      }
      RestKept(before, flash.image, entries, slot, Other(was));
      if ok {
        nextFree := slot;
        BlankFront(flash.image, generation);
      }
      Published(was, prior);
    }
  }

  lemma RestDiffers(es: seq<Entry>)
    requires HasRom(es)
    ensures es[1..] != es
  {
    assert |es[1..]| < |es|;
  }

  /** No listed file lies in the metadata. */
  lemma MetadataOnly(before: Image, after: Image, es: seq<Entry>, slot: nat, target: nat)
    requires AllPlaced(es, slot) && target >= DATA_END
    requires forall b :: 0 <= b < BLOCK_COUNT && b != target ==> after[b] == before[b]
    ensures FilesKept(before, after, es)
  {}

  /** Without a ROM every file lies at or above the end of the slot. */
  lemma RestKept(before: Image, after: Image, es: seq<Entry>, slot: nat, target: nat)
    requires AllPlaced(es, slot) && !HasRom(es) && slot > 0 && target >= DATA_END
    requires forall b :: 0 < b < BLOCK_COUNT && b != target ==> after[b] == before[b]
    ensures FilesKept(before, after, es)
  {}

  lemma RoomKeepsFiles(before: Image, after: Image, es: seq<Entry>, slot: nat, bytes: seq<byte>, target: nat)
    requires AllPlaced(es, slot) && !HasRom(es) && target >= DATA_END
    requires forall b :: DataBlocks(|bytes|) <= b < BLOCK_COUNT && b != target ==> after[b] == before[b]
    requires !RoomForRom(es, slot, bytes) ==> after == before
    ensures FilesKept(before, after, es)
    ensures RoomForRom(es, slot, bytes) ==> 0 < DataBlocks(|bytes|) <= DATA_END && Unoccupied(es, slot, DataBlocks(|bytes|))
  {}

  lemma RomFirst(es: seq<Entry>, path: Name, bytes: seq<byte>, time: u64)
    requires RomName(path) && bytes != [] && DataBlocks(|bytes|) <= DATA_END && es != [] && es[0] == RomEntry(path, bytes, time)
    ensures HasRom(es) && es[0].blockCount == DataBlocks(|bytes|)
  {}

  /** What installing a ROM needs of the volume. */
  predicate RoomForRom(es: seq<Entry>, slot: nat, bytes: seq<byte>)
  {
    0 < DataBlocks(|bytes|) <= DATA_END && Unoccupied(es, slot, DataBlocks(|bytes|))
  }

  predicate RomFits(es: seq<Entry>, slot: nat, path: Name, bytes: seq<byte>, time: u64)
  {
    && RomName(path) && bytes != [] && RoomForRom(es, slot, bytes)
    && DirectCommitAccepts([RomEntry(path, bytes, time)] + es)
  }

  lemma SameFilesKept(image: Image, es: seq<Entry>)
    ensures FilesKept(image, image, es)
  {}

  lemma EmptyListing()
    ensures DirectCommitAccepts([])
  {}

  lemma BlankRejected()
    ensures ParseDirect(BLANK_BLOCK) == None
  {}
}
