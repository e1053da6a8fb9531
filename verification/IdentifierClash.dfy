/**
  A volume on which a batch that every check admits is refused: two packed blocks hold a record with
  the same identifier, and the batch rewrites both. A batch that rewrites one of them passes.
 */
module IdentifierClash {
  import opened Bytes
  import opened Paths
  import opened Manifest
  import opened Device
  import opened Opening
  import opened Volume
  import opened TreeSpec
  import opened PackedBlock
  import opened Batches
  import opened Verdicts
  import Placement
  import Planning
  import Crc32
  import CutSlots
  import PackedBlockProofs
  import Repacking
  import EditSteps

  /** Records of one block have different identifiers, so a clash is always between two blocks. */
  lemma ClashAcrossBlocks(image: Image, es: seq<Entry>, files: seq<FileWrite>, repack: set<nat>)
    requires Publishable(image, es)
    ensures Clash(es, files, repack) <==>
      exists i: nat, j: nat :: i < j && Survives(es, i, files, repack) && Survives(es, j, files, repack)
        && SameRecordId(es, i, j) && es[i].firstBlock != es[j].firstBlock
  {
    hide PackedBytes, Acceptable, FileBytes;
    if Clash(es, files, repack) {
      var i: nat, j: nat :| i < j && Survives(es, i, files, repack) && Survives(es, j, files, repack) && SameRecordId(es, i, j);
      if es[i].firstBlock == es[j].firstBlock {
        SameBlockDiffers(image, es, i, j);
      }
      assert i < j && SameRecordId(es, i, j) && Survives(es, i, files, repack) && Survives(es, j, files, repack);
    }
  }

  lemma SameBlockDiffers(image: Image, es: seq<Entry>, i: nat, j: nat)
    requires Publishable(image, es) && i < j < |es| && es[i].storage.Packed? && es[j].storage.Packed?
    requires es[i].firstBlock == es[j].firstBlock
    ensures es[i].packedRecordId != es[j].packedRecordId
  {
    hide DecodeResult, Resolve, ValidPath, Encoded, CanEncode, Locations;
    assert Compatible(es[i], es[j]);
    assert FileBytes(image, es[i]).Some? && FileBytes(image, es[j]).Some?;
    var block := image[es[i].firstBlock];
    DecodedSameLength(block);
    PackedBlockProofs.AcceptedIsEncodable(block);
    var d := DecodeResult(block).value;
    var m := Repacking.ResolvedIndex(es[i], d.records, d.locations, 0);
    var n := Repacking.ResolvedIndex(es[j], d.records, d.locations, 0);
    assert m != n;
    assert DistinctIds(d.records);
  }

  // ----- Two blocks with the same records -----

  const PAIR: seq<Record> := [Record(1, 0, [0x61]), Record(2, 0, [0x62])]

  lemma PairEncodable()
    ensures Encodable(1, PAIR) && PayloadSize(PAIR) == 80
  {
    assert PAIR[..1] == [PAIR[0]] && PAIR[..1][..0] == [];
    assert PayloadSize([]) == 0;
    assert PayloadSize(PAIR[..1]) == 40;
  }

  function PairBlock(): Block
  {
    PairEncodable();
    PackedBlockProofs.EncodedLayout(1, PAIR);
    Encoded(1, PAIR)
  }

  function Twin(letter: byte, block: u32, which: nat): Entry
    requires which < 2
  {
    var r := PAIR[which];
    Entry([letter], |r.bytes|, r.modifiedTime, Crc32.Crc(r.bytes), block, 1, false, Packed, 1, r.id,
          if which == 0 then HEADER_SIZE else HEADER_SIZE + 40)
  }

  /** Files a and b in block 2, c and d in block 3. */
  function Twins(): (es: seq<Entry>)
    ensures |es| == 4
  {
    [Twin(0x61, 2, 0), Twin(0x62, 2, 1), Twin(0x63, 3, 0), Twin(0x64, 3, 1)]
  }

  /** The superblock that lists them, in slot 1. */
  function TwinSlot(): Block
  {
    TwinsCommit();
    SuperblockBytes(1, Twins())
  }

  lemma TwinCommits(letter: byte, block: u32, which: nat)
    requires which < 2
    ensures CommitAcceptsEntry(Twin(letter, block, which))
  {}

  lemma TwinsCommit()
    ensures CommitAccepts(Twins()) && forall k :: 0 <= k < 4 ==> CommitAcceptsEntry(Twins()[k])
  {
    hide CommitAcceptsEntry, EntriesBytes, Twin, DistinctNames, AllCompatible;
    TwinCommits(0x61, 2, 0);
    TwinCommits(0x62, 2, 1);
    TwinCommits(0x63, 3, 0);
    TwinCommits(0x64, 3, 1);
    TwinsApart();
    TwinsSmall();
    EditSteps.ManifestSize(Twins());
  }

  function TwinImage(): Image
  {
    BlockImage(PairBlock(), TwinSlot())
  }

  function BlockImage(block: Block, slot: Block): (image: Image)
    ensures image[0] == BLANK_BLOCK && image[1] == slot && image[2] == block && image[3] == block
  {
    var image := seq(BLOCK_COUNT, b requires 0 <= b < BLOCK_COUNT =>
      if b == 1 then slot else if b == 2 || b == 3 then block else BLANK_BLOCK);
    assert |image| == BLOCK_COUNT;
    image
  }

  lemma TwinReads(letter: byte, block: u32, which: nat)
    requires which < 2 && (block == 2 || block == 3)
    requires letter != SLASH && letter != BACKSLASH && letter != DOT
    ensures Acceptable(Twin(letter, block, which)) && FileBytes(TwinImage(), Twin(letter, block, which)).Some?
  {
    hide Encoded, PackedBytes, CanEncode, DistinctIds, BlockImage, TwinSlot;
    LetterValid(letter);
    PairEncodable();
    PairPlaces();
    Placement.PackedReadsBack(PairBlock(), PAIR, 1, which, Twin(letter, block, which));
  }

  lemma PairPlaces()
    ensures HEADER_SIZE + PayloadSize(PAIR) <= BLOCK_SIZE
    ensures Locations(PAIR, HEADER_SIZE)[0].offset == HEADER_SIZE && Locations(PAIR, HEADER_SIZE)[1].offset == HEADER_SIZE + 40
  {
    PairEncodable();
    assert PAIR[..1] == [PAIR[0]] && PAIR[..1][..0] == [];
    assert PayloadSize(PAIR[..1]) == 40;
    assert Locations(PAIR[..1], HEADER_SIZE) == [Location(1, HEADER_SIZE)];
  }

  lemma LetterValid(letter: byte)
    requires letter != SLASH && letter != BACKSLASH && letter != DOT
    ensures ValidPath([letter]) && AtRoot([letter])
  {
    assert FindSlash([letter], 0) == 1;
  }

  lemma TwinFields()
    ensures
      var es := Twins();
      && es[0].name == [0x61] && es[1].name == [0x62] && es[2].name == [0x63] && es[3].name == [0x64]
      && es[0].firstBlock == 2 && es[1].firstBlock == 2 && es[2].firstBlock == 3 && es[3].firstBlock == 3
      && es[0].packedRecordId == 1 && es[1].packedRecordId == 2 && es[2].packedRecordId == 1 && es[3].packedRecordId == 2
      && es[0].packedRecordOffset == es[2].packedRecordOffset == 64 && es[1].packedRecordOffset == es[3].packedRecordOffset == 104
      && forall k :: 0 <= k < 4 ==>
        && es[k].storage == Packed && !es[k].directory && es[k].packedGeneration == 1 && es[k].blockCount == 1 && |es[k].name| == 1
  {}

  lemma TwinVolume()
    ensures VolumeOk(TwinImage(), Twins())
  {
    hide *;
    TwinsGood();
    TwinsApart();
    TwinsCommit();
    VolumeIs(TwinImage(), Twins());
  }

  lemma VolumeIs(image: Image, es: seq<Entry>)
    requires AllAcceptable(es) && Readable(image, es) && AllCompatible(es) && CommitAccepts(es)
    ensures VolumeOk(image, es)
  {
    hide AllAcceptable, Readable, AllCompatible, CommitAccepts;
  }

  /** A filesystem that opens this image has the twins before it. */
  lemma TwinsOpen()
    ensures AllAcceptable(Twins()) && RecoversTo(TwinImage(), TreeOf(TwinImage(), Twins()))
    ensures NewestSlot(TwinImage()) == Some(Mounted(Twins(), 1, 1))
  {
    hide *;
    TwinVolume();
    TwinsGood();
    TwinsCommit();
    TwinSlots();
    SlotOneOpens(TwinImage(), Twins(), 1);
  }

  lemma TwinSlots()
    ensures CommitAccepts(Twins()) && TwinImage()[0] == BLANK_BLOCK && TwinImage()[1] == SuperblockBytes(1, Twins())
  {
    hide CommitAccepts, SuperblockBytes, Twins, PairBlock;
    TwinsCommit();
  }

  lemma SlotOneOpens(image: Image, es: seq<Entry>, generation: u64)
    requires VolumeOk(image, es) && AllAcceptable(es) && CommitAccepts(es)
    requires image[0] == BLANK_BLOCK && image[1] == SuperblockBytes(generation, es)
    ensures RecoversTo(image, TreeOf(image, es)) && NewestSlot(image) == Some(Mounted(es, generation, 1))
  {
    hide VolumeOk, AllAcceptable, CommitAccepts, SuperblockBytes, ParseSlot, TreeOf, NewestSlot, OpenedAs, CutSlots.SlotQuiet, CutSlots.DirectQuiet;
    WrittenSlot(generation, es);
    CutSlots.BlankQuiet(BLANK_BLOCK);
    CutSlots.QuietWhole(BLANK_BLOCK);
    assert Durable(image, es, generation, 1) by {
      assert image[1 - 1] == image[0];
    }
    DurableMounts(image, es, generation, 1);
  }

  lemma TwinsGood()
    ensures AllAcceptable(Twins()) && Readable(TwinImage(), Twins())
  {
    hide Acceptable, FileBytes, CommitAcceptsEntry, TwinImage, Twin;
    TwinReads(0x61, 2, 0);
    TwinReads(0x62, 2, 1);
    TwinReads(0x63, 3, 0);
    TwinReads(0x64, 3, 1);
  }

  lemma TwinsApart()
    ensures AllCompatible(Twins()) && DistinctNames(Twins())
  {
    hide Twins;
    TwinFields();
  }

  lemma TwinsSmall()
    ensures |EntriesBytes(Twins())| == 4 * (ENTRY_SIZE + 1) && 4 + 4 * (ENTRY_SIZE + 1) <= BLOCK_SIZE - SUPERBLOCK_HEADER
  {
    hide EntriesBytes, EntryBytes, Twins;
    TwinFields();
    EntriesSnoc(Twins(), 0);
    EntriesSnoc(Twins(), 1);
    EntriesSnoc(Twins(), 2);
    EntriesSnoc(Twins(), 3);
    Planning.NoEntryBytes(Twins());
    assert Twins()[..4] == Twins();
  }

  lemma TwinAdmitted(letter: byte)
    requires letter == 0x62 || letter == 0x64
    ensures AllAcceptable(Twins()) && Admissible(TreeOf(TwinImage(), Twins()), FileWrite([letter], [], 0))
    ensures Find(Twins(), [letter]) < 4
  {
    hide Admissible, TreeOf, Acceptable, ValidPath, TwinImage, Twins, AtRoot;
    TwinFields();
    TwinsGood();
    LetterValid(letter);
    FindMiss(Twins(), [letter]);
    assert Twins()[1].name in Names(Twins()) && Twins()[3].name in Names(Twins());
    Planning.AdmissibleIs(TwinImage(), Twins(), FileWrite([letter], [], 0));
  }

  /** Empties b and d. */
  function Emptying(): (files: seq<FileWrite>)
    ensures |files| == 2
  {
    [FileWrite([0x62], [], 0), FileWrite([0x64], [], 0)]
  }

  lemma EmptyingAccepted()
    ensures AllAcceptable(Twins()) && AcceptedSoFar(TreeOf(TwinImage(), Twins()), Twins(), Emptying(), 2)
  {
    hide TreeOf, Admissible, Twins, TwinImage, AllAcceptable, EntriesBytes;
    TwinAdmitted(0x62);
    TwinAdmitted(0x64);
    TwinsSmall();
    var files := Emptying();
    assert files[..1] == [files[0]] && files[..2] == files && files[..0] == [];
    GrowthSnoc(Twins(), files, 0);
    GrowthSnoc(Twins(), files, 1);
    Planning.NoFiles(files);
  }

  lemma EmptyingRewrites()
    ensures
      var es, files := Twins(), Emptying();
      && Rewrites(es, files, {2, 3}) && Rewrites(es, files[..1], {2}) && Selected(files, true) == []
      && FilePaths(files) == {[0x62], [0x64]} && FilePaths(files[..1]) == {[0x62]}
  {
    hide Twins;
    TwinFields();
    var es, files := Twins(), Emptying();
    SelectedSnoc(files, 0, true);
    SelectedSnoc(files, 1, true);
    Planning.NoFiles(files);
    FilePathsSnoc(files, 0);
    FilePathsSnoc(files, 1);
    assert files[..2] == files && files[..0 + 1] == files[..1] && files[..1 + 1] == files;
    assert OverwrittenBlocks(es, {[0x62], [0x64]}) == {2, 3} by {
      assert es[1].firstBlock == 2 && es[3].firstBlock == 3;
    }
    assert OverwrittenBlocks(es, {[0x62]}) == {2} by {
      assert es[1].firstBlock == 2;
    }
  }

  /** Emptying b and d is admitted and refused: a and c would move under one identifier. Emptying b alone is not refused. */
  lemma AdmittedAndRefused()
    ensures AllAcceptable(Twins()) && RecoversTo(TwinImage(), TreeOf(TwinImage(), Twins()))
    ensures NewestSlot(TwinImage()) == Some(Mounted(Twins(), 1, 1))
    ensures
      var image, es, files := TwinImage(), Twins(), Emptying();
      && VolumeOk(image, es) && AcceptedSoFar(TreeOf(image, es), es, files, 2)
      && Rewrites(es, files, {2, 3}) && Obstacle(image, es, files, {2, 3}) == Some(Planning.IdentifiersClash)
      && Rewrites(es, files[..1], {2}) && !Clash(es, files[..1], {2})
  {
    hide Twins, TwinImage, Rewrites, AcceptedSoFar, VolumeOk, Emptying, TreeOf, Needed, AllAcceptable, CommitAccepts, Readable, AllCompatible, Clash,
         FilePaths, Selected, NextId, RecoversTo, NewestSlot;
    TwinVolume();
    TwinsOpen();
    EmptyingAccepted();
    EmptyingRewrites();
    TwinFields();
    TwinsClash();
  }

  lemma TwinsClash()
    ensures Clash(Twins(), Emptying(), {2, 3}) && !Clash(Twins(), Emptying()[..1], {2})
  {
    hide Twins, Emptying, FilePaths, Rewrites, Selected;
    EmptyingRewrites();
    TwinFields();
    var es, files := Twins(), Emptying();
    assert Survives(es, 0, files, {2, 3}) && Survives(es, 2, files, {2, 3}) && SameRecordId(es, 0, 2);
    forall k: nat | Survives(es, k, files[..1], {2}) ensures k == 0 {
    }
  }
}
