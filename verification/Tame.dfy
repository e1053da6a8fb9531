/**
  Which writes can leave something in the last two blocks that `open` takes for a direct-boot
  superblock: packed blocks and relocated files never do, whole-block files of a batch only if one of
  their blocks looks like one.
 */
module Tame {
  import opened Bytes
  import opened Paths
  import opened Manifest
  import opened Device
  import opened CutSlots
  import opened Volume
  import opened TreeSpec
  import opened Placement
  import DirectManifest
  import Opening
  import Batches
  import BinPacking
  import Crc32
  import PackedBlock
  import PackedBlockProofs

  /** No block of the stored contents, and no prefix of one, looks like a direct-boot superblock. */
  predicate TameBytes(bytes: seq<byte>)
  {
    forall i :: 0 <= i < |Padded(bytes)| ==> DirectQuiet(Padded(bytes)[i])
  }

  /** Small files share packed blocks, so only the others matter. */
  predicate TameFiles(files: seq<FileWrite>)
  {
    forall k :: 0 <= k < |files| && !PackedBlock.ShouldPack(|files[k].bytes|) ==> TameBytes(files[k].bytes)
  }

  ghost predicate QuietExtent(extent: seq<Block>)
  {
    forall i :: 0 <= i < |extent| ==> DirectQuiet(extent[i])
  }

  lemma QuietIsSafe(extent: seq<Block>, first: nat)
    requires QuietExtent(extent)
    ensures Opening.TailSafe(first, extent)
  {}

  /** A packed block begins with its own magic number. */
  lemma PackedIsQuiet(generation: u64, records: seq<PackedBlock.Record>)
    requires PackedBlock.Encodable(generation, records)
    ensures |PackedBlock.Encoded(generation, records)| == BLOCK_SIZE && DirectQuiet(PackedBlock.Encoded(generation, records))
  {
    hide PackedBlock.Encoded, PackedBlock.Payload, DirectQuiet, PackedBlock.Encodable;
    PackedBlockProofs.EncodedLayout(generation, records);
    var b := PackedBlock.Encoded(generation, records);
    var crc := Crc32.Crc(PackedBlock.Payload(records));
    SealedMagic(generation, |records|, PackedBlock.Used(records), crc);
    assert b[..8] == b[..PackedBlock.HEADER_SIZE][..8];
    assert PackedBlock.MAGIC[2] != DirectManifest.DIRECT_MAGIC[2];
    OtherMagic(b);
  }

  lemma SealedMagic(generation: u64, count: nat, used: nat, payloadCrc: bv32)
    ensures PackedBlock.SealedHeader(generation, count, used, payloadCrc)[..8] == PackedBlock.MAGIC
  {}

  lemma QuietBins(pending: seq<Pending>, bins: seq<seq<nat>>, generation: u64)
    requires Planned(pending, bins, generation)
    ensures QuietExtent(BinsExtent(pending, bins, generation))
  {
    hide DirectQuiet, PackedBlock.Encoded, Planned;
    forall b | 0 <= b < |bins| ensures DirectQuiet(BinsExtent(pending, bins, generation)[b]) {
      PlannedBin(pending, bins, generation, b);
      PackedIsQuiet(generation, BinPacking.BinRecords(RecordsOf(pending), bins[b]));
    }
  }

  lemma {:induction false} QuietFiles(files: seq<FileWrite>)
    requires forall k :: 0 <= k < |files| ==> TameBytes(files[k].bytes)
    ensures QuietExtent(FilesExtent(files))
    decreases |files|
  {
    hide DirectQuiet, Padded;
    if files != [] {
      QuietFiles(files[..|files| - 1]);
      assert TameBytes(files[|files| - 1].bytes);
    }
  }

  /** What a tame batch writes, whatever is packed along with it. */
  lemma QuietBatch(files: seq<FileWrite>, pending: seq<Pending>, bins: seq<seq<nat>>, generation: u64)
    requires Planned(pending, bins, generation)
    ensures TameFiles(files) ==> QuietExtent(BinsExtent(pending, bins, generation) + FilesExtent(Batches.Selected(files, false)))
  {
    hide TameBytes, DirectQuiet, Planned, FilesExtent, Batches.Selected, BinsExtent;
    if TameFiles(files) {
      var dedicated := Batches.Selected(files, false);
      forall k | 0 <= k < |dedicated| ensures TameBytes(dedicated[k].bytes) {
        Batches.SelectedIn(files, false, dedicated[k]);
      }
      QuietBins(pending, bins, generation);
      QuietFiles(dedicated);
    }
  }

  /** A file that moves down reaches the last two blocks only as one block from 511 to 510. */
  lemma QuietRelocation(image: Image, e: Entry, destination: nat, bytes: seq<byte>)
    requires Acceptable(e) && !e.directory && e.storage.Dedicated? && FileBytes(image, e) == Some(bytes)
    requires destination + e.blockCount <= e.firstBlock && |Padded(bytes)| <= e.blockCount
    requires Opening.QuietTail(image)
    ensures Opening.TailSafe(destination, Padded(bytes))
  {
    hide DirectQuiet, ValidPath, Cut;
    forall i | 0 <= i < |Padded(bytes)| && destination + i >= DirectManifest.DATA_END ensures DirectQuiet(Padded(bytes)[i]) {
      assert e.blockCount == 1 && i == 0 && e.firstBlock == DirectManifest.DATA_END + 1;
      OneBlock(image, e, bytes);
      QuietCut(image[e.firstBlock], |bytes|);
    }
  }

  lemma OneBlock(image: Image, e: Entry, bytes: seq<byte>)
    requires Acceptable(e) && !e.directory && e.storage.Dedicated? && FileBytes(image, e) == Some(bytes) && e.blockCount == 1
    ensures |bytes| <= BLOCK_SIZE
    ensures PaddedBlock(bytes, 0) == Cut(image[e.firstBlock], |bytes|)
  {
    hide ValidPath;
    forall k | 0 <= k < |bytes| ensures bytes[k] == image[e.firstBlock][k] {
      assert k / BLOCK_SIZE == 0 && k % BLOCK_SIZE == k;
    }
  }
}
