/**
  Reading files out of extents and packed blocks.
 */
module Reading {
  import opened Bytes
  import opened Paths
  import opened Manifest
  import opened Device
  import opened Volume
  import opened Placement
  import Carrying
  import BinPacking
  import PackedBlock
  import Crc32

  // ----- Reading extents -----

  lemma ExtentSlice(image: Image, e: Entry, index: nat, begin: nat, end: nat)
    requires Acceptable(e) && !e.directory && begin <= end <= BLOCK_SIZE && index * BLOCK_SIZE + end <= e.size
    requires e.firstBlock + index < BLOCK_COUNT
    ensures image[e.firstBlock + index][begin..end]
         == ExtentBytes(image, e)[index * BLOCK_SIZE + begin..index * BLOCK_SIZE + end]
  {}

  lemma WholeRead(image: Image, e: Entry, bytes: seq<byte>)
    requires Acceptable(e) && !e.directory && |bytes| == e.size
    requires e.storage == Dedicated ==> bytes == ExtentBytes(image, e)[0..e.size]
    requires e.storage == Packed && bytes != [] ==>
      var record := PackedBytes(image[e.firstBlock], e);
      record.Some? && |record.value| == e.size && bytes == record.value[0..e.size]
    ensures FileBytes(image, e) == if Crc32.Crc(bytes) == e.crc then Some(bytes) else None
  {
    hide ExtentBytes, PackedBytes, ValidPath;
    if e.storage == Dedicated {
      assert ExtentBytes(image, e)[0..e.size] == ExtentBytes(image, e);
    } else {
      var record := PackedBytes(image[e.firstBlock], e);
      assert bytes != [];
      assert record.value[0..e.size] == record.value;
      Carrying.CrcOfFile(image, e);
    }
  }

  /** A carried record keeps the identifier of its file. */
  predicate SameIdentifier(es: seq<Entry>, p: Pending)
  {
    var k := Find(es, p.path);
    k < |es| && es[k].storage.Packed? && p.record.id == es[k].packedRecordId
  }

  lemma SameIdentifierIs(es: seq<Entry>, k: nat, p: Pending)
    requires DistinctNames(es) && k < |es| && es[k].storage.Packed? && p.path == es[k].name
    ensures p.record.id == es[k].packedRecordId ==> SameIdentifier(es, p)
  {}

  lemma NoGroups(groups: seq<seq<PackedBlock.Record>>)
    requires groups == []
    ensures BinPacking.Concat(groups) == []
  {}

  lemma NothingFits(none: seq<Pending>)
    requires none == []
    ensures RecordsOf(none) == [] && BinPacking.FitsOneBlock(RecordsOf(none))
  {}

  lemma GroupGrows(added: seq<Pending>, p: Pending)
    ensures RecordsOf(added + [p]) == RecordsOf(added) + [p.record]
  {}

  lemma LiveIs(e: Entry, block: nat, skip: set<Name>)
    ensures Carrying.Live(e, block, skip) <==> !e.directory && e.storage.Packed? && e.firstBlock == block && e.name !in skip
  {}

  /** A resolved record is the content of the entry that refers to it. */
  lemma ResolvedCarries(image: Image, e: Entry, records: seq<PackedBlock.Record>, locations: seq<PackedBlock.Location>, p: Pending)
    requires Acceptable(e) && !e.directory && e.storage.Packed? && |records| == |locations|
    requires PackedBlock.DecodeResult(image[e.firstBlock]) == Some(PackedBlock.Decoded(e.packedGeneration, records, locations))
    requires Resolve(e, records, locations, 0) == Some(p.record.bytes)
    requires p.path == e.name && p.crc == e.crc && p.record.modifiedTime == e.modifiedTime
    ensures Carrying.CarriedFrom(image, e, p)
  {
    hide Resolve, ValidPath, PackedBlock.DecodeResult, FileBytes;
    ResolvedIsRead(image, e, records, locations);
  }

  /** `e` is a packed file in one of these blocks. */
  predicate PackedIn(e: Entry, blocks: set<nat>)
  {
    !e.directory && e.storage.Packed? && e.firstBlock in blocks
  }

  lemma ResolvedIsRead(image: Image, e: Entry, records: seq<PackedBlock.Record>, locations: seq<PackedBlock.Location>)
    requires Acceptable(e) && !e.directory && e.storage.Packed? && |records| == |locations|
    requires PackedBlock.DecodeResult(image[e.firstBlock]) == Some(PackedBlock.Decoded(e.packedGeneration, records, locations))
    ensures FileBytes(image, e) == Resolve(e, records, locations, 0)
  {
    hide Resolve, ValidPath, PackedBlock.DecodeResult;
  }

  lemma PackedIsRecord(image: Image, e: Entry)
    requires Acceptable(e) && !e.directory && e.storage.Packed?
    ensures FileBytes(image, e) == PackedBytes(image[e.firstBlock], e)
  {}

  /** A readable packed file's block decodes, with the generation and the record the entry names. */
  lemma ReadableDecodes(image: Image, es: seq<Entry>, e: Entry)
    requires AllAcceptable(es) && e in es && e.storage.Packed?
    ensures Acceptable(e) && !e.directory && e.firstBlock < BLOCK_COUNT
    ensures Readable(image, es) ==>
      var d := PackedBlock.DecodeResult(image[e.firstBlock]);
      && d.Some? && d.value.generation == e.packedGeneration && |d.value.records| == |d.value.locations|
      && Resolve(e, d.value.records, d.value.locations, 0).Some?
  {
    hide Resolve, ValidPath, PackedBlock.DecodeResult;
    var k :| 0 <= k < |es| && es[k] == e;
    assert Acceptable(es[k]);
    DecodedSameLength(image[e.firstBlock]);
  }

  lemma IndexInExtent(e: Entry, byteIndex: nat, index: nat)
    requires Acceptable(e) && !e.directory && byteIndex < e.size && index <= byteIndex / BLOCK_SIZE
    ensures e.firstBlock + index < BLOCK_COUNT && index * BLOCK_SIZE <= byteIndex
    ensures index < byteIndex / BLOCK_SIZE ==> (index + 1) * BLOCK_SIZE <= byteIndex
    ensures byteIndex == byteIndex / BLOCK_SIZE * BLOCK_SIZE + byteIndex % BLOCK_SIZE
  {}

  /** `resolvePackedRecord`. */
  method ResolveRecord(e: Entry, records: seq<PackedBlock.Record>, locations: seq<PackedBlock.Location>)
    returns (bytes: Option<seq<byte>>)
    requires |records| == |locations|
    ensures bytes == Resolve(e, records, locations, 0)
  {
    var index := 0;
    while index < |records|
      invariant 0 <= index <= |records|
      invariant Resolve(e, records, locations, 0) == Resolve(e, records, locations, index)
    {
      var record := records[index];
      if record.id == e.packedRecordId && locations[index].offset == e.packedRecordOffset {
        var crc := Crc32.Calculate(record.bytes);
        if record.modifiedTime != e.modifiedTime || |record.bytes| != e.size || crc != e.crc {
          return None;
        }
        return Some(record.bytes);
      }
      index := index + 1;
    }
    bytes := None;
  }
}
