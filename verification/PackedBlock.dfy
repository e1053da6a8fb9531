/**
  Packed blocks: several small-file records behind one checksummed header
  (src/ezfa3fs_packed_block.cpp). This file has the format and the two codec loops; what the
  format guarantees is in PackedBlockProofs.
 */
module PackedBlock {
  import opened Bytes
  import Crc32

  const HEADER_SIZE: nat := 64
  const RECORD_HEADER_SIZE: nat := 32
  const ALIGNMENT: nat := 8
  const VERSION: u32 := 1
  /** Largest file that is packed. */
  const THRESHOLD: nat := 0x4000
  /** "EZ3PACK" and a zero byte. */
  const MAGIC: seq<byte> := [0x45, 0x5A, 0x33, 0x50, 0x41, 0x43, 0x4B, 0x00]

  datatype Record = Record(id: u32, modifiedTime: u64, bytes: seq<byte>)
  datatype Location = Location(id: u32, offset: u32)
  datatype Decoded = Decoded(generation: u64, records: seq<Record>, locations: seq<Location>)

  predicate ShouldPack(size: nat)
  {
    0 < size <= THRESHOLD
  }

  function Aligned(size: nat): nat
  {
    (size + ALIGNMENT - 1) / ALIGNMENT * ALIGNMENT
  }

  function EncodedRecordSize(size: nat): (r: nat)
    ensures r <= BLOCK_SIZE ==> RECORD_HEADER_SIZE + size <= r
    ensures size <= BLOCK_SIZE ==> r < RECORD_HEADER_SIZE + size + ALIGNMENT
  {
    if size > BLOCK_SIZE then BLOCK_SIZE + 1 else RECORD_HEADER_SIZE + Aligned(size)
  }

  // ----- Encoding -----

  function PayloadSize(records: seq<Record>): nat
  {
    if records == [] then 0
    else
      var last := |records| - 1;
      PayloadSize(records[..last]) + EncodedRecordSize(|records[last].bytes|)
  }

  predicate CanEncode(records: seq<Record>)
  {
    && records != []
    && (forall r :: r in records ==> r.id != 0 && r.bytes != [])
    && HEADER_SIZE + PayloadSize(records) <= BLOCK_SIZE
  }

  predicate DistinctIds(records: seq<Record>)
  {
    forall i, j :: 0 <= i < j < |records| ==> records[i].id != records[j].id
  }

  /** What `Encode` accepts. */
  predicate Encodable(generation: u64, records: seq<Record>)
  {
    generation != 0 && CanEncode(records) && DistinctIds(records)
  }

  function RecordHeader(r: Record): (s: seq<byte>)
    ensures |s| == RECORD_HEADER_SIZE
  {
    Put32(r.id) + LittleEndian(|r.bytes|, 4) + PutCrc(Crc32.Crc(r.bytes)) + Put32(0) + Put64(r.modifiedTime) + Put64(0)
  }

  function Padding(r: Record): seq<byte>
  {
    Repeat(BLANK, Aligned(|r.bytes|) - |r.bytes|)
  }

  function RecordBytes(r: Record): seq<byte>
  {
    RecordHeader(r) + r.bytes + Padding(r)
  }

  function Payload(records: seq<Record>): seq<byte>
  {
    if records == [] then []
    else
      var last := |records| - 1;
      Payload(records[..last]) + RecordBytes(records[last])
  }

  function Header(generation: u64, count: nat, used: nat, payloadCrc: bv32, headerCrc: bv32): (s: seq<byte>)
    ensures |s| == HEADER_SIZE
  {
    MAGIC + Put32(VERSION) + Put64(generation) + LittleEndian(count, 4) + LittleEndian(used, 4)
    + PutCrc(payloadCrc) + PutCrc(headerCrc) + Repeat(0, 28)
  }

  function SealedHeader(generation: u64, count: nat, used: nat, payloadCrc: bv32): (s: seq<byte>)
    ensures |s| == HEADER_SIZE
  {
    Header(generation, count, used, payloadCrc, Crc32.Crc(Header(generation, count, used, payloadCrc, 0)))
  }

  function Used(records: seq<Record>): nat
  {
    HEADER_SIZE + PayloadSize(records)
  }

  /** The block `Encode` produces. */
  function Encoded(generation: u64, records: seq<Record>): seq<byte>
    requires Encodable(generation, records)
  {
    SealedHeader(generation, |records|, Used(records), Crc32.Crc(Payload(records)))
    + Payload(records) + Repeat(BLANK, BLOCK_SIZE - Used(records))
  }

  /** Where consecutive records starting at `offset` lie. */
  function Locations(records: seq<Record>, offset: nat): (s: seq<Location>)
    requires offset + PayloadSize(records) <= BLOCK_SIZE
    ensures |s| == |records|
  {
    if records == [] then []
    else
      var last := |records| - 1;
      Locations(records[..last], offset) + [Location(records[last].id, offset + PayloadSize(records[..last]))]
  }

  lemma AlignedBounds(size: nat)
    ensures size <= Aligned(size) < size + ALIGNMENT && Aligned(size) % ALIGNMENT == 0
  {}

  lemma RecordBytesLength(r: Record)
    requires |r.bytes| <= BLOCK_SIZE
    ensures |RecordBytes(r)| == EncodedRecordSize(|r.bytes|)
  {}

  lemma {:induction false} PayloadLength(records: seq<Record>)
    requires PayloadSize(records) <= BLOCK_SIZE
    ensures |Payload(records)| == PayloadSize(records)
  {
    hide RecordBytes;
    if records != [] {
      var last := |records| - 1;
      RecordBytesLength(records[last]);
      PayloadLength(records[..last]);
    }
  }

  /** One more record extends the size, the bytes and the locations at their end. */
  lemma Snoc(records: seq<Record>, i: nat)
    requires i < |records|
    ensures PayloadSize(records[..i + 1]) == PayloadSize(records[..i]) + EncodedRecordSize(|records[i].bytes|)
    ensures Payload(records[..i + 1]) == Payload(records[..i]) + RecordBytes(records[i])
  {
    hide RecordBytes, EncodedRecordSize;
    assert records[..i + 1][..i] == records[..i];
  }

  lemma {:induction false} PayloadSizeMonotone(records: seq<Record>, i: nat)
    requires i <= |records|
    ensures PayloadSize(records[..i]) <= PayloadSize(records)
    decreases |records|
  {
    if i < |records| {
      var last := |records| - 1;
      PayloadSizeMonotone(records[..last], i);
      assert records[..last][..i] == records[..i];
    } else {
      assert records[..i] == records;
    }
  }

  lemma LocationsSnoc(records: seq<Record>, i: nat, offset: nat)
    requires i < |records| && offset + PayloadSize(records[..i + 1]) <= BLOCK_SIZE
    ensures PayloadSize(records[..i]) <= PayloadSize(records[..i + 1])
    ensures Locations(records[..i + 1], offset)
      == Locations(records[..i], offset) + [Location(records[i].id, offset + PayloadSize(records[..i]))]
  {
    hide EncodedRecordSize, RecordBytes, Payload;
    Snoc(records, i);
    assert records[..i + 1][..i] == records[..i];
  }

  predicate FitsSoFar(records: seq<Record>, i: nat, used: nat)
    requires i <= |records|
  {
    && used == HEADER_SIZE + PayloadSize(records[..i]) <= BLOCK_SIZE
    && forall k :: 0 <= k < i ==> records[k].id != 0 && records[k].bytes != []
  }

  lemma FitsStep(records: seq<Record>, i: nat, used: nat)
    requires i < |records| && FitsSoFar(records, i, used)
    ensures
      var size := EncodedRecordSize(|records[i].bytes|);
      if records[i].id == 0 || records[i].bytes == [] || size > BLOCK_SIZE - used then !CanEncode(records)
      else FitsSoFar(records, i + 1, used + size)
  {
    hide EncodedRecordSize, Payload;
    Snoc(records, i);
    PayloadSizeMonotone(records, i + 1);
    assert records[i] in records;
  }

  /** The admission loop: accumulates the used length and stops at the first record that does not fit. */
  method CheckFits(records: seq<Record>) returns (fits: bool)
    ensures fits == CanEncode(records)
  {
    hide EncodedRecordSize, PayloadSize;
    var used: nat := HEADER_SIZE;
    var i := 0;
    assert FitsSoFar(records, 0, HEADER_SIZE) by {
      assert records[..0] == [];
      assert PayloadSize([]) == 0 by { EmptyPayload(); }
    }
    while i < |records|
      invariant 0 <= i <= |records|
      invariant FitsSoFar(records, i, used)
    {
      var size := EncodedRecordSize(|records[i].bytes|);
      FitsStep(records, i, used);
      if used > BLOCK_SIZE || records[i].id == 0 || records[i].bytes == [] || size > BLOCK_SIZE - used {
        return false;
      }
      used := used + size;
      i := i + 1;
    }
    assert records[..|records|] == records;
    fits := records != [];
  }

  lemma EmptyPayload()
    ensures PayloadSize([]) == 0 && Payload([]) == []
  {}

  method PutCrcField(buffer: array<byte>, offset: nat, c: bv32)
    requires offset + 4 <= buffer.Length
    modifies buffer
    ensures buffer[..] == Splice(old(buffer[..]), offset, PutCrc(c))
  {
    CopyInto(buffer, offset, PutCrc(c));
  }

  lemma RecordHeaderBySplices(r: Record)
    requires |r.bytes| <= BLOCK_SIZE
    ensures
      var h0 := Repeat(0, RECORD_HEADER_SIZE);
      var h1 := Splice(h0, 0, Put32(r.id));
      var h2 := Splice(h1, 4, LittleEndian(|r.bytes|, 4));
      var h3 := Splice(h2, 8, PutCrc(Crc32.Crc(r.bytes)));
      Splice(h3, 16, Put64(r.modifiedTime)) == RecordHeader(r)
  {
    ZeroFields();
    hide Splice, LittleEndian, PutCrc, Repeat;
    var id, size, crc := Put32(r.id), LittleEndian(|r.bytes|, 4), PutCrc(Crc32.Crc(r.bytes));
    PatchZeros([], RECORD_HEADER_SIZE, id);
    assert [] + Repeat(0, RECORD_HEADER_SIZE) == Repeat(0, RECORD_HEADER_SIZE) && [] + id == id;
    PatchZeros(id, 28, size);
    PatchZeros(id + size, 24, crc);
    assert Repeat(0, 20) == Put32(0) + Repeat(0, 16);
    assert id + size + crc + Repeat(0, 20) == id + size + crc + Put32(0) + Repeat(0, 16);
    PatchZeros(id + size + crc + Put32(0), 16, Put64(r.modifiedTime));
  }

  /** A field written over zeros. */
  lemma PatchZeros(prefix: seq<byte>, n: nat, field: seq<byte>)
    requires |field| <= n
    ensures Splice(prefix + Repeat(0, n), |prefix|, field) == prefix + field + Repeat(0, n - |field|)
  {}

  method PutRecordHeader(buffer: array<byte>, offset: nat, r: Record)
    requires |r.bytes| <= BLOCK_SIZE && offset + RECORD_HEADER_SIZE <= buffer.Length
    modifies buffer
    ensures buffer[..] == Splice(old(buffer[..]), offset, RecordHeader(r))
  {
    ghost var start := buffer[..];
    var crc := Crc32.Calculate(r.bytes);
    ghost var h0 := Repeat(0, RECORD_HEADER_SIZE);
    CopyInto(buffer, offset, Repeat(0, RECORD_HEADER_SIZE));
    PutField(buffer, offset, r.id, 4);
    SpliceSplice(start, offset, h0, 0, Put32(r.id));
    ghost var h1 := Splice(h0, 0, Put32(r.id));
    PutField(buffer, offset + 4, |r.bytes|, 4);
    SpliceSplice(start, offset, h1, 4, LittleEndian(|r.bytes|, 4));
    ghost var h2 := Splice(h1, 4, LittleEndian(|r.bytes|, 4));
    PutCrcField(buffer, offset + 8, crc);
    SpliceSplice(start, offset, h2, 8, PutCrc(crc));
    ghost var h3 := Splice(h2, 8, PutCrc(crc));
    PutField(buffer, offset + 16, r.modifiedTime, 8);
    SpliceSplice(start, offset, h3, 16, Put64(r.modifiedTime));
    RecordHeaderBySplices(r);
  }

  lemma RecordBySplices(start: seq<byte>, offset: nat, r: Record)
    requires |r.bytes| <= BLOCK_SIZE && offset + EncodedRecordSize(|r.bytes|) <= |start|
    requires forall k :: offset <= k < |start| ==> start[k] == BLANK
    ensures RECORD_HEADER_SIZE + |r.bytes| <= EncodedRecordSize(|r.bytes|) == |RecordBytes(r)|
    ensures Splice(Splice(start, offset, RecordHeader(r)), offset + RECORD_HEADER_SIZE, r.bytes)
         == Splice(start, offset, RecordBytes(r))
  {
    AlignedBounds(|r.bytes|);
    RecordBytesLength(r);
    hide RecordHeader, EncodedRecordSize, Splice;
    var head, pad, end := RecordHeader(r), Padding(r), offset + RECORD_HEADER_SIZE + |r.bytes|;
    SpliceNext(start, offset, head, r.bytes);
    assert RecordBytes(r) == head + r.bytes + pad;
    assert start[end..end + |pad|] == pad;
    SplicePad(start, offset, head + r.bytes, pad);
  }

  lemma SpliceNext(s: seq<byte>, offset: nat, a: seq<byte>, b: seq<byte>)
    requires offset + |a| + |b| <= |s|
    ensures Splice(Splice(s, offset, a), offset + |a|, b) == Splice(s, offset, a + b)
  {}

  lemma SplicePad(s: seq<byte>, offset: nat, a: seq<byte>, pad: seq<byte>)
    requires offset + |a| + |pad| <= |s| && s[offset + |a|..offset + |a| + |pad|] == pad
    ensures Splice(s, offset, a) == Splice(s, offset, a + pad)
  {
    assert s[offset + |a|..] == pad + s[offset + |a| + |pad|..];
  }

  /** Writes one record at `offset` over blank bytes. */
  method PutRecord(buffer: array<byte>, offset: nat, r: Record)
    requires |r.bytes| <= BLOCK_SIZE && offset + EncodedRecordSize(|r.bytes|) <= buffer.Length
    requires forall k :: offset <= k < buffer.Length ==> buffer[k] == BLANK
    modifies buffer
    ensures EncodedRecordSize(|r.bytes|) == |RecordBytes(r)|
    ensures buffer[..] == Splice(old(buffer[..]), offset, RecordBytes(r))
  {
    ghost var start := buffer[..];
    RecordBySplices(start, offset, r);
    PutRecordHeader(buffer, offset, r);
    CopyInto(buffer, offset + RECORD_HEADER_SIZE, r.bytes);
  }

  lemma ZeroFields()
    ensures Put32(0) == Repeat(0, 4) && Put64(0) == Repeat(0, 8) && PutCrc(0) == Repeat(0, 4)
  {}

  // ----- The encoding loop -----

  lemma HeaderBySplices(generation: u64, count: nat, used: nat, payloadCrc: bv32, headerCrc: bv32)
    ensures
      var h0 := Splice(Repeat(0, HEADER_SIZE), 0, MAGIC);
      var h1 := Splice(h0, 8, Put32(VERSION));
      var h2 := Splice(h1, 12, Put64(generation));
      var h3 := Splice(h2, 20, LittleEndian(count, 4));
      var h4 := Splice(h3, 24, LittleEndian(used, 4));
      var h5 := Splice(h4, 28, PutCrc(payloadCrc));
      && h5 == Header(generation, count, used, payloadCrc, 0)
      && Splice(h5, 32, Put32(0)) == h5
      && Splice(h5, 32, PutCrc(headerCrc)) == Header(generation, count, used, payloadCrc, headerCrc)
  {
    ZeroFields();
    hide Splice, LittleEndian, PutCrc, Repeat;
    PatchZeros([], HEADER_SIZE, MAGIC);
    assert [] + Repeat(0, HEADER_SIZE) == Repeat(0, HEADER_SIZE) && [] + MAGIC == MAGIC;
    PatchZeros(MAGIC, 56, Put32(VERSION));
    PatchZeros(MAGIC + Put32(VERSION), 52, Put64(generation));
    var head := MAGIC + Put32(VERSION) + Put64(generation);
    PatchZeros(head, 44, LittleEndian(count, 4));
    PatchZeros(head + LittleEndian(count, 4), 40, LittleEndian(used, 4));
    PatchZeros(head + LittleEndian(count, 4) + LittleEndian(used, 4), 36, PutCrc(payloadCrc));
    var fields := head + LittleEndian(count, 4) + LittleEndian(used, 4) + PutCrc(payloadCrc);
    PatchZeros(fields, 32, Put32(0));
    PatchZeros(fields, 32, PutCrc(headerCrc));
    assert Repeat(0, 32) == PutCrc(0) + Repeat(0, 28);
    assert fields + Repeat(0, 32) == fields + PutCrc(0) + Repeat(0, 28);
  }

  /** First half of the header: everything known before the records are written. */
  function OpenHeader(generation: u64, count: nat): (s: seq<byte>)
    ensures |s| == HEADER_SIZE
  {
    Splice(Splice(Splice(Splice(Repeat(0, HEADER_SIZE), 0, MAGIC), 8, Put32(VERSION)), 12, Put64(generation)),
           20, LittleEndian(count, 4))
  }

  method StartBlock(buffer: array<byte>, generation: u64, count: nat)
    requires buffer.Length == BLOCK_SIZE
    modifies buffer
    ensures buffer[..] == OpenHeader(generation, count) + old(buffer[HEADER_SIZE..])
  {
    ghost var start := buffer[..];
    CopyInto(buffer, 0, Repeat(0, HEADER_SIZE));
    CopyInto(buffer, 0, MAGIC);
    SpliceSplice(start, 0, Repeat(0, HEADER_SIZE), 0, MAGIC);
    ghost var h0 := Splice(Repeat(0, HEADER_SIZE), 0, MAGIC);
    PutField(buffer, 8, VERSION, 4);
    SpliceSplice(start, 0, h0, 8, Put32(VERSION));
    ghost var h1 := Splice(h0, 8, Put32(VERSION));
    PutField(buffer, 12, generation, 8);
    SpliceSplice(start, 0, h1, 12, Put64(generation));
    ghost var h2 := Splice(h1, 12, Put64(generation));
    PutField(buffer, 20, count, 4);
    SpliceSplice(start, 0, h2, 20, LittleEndian(count, 4));
    assert Splice(start, 0, OpenHeader(generation, count)) == OpenHeader(generation, count) + start[HEADER_SIZE..];
  }

  lemma SpliceFront(start: seq<byte>, head: seq<byte>)
    requires |head| <= |start|
    ensures Splice(start, 0, head) == head + start[|head|..] && Splice(start, 0, head)[..|head|] == head
    ensures start[..|head|] == head ==> Splice(start, 0, head) == start
  {}

  /** Fills in the used length and both checksums once the records are in place. */
  method SealBlock(buffer: array<byte>, generation: u64, count: nat, offset: nat)
    requires buffer.Length == BLOCK_SIZE && HEADER_SIZE <= offset <= BLOCK_SIZE
    requires buffer[..HEADER_SIZE] == OpenHeader(generation, count)
    modifies buffer
    ensures buffer[..] == SealedHeader(generation, count, offset, Crc32.Crc(old(buffer[HEADER_SIZE..offset])))
      + old(buffer[HEADER_SIZE..])
  {
    hide Header, LittleEndian, PutCrc, Splice;
    ghost var start := buffer[..];
    ghost var h3 := OpenHeader(generation, count);
    var payloadCrc := Crc32.Calculate(buffer[HEADER_SIZE..offset]);
    ghost var h4 := Splice(h3, 24, LittleEndian(offset, 4));
    ghost var h5 := Splice(h4, 28, PutCrc(payloadCrc));
    ghost var headerCrc := Crc32.Crc(h5);
    HeaderBySplices(generation, count, offset, payloadCrc, headerCrc);
    SpliceFront(start, h3);
    SpliceFront(start, h5);
    SpliceFront(start, SealedHeader(generation, count, offset, payloadCrc));
    PutField(buffer, 24, offset, 4);
    SpliceSplice(start, 0, h3, 24, LittleEndian(offset, 4));
    PutCrcField(buffer, 28, payloadCrc);
    SpliceSplice(start, 0, h4, 28, PutCrc(payloadCrc));
    PutField(buffer, 32, 0, 4);
    SpliceSplice(start, 0, h5, 32, Put32(0));
    assert buffer[..HEADER_SIZE] == h5;
    var crc := Crc32.Calculate(buffer[..HEADER_SIZE]);
    PutCrcField(buffer, 32, crc);
    SpliceSplice(start, 0, h5, 32, PutCrc(crc));
  }

  lemma DistinctIdsSnoc(records: seq<Record>, i: nat, ids: set<u32>)
    requires i < |records| && DistinctIds(records[..i])
    requires ids == set k | 0 <= k < i :: records[k].id
    ensures records[i].id !in ids <==> DistinctIds(records[..i + 1])
  {}

  /** The buffer after `i` records: header, their bytes, and blanks from `offset` on. */
  ghost predicate Written(buffer: seq<byte>, head: seq<byte>, records: seq<Record>, i: nat, offset: nat)
  {
    && |buffer| == BLOCK_SIZE && |head| == HEADER_SIZE && i <= |records|
    && offset == HEADER_SIZE + PayloadSize(records[..i]) <= BLOCK_SIZE
    && buffer[..offset] == head + Payload(records[..i])
    && forall k :: offset <= k < BLOCK_SIZE ==> buffer[k] == BLANK
  }

  lemma WrittenNone(buffer: seq<byte>, head: seq<byte>, records: seq<Record>)
    requires |buffer| == BLOCK_SIZE && |head| == HEADER_SIZE && buffer[..HEADER_SIZE] == head
    requires forall k :: HEADER_SIZE <= k < BLOCK_SIZE ==> buffer[k] == BLANK
    ensures Written(buffer, head, records, 0, HEADER_SIZE)
    ensures DistinctIds(records[..0]) && PayloadSize(records[..0]) == 0 && Locations(records[..0], HEADER_SIZE) == []
  {}

  lemma WrittenTail(buffer: seq<byte>, head: seq<byte>, records: seq<Record>, i: nat, offset: nat)
    requires Written(buffer, head, records, i, offset)
    ensures |buffer| == BLOCK_SIZE && forall k :: offset <= k < BLOCK_SIZE ==> buffer[k] == BLANK
  {}

  lemma WrittenStep(buffer: seq<byte>, head: seq<byte>, records: seq<Record>, i: nat, offset: nat)
    requires i < |records| && Written(buffer, head, records, i, offset)
    requires offset + EncodedRecordSize(|records[i].bytes|) <= BLOCK_SIZE
    ensures EncodedRecordSize(|records[i].bytes|) == |RecordBytes(records[i])|
    ensures Written(Splice(buffer, offset, RecordBytes(records[i])), head, records, i + 1,
                    offset + EncodedRecordSize(|records[i].bytes|))
  {
    RecordBytesLength(records[i]);
    hide RecordBytes, EncodedRecordSize;
    Snoc(records, i);
    var rb := RecordBytes(records[i]);
    var after := Splice(buffer, offset, rb);
    assert after[..offset + |rb|] == buffer[..offset] + rb;
    ConcatAssociative(head, Payload(records[..i]), rb);
  }

  lemma WrittenAll(buffer: seq<byte>, head: seq<byte>, records: seq<Record>, offset: nat)
    requires Written(buffer, head, records, |records|, offset)
    ensures offset == Used(records)
    ensures buffer[..HEADER_SIZE] == head
    ensures buffer[HEADER_SIZE..offset] == Payload(records)
    ensures buffer[HEADER_SIZE..] == Payload(records) + Repeat(BLANK, BLOCK_SIZE - offset)
  {
    hide RecordBytes;
    assert records[..|records|] == records;
    PayloadLength(records);
    assert buffer[..offset][HEADER_SIZE..] == Payload(records);
    assert buffer[..offset][..HEADER_SIZE] == head;
    assert buffer[HEADER_SIZE..] == buffer[HEADER_SIZE..offset] + buffer[offset..];
    assert buffer[offset..] == Repeat(BLANK, BLOCK_SIZE - offset);
  }

  method Encode(generation: u64, records: seq<Record>)
    returns (ok: bool, block: seq<byte>, locations: seq<Location>)
    ensures ok <==> Encodable(generation, records)
    ensures ok ==> block == Encoded(generation, records) && locations == Locations(records, HEADER_SIZE)
  {
    hide RecordBytes, Header, SealedHeader, OpenHeader, EncodedRecordSize, PayloadSize, Payload, Locations, Written;
    block, locations := [], [];
    var fits := CheckFits(records);
    if generation == 0 || !fits {
      return false, [], [];
    }
    var ids: set<u32> := {};
    var buffer := new byte[BLOCK_SIZE](_ => BLANK);
    StartBlock(buffer, generation, |records|);
    ghost var head := OpenHeader(generation, |records|);
    var offset: nat := HEADER_SIZE;
    var i := 0;
    WrittenNone(buffer[..], head, records);
    while i < |records|
      invariant 0 <= i <= |records|
      invariant ids == set k | 0 <= k < i :: records[k].id
      invariant DistinctIds(records[..i])
      invariant Written(buffer[..], head, records, i, offset)
      invariant offset == HEADER_SIZE + PayloadSize(records[..i]) <= BLOCK_SIZE
      invariant locations == Locations(records[..i], HEADER_SIZE)
    {
      var r := records[i];
      DistinctIdsSnoc(records, i, ids);
      Snoc(records, i);
      PayloadSizeMonotone(records, i + 1);
      if r.id in ids {
        NotDistinct(records, i);
        return false, [], [];
      }
      ids := ids + {r.id};
      LocationsSnoc(records, i, HEADER_SIZE);
      locations := locations + [Location(r.id, offset)];
      WrittenStep(buffer[..], head, records, i, offset);
      WrittenTail(buffer[..], head, records, i, offset);
      PutRecord(buffer, offset, r);
      offset := offset + EncodedRecordSize(|r.bytes|);
      i := i + 1;
    }
    WrittenAll(buffer[..], head, records, offset);
    assert records[..i] == records;
    SealBlock(buffer, generation, |records|, offset);
    ok, block := true, buffer[..];
    EncodedParts(generation, records);
  }

  lemma EncodedParts(generation: u64, records: seq<Record>)
    requires Encodable(generation, records)
    ensures Encoded(generation, records)
         == SealedHeader(generation, |records|, Used(records), Crc32.Crc(Payload(records)))
          + (Payload(records) + Repeat(BLANK, BLOCK_SIZE - Used(records)))
  {
    hide RecordBytes, Header, SealedHeader;
    ConcatAssociative(SealedHeader(generation, |records|, Used(records), Crc32.Crc(Payload(records))),
                      Payload(records), Repeat(BLANK, BLOCK_SIZE - Used(records)));
  }

  lemma NotDistinct(records: seq<Record>, i: nat)
    requires i < |records| && !DistinctIds(records[..i + 1])
    ensures !DistinctIds(records)
  {}

  // ----- Decoding -----

  predicate HeaderAccepted(block: seq<byte>)
  {
    && |block| == BLOCK_SIZE
    && block[..8] == MAGIC
    && Get32(block, 8) == VERSION
    && Crc32.Crc(Splice(block[..HEADER_SIZE], 32, Put32(0))) == GetCrc(block, 32)
    && (forall k :: 36 <= k < HEADER_SIZE ==> block[k] == 0)
  }

  predicate BoundsAccepted(block: seq<byte>)
    requires |block| == BLOCK_SIZE
  {
    var count, used := Get32(block, 20), Get32(block, 24);
    && Get64(block, 12) != 0 && count != 0 && HEADER_SIZE <= used <= BLOCK_SIZE
    && count <= (used - HEADER_SIZE) / RECORD_HEADER_SIZE
    && Crc32.Crc(block[HEADER_SIZE..used]) == GetCrc(block, 28)
  }

  predicate RecordAccepted(block: seq<byte>, offset: nat, used: nat, ids: set<u32>)
    requires offset <= used <= |block| == BLOCK_SIZE
  {
    && RECORD_HEADER_SIZE <= used - offset
    && var id, size := Get32(block, offset), Get32(block, offset + 4);
    && id != 0 && id !in ids && size != 0
    && Get32(block, offset + 12) == 0 && Get64(block, offset + 24) == 0
    && EncodedRecordSize(size) <= used - offset
    && Crc32.Crc(block[offset + 32..offset + 32 + size]) == GetCrc(block, offset + 8)
  }

  function RecordAt(block: seq<byte>, offset: nat, used: nat, ids: set<u32>): (r: Record)
    requires offset <= used <= |block| == BLOCK_SIZE && RecordAccepted(block, offset, used, ids)
    ensures offset + EncodedRecordSize(|r.bytes|) <= used
  {
    var size := Get32(block, offset + 4);
    Record(Get32(block, offset), Get64(block, offset + 16), block[offset + 32..offset + 32 + size])
  }

  function Ids(records: seq<Record>): set<u32>
  {
    set k | 0 <= k < |records| :: records[k].id
  }

  /** Scans `remaining` records from `offset`; what was read so far is carried along. */
  function Scan(block: seq<byte>, offset: nat, used: nat, remaining: nat, records: seq<Record>, locations: seq<Location>)
    : Option<(seq<Record>, seq<Location>)>
    requires offset <= used <= |block| == BLOCK_SIZE
    decreases remaining
  {
    if remaining == 0 then
      if offset == used then Some((records, locations)) else None
    else if !RecordAccepted(block, offset, used, Ids(records)) then None
    else
      var r := RecordAt(block, offset, used, Ids(records));
      Scan(block, offset + EncodedRecordSize(|r.bytes|), used, remaining - 1,
           records + [r], locations + [Location(r.id, offset)])
  }

  /** What `Decode` returns. */
  function DecodeResult(block: seq<byte>): (r: Option<Decoded>)
    ensures r.Some? ==> |block| == BLOCK_SIZE && HEADER_SIZE <= Get32(block, 24) <= BLOCK_SIZE
  {
    if !HeaderAccepted(block) || !BoundsAccepted(block) then None
    else
      match Scan(block, HEADER_SIZE, Get32(block, 24), Get32(block, 20), [], [])
      case None => None
      case Some(p) => Some(Decoded(Get64(block, 12), p.0, p.1))
  }

  method Decode(block: seq<byte>) returns (result: Option<Decoded>)
    ensures result == DecodeResult(block)
  {
    if |block| != BLOCK_SIZE || block[..8] != MAGIC || Get32(block, 8) != VERSION {
      return None;
    }
    var header := Splice(block[..HEADER_SIZE], 32, Put32(0));
    var headerCrc := Crc32.Calculate(header);
    if headerCrc != GetCrc(block, 32) {
      return None;
    }
    var k := 36;
    while k < HEADER_SIZE
      invariant 36 <= k <= HEADER_SIZE
      invariant forall j :: 36 <= j < k ==> block[j] == 0
    {
      if block[k] != 0 {
        return None;
      }
      k := k + 1;
    }
    var count, used := Get32(block, 20), Get32(block, 24);
    if Get64(block, 12) == 0 || count == 0 || used < HEADER_SIZE || used > BLOCK_SIZE
       || count > (used - HEADER_SIZE) / RECORD_HEADER_SIZE {
      return None;
    }
    var payloadCrc := Crc32.Calculate(block[HEADER_SIZE..used]);
    if payloadCrc != GetCrc(block, 28) {
      return None;
    }
    result := DecodeRecords(block, count, used);
  }

  method DecodeRecords(block: seq<byte>, count: u32, used: u32) returns (result: Option<Decoded>)
    requires |block| == BLOCK_SIZE && HeaderAccepted(block) && BoundsAccepted(block)
    requires HEADER_SIZE <= used <= BLOCK_SIZE
    requires count == Get32(block, 20) && used == Get32(block, 24)
    ensures result == DecodeResult(block)
  {
    hide EncodedRecordSize, Get32, Get64, GetCrc, HeaderAccepted, BoundsAccepted, Ids, Scan, DecodeResult;
    DecodeIsScan(block, []);
    var records, locations: seq<Location> := [], [];
    var ids: set<u32> := {};
    var offset: nat := HEADER_SIZE;
    var index := 0;
    while index < count
      invariant 0 <= index <= count && offset <= used
      invariant ids == Ids(records)
      invariant Scan(block, HEADER_SIZE, used, count, [], [])
             == Scan(block, offset, used, count - index, records, locations)
    {
      ScanStep(block, offset, used, count - index, records, locations);
      if RECORD_HEADER_SIZE > used - offset {
        return None;
      }
      var id, size := Get32(block, offset), Get32(block, offset + 4);
      if id == 0 || id in ids || size == 0 || Get32(block, offset + 12) != 0
         || Get64(block, offset + 24) != 0 || EncodedRecordSize(size) > used - offset {
        return None;
      }
      var bytes := block[offset + 32..offset + 32 + size];
      var crc := Crc32.Calculate(bytes);
      if crc != GetCrc(block, offset + 8) {
        return None;
      }
      var r := Record(id, Get64(block, offset + 16), bytes);
      IdsSnoc(records, r);
      records, locations := records + [r], locations + [Location(id, offset)];
      ids := ids + {id};
      offset := offset + EncodedRecordSize(size);
      index := index + 1;
    }
    ScanEnd(block, offset, used, records, locations);
    if offset != used {
      return None;
    }
    result := Some(Decoded(Get64(block, 12), records, locations));
  }

  lemma DecodeIsScan(block: seq<byte>, none: seq<Record>)
    requires |block| == BLOCK_SIZE && HeaderAccepted(block) && BoundsAccepted(block)
    requires none == []
    ensures Ids(none) == {}
    ensures
      var scan := Scan(block, HEADER_SIZE, Get32(block, 24), Get32(block, 20), [], []);
      && (scan.None? ==> DecodeResult(block) == None)
      && (scan.Some? ==> DecodeResult(block) == Some(Decoded(Get64(block, 12), scan.value.0, scan.value.1)))
  {}

  lemma ScanStep(block: seq<byte>, offset: nat, used: nat, remaining: nat, records: seq<Record>, locations: seq<Location>)
    requires offset <= used <= |block| == BLOCK_SIZE && remaining > 0
    ensures !RecordAccepted(block, offset, used, Ids(records)) ==> Scan(block, offset, used, remaining, records, locations) == None
    ensures RecordAccepted(block, offset, used, Ids(records)) ==>
      var r := RecordAt(block, offset, used, Ids(records));
      Scan(block, offset, used, remaining, records, locations)
      == Scan(block, offset + EncodedRecordSize(|r.bytes|), used, remaining - 1,
              records + [r], locations + [Location(r.id, offset)])
  {}

  lemma ScanEnd(block: seq<byte>, offset: nat, used: nat, records: seq<Record>, locations: seq<Location>)
    requires offset <= used <= |block| == BLOCK_SIZE
    ensures Scan(block, offset, used, 0, records, locations) == if offset == used then Some((records, locations)) else None
  {}

  lemma IdsSnoc(records: seq<Record>, r: Record)
    ensures Ids(records + [r]) == Ids(records) + {r.id}
  {
    var all := records + [r];
    assert all[|records|] == r;
    forall id | id in Ids(records) ensures id in Ids(all) {
      var k :| 0 <= k < |records| && records[k].id == id;
      assert all[k].id == id;
    }
  }
}
