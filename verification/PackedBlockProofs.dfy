/**
  What the packed-block format guarantees: encoding and decoding are inverse, an accepted block
  describes distinct records at increasing, non-overlapping places, and a corrupted block is
  either rejected or reads exactly as before.
 */
module PackedBlockProofs {
  import opened Bytes
  import opened PackedBlock
  import Crc32

  // ----- Encode, then decode -----

  lemma HeaderFields(b: seq<byte>, generation: u64, count: u32, used: u32, payloadCrc: bv32, headerCrc: bv32)
    requires |b| >= HEADER_SIZE && b[..HEADER_SIZE] == Header(generation, count, used, payloadCrc, headerCrc)
    ensures b[..8] == MAGIC && Get32(b, 8) == VERSION && Get64(b, 12) == generation
    ensures Get32(b, 20) == count && Get32(b, 24) == used
    ensures GetCrc(b, 28) == payloadCrc && GetCrc(b, 32) == headerCrc
    ensures forall k :: 36 <= k < HEADER_SIZE ==> b[k] == 0
    ensures Splice(b[..HEADER_SIZE], 32, Put32(0)) == Header(generation, count, used, payloadCrc, 0)
  {
    hide Get32, Get64, GetCrc, LittleEndian, PutCrc;
    var h := Header(generation, count, used, payloadCrc, headerCrc);
    assert b[..8] == h[..8] == MAGIC;
    assert b[8..12] == h[8..12] == Put32(VERSION);
    assert b[12..20] == h[12..20] == Put64(generation);
    assert b[20..24] == h[20..24] == Put32(count);
    assert b[24..28] == h[24..28] == Put32(used);
    assert b[28..32] == h[28..32] == PutCrc(payloadCrc);
    assert b[32..36] == h[32..36] == PutCrc(headerCrc);
    Field32(b, 8, VERSION); Field64(b, 12, generation); Field32(b, 20, count); Field32(b, 24, used);
    FieldCrc(b, 28, payloadCrc); FieldCrc(b, 32, headerCrc);
    forall k | 36 <= k < HEADER_SIZE ensures b[k] == 0 {
      assert b[k] == b[..HEADER_SIZE][k] == h[k];
    }
    ZeroFields();
  }

  lemma RecordFields(b: seq<byte>, offset: nat, r: Record)
    requires |r.bytes| <= BLOCK_SIZE && offset + EncodedRecordSize(|r.bytes|) <= |b|
    requires |RecordBytes(r)| == EncodedRecordSize(|r.bytes|)
    requires b[offset..offset + EncodedRecordSize(|r.bytes|)] == RecordBytes(r)
    ensures offset + RECORD_HEADER_SIZE + |r.bytes| <= |b|
    ensures Get32(b, offset) == r.id && Get32(b, offset + 4) == |r.bytes|
    ensures GetCrc(b, offset + 8) == Crc32.Crc(r.bytes)
    ensures Get32(b, offset + 12) == 0 && Get64(b, offset + 16) == r.modifiedTime && Get64(b, offset + 24) == 0
    ensures b[offset + 32..offset + 32 + |r.bytes|] == r.bytes
  {
    hide EncodedRecordSize, RecordHeader, RecordBytes, Get32, Get64, GetCrc, Put32, Put64, PutCrc, LittleEndian;
    var rb := RecordBytes(r);
    var h := RecordHeader(r);
    assert rb[..32] == h && rb[32..32 + |r.bytes|] == r.bytes by { RecordBytesParts(r); }
    SliceOfSlice(b, offset, rb, 0, 32);
    SliceOfSlice(b, offset, rb, 32, 32 + |r.bytes|);
    assert b[offset..offset + 32] == h;
    RecordHeaderParts(r);
    SliceOfSlice(b, offset, h, 0, 4); SliceOfSlice(b, offset, h, 4, 8); SliceOfSlice(b, offset, h, 8, 12);
    SliceOfSlice(b, offset, h, 12, 16); SliceOfSlice(b, offset, h, 16, 24); SliceOfSlice(b, offset, h, 24, 32);
    assert LittleEndian(|r.bytes|, 4) == Put32(|r.bytes|) by { LittleEndianIsPut32(|r.bytes|); }
    Field32(b, offset, r.id); Field32(b, offset + 4, |r.bytes|); FieldCrc(b, offset + 8, Crc32.Crc(r.bytes));
    Field32(b, offset + 12, 0); Field64(b, offset + 16, r.modifiedTime); Field64(b, offset + 24, 0);
  }

  lemma LittleEndianIsPut32(v: u32)
    ensures LittleEndian(v, 4) == Put32(v)
  {}

  lemma RecordBytesParts(r: Record)
    ensures |RecordBytes(r)| >= 32 + |r.bytes|
    ensures RecordBytes(r)[..32] == RecordHeader(r) && RecordBytes(r)[32..32 + |r.bytes|] == r.bytes
  {
    hide RecordHeader;
  }

  lemma RecordHeaderParts(r: Record)
    ensures RecordHeader(r)[0..4] == Put32(r.id) && RecordHeader(r)[4..8] == LittleEndian(|r.bytes|, 4)
    ensures RecordHeader(r)[8..12] == PutCrc(Crc32.Crc(r.bytes)) && RecordHeader(r)[12..16] == Put32(0)
    ensures RecordHeader(r)[16..24] == Put64(r.modifiedTime) && RecordHeader(r)[24..32] == Put64(0)
  {
    var a, b, c, z, m, y := Put32(r.id), LittleEndian(|r.bytes|, 4), PutCrc(Crc32.Crc(r.bytes)),
                            Put32(0), Put64(r.modifiedTime), Put64(0);
    var h := a + b + c + z + m + y;
    assert h[0..4] == a;
    assert h[4..8] == b;
    assert h[8..12] == c;
    assert h[12..16] == z;
    assert h[16..24] == m;
    assert h[24..32] == y;
  }

  /** Record `i` occupies its own slice of the payload. */
  lemma {:induction false} PayloadSlice(records: seq<Record>, i: nat, n: nat)
    requires i < n <= |records| && PayloadSize(records[..n]) <= BLOCK_SIZE
    ensures 0 <= PayloadSize(records[..i]) <= PayloadSize(records[..i + 1]) <= PayloadSize(records[..n])
    ensures |Payload(records[..n])| == PayloadSize(records[..n])
    ensures Payload(records[..n])[PayloadSize(records[..i])..PayloadSize(records[..i + 1])] == RecordBytes(records[i])
    decreases n
  {
    hide RecordBytes, EncodedRecordSize, PayloadSize, Payload;
    Snoc(records, n - 1);
    PayloadLength(records[..n]);
    if i < n - 1 {
      PayloadSlice(records, i, n - 1);
      var lo, hi := PayloadSize(records[..i]), PayloadSize(records[..i + 1]);
      assert Payload(records[..n])[lo..hi] == Payload(records[..n - 1])[lo..hi];
    } else {
      PayloadLength(records[..i]);
    }
  }

  lemma IdsOfPrefix(records: seq<Record>, i: nat)
    requires i < |records| && DistinctIds(records)
    ensures records[i].id !in Ids(records[..i])
  {}

  lemma RecordInPlace(b: seq<byte>, offset: nat, used: nat, ids: set<u32>, r: Record)
    requires offset <= used <= |b| == BLOCK_SIZE && |r.bytes| <= BLOCK_SIZE
    requires offset + EncodedRecordSize(|r.bytes|) <= used
    requires b[offset..offset + EncodedRecordSize(|r.bytes|)] == RecordBytes(r)
    requires r.id != 0 && r.bytes != [] && r.id !in ids
    ensures RecordAccepted(b, offset, used, ids) && RecordAt(b, offset, used, ids) == r
  {
    hide Get32, Get64, GetCrc, RecordBytes, EncodedRecordSize, Value;
    RecordBytesLength(r);
    RecordFields(b, offset, r);
  }

  lemma ScanOne(b: seq<byte>, records: seq<Record>, i: nat)
    requires |b| == BLOCK_SIZE && CanEncode(records) && DistinctIds(records) && i < |records|
    requires b[HEADER_SIZE..Used(records)] == Payload(records)
    ensures PayloadSize(records[..i]) + EncodedRecordSize(|records[i].bytes|) == PayloadSize(records[..i + 1]) <= PayloadSize(records)
    ensures
      var offset := HEADER_SIZE + PayloadSize(records[..i]);
      && RecordAccepted(b, offset, Used(records), Ids(records[..i]))
      && RecordAt(b, offset, Used(records), Ids(records[..i])) == records[i]
  {
    hide EncodedRecordSize, RecordBytes, RecordAccepted, RecordAt, Ids, Payload, PayloadSize, DistinctIds;
    assert records[..|records|] == records;
    assert records[i] in records;
    PayloadSizeMonotone(records, i + 1);
    Snoc(records, i);
    IdsOfPrefix(records, i);
    PayloadSlice(records, i, |records|);
    var lo, hi := PayloadSize(records[..i]), PayloadSize(records[..i + 1]);
    SliceOfSlice(b, HEADER_SIZE, Payload(records), lo, hi);
    RecordInPlace(b, HEADER_SIZE + lo, Used(records), Ids(records[..i]), records[i]);
  }

  lemma {:induction false} ScanFinds(b: seq<byte>, records: seq<Record>, i: nat)
    requires |b| == BLOCK_SIZE && CanEncode(records) && DistinctIds(records) && i <= |records|
    requires b[HEADER_SIZE..Used(records)] == Payload(records)
    ensures PayloadSize(records[..i]) <= PayloadSize(records)
    ensures Scan(b, HEADER_SIZE + PayloadSize(records[..i]), Used(records), |records| - i,
                 records[..i], Locations(records[..i], HEADER_SIZE))
      == Some((records, Locations(records, HEADER_SIZE)))
    decreases |records| - i
  {
    hide RecordAccepted, RecordAt, EncodedRecordSize, RecordBytes, Payload, PayloadSize, Locations, Ids, Scan, CanEncode, DistinctIds;
    CanEncodeFits(records);
    PayloadSizeMonotone(records, i);
    if i == |records| {
      assert records[..i] == records;
      ScanEnd(b, Used(records), Used(records), records, Locations(records, HEADER_SIZE));
    } else {
      ScanOne(b, records, i);
      ScanStep(b, HEADER_SIZE + PayloadSize(records[..i]), Used(records), |records| - i,
               records[..i], Locations(records[..i], HEADER_SIZE));
      PayloadSizeMonotone(records, i + 1);
      LocationsSnoc(records, i, HEADER_SIZE);
      assert records[..i] + [records[i]] == records[..i + 1];
      ScanFinds(b, records, i + 1);
    }
  }

  lemma CanEncodeFits(records: seq<Record>)
    requires CanEncode(records)
    ensures Used(records) <= BLOCK_SIZE
  {}

  lemma {:induction false} ManyRecords(records: seq<Record>)
    ensures |records| * RECORD_HEADER_SIZE <= PayloadSize(records)
  {
    if records != [] {
      var last := |records| - 1;
      ManyRecords(records[..last]);
      assert EncodedRecordSize(|records[last].bytes|) >= RECORD_HEADER_SIZE;
    }
  }

  lemma EncodedLayout(generation: u64, records: seq<Record>)
    requires Encodable(generation, records)
    ensures |Encoded(generation, records)| == BLOCK_SIZE && |Payload(records)| == PayloadSize(records)
    ensures Encoded(generation, records)[..HEADER_SIZE]
         == SealedHeader(generation, |records|, Used(records), Crc32.Crc(Payload(records)))
    ensures Encoded(generation, records)[HEADER_SIZE..Used(records)] == Payload(records)
  {
    PayloadLength(records);
    hide SealedHeader, Payload;
    var head := SealedHeader(generation, |records|, Used(records), Crc32.Crc(Payload(records)));
    var tail := Repeat(BLANK, BLOCK_SIZE - Used(records));
    assert Encoded(generation, records) == head + Payload(records) + tail;
  }

  lemma EncodedAccepted(generation: u64, records: seq<Record>)
    requires Encodable(generation, records)
    ensures
      var b := Encoded(generation, records);
      && HeaderAccepted(b) && BoundsAccepted(b)
      && Get64(b, 12) == generation && Get32(b, 20) == |records| && Get32(b, 24) == Used(records)
  {
    var b := Encoded(generation, records);
    var crc := Crc32.Crc(Payload(records));
    EncodedLayout(generation, records);
    ManyRecords(records);
    var sealed := Crc32.Crc(Header(generation, |records|, Used(records), crc, 0));
    HeaderFields(b, generation, |records|, Used(records), crc, sealed);
    hide Encoded, Header, Payload;
    var room := PayloadSize(records);
    assert |records| <= room / RECORD_HEADER_SIZE;
  }

  lemma NoLocations()
    ensures Locations([], HEADER_SIZE) == []
  {}

  /** Decoding an encoded block gives back the generation, the records in order, and the locations. */
  lemma RoundTrip(generation: u64, records: seq<Record>)
    requires Encodable(generation, records)
    ensures DecodeResult(Encoded(generation, records))
         == Some(Decoded(generation, records, Locations(records, HEADER_SIZE)))
  {
    hide Encoded, HeaderAccepted, BoundsAccepted, Payload, Get32, Get64, DecodeResult, Scan, SealedHeader, DistinctIds, CanEncode, Ids, PayloadSize, Locations, EncodedRecordSize;
    CanEncodeFits(records);
    var b := Encoded(generation, records);
    EncodedAccepted(generation, records);
    EncodedLayout(generation, records);
    assert records[..0] == [];
    EmptyPayload();
    assert Locations(records[..0], HEADER_SIZE) == [] by { NoLocations(); }
    DecodeIsScan(b, []);
    ScanFinds(b, records, 0);
  }

  // ----- What an accepted block looks like -----

  predicate ValidRecords(records: seq<Record>)
  {
    DistinctIds(records) && forall r :: r in records ==> r.id != 0 && r.bytes != []
  }

  lemma AcceptedRecord(b: seq<byte>, offset: nat, used: nat, records: seq<Record>)
    requires offset <= used <= |b| == BLOCK_SIZE && RecordAccepted(b, offset, used, Ids(records))
    requires ValidRecords(records)
    ensures ValidRecords(records + [RecordAt(b, offset, used, Ids(records))])
  {
    var r := RecordAt(b, offset, used, Ids(records));
    hide Get32, Get64, GetCrc, EncodedRecordSize;
    forall k | 0 <= k < |records| ensures records[k].id != r.id {
      assert records[k].id in Ids(records);
    }
  }

  predicate Describes(scan: Option<(seq<Record>, seq<Location>)>, count: nat, used: nat)
  {
    scan.Some? ==>
      && |scan.value.0| == count && ValidRecords(scan.value.0)
      && Used(scan.value.0) == used <= BLOCK_SIZE && scan.value.1 == Locations(scan.value.0, HEADER_SIZE)
  }

  lemma {:induction false} ScanSound(b: seq<byte>, offset: nat, used: nat, remaining: nat, records: seq<Record>)
    requires offset == HEADER_SIZE + PayloadSize(records) <= used <= |b| == BLOCK_SIZE
    requires ValidRecords(records)
    ensures Describes(Scan(b, offset, used, remaining, records, Locations(records, HEADER_SIZE)),
                      |records| + remaining, used)
    decreases remaining
  {
    hide EncodedRecordSize, RecordAccepted, RecordAt, Ids, ValidRecords, Scan, PayloadSize, Payload, Locations, RecordBytes;
    if remaining == 0 {
      ScanEnd(b, offset, used, records, Locations(records, HEADER_SIZE));
    } else {
      ScanStep(b, offset, used, remaining, records, Locations(records, HEADER_SIZE));
      if RecordAccepted(b, offset, used, Ids(records)) {
        var r := RecordAt(b, offset, used, Ids(records));
        var more := records + [r];
        AcceptedRecord(b, offset, used, records);
        assert more[..|records|] == records && more[..|records| + 1] == more;
        Snoc(more, |records|);
        LocationsSnoc(more, |records|, HEADER_SIZE);
        ScanSound(b, offset + EncodedRecordSize(|r.bytes|), used, remaining - 1, more);
      }
    }
  }

  /** Every accepted block describes records that could have been encoded, at the places encoding gives them. */
  lemma AcceptedIsEncodable(b: seq<byte>)
    requires DecodeResult(b).Some?
    ensures |b| == BLOCK_SIZE
    ensures
      var d := DecodeResult(b).value;
      && Encodable(d.generation, d.records)
      && d.locations == Locations(d.records, HEADER_SIZE)
      && Used(d.records) == Get32(b, 24)
  {
    assert HeaderAccepted(b) && BoundsAccepted(b);
    assert ValidRecords([]) && Locations([], HEADER_SIZE) == [];
    EmptyPayload();
    hide Get32, Get64, Scan, HeaderAccepted, PayloadSize, Locations;
    ScanSound(b, HEADER_SIZE, Get32(b, 24), Get32(b, 20), []);
  }

  /** Decoding is onto what encoding produces: re-encoding an accepted block loses nothing. */
  lemma Reencode(b: seq<byte>)
    requires DecodeResult(b).Some?
    ensures Encodable(DecodeResult(b).value.generation, DecodeResult(b).value.records)
    ensures DecodeResult(Encoded(DecodeResult(b).value.generation, DecodeResult(b).value.records)) == DecodeResult(b)
  {
    AcceptedIsEncodable(b);
    RoundTrip(DecodeResult(b).value.generation, DecodeResult(b).value.records);
  }

  lemma {:induction false} LocationAt(records: seq<Record>, i: nat, n: nat)
    requires i < n <= |records| && HEADER_SIZE + PayloadSize(records[..n]) <= BLOCK_SIZE
    ensures PayloadSize(records[..i]) + EncodedRecordSize(|records[i].bytes|) == PayloadSize(records[..i + 1]) <= PayloadSize(records[..n])
    ensures Locations(records[..n], HEADER_SIZE)[i] == Location(records[i].id, HEADER_SIZE + PayloadSize(records[..i]))
    decreases n
  {
    hide EncodedRecordSize, RecordBytes, Payload;
    Snoc(records, i);
    LocationsSnoc(records, n - 1, HEADER_SIZE);
    if i < n - 1 {
      LocationAt(records, i, n - 1);
    }
  }

  /** Locations carry the records' ids, start after the header, and never overlap. */
  lemma LocationsDisjoint(records: seq<Record>, i: nat, j: nat)
    requires i < j < |records| && Used(records) <= BLOCK_SIZE
    ensures
      var l := Locations(records, HEADER_SIZE);
      && l[i].id == records[i].id && l[j].id == records[j].id
      && HEADER_SIZE <= l[i].offset
      && l[i].offset + EncodedRecordSize(|records[i].bytes|) <= l[j].offset
      && l[j].offset + EncodedRecordSize(|records[j].bytes|) <= Used(records)
  {
    hide EncodedRecordSize;
    assert records[..|records|] == records;
    LocationAt(records, i, |records|);
    LocationAt(records, j, |records|);
    PayloadSizeMonotone(records[..j], i + 1);
    assert records[..j][..i + 1] == records[..i + 1];
  }

  lemma LocationBounds(records: seq<Record>, i: nat)
    requires i < |records| && Used(records) <= BLOCK_SIZE
    ensures
      var l := Locations(records, HEADER_SIZE);
      && l[i].id == records[i].id
      && HEADER_SIZE <= l[i].offset && l[i].offset + EncodedRecordSize(|records[i].bytes|) <= Used(records)
  {}

  // ----- Corruption -----

  /** Two blocks of one length that agree except inside `[start, start + width)`. */
  predicate DifferOnlyIn(b: seq<byte>, c: seq<byte>, start: nat, width: nat)
  {
    |b| == |c| && forall k :: 0 <= k < |b| && !(start <= k < start + width) ==> b[k] == c[k]
  }

  lemma GetsAgree(b: seq<byte>, c: seq<byte>, offset: nat)
    requires |b| == |c| && offset + 32 <= |b| && b[offset..offset + 32] == c[offset..offset + 32]
    ensures Get32(b, offset) == Get32(c, offset) && Get32(b, offset + 4) == Get32(c, offset + 4)
    ensures GetCrc(b, offset + 8) == GetCrc(c, offset + 8) && Get32(b, offset + 12) == Get32(c, offset + 12)
    ensures Get64(b, offset + 16) == Get64(c, offset + 16) && Get64(b, offset + 24) == Get64(c, offset + 24)
  {
    var part := b[offset..offset + 32];
    SliceOfSlice(b, offset, part, 0, 4); SliceOfSlice(c, offset, part, 0, 4);
    SliceOfSlice(b, offset, part, 4, 8); SliceOfSlice(c, offset, part, 4, 8);
    SliceOfSlice(b, offset, part, 12, 16); SliceOfSlice(c, offset, part, 12, 16);
    SliceOfSlice(b, offset, part, 16, 24); SliceOfSlice(c, offset, part, 16, 24);
    SliceOfSlice(b, offset, part, 24, 32); SliceOfSlice(c, offset, part, 24, 32);
    assert b[offset + 8] == part[8] == c[offset + 8] && b[offset + 9] == part[9] == c[offset + 9];
    assert b[offset + 10] == part[10] == c[offset + 10] && b[offset + 11] == part[11] == c[offset + 11];
  }

  lemma RecordAcceptedAgrees(b: seq<byte>, c: seq<byte>, offset: nat, used: nat, ids: set<u32>)
    requires offset <= used <= |b| == |c| == BLOCK_SIZE && b[offset..used] == c[offset..used]
    ensures RecordAccepted(b, offset, used, ids) <==> RecordAccepted(c, offset, used, ids)
    ensures RecordAccepted(b, offset, used, ids) ==> RecordAt(b, offset, used, ids) == RecordAt(c, offset, used, ids)
  {
    hide Get32, Get64, GetCrc, EncodedRecordSize;
    if RECORD_HEADER_SIZE <= used - offset {
      var part := b[offset..used];
      SliceOfSlice(b, offset, part, 0, 32); SliceOfSlice(c, offset, part, 0, 32);
      GetsAgree(b, c, offset);
      var size := Get32(b, offset + 4);
      if EncodedRecordSize(size) <= used - offset {
        SliceOfSlice(b, offset, part, 32, 32 + size); SliceOfSlice(c, offset, part, 32, 32 + size);
      }
    }
  }

  lemma {:induction false} ScanAgrees(b: seq<byte>, c: seq<byte>, offset: nat, used: nat, remaining: nat,
                                      records: seq<Record>, locations: seq<Location>)
    requires offset <= used <= |b| == |c| == BLOCK_SIZE && b[offset..used] == c[offset..used]
    ensures Scan(b, offset, used, remaining, records, locations) == Scan(c, offset, used, remaining, records, locations)
    decreases remaining
  {
    hide RecordAccepted, RecordAt, EncodedRecordSize;
    if remaining > 0 {
      RecordAcceptedAgrees(b, c, offset, used, Ids(records));
      if RecordAccepted(b, offset, used, Ids(records)) {
        var r := RecordAt(b, offset, used, Ids(records));
        var next := offset + EncodedRecordSize(|r.bytes|);
        SliceOfSlice(b, offset, b[offset..used], next - offset, used - offset);
        SliceOfSlice(c, offset, b[offset..used], next - offset, used - offset);
        ScanAgrees(b, c, next, used, remaining - 1, records + [r], locations + [Location(r.id, offset)]);
      }
    }
  }

  lemma HeadersAgree(b: seq<byte>, c: seq<byte>)
    requires |b| == |c| == BLOCK_SIZE && b[..HEADER_SIZE] == c[..HEADER_SIZE]
    ensures Get32(b, 8) == Get32(c, 8) && Get64(b, 12) == Get64(c, 12)
    ensures Get32(b, 20) == Get32(c, 20) && Get32(b, 24) == Get32(c, 24)
    ensures GetCrc(b, 28) == GetCrc(c, 28) && GetCrc(b, 32) == GetCrc(c, 32)
    ensures HeaderAccepted(b) <==> HeaderAccepted(c)
  {
    var h := b[..HEADER_SIZE];
    assert b[0..HEADER_SIZE] == h && c[0..HEADER_SIZE] == h;
    SliceOfSlice(b, 0, h, 0, 8); SliceOfSlice(c, 0, h, 0, 8);
    SliceOfSlice(b, 0, h, 8, 12); SliceOfSlice(c, 0, h, 8, 12);
    SliceOfSlice(b, 0, h, 12, 20); SliceOfSlice(c, 0, h, 12, 20);
    SliceOfSlice(b, 0, h, 20, 24); SliceOfSlice(c, 0, h, 20, 24);
    SliceOfSlice(b, 0, h, 24, 28); SliceOfSlice(c, 0, h, 24, 28);
    forall k | 0 <= k < HEADER_SIZE ensures b[k] == c[k] {
      assert b[k] == h[k] && c[k] == c[..HEADER_SIZE][k];
    }
  }

  /** Bytes past the used length do not matter. */
  lemma TailIgnored(b: seq<byte>, c: seq<byte>)
    requires DecodeResult(b).Some? && |c| == |b|
    requires b[..Get32(b, 24)] == c[..Get32(b, 24)]
    ensures DecodeResult(c) == DecodeResult(b)
  {
    hide HeaderAccepted, Get32, Get64, GetCrc, Scan;
    var used := Get32(b, 24);
    assert HEADER_SIZE <= used <= |b|;
    assert b[..HEADER_SIZE] == b[..used][..HEADER_SIZE] && c[..HEADER_SIZE] == c[..used][..HEADER_SIZE];
    assert b[HEADER_SIZE..used] == b[..used][HEADER_SIZE..] && c[HEADER_SIZE..used] == c[..used][HEADER_SIZE..];
    HeadersAgree(b, c);
    ScanAgrees(b, c, HEADER_SIZE, used, Get32(b, 20), [], []);
  }

  /** No change of four adjacent payload bytes goes unnoticed. */
  lemma PayloadCorruption(b: seq<byte>, c: seq<byte>, start: nat)
    requires DecodeResult(b).Some? && DifferOnlyIn(b, c, start, 4) && HEADER_SIZE <= start
    ensures
      var used := Get32(b, 24);
      if b[..used] == c[..used] then DecodeResult(c) == DecodeResult(b) else DecodeResult(c) == None
  {
    hide Get32, Get64, GetCrc, HeaderAccepted, Scan, Value;
    var used := Get32(b, 24);
    assert HEADER_SIZE <= used <= BLOCK_SIZE == |b|;
    assert b[..HEADER_SIZE] == c[..HEADER_SIZE];
    HeadersAgree(b, c);
    if b[..used] == c[..used] {
      TailIgnored(b, c);
    } else {
      assert b[..used] == b[..HEADER_SIZE] + b[HEADER_SIZE..used];
      assert c[..used] == c[..HEADER_SIZE] + c[HEADER_SIZE..used];
      forall i | 0 <= i < used - HEADER_SIZE && !(start - HEADER_SIZE <= i < start - HEADER_SIZE + 4)
        ensures b[HEADER_SIZE..used][i] == c[HEADER_SIZE..used][i]
      {
        assert b[HEADER_SIZE + i] == c[HEADER_SIZE + i];
      }
      Crc32.DetectsBurst(b[HEADER_SIZE..used], c[HEADER_SIZE..used], start - HEADER_SIZE);
    }
  }

  /** Nor does a change of four adjacent header bytes on one side of the stored header checksum. */
  lemma HeaderCorruption(b: seq<byte>, c: seq<byte>, start: nat)
    requires HeaderAccepted(b) && DifferOnlyIn(b, c, start, 4) && b != c
    requires start + 4 <= 32 || 36 <= start <= start + 4 <= HEADER_SIZE
    ensures !HeaderAccepted(c)
  {
    var x, y := Splice(b[..HEADER_SIZE], 32, Put32(0)), Splice(c[..HEADER_SIZE], 32, Put32(0));
    assert b[32] == c[32] && b[33] == c[33] && b[34] == c[34] && b[35] == c[35];
    var k :| 0 <= k < |b| && b[k] != c[k];
    SpliceKeeps(b[..HEADER_SIZE], 32, Put32(0), k);
    SpliceKeeps(c[..HEADER_SIZE], 32, Put32(0), k);
    forall j | 0 <= j < |x| && !(start <= j < start + 4) ensures x[j] == y[j] {
      if 32 <= j < 36 {
        assert x[j] == x[32..36][j - 32] && y[j] == y[32..36][j - 32];
      } else {
        SpliceKeeps(b[..HEADER_SIZE], 32, Put32(0), j);
        SpliceKeeps(c[..HEADER_SIZE], 32, Put32(0), j);
      }
    }
    Crc32.DetectsBurst(x, y, start);
  }

  lemma SpliceKeeps(s: seq<byte>, offset: nat, source: seq<byte>, k: nat)
    requires offset + |source| <= |s| && k < |s| && !(offset <= k < offset + |source|)
    ensures Splice(s, offset, source)[k] == s[k]
  {}

  lemma ChecksumCorruption(b: seq<byte>, c: seq<byte>, k: nat)
    requires HeaderAccepted(b) && DifferOnlyIn(b, c, k, 1) && b != c && 32 <= k < 36
    ensures !HeaderAccepted(c)
  {
    assert b[k] != c[k];
    assert b[..32] == c[..32] && b[36..HEADER_SIZE] == c[36..HEADER_SIZE];
    assert b[..HEADER_SIZE][..32] == b[..32] && c[..HEADER_SIZE][..32] == c[..32];
    assert b[..HEADER_SIZE][36..] == b[36..HEADER_SIZE] && c[..HEADER_SIZE][36..] == c[36..HEADER_SIZE];
    assert Splice(b[..HEADER_SIZE], 32, Put32(0)) == Splice(c[..HEADER_SIZE], 32, Put32(0));
    assert b[32..36] != c[32..36] by {
      assert b[32..36][k - 32] != c[32..36][k - 32];
    }
    if GetCrc(b, 32) == GetCrc(c, 32) {
      GetCrcInjective(b, c, 32);
    }
  }

  /** Changing any one byte of an accepted block makes it rejected, unless the byte lies past the used length. */
  lemma ByteCorruption(b: seq<byte>, c: seq<byte>, k: nat)
    requires DecodeResult(b).Some? && k < |b| && DifferOnlyIn(b, c, k, 1) && b[k] != c[k]
    ensures DecodeResult(c) == if k < Get32(b, 24) then None else DecodeResult(b)
  {
    if k < 32 {
      HeaderCorruption(b, c, Min(k, 28));
    } else if k < 36 {
      ChecksumCorruption(b, c, k);
    } else if k < HEADER_SIZE {
      HeaderCorruption(b, c, Min(k, HEADER_SIZE - 4));
    } else {
      PayloadCorruption(b, c, k);
      var used := Get32(b, 24);
      if k < used {
        assert b[..used][k] != c[..used][k];
      }
    }
  }
}
