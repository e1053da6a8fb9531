/**
  What commit writes is what open reads, and what open reads commit can write again.
 */
module ManifestProofs {
  import opened Bytes
  import opened Manifest
  import Crc32

  // ----- Commit, then open -----

  lemma FlagBits(d: bool, p: bool)
    ensures
      var f: byte := (if d then 1 else 0) | (if p then 2 else 0);
      && (f & 1 != 0 <==> d) && (f & 2 != 0 <==> p) && f & 0xFC == 0
  {}

  lemma EntryHeaderParts(e: Entry)
    ensures EntryHeader(e)[0..2] == LittleEndian(|e.name|, 2) && EntryHeader(e)[2] == Flags(e)
    ensures EntryHeader(e)[4..12] == Put64(e.size) && EntryHeader(e)[12..20] == Put64(e.modifiedTime)
    ensures EntryHeader(e)[20..24] == PutCrc(e.crc) && EntryHeader(e)[24..28] == Put32(e.firstBlock)
    ensures EntryHeader(e)[28..32] == Put32(e.blockCount) && EntryHeader(e)[32..40] == Put64(e.packedGeneration)
    ensures EntryHeader(e)[40..44] == Put32(e.packedRecordId) && EntryHeader(e)[44..48] == Put32(e.packedRecordOffset)
  {
    hide Flags, LittleEndian, Put64, Put32, PutCrc;
    var a, f, b, c, d := LittleEndian(|e.name|, 2), [Flags(e)], Put64(e.size), Put64(e.modifiedTime), PutCrc(e.crc);
    var g, h, i, j, k := Put32(e.firstBlock), Put32(e.blockCount), Put64(e.packedGeneration),
                         Put32(e.packedRecordId), Put32(e.packedRecordOffset);
    var s := a + f + [0] + b + c + d + g + h + i + j + k;
    assert s == EntryHeader(e);
    assert s[0..2] == a;
    assert s[2] == Flags(e);
    assert s[4..12] == b;
    assert s[12..20] == c;
    assert s[20..24] == d;
    assert s[24..28] == g;
    assert s[28..32] == h;
    assert s[32..40] == i;
    assert s[40..44] == j;
    assert s[44..48] == k;
  }

  lemma EntryFields(m: seq<byte>, offset: nat, e: Entry)
    requires |e.name| <= LARGEST_NAME && offset + ENTRY_SIZE + |e.name| <= |m|
    requires m[offset..offset + ENTRY_SIZE + |e.name|] == EntryBytes(e)
    ensures Get16(m, offset) == |e.name|
    ensures EntryAt(m, offset, |e.name|) == e && m[offset + 2] & 0xFC == 0
  {
    hide EntryHeader, Get16, Get32, Get64, GetCrc, Put32, Put64, PutCrc, LittleEndian;
    var h := EntryHeader(e);
    SliceOfSlice(m, offset, EntryBytes(e), 0, ENTRY_SIZE);
    SliceOfSlice(m, offset, EntryBytes(e), ENTRY_SIZE, ENTRY_SIZE + |e.name|);
    assert m[offset..offset + ENTRY_SIZE] == h;
    EntryHeaderParts(e);
    SliceOfSlice(m, offset, h, 0, 2); SliceOfSlice(m, offset, h, 4, 12); SliceOfSlice(m, offset, h, 12, 20);
    SliceOfSlice(m, offset, h, 20, 24); SliceOfSlice(m, offset, h, 24, 28); SliceOfSlice(m, offset, h, 28, 32);
    SliceOfSlice(m, offset, h, 32, 40); SliceOfSlice(m, offset, h, 40, 44); SliceOfSlice(m, offset, h, 44, 48);
    assert m[offset + 2] == h[2];
    LittleEndianIsPut16(|e.name|);
    Field16(m, offset, |e.name|); Field64(m, offset + 4, e.size); Field64(m, offset + 12, e.modifiedTime);
    FieldCrc(m, offset + 20, e.crc); Field32(m, offset + 24, e.firstBlock); Field32(m, offset + 28, e.blockCount);
    Field64(m, offset + 32, e.packedGeneration); Field32(m, offset + 40, e.packedRecordId);
    Field32(m, offset + 44, e.packedRecordOffset);
    FlagBits(e.directory, e.storage.Packed?);
  }

  lemma LittleEndianIsPut16(v: u16)
    ensures LittleEndian(v, 2) == Put16(v)
  {}

  /** Entry `i` occupies its own slice of the manifest. */
  lemma {:induction false} EntrySlice(es: seq<Entry>, i: nat, n: nat)
    requires i < n <= |es|
    ensures |EntriesBytes(es[..i])| + ENTRY_SIZE + |es[i].name| == |EntriesBytes(es[..i + 1])| <= |EntriesBytes(es[..n])|
    ensures EntriesBytes(es[..n])[|EntriesBytes(es[..i])|..|EntriesBytes(es[..i + 1])|] == EntryBytes(es[i])
    decreases n
  {
    hide EntryBytes, EntriesBytes;
    EntriesSnoc(es, n - 1);
    EntriesSnoc(es, i);
    if i < n - 1 {
      EntrySlice(es, i, n - 1);
      var lo, hi := |EntriesBytes(es[..i])|, |EntriesBytes(es[..i + 1])|;
      assert EntriesBytes(es[..n])[lo..hi] == EntriesBytes(es[..n - 1])[lo..hi];
    }
  }

  /** Where entry `i` starts in the manifest. */
  function EntryOffset(es: seq<Entry>, i: nat): nat
    requires i <= |es|
  {
    4 + |EntriesBytes(es[..i])|
  }

  lemma ReadOne(es: seq<Entry>, i: nat)
    requires CommitAccepts(es) && i < |es|
    ensures EntryOffset(es, i) + ENTRY_SIZE + |es[i].name| == EntryOffset(es, i + 1) <= |ManifestBytes(es)|
    ensures ReadEntry(ManifestBytes(es), EntryOffset(es, i), Names(es[..i]))
         == if Acceptable(es[i]) then Some(es[i]) else None
  {
    hide EntryBytes, EntriesBytes, Acceptable, EntryAt, Get16, Names;
    var m := ManifestBytes(es);
    assert es[..|es|] == es;
    EntrySlice(es, i, |es|);
    var lo, hi := |EntriesBytes(es[..i])|, |EntriesBytes(es[..i + 1])|;
    assert m[4..4 + |EntriesBytes(es)|] == EntriesBytes(es);
    SliceOfSlice(m, 4, EntriesBytes(es), lo, hi);
    assert CommitAcceptsEntry(es[i]);
    EntryFields(m, EntryOffset(es, i), es[i]);
    FirstNamesDistinct(es, i);
    AcceptableNonEmpty(es[i]);
  }

  lemma AcceptableNonEmpty(e: Entry)
    ensures Acceptable(e) ==> e.name != []
  {}

  lemma FirstNamesDistinct(es: seq<Entry>, i: nat)
    requires DistinctNames(es) && i < |es|
    ensures es[i].name !in Names(es[..i])
  {}

  lemma {:induction false} ScanReads(es: seq<Entry>, i: nat)
    requires CommitAccepts(es) && i <= |es|
    ensures ScanEntries(ManifestBytes(es), EntryOffset(es, i), |es| - i, es[..i])
         == if AllAcceptable(es[i..]) then Some(es) else None
    decreases |es| - i
  {
    hide EntriesBytes, ManifestBytes, ScanEntries, Acceptable, ReadEntry, Names, CommitAccepts;
    var m := ManifestBytes(es);
    if i == |es| {
      assert es[..i] == es;
      ManifestLength(es);
      ScanEntriesEnd(m, EntryOffset(es, i), es);
    } else {
      ReadOne(es, i);
      ScanEntriesStep(m, EntryOffset(es, i), |es| - i, es[..i]);
      assert es[..i] + [es[i]] == es[..i + 1];
      ScanReads(es, i + 1);
      assert es[i..] == [es[i]] + es[i + 1..];
    }
  }

  lemma ManifestLength(es: seq<Entry>)
    ensures |ManifestBytes(es)| == EntryOffset(es, |es|)
  {
    assert es[..|es|] == es;
  }

  lemma SuperblockLayout(generation: u64, es: seq<Entry>)
    requires CommitAccepts(es)
    ensures
      var b, m := SuperblockBytes(generation, es), ManifestBytes(es);
      && b[..SUPERBLOCK_HEADER] == SuperblockHeader(generation, |m|, Crc32.Crc(m))
      && b[SUPERBLOCK_HEADER..SUPERBLOCK_HEADER + |m|] == m
      && b[SUPERBLOCK_HEADER + |m|..] == Repeat(BLANK, BLOCK_SIZE - SUPERBLOCK_HEADER - |m|)
  {
    hide SuperblockHeader, ManifestBytes;
  }

  lemma TaggedFields(b: seq<byte>, magic: seq<byte>, minor: u16, generation: u64, length: u32, crc: bv32)
    requires |magic| == 8 && |b| == BLOCK_SIZE && b[..SUPERBLOCK_HEADER] == TaggedHeader(magic, minor, generation, length, crc)
    ensures b[..8] == magic && Get16(b, 8) == MAJOR && Get16(b, 10) == minor && Get32(b, 28) == COMMIT_MARKER
    ensures Get64(b, 12) == generation && Get32(b, 20) == length && GetCrc(b, 24) == crc
  {
    hide Get16, Get32, Get64, GetCrc, LittleEndian, PutCrc;
    var h := TaggedHeader(magic, minor, generation, length, crc);
    var v := magic + Put16(MAJOR) + Put16(minor);
    assert h == v + Put64(generation) + LittleEndian(length, 4) + PutCrc(crc) + Put32(COMMIT_MARKER);
    assert b[0..SUPERBLOCK_HEADER] == h;
    assert v[..8] == magic && v[8..10] == Put16(MAJOR) && v[10..12] == Put16(minor);
    assert h[..8] == magic && h[8..10] == Put16(MAJOR) && h[10..12] == Put16(minor);
    assert h[12..20] == Put64(generation);
    assert h[20..24] == Put32(length);
    assert h[24..28] == PutCrc(crc);
    assert h[28..32] == Put32(COMMIT_MARKER);
    SliceOfSlice(b, 0, h, 0, 8); SliceOfSlice(b, 0, h, 8, 10); SliceOfSlice(b, 0, h, 10, 12);
    SliceOfSlice(b, 0, h, 12, 20); SliceOfSlice(b, 0, h, 20, 24); SliceOfSlice(b, 0, h, 24, 28);
    SliceOfSlice(b, 0, h, 28, 32);
    Field16(b, 8, MAJOR); Field16(b, 10, minor); Field64(b, 12, generation); Field32(b, 20, length);
    FieldCrc(b, 24, crc); Field32(b, 28, COMMIT_MARKER);
  }

  lemma SuperblockFields(b: seq<byte>, generation: u64, length: u32, crc: bv32)
    requires |b| == BLOCK_SIZE && b[..SUPERBLOCK_HEADER] == SuperblockHeader(generation, length, crc)
    ensures HeaderAccepted(b) && Get64(b, 12) == generation && Get32(b, 20) == length && GetCrc(b, 24) == crc
  {
    hide Get16, Get32, Get64, GetCrc, TaggedHeader;
    TaggedFields(b, FORMAT_MAGIC, PACKED_MINOR, generation, length, crc);
  }

  lemma CountField(es: seq<Entry>)
    requires |ManifestBytes(es)| <= BLOCK_SIZE
    ensures |ManifestBytes(es)| >= 4 && Get32(ManifestBytes(es), 0) == |es|
  {
    hide Get32;
    ManyEntries(es);
    assert ManifestBytes(es)[0..4] == Put32(|es|);
    Field32(ManifestBytes(es), 0, |es|);
  }

  lemma {:induction false} ManyEntries(es: seq<Entry>)
    ensures |es| <= |EntriesBytes(es)|
  {
    if es != [] {
      ManyEntries(es[..|es| - 1]);
    }
  }

  /** Open reads back exactly what commit wrote when every entry passes open's own checks, and rejects the slot otherwise. */
  lemma CommitOpenRoundTrip(generation: u64, es: seq<Entry>)
    requires CommitAccepts(es)
    ensures ChecksumAccepts(SuperblockBytes(generation, es))
    ensures ParseSlot(SuperblockBytes(generation, es))
         == if AllAcceptable(es) then Some(Superblock(generation, es)) else None
  {
    hide SuperblockBytes, ManifestBytes, ScanEntries, Get32, Get64, GetCrc, HeaderAccepted, CommitAccepts, AllAcceptable, ParseSlot, SuperblockHeader, EntriesBytes;
    CommitAcceptsFits(es);
    var b, m := SuperblockBytes(generation, es), ManifestBytes(es);
    SuperblockLayout(generation, es);
    SuperblockFields(b, generation, |m|, Crc32.Crc(m));
    CountField(es);
    assert EntryOffset(es, 0) == 4 by { NoEntries(es); }
    assert es[..0] == [] && es[0..] == es;
    ScanReads(es, 0);
    ParseIs(b, m);
  }

  lemma ParseIs(b: seq<byte>, m: seq<byte>)
    requires |b| == BLOCK_SIZE && HeaderAccepted(b) && Get32(b, 20) == |m| <= BLOCK_SIZE - SUPERBLOCK_HEADER
    requires b[SUPERBLOCK_HEADER..SUPERBLOCK_HEADER + |m|] == m && |m| >= 4 && GetCrc(b, 24) == Crc32.Crc(m)
    ensures ChecksumAccepts(b)
    ensures
      var scan := ScanEntries(m, 4, Get32(m, 0), []);
      ParseSlot(b) == if scan.Some? then Some(Superblock(Get64(b, 12), scan.value)) else None
  {}

  lemma CommitAcceptsFits(es: seq<Entry>)
    requires CommitAccepts(es)
    ensures |ManifestBytes(es)| <= BLOCK_SIZE - SUPERBLOCK_HEADER
  {}

  // ----- Open, then commit -----

  /** What the entry loop of `open` has established about the entries read so far. */
  ghost predicate ReadSoFar(parsed: seq<Entry>)
  {
    DistinctNames(parsed) && AllAcceptable(parsed) && forall k :: 0 <= k < |parsed| ==> |parsed[k].name| <= LARGEST_NAME
  }

  lemma ReadEntrySound(m: seq<byte>, offset: nat, parsed: seq<Entry>)
    requires ReadSoFar(parsed) && ReadEntry(m, offset, Names(parsed)).Some?
    ensures ReadSoFar(parsed + [ReadEntry(m, offset, Names(parsed)).value])
  {
    hide Acceptable, EntryAt, Get16, Names;
    var e := ReadEntry(m, offset, Names(parsed)).value;
    assert |e.name| <= LARGEST_NAME by { NameLength(m, offset, Get16(m, offset)); }
    var more := parsed + [e];
    assert more[..|parsed|] == parsed && more[..|more|] == more;
    DistinctNamesSnoc(more, |parsed|);
  }

  lemma NameLength(m: seq<byte>, offset: nat, length: nat)
    requires offset + ENTRY_SIZE + length <= |m|
    ensures |EntryAt(m, offset, length).name| == length
  {}

  lemma EntriesAppend(parsed: seq<Entry>, e: Entry)
    ensures |EntriesBytes(parsed + [e])| == |EntriesBytes(parsed)| + ENTRY_SIZE + |e.name|
  {}

  lemma {:induction false} ScanSound(m: seq<byte>, offset: nat, remaining: nat, parsed: seq<Entry>)
    requires ReadSoFar(parsed) && offset == 4 + |EntriesBytes(parsed)|
    ensures
      var r := ScanEntries(m, offset, remaining, parsed);
      r.Some? ==> ReadSoFar(r.value) && 4 + |EntriesBytes(r.value)| == |m|
    decreases remaining
  {
    hide EntriesBytes, ScanEntries, ReadEntry, ReadSoFar, Names;
    if remaining == 0 {
      ScanEntriesEnd(m, offset, parsed);
    } else {
      ScanEntriesStep(m, offset, remaining, parsed);
      var e := ReadEntry(m, offset, Names(parsed));
      if e.Some? {
        ReadEntrySound(m, offset, parsed);
        EntriesAppend(parsed, e.value);
        ScanSound(m, offset + ENTRY_SIZE + |e.value.name|, remaining - 1, parsed + [e.value]);
      }
    }
  }

  lemma NothingRead(parsed: seq<Entry>)
    requires parsed == []
    ensures ReadSoFar(parsed) && |EntriesBytes(parsed)| == 0
  {}

  lemma ParsedScan(b: seq<byte>) returns (m: seq<byte>)
    requires |b| == BLOCK_SIZE && ParseSlot(b).Some?
    ensures 4 <= |m| <= BLOCK_SIZE - SUPERBLOCK_HEADER
    ensures ScanEntries(m, 4, Get32(m, 0), []) == Some(ParseSlot(b).value.entries)
  {
    hide ScanEntries, Get32, Get64, GetCrc, HeaderAccepted;
    m := b[SUPERBLOCK_HEADER..SUPERBLOCK_HEADER + Get32(b, 20)];
  }

  lemma AcceptableForCommit(e: Entry)
    requires Acceptable(e) && |e.name| <= LARGEST_NAME
    ensures CommitAcceptsEntry(e)
  {}

  /** Whatever open accepts, commit can publish again. */
  lemma ParsedIsCommittable(b: seq<byte>)
    requires |b| == BLOCK_SIZE && ParseSlot(b).Some?
    ensures CommitAccepts(ParseSlot(b).value.entries) && AllAcceptable(ParseSlot(b).value.entries)
  {
    hide ParseSlot, ScanEntries, EntriesBytes, Acceptable, CommitAcceptsEntry;
    var m := ParsedScan(b);
    var es := ParseSlot(b).value.entries;
    NothingRead([]);
    ScanSound(m, 4, Get32(m, 0), []);
    forall k | 0 <= k < |es| ensures CommitAcceptsEntry(es[k]) {
      AcceptableForCommit(es[k]);
    }
  }
}
