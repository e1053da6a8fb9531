/**
  The manifest and the superblock that carries it (`Filesystem::commit` and the slot checks of
  `Filesystem::open` in src/ezfa3fs_live_filesystem.cpp), transactional layout.
 */
module Manifest {
  import opened Bytes
  import opened Paths
  import Crc32
  import PackedBlock

  datatype Storage = Dedicated | Packed

  datatype Entry = Entry(
    name: Name,
    size: u64,
    modifiedTime: u64,
    crc: bv32,
    firstBlock: u32,
    blockCount: u32,
    directory: bool,
    storage: Storage,
    packedGeneration: u64,
    packedRecordId: u32,
    packedRecordOffset: u32)

  datatype Superblock = Superblock(generation: u64, entries: seq<Entry>)

  const FIRST_DATA_BLOCK: nat := 2
  const SUPERBLOCK_HEADER: nat := 32
  const ENTRY_SIZE: nat := 48
  const MAJOR: u16 := 0
  const PACKED_MINOR: u16 := 3
  const COMMIT_MARKER: u32 := 0xC0FF17ED
  /** "EZFA3FS" and a zero byte. */
  const FORMAT_MAGIC: seq<byte> := [0x45, 0x5A, 0x46, 0x41, 0x33, 0x46, 0x53, 0x00]
  const LARGEST_NAME: nat := 0xFFFF

  function DirectoryEntry(path: Name): Entry
  {
    Entry(path, 0, 0, 0, 0, 0, true, Dedicated, 0, 0, 0)
  }

  // ----- What commit accepts -----

  predicate PackedFieldsOk(e: Entry)
  {
    && !e.directory && 0 < e.size <= PackedBlock.THRESHOLD && e.blockCount == 1
    && e.packedGeneration != 0 && e.packedRecordId != 0
    && PackedBlock.HEADER_SIZE <= e.packedRecordOffset < BLOCK_SIZE
  }

  predicate DedicatedFieldsOk(e: Entry)
  {
    e.packedGeneration == 0 && e.packedRecordId == 0 && e.packedRecordOffset == 0
  }

  predicate CommitAcceptsEntry(e: Entry)
  {
    && |e.name| <= LARGEST_NAME
    && (if e.storage.Packed? then PackedFieldsOk(e) else DedicatedFieldsOk(e))
  }

  function Names(es: seq<Entry>): set<Name>
  {
    set k | 0 <= k < |es| :: es[k].name
  }

  predicate DistinctNames(es: seq<Entry>)
  {
    forall i, j :: 0 <= i < j < |es| ==> es[i].name != es[j].name
  }

  function Flags(e: Entry): byte
  {
    (if e.directory then 1 else 0) | (if e.storage.Packed? then 2 else 0)
  }

  function EntryHeader(e: Entry): (s: seq<byte>)
    ensures |s| == ENTRY_SIZE
  {
    LittleEndian(|e.name|, 2) + [Flags(e)] + [0] + Put64(e.size) + Put64(e.modifiedTime) + PutCrc(e.crc)
    + Put32(e.firstBlock) + Put32(e.blockCount) + Put64(e.packedGeneration) + Put32(e.packedRecordId)
    + Put32(e.packedRecordOffset)
  }

  function EntryBytes(e: Entry): (s: seq<byte>)
    ensures |s| == ENTRY_SIZE + |e.name|
  {
    EntryHeader(e) + e.name
  }

  function EntriesBytes(es: seq<Entry>): seq<byte>
  {
    if es == [] then []
    else
      var last := |es| - 1;
      EntriesBytes(es[..last]) + EntryBytes(es[last])
  }

  function ManifestBytes(es: seq<Entry>): seq<byte>
  {
    LittleEndian(|es|, 4) + EntriesBytes(es)
  }

  predicate CommitAccepts(es: seq<Entry>)
  {
    && DistinctNames(es)
    && (forall k :: 0 <= k < |es| ==> CommitAcceptsEntry(es[k]))
    && |ManifestBytes(es)| <= BLOCK_SIZE - SUPERBLOCK_HEADER
  }

  /** The header of a superblock in either layout: they differ in magic and minor version. */
  function TaggedHeader(magic: seq<byte>, minor: u16, generation: u64, length: nat, crc: bv32): (s: seq<byte>)
    requires |magic| == 8
    ensures |s| == SUPERBLOCK_HEADER
  {
    magic + Put16(MAJOR) + Put16(minor) + Put64(generation) + LittleEndian(length, 4) + PutCrc(crc) + Put32(COMMIT_MARKER)
  }

  function SuperblockHeader(generation: u64, length: nat, crc: bv32): (s: seq<byte>)
    ensures |s| == SUPERBLOCK_HEADER
  {
    TaggedHeader(FORMAT_MAGIC, PACKED_MINOR, generation, length, crc)
  }

  /** The block `commit` programs. */
  function SuperblockBytes(generation: u64, es: seq<Entry>): (s: seq<byte>)
    requires |ManifestBytes(es)| <= BLOCK_SIZE - SUPERBLOCK_HEADER
    ensures |s| == BLOCK_SIZE
  {
    var m := ManifestBytes(es);
    SuperblockHeader(generation, |m|, Crc32.Crc(m)) + m + Repeat(BLANK, BLOCK_SIZE - SUPERBLOCK_HEADER - |m|)
  }

  lemma EntriesSnoc(es: seq<Entry>, i: nat)
    requires i < |es|
    ensures EntriesBytes(es[..i + 1]) == EntriesBytes(es[..i]) + EntryBytes(es[i])
  {
    hide EntryBytes;
    assert es[..i + 1][..i] == es[..i];
  }

  lemma DistinctNamesSnoc(es: seq<Entry>, i: nat)
    requires i < |es| && DistinctNames(es[..i])
    ensures es[i].name !in Names(es[..i]) <==> DistinctNames(es[..i + 1])
    ensures !DistinctNames(es[..i + 1]) ==> !DistinctNames(es)
  {}

  lemma NamesSnoc(es: seq<Entry>, i: nat)
    requires i < |es|
    ensures Names(es[..i + 1]) == Names(es[..i]) + {es[i].name}
  {}

  /** The entries `commit` is willing to serialize, whatever their number. */
  predicate EntriesAccepted(es: seq<Entry>)
  {
    DistinctNames(es) && forall k :: 0 <= k < |es| ==> CommitAcceptsEntry(es[k])
  }

  /** The entry loop of `commit`. */
  method BuildManifest(entries: seq<Entry>) returns (ok: bool, manifest: seq<byte>)
    ensures ok <==> EntriesAccepted(entries)
    ensures ok ==> manifest == ManifestBytes(entries)
  {
    hide EntryBytes, EntriesBytes, CommitAcceptsEntry;
    manifest := LittleEndian(|entries|, 4);
    var names: set<Name> := {};
    var i := 0;
    NoEntries(entries);
    while i < |entries|
      invariant 0 <= i <= |entries|
      invariant DistinctNames(entries[..i]) && names == Names(entries[..i])
      invariant forall k :: 0 <= k < i ==> CommitAcceptsEntry(entries[k])
      invariant manifest == LittleEndian(|entries|, 4) + EntriesBytes(entries[..i])
    {
      var e := entries[i];
      DistinctNamesSnoc(entries, i);
      NamesSnoc(entries, i);
      EntriesSnoc(entries, i);
      if e.name in names || !CommitAcceptsEntry(e) {
        return false, [];
      }
      names := names + {e.name};
      manifest := manifest + EntryBytes(e);
      i := i + 1;
    }
    assert entries[..i] == entries;
    ok := true;
  }

  /** Builds the superblock the way `commit` does, or refuses the entries. */
  method BuildSuperblock(generation: u64, entries: seq<Entry>) returns (ok: bool, block: seq<byte>)
    ensures ok <==> CommitAccepts(entries)
    ensures ok ==> |block| == BLOCK_SIZE && block == SuperblockBytes(generation, entries)
  {
    hide ManifestBytes, SuperblockHeader, CommitAcceptsEntry;
    block := [];
    var manifest;
    ok, manifest := BuildManifest(entries);
    if !ok || |manifest| > BLOCK_SIZE - SUPERBLOCK_HEADER {
      return false, [];
    }
    var crc := Crc32.Calculate(manifest);
    block := SuperblockHeader(generation, |manifest|, crc) + manifest
      + Repeat(BLANK, BLOCK_SIZE - SUPERBLOCK_HEADER - |manifest|);
  }

  lemma NoEntries(es: seq<Entry>)
    ensures DistinctNames(es[..0]) && Names(es[..0]) == {} && EntriesBytes(es[..0]) == []
  {}

  // ----- What open accepts -----

  /** The per-entry checks of `open` that both layouts share. */
  predicate FieldsOk(e: Entry)
  {
    && ValidPath(e.name)
    && (e.directory || e.blockCount != 0 || e.size == 0)
    && (e.directory ==> e.size == 0 && e.blockCount == 0 && e.firstBlock == 0 && e.crc == 0)
    && (if e.storage.Packed? then PackedFieldsOk(e) else DedicatedFieldsOk(e))
    && (!e.directory ==> e.size <= e.blockCount * BLOCK_SIZE)
  }

  /** The per-entry checks of `open`, other than name uniqueness. */
  predicate Acceptable(e: Entry)
  {
    FieldsOk(e) && (!e.directory ==> FIRST_DATA_BLOCK <= e.firstBlock && e.firstBlock + e.blockCount <= BLOCK_COUNT)
  }

  predicate AllAcceptable(es: seq<Entry>)
  {
    forall k :: 0 <= k < |es| ==> Acceptable(es[k])
  }

  function EntryAt(m: seq<byte>, offset: nat, nameLength: nat): Entry
    requires offset + ENTRY_SIZE + nameLength <= |m|
  {
    Entry(m[offset + ENTRY_SIZE..offset + ENTRY_SIZE + nameLength],
          Get64(m, offset + 4), Get64(m, offset + 12), GetCrc(m, offset + 20),
          Get32(m, offset + 24), Get32(m, offset + 28),
          m[offset + 2] & 1 != 0, if m[offset + 2] & 2 != 0 then Packed else Dedicated,
          Get64(m, offset + 32), Get32(m, offset + 40), Get32(m, offset + 44))
  }

  /** The entry at `offset`, if it is whole and acceptable. */
  function ReadEntry(m: seq<byte>, offset: nat, names: set<Name>): (r: Option<Entry>)
    ensures r.Some? ==> offset + ENTRY_SIZE + |r.value.name| <= |m|
  {
    if offset + ENTRY_SIZE > |m| then None
    else
      var nameLength := Get16(m, offset);
      if nameLength == 0 || offset + ENTRY_SIZE + nameLength > |m| then None
      else
        var e := EntryAt(m, offset, nameLength);
        if Acceptable(e) && e.name !in names && m[offset + 2] & 0xFC == 0 then Some(e) else None
  }

  function ScanEntries(m: seq<byte>, offset: nat, remaining: nat, parsed: seq<Entry>): Option<seq<Entry>>
    decreases remaining
  {
    if remaining == 0 then
      if offset == |m| then Some(parsed) else None
    else
      var e := ReadEntry(m, offset, Names(parsed));
      if e.None? then None
      else ScanEntries(m, offset + ENTRY_SIZE + |e.value.name|, remaining - 1, parsed + [e.value])
  }

  predicate HeaderAccepted(block: seq<byte>)
    requires |block| == BLOCK_SIZE
  {
    && block[..8] == FORMAT_MAGIC && Get16(block, 8) == MAJOR && Get16(block, 10) == PACKED_MINOR
    && Get32(block, 28) == COMMIT_MARKER
  }

  /** Everything but the entries: magic, version, marker, length and checksum. */
  predicate ChecksumAccepts(block: seq<byte>)
    requires |block| == BLOCK_SIZE
  {
    && HeaderAccepted(block)
    && Get32(block, 20) <= BLOCK_SIZE - SUPERBLOCK_HEADER
    && Crc32.Crc(block[SUPERBLOCK_HEADER..SUPERBLOCK_HEADER + Get32(block, 20)]) == GetCrc(block, 24)
  }

  /** How `open` reads one slot. */
  function ParseSlot(block: seq<byte>): (r: Option<Superblock>)
    requires |block| == BLOCK_SIZE
    ensures r.Some? ==> ChecksumAccepts(block)
  {
    if !ChecksumAccepts(block) then None
    else
      var m := block[SUPERBLOCK_HEADER..SUPERBLOCK_HEADER + Get32(block, 20)];
      if |m| < 4 then None
      else
        match ScanEntries(m, 4, Get32(m, 0), [])
        case None => None
        case Some(entries) => Some(Superblock(Get64(block, 12), entries))
  }

  lemma ScanEntriesEnd(m: seq<byte>, offset: nat, parsed: seq<Entry>)
    ensures ScanEntries(m, offset, 0, parsed) == if offset == |m| then Some(parsed) else None
  {}

  lemma ScanEntriesStep(m: seq<byte>, offset: nat, remaining: nat, parsed: seq<Entry>)
    requires remaining > 0
    ensures
      var e := ReadEntry(m, offset, Names(parsed));
      if e.None? then ScanEntries(m, offset, remaining, parsed) == None
      else
        ScanEntries(m, offset, remaining, parsed)
        == ScanEntries(m, offset + ENTRY_SIZE + |e.value.name|, remaining - 1, parsed + [e.value])
  {}

  lemma NamesAppend(es: seq<Entry>, e: Entry)
    ensures Names(es + [e]) == Names(es) + {e.name}
  {
    var more := es + [e];
    assert more[..|es|] == es && more[..|es| + 1] == more;
    NamesSnoc(more, |es|);
  }

  /** The slot loop of `open`. */
  method ReadSlot(block: seq<byte>) returns (r: Option<Superblock>)
    requires |block| == BLOCK_SIZE
    ensures r == ParseSlot(block)
  {
    hide Acceptable, ScanEntries, Names, Get16, Get32, Get64, GetCrc, EntryAt;
    if block[..8] != FORMAT_MAGIC || Get16(block, 8) != MAJOR || Get16(block, 10) != PACKED_MINOR
       || Get32(block, 28) != COMMIT_MARKER {
      return None;
    }
    var length := Get32(block, 20);
    if length > BLOCK_SIZE - SUPERBLOCK_HEADER {
      return None;
    }
    var m := block[SUPERBLOCK_HEADER..SUPERBLOCK_HEADER + length];
    var crc := Crc32.Calculate(m);
    if crc != GetCrc(block, 24) || length < 4 {
      return None;
    }
    var entries := ReadEntries(m);
    if entries.None? {
      return None;
    }
    r := Some(Superblock(Get64(block, 12), entries.value));
  }

  method ReadEntries(m: seq<byte>) returns (r: Option<seq<Entry>>)
    requires |m| >= 4
    ensures r == ScanEntries(m, 4, Get32(m, 0), [])
  {
    hide Acceptable, ScanEntries, Names, Get16, Get32, Get64, GetCrc, EntryAt;
    var count := Get32(m, 0);
    var offset: nat := 4;
    var parsed: seq<Entry> := [];
    var names: set<Name> := {};
    assert names == Names(parsed) by { NoNames(parsed); }
    var i := 0;
    while i < count
      invariant 0 <= i <= count
      invariant names == Names(parsed)
      invariant ScanEntries(m, 4, count, []) == ScanEntries(m, offset, count - i, parsed)
    {
      ScanEntriesStep(m, offset, count - i, parsed);
      if offset + ENTRY_SIZE > |m| {
        return None;
      }
      var nameLength := Get16(m, offset);
      if nameLength == 0 || offset + ENTRY_SIZE + nameLength > |m| {
        return None;
      }
      var e := EntryAt(m, offset, nameLength);
      if !Acceptable(e) || e.name in names || m[offset + 2] & 0xFC != 0 {
        return None;
      }
      NamesAppend(parsed, e);
      names := names + {e.name};
      parsed := parsed + [e];
      offset := offset + ENTRY_SIZE + |e.name|;
      i := i + 1;
    }
    ScanEntriesEnd(m, offset, parsed);
    r := if offset == |m| then Some(parsed) else None;
  }

  lemma NoNames(es: seq<Entry>)
    requires es == []
    ensures Names(es) == {}
  {}
}
