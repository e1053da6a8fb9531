/**
  The manifest of the direct-boot layout: a boot ROM at cartridge offset zero inside a slot of
  reserved blocks, metadata in the last two blocks. It shows exactly when `open` takes back what
  `commit` wrote.
 */
module DirectManifest {
  import opened Bytes
  import opened Paths
  import opened Manifest
  import opened ManifestProofs
  import Crc32

  /** "EZFA3DB" and a zero byte. */
  const DIRECT_MAGIC: seq<byte> := [0x45, 0x5A, 0x46, 0x41, 0x33, 0x44, 0x42, 0x00]
  const DIRECT_MINOR: u16 := 4
  const DATA_END: nat := BLOCK_COUNT - 2

  datatype DirectVolume = DirectVolume(generation: u64, slot: u32, entries: seq<Entry>)

  predicate SameLetter(b: byte, lower: byte)
  {
    b == lower || b == lower - 0x20
  }

  /** A name in the root directory that ends in ".gba", in any case. */
  predicate RomName(p: Name)
  {
    && ValidPath(p) && SLASH !in p && |p| >= 5 && p[|p| - 4] == DOT
    && SameLetter(p[|p| - 3], 0x67) && SameLetter(p[|p| - 2], 0x62) && SameLetter(p[|p| - 1], 0x61)
  }

  /** The name of a boot ROM: something, a dot, and the letters g, b and a, small or capital. */
  lemma RomNameMeans(p: Name)
    ensures
      RomName(p) <==>
      && ValidPath(p) && SLASH !in p
      && exists stem: Name, g, b, a :: stem != [] && p == stem + [DOT, g, b, a]
           && (g == 0x67 || g == 0x47) && (b == 0x62 || b == 0x42) && (a == 0x61 || a == 0x41)
  {
    hide ValidPath;
    if |p| >= 5 {
      var n := |p| - 4;
      assert p == p[..n] + [p[n], p[n + 1], p[n + 2], p[n + 3]];
    }
  }

  predicate BootRom(e: Entry)
  {
    !e.directory && e.storage.Dedicated? && e.firstBlock == 0 && RomName(e.name)
  }

  /** The per-entry checks of `open`, other than name uniqueness and the slot. */
  predicate DirectAcceptable(e: Entry)
  {
    FieldsOk(e) && (!e.directory ==> e.firstBlock + e.blockCount <= DATA_END)
  }

  /** Only the boot ROM, listed first, may start below the end of the slot. */
  predicate Placed(e: Entry, slot: nat, first: bool)
  {
    || e.directory || e.firstBlock >= slot
    || (first && BootRom(e) && 0 < e.blockCount <= slot)
  }

  predicate PlacedFrom(es: seq<Entry>, slot: nat, i: nat)
  {
    forall k :: i <= k < |es| ==> DirectAcceptable(es[k]) && Placed(es[k], slot, k == 0)
  }

  predicate AllPlaced(es: seq<Entry>, slot: nat)
  {
    PlacedFrom(es, slot, 0)
  }

  function DirectManifestBytes(slot: u32, es: seq<Entry>): seq<byte>
  {
    Put32(slot) + ManifestBytes(es)
  }

  predicate DirectCommitAccepts(es: seq<Entry>)
  {
    EntriesAccepted(es) && 4 + |ManifestBytes(es)| <= BLOCK_SIZE - SUPERBLOCK_HEADER
  }

  function DirectSuperblock(generation: u64, slot: u32, es: seq<Entry>): (s: seq<byte>)
    requires 4 + |ManifestBytes(es)| <= BLOCK_SIZE - SUPERBLOCK_HEADER
    ensures |s| == BLOCK_SIZE
  {
    var m := DirectManifestBytes(slot, es);
    TaggedHeader(DIRECT_MAGIC, DIRECT_MINOR, generation, |m|, Crc32.Crc(m)) + m
    + Repeat(BLANK, BLOCK_SIZE - SUPERBLOCK_HEADER - |m|)
  }

  /** Builds the superblock the way `commit` does, or refuses the entries. */
  method BuildDirect(generation: u64, slot: u32, entries: seq<Entry>) returns (ok: bool, block: seq<byte>)
    ensures ok <==> DirectCommitAccepts(entries)
    ensures ok ==> |block| == BLOCK_SIZE && block == DirectSuperblock(generation, slot, entries)
  {
    hide ManifestBytes, TaggedHeader, EntriesAccepted;
    block := [];
    var listing;
    ok, listing := BuildManifest(entries);
    var manifest := Put32(slot) + listing;
    if !ok || |manifest| > BLOCK_SIZE - SUPERBLOCK_HEADER {
      return false, [];
    }
    var crc := Crc32.Calculate(manifest);
    block := TaggedHeader(DIRECT_MAGIC, DIRECT_MINOR, generation, |manifest|, crc) + manifest
      + Repeat(BLANK, BLOCK_SIZE - SUPERBLOCK_HEADER - |manifest|);
  }

  // ----- What open accepts -----

  function ReadDirect(m: seq<byte>, offset: nat, slot: nat, parsed: seq<Entry>): (r: Option<Entry>)
    ensures r.Some? ==> offset + ENTRY_SIZE + |r.value.name| <= |m|
  {
    if offset + ENTRY_SIZE > |m| then None
    else
      var nameLength := Get16(m, offset);
      if nameLength == 0 || offset + ENTRY_SIZE + nameLength > |m| then None
      else
        var e := EntryAt(m, offset, nameLength);
        if DirectAcceptable(e) && e.name !in Names(parsed) && m[offset + 2] & 0xFC == 0 && Placed(e, slot, parsed == []) then Some(e)
        else None
  }

  function ScanDirect(m: seq<byte>, offset: nat, remaining: nat, slot: nat, parsed: seq<Entry>): Option<seq<Entry>>
    decreases remaining
  {
    if remaining == 0 then
      if offset == |m| then Some(parsed) else None
    else
      var e := ReadDirect(m, offset, slot, parsed);
      if e.None? then None
      else ScanDirect(m, offset + ENTRY_SIZE + |e.value.name|, remaining - 1, slot, parsed + [e.value])
  }

  predicate DirectHeaderAccepted(block: seq<byte>)
    requires |block| == BLOCK_SIZE
  {
    && block[..8] == DIRECT_MAGIC && Get16(block, 8) == MAJOR && Get16(block, 10) == DIRECT_MINOR
    && Get32(block, 28) == COMMIT_MARKER && Get32(block, 20) <= BLOCK_SIZE - SUPERBLOCK_HEADER
    && Crc32.Crc(block[SUPERBLOCK_HEADER..SUPERBLOCK_HEADER + Get32(block, 20)]) == GetCrc(block, 24)
  }

  /** How `open` reads one of the two metadata blocks. */
  function ParseDirect(block: seq<byte>): Option<DirectVolume>
    requires |block| == BLOCK_SIZE
  {
    if !DirectHeaderAccepted(block) then None
    else
      ParseListing(Get64(block, 12), block[SUPERBLOCK_HEADER..SUPERBLOCK_HEADER + Get32(block, 20)])
  }

  function ParseListing(generation: u64, m: seq<byte>): Option<DirectVolume>
  {
    if |m| < 8 || !(0 < Get32(m, 0) <= DATA_END) then None
    else
      match ScanDirect(m, 8, Get32(m, 4), Get32(m, 0), [])
      case None => None
      case Some(entries) => Some(DirectVolume(generation, Get32(m, 0), entries))
  }

  lemma ScanDirectEnd(m: seq<byte>, offset: nat, slot: nat, parsed: seq<Entry>)
    ensures ScanDirect(m, offset, 0, slot, parsed) == if offset == |m| then Some(parsed) else None
  {}

  lemma ScanDirectStep(m: seq<byte>, offset: nat, remaining: nat, slot: nat, parsed: seq<Entry>)
    requires remaining > 0
    ensures
      var e := ReadDirect(m, offset, slot, parsed);
      if e.None? then ScanDirect(m, offset, remaining, slot, parsed) == None
      else
        ScanDirect(m, offset, remaining, slot, parsed)
        == ScanDirect(m, offset + ENTRY_SIZE + |e.value.name|, remaining - 1, slot, parsed + [e.value])
  {}

  /** The metadata loop of `open`, for one block. */
  method ReadDirectSlot(block: seq<byte>) returns (r: Option<DirectVolume>)
    requires |block| == BLOCK_SIZE
    ensures r == ParseDirect(block)
  {
    hide ParseListing, Get16, Get32, Get64, GetCrc;
    if block[..8] != DIRECT_MAGIC || Get16(block, 8) != MAJOR || Get16(block, 10) != DIRECT_MINOR
       || Get32(block, 28) != COMMIT_MARKER {
      return None;
    }
    var length := Get32(block, 20);
    if length > BLOCK_SIZE - SUPERBLOCK_HEADER {
      return None;
    }
    var crc := Crc32.Calculate(block[SUPERBLOCK_HEADER..SUPERBLOCK_HEADER + length]);
    if crc != GetCrc(block, 24) {
      return None;
    }
    r := ReadListing(Get64(block, 12), block[SUPERBLOCK_HEADER..SUPERBLOCK_HEADER + length]);
  }

  method ReadListing(generation: u64, m: seq<byte>) returns (r: Option<DirectVolume>)
    ensures r == ParseListing(generation, m)
  {
    hide DirectAcceptable, Placed, ScanDirect, Names, Get16, Get32, EntryAt;
    if |m| < 8 || Get32(m, 0) == 0 || Get32(m, 0) > DATA_END {
      return None;
    }
    var slot, count := Get32(m, 0), Get32(m, 4);
    var offset: nat := 8;
    var parsed: seq<Entry> := [];
    var names: set<Name> := {};
    assert names == Names(parsed) by { NoNames(parsed); }
    var i := 0;
    while i < count
      invariant 0 <= i <= count
      invariant names == Names(parsed)
      invariant ScanDirect(m, 8, count, slot, []) == ScanDirect(m, offset, count - i, slot, parsed)
    {
      ScanDirectStep(m, offset, count - i, slot, parsed);
      if offset + ENTRY_SIZE > |m| {
        return None;
      }
      var nameLength := Get16(m, offset);
      if nameLength == 0 || offset + ENTRY_SIZE + nameLength > |m| {
        return None;
      }
      var e := EntryAt(m, offset, nameLength);
      if !DirectAcceptable(e) || e.name in names || m[offset + 2] & 0xFC != 0 || !Placed(e, slot, parsed == []) {
        return None;
      }
      NamesAppend(parsed, e);
      names := names + {e.name};
      parsed := parsed + [e];
      offset := offset + ENTRY_SIZE + |e.name|;
      i := i + 1;
    }
    ScanDirectEnd(m, offset, slot, parsed);
    r := if offset == |m| then Some(DirectVolume(generation, slot, parsed)) else None;
  }

  // ----- Commit, then open -----

  function DirectOffset(es: seq<Entry>, i: nat): nat
    requires i <= |es|
  {
    8 + |EntriesBytes(es[..i])|
  }

  lemma DirectLength(slot: u32, es: seq<Entry>)
    ensures |DirectManifestBytes(slot, es)| == DirectOffset(es, |es|) == 4 + |ManifestBytes(es)|
    ensures DirectManifestBytes(slot, es)[8..] == EntriesBytes(es)
  {
    hide EntriesBytes, LittleEndian;
    assert es[..|es|] == es;
    var m := DirectManifestBytes(slot, es);
    assert m == Put32(slot) + LittleEndian(|es|, 4) + EntriesBytes(es);
  }

  lemma ReadDirectOne(es: seq<Entry>, slot: u32, i: nat)
    requires EntriesAccepted(es) && i < |es|
    ensures DirectOffset(es, i) + ENTRY_SIZE + |es[i].name| == DirectOffset(es, i + 1) <= |DirectManifestBytes(slot, es)|
    ensures ReadDirect(DirectManifestBytes(slot, es), DirectOffset(es, i), slot, es[..i])
         == if DirectAcceptable(es[i]) && Placed(es[i], slot, i == 0) then Some(es[i]) else None
  {
    hide EntryBytes, EntriesBytes, DirectManifestBytes, DirectAcceptable, Placed, EntryAt, Get16, Names;
    var m := DirectManifestBytes(slot, es);
    assert es[..|es|] == es;
    EntrySlice(es, i, |es|);
    DirectLength(slot, es);
    var lo, hi := |EntriesBytes(es[..i])|, |EntriesBytes(es[..i + 1])|;
    assert m[8..8 + |EntriesBytes(es)|] == EntriesBytes(es);
    SliceOfSlice(m, 8, EntriesBytes(es), lo, hi);
    assert CommitAcceptsEntry(es[i]);
    EntryFields(m, DirectOffset(es, i), es[i]);
    FirstNamesDistinct(es, i);
    DirectNonEmpty(es[i]);
  }

  lemma DirectNonEmpty(e: Entry)
    ensures DirectAcceptable(e) ==> e.name != []
  {}

  lemma {:induction false} ScanDirectReads(es: seq<Entry>, slot: u32, i: nat)
    requires EntriesAccepted(es) && i <= |es|
    ensures ScanDirect(DirectManifestBytes(slot, es), DirectOffset(es, i), |es| - i, slot, es[..i])
         == if PlacedFrom(es, slot, i) then Some(es) else None
    decreases |es| - i
  {
    hide EntriesBytes, DirectManifestBytes, ScanDirect, DirectAcceptable, Placed, ReadDirect, Names, EntriesAccepted;
    var m := DirectManifestBytes(slot, es);
    if i == |es| {
      assert es[..i] == es;
      DirectLength(slot, es);
      ScanDirectEnd(m, DirectOffset(es, i), slot, es);
    } else {
      ReadDirectOne(es, slot, i);
      ScanDirectStep(m, DirectOffset(es, i), |es| - i, slot, es[..i]);
      assert es[..i] + [es[i]] == es[..i + 1];
      ScanDirectReads(es, slot, i + 1);
    }
  }

  lemma ListingFields(slot: u32, es: seq<Entry>)
    requires DirectCommitAccepts(es)
    ensures
      var m := DirectManifestBytes(slot, es);
      8 <= |m| <= BLOCK_SIZE - SUPERBLOCK_HEADER && Get32(m, 0) == slot && Get32(m, 4) == |es|
  {
    hide Get32, EntriesBytes, LittleEndian;
    ManyEntries(es);
    var m := DirectManifestBytes(slot, es);
    assert m == Put32(slot) + LittleEndian(|es|, 4) + EntriesBytes(es);
    assert m[0..4] == Put32(slot) && m[4..8] == Put32(|es|);
    Field32(m, 0, slot); Field32(m, 4, |es|);
  }

  lemma DirectLayout(generation: u64, slot: u32, es: seq<Entry>)
    requires DirectCommitAccepts(es)
    ensures
      var b, m := DirectSuperblock(generation, slot, es), DirectManifestBytes(slot, es);
      && DirectHeaderAccepted(b) && Get64(b, 12) == generation && Get32(b, 20) == |m|
      && SUPERBLOCK_HEADER + |m| <= |b| && b[SUPERBLOCK_HEADER..SUPERBLOCK_HEADER + |m|] == m
  {
    hide TaggedHeader, DirectManifestBytes, ManifestBytes, EntriesAccepted, Get16, Get32, Get64, GetCrc;
    DirectLength(slot, es);
    ListingFields(slot, es);
    var b, m := DirectSuperblock(generation, slot, es), DirectManifestBytes(slot, es);
    assert b[..SUPERBLOCK_HEADER] == TaggedHeader(DIRECT_MAGIC, DIRECT_MINOR, generation, |m|, Crc32.Crc(m));
    TaggedFields(b, DIRECT_MAGIC, DIRECT_MINOR, generation, |m|, Crc32.Crc(m));
  }

  /** `open` takes back what `commit` wrote exactly when only the boot ROM starts below the end of the slot. */
  lemma DirectRoundTrip(generation: u64, slot: u32, es: seq<Entry>)
    requires DirectCommitAccepts(es)
    ensures ParseDirect(DirectSuperblock(generation, slot, es))
         == if 0 < slot <= DATA_END && AllPlaced(es, slot) then Some(DirectVolume(generation, slot, es)) else None
  {
    hide DirectSuperblock, DirectManifestBytes, ScanDirect, Get32, Get64, DirectHeaderAccepted, EntriesBytes, Placed, DirectAcceptable;
    DirectLayout(generation, slot, es);
    ListingFields(slot, es);
    assert DirectOffset(es, 0) == 8 by { NoEntries(es); }
    assert es[..0] == [];
    ScanDirectReads(es, slot, 0);
  }

  // ----- Open, then commit -----

  lemma DirectForCommit(e: Entry)
    requires DirectAcceptable(e) && |e.name| <= LARGEST_NAME
    ensures CommitAcceptsEntry(e)
  {}

  lemma ReadDirectSound(m: seq<byte>, offset: nat, slot: nat, parsed: seq<Entry>)
    requires EntriesAccepted(parsed) && AllPlaced(parsed, slot) && ReadDirect(m, offset, slot, parsed).Some?
    ensures
      var more := parsed + [ReadDirect(m, offset, slot, parsed).value];
      EntriesAccepted(more) && AllPlaced(more, slot)
  {
    hide DirectAcceptable, EntryAt, Get16, Names, Placed, CommitAcceptsEntry;
    var e := ReadDirect(m, offset, slot, parsed).value;
    assert |e.name| <= LARGEST_NAME by { NameLength(m, offset, Get16(m, offset)); }
    DirectForCommit(e);
    var more := parsed + [e];
    assert more[..|parsed|] == parsed && more[..|more|] == more;
    DistinctNamesSnoc(more, |parsed|);
    forall k | 0 <= k < |more| ensures DirectAcceptable(more[k]) && Placed(more[k], slot, k == 0) {
      if k < |parsed| {
        assert more[k] == parsed[k];
      }
    }
  }

  lemma {:induction false} ScanDirectSound(m: seq<byte>, offset: nat, remaining: nat, slot: nat, parsed: seq<Entry>)
    requires EntriesAccepted(parsed) && AllPlaced(parsed, slot) && offset == 8 + |EntriesBytes(parsed)|
    ensures
      var r := ScanDirect(m, offset, remaining, slot, parsed);
      r.Some? ==> EntriesAccepted(r.value) && AllPlaced(r.value, slot) && 8 + |EntriesBytes(r.value)| == |m|
    decreases remaining
  {
    hide EntriesBytes, ScanDirect, ReadDirect, EntriesAccepted, AllPlaced, Names;
    if remaining == 0 {
      ScanDirectEnd(m, offset, slot, parsed);
    } else {
      ScanDirectStep(m, offset, remaining, slot, parsed);
      var e := ReadDirect(m, offset, slot, parsed);
      if e.Some? {
        ReadDirectSound(m, offset, slot, parsed);
        EntriesAppend(parsed, e.value);
        ScanDirectSound(m, offset + ENTRY_SIZE + |e.value.name|, remaining - 1, slot, parsed + [e.value]);
      }
    }
  }

  lemma NothingListed(parsed: seq<Entry>, slot: nat)
    requires parsed == []
    ensures EntriesAccepted(parsed) && AllPlaced(parsed, slot) && |EntriesBytes(parsed)| == 0
  {}

  lemma ParsedListing(b: seq<byte>) returns (m: seq<byte>)
    requires |b| == BLOCK_SIZE && ParseDirect(b).Some?
    ensures 8 <= |m| <= BLOCK_SIZE - SUPERBLOCK_HEADER && 0 < ParseDirect(b).value.slot <= DATA_END
    ensures ScanDirect(m, 8, Get32(m, 4), ParseDirect(b).value.slot, []) == Some(ParseDirect(b).value.entries)
  {
    hide ScanDirect, Get32, Get64, GetCrc;
    m := b[SUPERBLOCK_HEADER..SUPERBLOCK_HEADER + Get32(b, 20)];
  }

  /** Whatever `open` accepts keeps the slot to the boot ROM, and `commit` can publish it again. */
  lemma ParsedIsPlaced(b: seq<byte>)
    requires |b| == BLOCK_SIZE && ParseDirect(b).Some?
    ensures
      var v := ParseDirect(b).value;
      0 < v.slot <= DATA_END && AllPlaced(v.entries, v.slot) && DirectCommitAccepts(v.entries)
  {
    hide ParseDirect, ScanDirect, EntriesBytes, AllPlaced, EntriesAccepted;
    var m := ParsedListing(b);
    NothingListed([], ParseDirect(b).value.slot);
    ScanDirectSound(m, 8, Get32(m, 4), ParseDirect(b).value.slot, []);
    DirectLength(0, ParseDirect(b).value.entries);
  }
}
