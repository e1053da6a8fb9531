/**
  Superblocks that are not whole, in either layout: which cuts open is certain to reject, and what
  decides about the others.
 */
module CutSlots {
  import opened Bytes
  import opened Manifest
  import opened DirectManifest
  import ManifestProofs
  import Crc32

  /** Open takes the slot for a superblock of one of the layouts, as far as magic, marker and checksum go. */
  predicate SlotAccepts(b: seq<byte>)
    requires |b| == BLOCK_SIZE
  {
    ChecksumAccepts(b) || DirectHeaderAccepted(b)
  }

  lemma MarkerBytes()
    ensures Put32(COMMIT_MARKER)[3] == 0xC0
  {
    assert COMMIT_MARKER / 256 == 0xC0FF17 && 0xC0FF17 / 256 == 0xC0FF && 0xC0FF / 256 == 0xC0;
    var s := LittleEndian(COMMIT_MARKER, 4);
    assert s[3] == LittleEndian(0xC0FF17, 3)[2] == LittleEndian(0xC0FF, 2)[1] == LittleEndian(0xC0, 1)[0];
  }

  /** The last byte of the commit marker is not blank, so a slot without it is rejected. */
  lemma NoMarker(b: seq<byte>)
    requires |b| == BLOCK_SIZE && b[31] == BLANK
    ensures !SlotAccepts(b)
  {
    hide SlotAccepts;
    MarkerBytes();
    assert b[28..32][3] == b[31];
    if SlotAccepts(b) {
      AcceptedMarker(b);
    }
  }

  lemma AcceptedMarker(b: seq<byte>)
    requires |b| == BLOCK_SIZE && SlotAccepts(b)
    ensures b[28..32] == Put32(COMMIT_MARKER)
  {
    LittleEndianOfValue(b[28..32]);
  }

  /** The slot after only the first `n` bytes of `data` reached an erased block. */
  function Cut(data: seq<byte>, n: nat): (s: seq<byte>)
    requires n <= |data|
    ensures |s| == |data|
  {
    data[..n] + Repeat(BLANK, |data| - n)
  }

  /** A cut within the header is always rejected. */
  lemma CutHeaderRejected(data: seq<byte>, n: nat)
    requires |data| == BLOCK_SIZE && n < SUPERBLOCK_HEADER
    ensures !SlotAccepts(Cut(data, n))
  {
    NoMarker(Cut(data, n));
  }

  /** What commit programs, in either layout: checksum over the manifest, and nothing behind it. */
  predicate Sealed(b: seq<byte>)
  {
    && |b| == BLOCK_SIZE && Get32(b, 20) <= BLOCK_SIZE - SUPERBLOCK_HEADER
    && Crc32.Crc(b[SUPERBLOCK_HEADER..SUPERBLOCK_HEADER + Get32(b, 20)]) == GetCrc(b, 24)
    && forall k :: SUPERBLOCK_HEADER + Get32(b, 20) <= k < BLOCK_SIZE ==> b[k] == BLANK
  }

  lemma CommitSeals(generation: u64, es: seq<Entry>)
    requires CommitAccepts(es)
    ensures Sealed(SuperblockBytes(generation, es))
  {
    hide SuperblockBytes, ManifestBytes, CommitAccepts, HeaderAccepted, Get32, Get64, GetCrc, SuperblockHeader;
    ManifestProofs.CommitAcceptsFits(es);
    var b, m := SuperblockBytes(generation, es), ManifestBytes(es);
    ManifestProofs.SuperblockLayout(generation, es);
    ManifestProofs.SuperblockFields(b, generation, |m|, Crc32.Crc(m));
    var end := SUPERBLOCK_HEADER + |m|;
    forall k | end <= k < BLOCK_SIZE ensures b[k] == BLANK {
      assert b[k] == b[end..][k - end];
    }
  }

  lemma DirectSeals(generation: u64, slot: u32, es: seq<Entry>)
    requires DirectCommitAccepts(es)
    ensures Sealed(DirectSuperblock(generation, slot, es))
  {
    hide DirectManifestBytes, ManifestBytes, EntriesAccepted, TaggedHeader, Get32, Get64, GetCrc, Get16;
    DirectLayout(generation, slot, es);
    DirectLength(slot, es);
  }

  /** Header and blank tail of a sealed superblock survive every cut behind the header. */
  lemma CutParts(b: seq<byte>, n: nat)
    requires Sealed(b) && SUPERBLOCK_HEADER <= n <= BLOCK_SIZE
    ensures
      var c, end := Cut(b, n), SUPERBLOCK_HEADER + Get32(b, 20);
      && c[..SUPERBLOCK_HEADER] == b[..SUPERBLOCK_HEADER] && c[end..] == b[end..]
      && Get32(c, 20) == Get32(b, 20) && GetCrc(c, 24) == GetCrc(b, 24)
      && (n >= end ==> c == b)
  {
    hide Get32, GetCrc;
    var c, end := Cut(b, n), SUPERBLOCK_HEADER + Get32(b, 20);
    assert c[20..24] == b[20..24];
    GetFrom(b, c);
    assert c[24] == b[24] && c[25] == b[25] && c[26] == b[26] && c[27] == b[27];
    CrcFrom(b, c);
  }

  lemma GetFrom(b: seq<byte>, c: seq<byte>)
    requires |b| == |c| == BLOCK_SIZE && b[20..24] == c[20..24]
    ensures Get32(b, 20) == Get32(c, 20)
  {}

  lemma CrcFrom(b: seq<byte>, c: seq<byte>)
    requires |b| == |c| == BLOCK_SIZE && b[24] == c[24] && b[25] == c[25] && b[26] == c[26] && b[27] == c[27]
    ensures GetCrc(b, 24) == GetCrc(c, 24)
  {}

  /** A cut behind the header is told from a whole superblock by the checksum alone. */
  lemma CutManifest(b: seq<byte>, n: nat)
    requires Sealed(b) && SUPERBLOCK_HEADER <= n <= BLOCK_SIZE
    ensures
      var c, end := Cut(b, n), SUPERBLOCK_HEADER + Get32(b, 20);
      SlotAccepts(c) <==>
        SlotAccepts(b) && Crc32.Crc(c[SUPERBLOCK_HEADER..end]) == Crc32.Crc(b[SUPERBLOCK_HEADER..end])
  {
    hide Get32, GetCrc, Get16;
    var c := Cut(b, n);
    CutParts(b, n);
    SameHeader(b, c);
  }

  lemma SameHeader(b: seq<byte>, c: seq<byte>)
    requires |b| == |c| == BLOCK_SIZE && b[..SUPERBLOCK_HEADER] == c[..SUPERBLOCK_HEADER]
    ensures b[..8] == c[..8] && Get16(b, 8) == Get16(c, 8) && Get16(b, 10) == Get16(c, 10) && Get32(b, 28) == Get32(c, 28)
  {
    assert b[..8] == b[..SUPERBLOCK_HEADER][..8] && c[..8] == c[..SUPERBLOCK_HEADER][..8];
    assert b[8..10] == b[..SUPERBLOCK_HEADER][8..10] && c[8..10] == c[..SUPERBLOCK_HEADER][8..10];
    assert b[10..12] == b[..SUPERBLOCK_HEADER][10..12] && c[10..12] == c[..SUPERBLOCK_HEADER][10..12];
    assert b[28..32] == b[..SUPERBLOCK_HEADER][28..32] && c[28..32] == c[..SUPERBLOCK_HEADER][28..32];
  }

  /** A cut that loses no more than the last four bytes of the manifest is always caught. */
  lemma CutTailRejected(b: seq<byte>, n: nat)
    requires Sealed(b) && SUPERBLOCK_HEADER <= n <= BLOCK_SIZE && n + 4 >= SUPERBLOCK_HEADER + Get32(b, 20)
    ensures Cut(b, n) == b || !SlotAccepts(Cut(b, n))
  {
    hide Get32, GetCrc, SlotAccepts, Cut, Sealed;
    SealedSizes(b);
    var c, end := Cut(b, n), SUPERBLOCK_HEADER + Get32(b, 20);
    CutParts(b, n);
    CutManifest(b, n);
    if n < end {
      var x, m := c[SUPERBLOCK_HEADER..end], b[SUPERBLOCK_HEADER..end];
      if x == m {
        SameParts(b, c, end);
      } else {
        SameBeforeCut(b, n, end);
        Crc32.DetectsBurst(x, m, n - SUPERBLOCK_HEADER);
      }
    }
  }

  lemma SealedSizes(b: seq<byte>)
    requires Sealed(b)
    ensures |b| == BLOCK_SIZE && SUPERBLOCK_HEADER + Get32(b, 20) <= BLOCK_SIZE
  {}

  lemma SameParts(b: seq<byte>, c: seq<byte>, end: nat)
    requires |b| == |c| && SUPERBLOCK_HEADER <= end <= |b|
    requires c[..SUPERBLOCK_HEADER] == b[..SUPERBLOCK_HEADER] && c[SUPERBLOCK_HEADER..end] == b[SUPERBLOCK_HEADER..end] && c[end..] == b[end..]
    ensures c == b
  {
    assert c == c[..SUPERBLOCK_HEADER] + c[SUPERBLOCK_HEADER..end] + c[end..];
    assert b == b[..SUPERBLOCK_HEADER] + b[SUPERBLOCK_HEADER..end] + b[end..];
  }

  lemma SameBeforeCut(b: seq<byte>, n: nat, end: nat)
    requires SUPERBLOCK_HEADER <= n <= end <= |b|
    ensures forall i :: 0 <= i < n - SUPERBLOCK_HEADER ==> Cut(b, n)[SUPERBLOCK_HEADER..end][i] == b[SUPERBLOCK_HEADER..end][i]
  {}

  /** The cuts about which only the checksum's luck decides: somewhere before the last four bytes of the manifest. */
  predicate Undecided(data: seq<byte>, n: nat)
  {
    n >= SUPERBLOCK_HEADER && (Sealed(data) ==> n + 4 < SUPERBLOCK_HEADER + Get32(data, 20))
  }

  /** Every other cut leaves the whole superblock or one that open rejects. */
  lemma CutDecided(data: seq<byte>, n: nat)
    requires |data| == BLOCK_SIZE && n <= BLOCK_SIZE && !Undecided(data, n)
    ensures Cut(data, n) == data || !SlotAccepts(Cut(data, n))
  {
    hide SlotAccepts, Get32, GetCrc;
    if n < SUPERBLOCK_HEADER {
      CutHeaderRejected(data, n);
    } else {
      CutTailRejected(data, n);
    }
  }

  // ----- Blocks that are not superblocks, however they are cut -----

  /** Open takes no prefix of the block for a direct-boot superblock. */
  predicate DirectQuiet(b: seq<byte>)
    requires |b| == BLOCK_SIZE
  {
    forall n: nat :: n <= BLOCK_SIZE ==> ParseDirect(Cut(b, n)).None?
  }

  /** Open takes no prefix of the block for a transactional superblock. */
  predicate SlotQuiet(b: seq<byte>)
    requires |b| == BLOCK_SIZE
  {
    forall n: nat :: n <= BLOCK_SIZE ==> ParseSlot(Cut(b, n)).None?
  }

  lemma CutTwice(b: seq<byte>, n: nat, m: nat)
    requires n <= |b| && m <= |b|
    ensures Cut(Cut(b, n), m) == Cut(b, if n < m then n else m)
  {}

  lemma QuietWhole(b: seq<byte>)
    requires |b| == BLOCK_SIZE
    ensures DirectQuiet(b) ==> ParseDirect(b).None?
    ensures SlotQuiet(b) ==> ParseSlot(b).None?
  {
    hide ParseDirect, ParseSlot;
    assert Cut(b, BLOCK_SIZE) == b;
  }

  /** A block stays quiet when it is cut. */
  lemma QuietCut(b: seq<byte>, n: nat)
    requires |b| == BLOCK_SIZE && n <= BLOCK_SIZE
    ensures DirectQuiet(b) ==> DirectQuiet(Cut(b, n))
    ensures SlotQuiet(b) ==> SlotQuiet(Cut(b, n))
  {
    hide ParseDirect, ParseSlot, Cut;
    forall m: nat | m <= BLOCK_SIZE ensures Cut(Cut(b, n), m) == Cut(b, if n < m then n else m) {
      CutTwice(b, n, m);
    }
  }

  /** A block that does not begin with the magic number is quiet. */
  lemma OtherMagic(b: seq<byte>)
    requires |b| == BLOCK_SIZE
    ensures b[..8] != DIRECT_MAGIC ==> DirectQuiet(b)
    ensures b[..8] != FORMAT_MAGIC ==> SlotQuiet(b)
  {
    hide ParseDirect, ParseSlot, SlotAccepts;
    forall n: nat | n <= BLOCK_SIZE
      ensures b[..8] != DIRECT_MAGIC ==> ParseDirect(Cut(b, n)).None?
      ensures b[..8] != FORMAT_MAGIC ==> ParseSlot(Cut(b, n)).None?
    {
      if n < SUPERBLOCK_HEADER {
        CutHeaderRejected(b, n);
      } else {
        assert Cut(b, n)[..8] == b[..8];
      }
      RejectedBlock(Cut(b, n));
    }
  }

  lemma RejectedBlock(b: seq<byte>)
    requires |b| == BLOCK_SIZE
    ensures b[..8] != DIRECT_MAGIC || !SlotAccepts(b) ==> ParseDirect(b).None?
    ensures b[..8] != FORMAT_MAGIC || !SlotAccepts(b) ==> ParseSlot(b).None?
  {}

  lemma BlankQuiet(b: seq<byte>)
    requires |b| == BLOCK_SIZE && b[..8] == Repeat(BLANK, 8)
    ensures DirectQuiet(b) && SlotQuiet(b)
  {
    assert b[..8][0] == BLANK;
    OtherMagic(b);
  }
}
