/**
  The block device the filesystem runs on, with arbitrary failures: a program request may stop
  after any number of bytes, an erase may leave anything in its block, a read may fail, and a
  request may be reported failed although it took effect. Any request may also lose power part
  way; from then on every request fails without effect until power returns. Whatever is proved
  from these contracts therefore covers power cuts at every byte of every program and in the
  middle of every erase.
 */
module Device {
  import opened Bytes
  import CutSlots
  import DirectManifest
  import NorFlash

  type Block = s: seq<byte> | |s| == BLOCK_SIZE witness Repeat(BLANK, BLOCK_SIZE)
  type Image = s: seq<Block> | |s| == BLOCK_COUNT witness seq(BLOCK_COUNT, i => Repeat(BLANK, BLOCK_SIZE))

  const BLANK_BLOCK: Block := Repeat(BLANK, BLOCK_SIZE)

  /** No 0-to-1 transition: the block may be programmed with `data`. */
  ghost predicate Programmable(before: Block, data: Block)
  {
    NorFlash.Allowed(before, data, BLOCK_SIZE)
  }

  /** The block after a program request that stopped after some prefix. */
  ghost predicate CutShort(before: Block, data: Block, after: Block)
  {
    exists n: nat :: n <= BLOCK_SIZE && after == NorFlash.AndPrefix(before, data, n)
  }

  /** `a` and `b` differ at most in block `b`. */
  ghost predicate SameBut(a: Image, b: Image, block: nat)
  {
    forall k :: 0 <= k < BLOCK_COUNT && k != block ==> a[k] == b[k]
  }

  /** `a` and `b` differ at most in the given blocks. */
  ghost predicate SameOutside(a: Image, b: Image, blocks: set<nat>)
  {
    forall k :: 0 <= k < BLOCK_COUNT && k !in blocks ==> a[k] == b[k]
  }

  /** `a` and `b` differ at most in `count` blocks from `first` on. */
  ghost predicate SameOutsideRun(a: Image, b: Image, first: nat, count: nat)
  {
    forall k :: 0 <= k < BLOCK_COUNT && !(first <= k < first + count) ==> a[k] == b[k]
  }

  function Members(blocks: seq<nat>): (s: set<nat>)
    ensures forall b :: b in s <==> b in blocks
  {
    set b | b in blocks
  }

  ghost predicate ProgramOutcome(before: Image, block: nat, data: Block, ok: bool, after: Image)
  {
    && SameBut(before, after, block)
    && (block >= BLOCK_COUNT ==> !ok)
    && (block < BLOCK_COUNT ==>
      if ok then Programmable(before[block], data) && after[block] == data
      else CutShort(before[block], data, after[block]))
  }

  ghost predicate EraseOutcome(before: Image, block: nat, ok: bool, after: Image)
  {
    && SameBut(before, after, block)
    && (block >= BLOCK_COUNT ==> !ok)
    && (ok ==> after[block] == BLANK_BLOCK)
  }

  /** The in-memory chip, seen block by block. */
  ghost function ImageOf(c: NorFlash.Chip): Image
    requires NorFlash.ValidChip(c)
  {
    seq(BLOCK_COUNT, b requires 0 <= b < BLOCK_COUNT => NorFlash.BlockOf(c.bytes, b))
  }

  lemma OtherBlockKept(bytes: seq<byte>, block: nat, data: Block, k: nat)
    requires |bytes| == NorFlash.CAPACITY && block < BLOCK_COUNT && k < BLOCK_COUNT && k != block
    ensures NorFlash.BlockOf(Splice(bytes, block * BLOCK_SIZE, data), k) == NorFlash.BlockOf(bytes, k)
  {
    SpliceOutside(bytes, block * BLOCK_SIZE, data, k * BLOCK_SIZE, (k + 1) * BLOCK_SIZE);
  }

  /** The flash class, with its injected fault armed or not, is one of the devices described here. */
  lemma NorProgramIsOutcome(c: NorFlash.Chip, block: nat, data: Block)
    requires NorFlash.ValidChip(c) && block < BLOCK_COUNT
    ensures
      var (d, ok) := NorFlash.ProgramChip(c, block * BLOCK_SIZE, data);
      ProgramOutcome(ImageOf(c), block, data, ok, ImageOf(d))
  {
    hide NorFlash.Allowed, NorFlash.AndPrefix;
    var (d, ok) := NorFlash.ProgramChip(c, block * BLOCK_SIZE, data);
    var before := NorFlash.BlockOf(c.bytes, block);
    var writable := if c.fault.Some? then Min(BLOCK_SIZE, c.fault.value) else BLOCK_SIZE;
    if NorFlash.Allowed(before, data, writable) {
      var masked := NorFlash.AndPrefix(before, data, writable);
      forall k | 0 <= k < BLOCK_COUNT && k != block ensures ImageOf(c)[k] == ImageOf(d)[k] {
        OtherBlockKept(c.bytes, block, masked, k);
      }
      assert ImageOf(d)[block] == masked;
      if ok {
        NorFlash.ProgrammedIsSource(before, data);
      }
    } else {
      assert ImageOf(d) == ImageOf(c);
      NothingProgrammed(before, data);
      assert before == NorFlash.AndPrefix(before, data, 0);
    }
  }

  lemma NothingProgrammed(before: Block, data: Block)
    ensures NorFlash.AndPrefix(before, data, 0) == before
  {}

  lemma NorEraseIsOutcome(c: NorFlash.Chip, block: nat)
    requires NorFlash.ValidChip(c)
    ensures
      var (d, ok) := NorFlash.EraseChip(c, block);
      EraseOutcome(ImageOf(c), block, ok, ImageOf(d))
  {
    var (d, ok) := NorFlash.EraseChip(c, block);
    if block < BLOCK_COUNT {
      forall k | 0 <= k < BLOCK_COUNT && k != block ensures ImageOf(c)[k] == ImageOf(d)[k] {
        OtherBlockKept(c.bytes, block, BLANK_BLOCK, k);
      }
    }
  }

  /** An erase request, with what the two superblock slots held when it was issued. */
  datatype EraseEvent = EraseEvent(slot0: Block, slot1: Block, block: nat)

  /** The slot is rejected unless it is unchanged or wholly written. */
  predicate ChecksumSound(before: Block, data: Block, after: Block)
  {
    CutSlots.SlotAccepts(after) ==> after == before || after == data
  }

  /** The blocks in which `open` looks for superblocks of either layout. */
  predicate Probed(b: nat)
  {
    b < 2 || DirectManifest.DATA_END <= b < BLOCK_COUNT
  }

  /** The block is as it was, or nothing that open could take for a superblock. */
  predicate Wiped(before: Block, after: Block)
  {
    after == before || (CutSlots.DirectQuiet(after) && CutSlots.SlotQuiet(after))
  }

  /** Some prefix of `data` has been programmed into a blank block. */
  ghost predicate CutOf(data: Block, after: Block)
  {
    exists n: nat :: n <= BLOCK_SIZE && after == CutSlots.Cut(data, n)
  }

  lemma BlankIsWiped(before: Block)
    ensures Wiped(before, BLANK_BLOCK)
  {
    CutSlots.BlankQuiet(BLANK_BLOCK);
  }

  lemma BlankIsCut(data: Block)
    ensures CutOf(data, BLANK_BLOCK)
  {
    assert CutSlots.Cut(data, 0) == BLANK_BLOCK;
  }

  /** Whatever became of a program request on a blank block, a prefix of the data is there. */
  lemma ProgramIsCut(data: Block, after: Block)
    requires after == data || CutShort(BLANK_BLOCK, data, after)
    ensures CutOf(data, after)
  {
    if after == data {
      assert CutSlots.Cut(data, BLOCK_SIZE) == data;
    } else {
      var n: nat :| n <= BLOCK_SIZE && after == NorFlash.AndPrefix(BLANK_BLOCK, data, n);
      NorFlash.BlankAllows(data, n);
      assert after == CutSlots.Cut(data, n);
    }
  }

  class FaultyDevice {
    /** No request fails, except a program that asks for a 0-to-1 transition. */
    const faithful: bool
    /**
      Hypothesis: what a cut-short erase leaves in a block that open looks at, or a superblock write
      cut in the middle of its manifest, does not pass the checksum. About all other cuts nothing is
      supposed.
     */
    const checksumSound: bool
    var image: Image
    var powered: bool
    /** No program so far asked for a 0-to-1 transition, and no batch was sent after its preparation had been refused. */
    ghost var legal: bool
    /** The last preparation of a batch was refused. */
    ghost var refused: bool
    /** Every erase request so far. */
    ghost var erases: seq<EraseEvent>

    /** A device may hold anything when it is first attached. */
    constructor (contents: Image, faithful: bool, checksumSound: bool)
      ensures image == contents && powered && legal && erases == []
      ensures this.faithful == faithful && this.checksumSound == checksumSound
    {
      image, powered := contents, true;
      this.faithful, this.checksumSound := faithful, checksumSound;
      legal, erases, refused := true, [], false;
    }

    /** Power returns; the flash keeps what it holds. */
    method PowerOn()
      modifies this`powered
      ensures powered
    {
      powered := true;
    }

    /** Power goes, between two requests. */
    method PowerOff()
      modifies this`powered
      ensures !powered
    {
      powered := false;
    }

    /** The history of programs and erases starts here. */
    ghost method StartHistory()
      modifies this`legal, this`erases
      ensures legal && erases == []
    {
      legal, erases := true, [];
    }

    predicate Alive()
      reads this
    {
      powered || faithful
    }

    method Read(block: nat) returns (ok: bool, data: Block)
      ensures ok ==> Alive() && block < BLOCK_COUNT && data == image[block]
      ensures faithful && block < BLOCK_COUNT ==> ok
    {
      ok, data := false, BLANK_BLOCK;
      var fails: bool := *;
      if Alive() && block < BLOCK_COUNT && (faithful || !fails) {
        ok, data := true, image[block];
      }
    }

    method Program(block: nat, data: Block) returns (ok: bool)
      modifies this
      ensures ProgramOutcome(old(image), block, data, ok, image)
      ensures erases == old(erases)
      ensures old(legal) && block < BLOCK_COUNT && Programmable(old(image)[block], data) ==> legal
      ensures !old(Alive()) ==> !ok && !Alive() && image == old(image)
      ensures faithful && block < BLOCK_COUNT && Programmable(old(image)[block], data) ==> ok
    {
      if block >= BLOCK_COUNT {
        legal := false;
        return false;
      }
      legal := legal && Programmable(image[block], data);
      if !Alive() {
        NothingProgrammed(image[block], data);
        return false;
      }
      var writable: nat :| writable <= BLOCK_SIZE && (faithful ==> writable == BLOCK_SIZE);
      if !NorFlash.Allowed(image[block], data, writable) {
        NothingProgrammed(image[block], data);
        return false;
      }
      var reported: bool := *;
      var survives: bool := *;
      reported := reported || faithful;
      powered := reported || survives;
      var masked := NorFlash.AndPrefix(image[block], data, writable);
      ok := reported && writable == BLOCK_SIZE;
      if ok {
        NorFlash.ProgrammedIsSource(image[block], data);
      }
      image := image[block := masked];
    }

    method Erase(block: nat) returns (ok: bool)
      modifies this
      ensures EraseOutcome(old(image), block, ok, image)
      ensures legal == old(legal) && refused == old(refused)
      ensures erases == old(erases) + [EraseEvent(old(image)[0], old(image)[1], block)]
      ensures !old(Alive()) ==> !ok && !Alive() && image == old(image)
      ensures faithful && block < BLOCK_COUNT ==> ok
      ensures checksumSound && Probed(block) ==> Wiped(old(image)[block], image[block])
    {
      hide CutSlots.DirectQuiet, CutSlots.SlotQuiet;
      erases := erases + [EraseEvent(image[0], image[1], block)];
      if block >= BLOCK_COUNT || !Alive() {
        return false;
      }
      BlankIsWiped(image[block]);
      var leftOver: Block :| checksumSound && Probed(block) ==> Wiped(image[block], leftOver);
      ok := *;
      ok := ok || faithful;
      var survives: bool := *;
      powered := ok || survives;
      image := image[block := if ok then BLANK_BLOCK else leftOver];
    }

    /** Programs consecutive blocks until one fails; a device may also stop early and say so. */
    method ProgramBlocks(first: nat, source: seq<Block>) returns (ok: bool, completed: nat)
      modifies this
      ensures completed <= |source|
      ensures SameOutsideRun(old(image), image, first, |source|)
      ensures ok && completed == |source| ==> Stored(image, first, source)
      ensures erases == old(erases)
      ensures old(legal) && !old(refused) && first + |source| <= BLOCK_COUNT && BlankRun(old(image), first, |source|) ==> legal
      ensures faithful && first + |source| <= BLOCK_COUNT && BlankRun(old(image), first, |source|) ==> ok && completed == |source|
      ensures BlankRun(old(image), first, |source|) ==> CutRun(image, first, source)
    {
      hide CutSlots.Cut;
      legal := legal && !refused;
      var stop: nat :| stop <= |source| && (faithful ==> stop == |source|);
      completed := 0;
      if BlankRun(image, first, |source|) {
        BlankCuts(image, first, source);
      }
      while completed < stop
        invariant 0 <= completed <= stop <= |source|
        invariant SameOutsideRun(old(image), image, first, completed)
        invariant Stored(image, first, source[..completed])
        invariant erases == old(erases)
        invariant old(legal) && !old(refused) && first + |source| <= BLOCK_COUNT && BlankRun(old(image), first, |source|) ==> legal
        invariant BlankRun(old(image), first, |source|) ==> CutRun(image, first, source)
      {
        BlankProgrammable(source[completed]);
        assert first + completed < BLOCK_COUNT ==> image[first + completed] == old(image)[first + completed];
        ghost var before := image;
        var programmed := Program(first + completed, source[completed]);
        if BlankRun(old(image), first, |source|) && first + completed < BLOCK_COUNT {
          ProgramIsCut(source[completed], image[first + completed]);
        }
        if !programmed {
          return false, completed;
        }
        completed := completed + 1;
      }
      assert completed == |source| ==> source[..completed] == source;
      ok := true;
    }

    method EraseBlocks(blocks: seq<nat>) returns (ok: bool)
      modifies this
      ensures SameOutside(old(image), image, Members(blocks))
      ensures ok ==> forall b :: b in blocks ==> b < BLOCK_COUNT && image[b] == BLANK_BLOCK
      ensures faithful && (forall b :: b in blocks ==> b < BLOCK_COUNT) ==> ok
      ensures checksumSound ==> forall b :: 0 <= b < BLOCK_COUNT && Probed(b) ==> Wiped(old(image)[b], image[b])
      ensures legal == (old(legal) && !old(refused)) && refused == old(refused)
      ensures |erases| >= |old(erases)| && erases[..|old(erases)|] == old(erases)
      ensures 0 !in blocks && 1 !in blocks ==>
        forall k :: |old(erases)| <= k < |erases| ==>
          erases[k].slot0 == old(image)[0] && erases[k].slot1 == old(image)[1] && erases[k].block in blocks
    {
      hide Wiped;
      WipedOr(image, image);
      legal := legal && !refused;
      var i := 0;
      while i < |blocks|
        invariant 0 <= i <= |blocks|
        invariant checksumSound ==> forall b :: 0 <= b < BLOCK_COUNT && Probed(b) ==> Wiped(old(image)[b], image[b])
        invariant SameOutside(old(image), image, Members(blocks[..i]))
        invariant forall b :: b in blocks[..i] ==> b < BLOCK_COUNT && image[b] == BLANK_BLOCK
        invariant legal == (old(legal) && !old(refused)) && refused == old(refused)
        invariant |erases| >= |old(erases)| && erases[..|old(erases)|] == old(erases)
        invariant 0 !in blocks && 1 !in blocks ==>
          forall k :: |old(erases)| <= k < |erases| ==>
            erases[k].slot0 == old(image)[0] && erases[k].slot1 == old(image)[1] && erases[k].block in blocks
      {
        assert blocks[..i + 1] == blocks[..i] + [blocks[i]] && blocks[i] in blocks;
        ghost var before := image;
        var erased := Erase(blocks[i]);
        if checksumSound {
          StillWiped(old(image), before, image, blocks[i]);
        }
        if !erased {
          return false;
        }
        i := i + 1;
      }
      assert blocks[..i] == blocks;
      ok := true;
    }

    /** Erase, then program; `cut` says how many bytes were programmed, if the erase was completed. */
    method ReplaceMetadataBlock(block: nat, data: Block) returns (ok: bool, ghost cut: Option<nat>)
      requires block < BLOCK_COUNT
      modifies this
      ensures SameBut(old(image), image, block)
      ensures ok ==> image[block] == data
      ensures cut.Some? ==> cut.value <= BLOCK_SIZE && image[block] == CutSlots.Cut(data, cut.value)
      ensures cut.Some? && !CutSlots.Undecided(data, cut.value) ==> ChecksumSound(old(image)[block], data, image[block])
      ensures !ok && checksumSound ==> ChecksumSound(old(image)[block], data, image[block])
      ensures faithful ==> ok
      ensures old(legal) ==> legal
      ensures erases == old(erases) + [EraseEvent(old(image)[0], old(image)[1], block)]
    {
      hide CutSlots.SlotAccepts, CutSlots.Undecided;
      erases := erases + [EraseEvent(image[0], image[1], block)];
      cut := None;
      if !Alive() {
        return false, None;
      }
      var before := image[block];
      var done: bool := *;
      var survives: bool := *;
      if !done && !faithful {
        assert ChecksumSound(before, data, before);
        var leftOver: Block :| checksumSound ==> ChecksumSound(before, data, leftOver);
        powered := survives;
        image := image[block := leftOver];
        return false, None;
      }
      BlankProgrammable(data);
      WholeCut(before, data);
      var n: nat :|
        && n <= BLOCK_SIZE && (faithful ==> n == BLOCK_SIZE)
        && (checksumSound && CutSlots.Undecided(data, n) ==> ChecksumSound(before, data, CutSlots.Cut(data, n)));
      NorFlash.BlankAllows(data, n);
      if !CutSlots.Undecided(data, n) {
        CutSlots.CutDecided(data, n);
      }
      var reported: bool := *;
      reported := reported || faithful;
      powered := reported || survives;
      image := image[block := NorFlash.AndPrefix(BLANK_BLOCK, data, n)];
      ok := reported && n == BLOCK_SIZE;
      cut := Some(n);
    }

    /** Erases the listed blocks, then programs the run. */
    method ReplaceBlocks(first: nat, source: seq<Block>, erase: seq<nat>) returns (ok: bool, completed: nat)
      modifies this
      ensures completed <= |source|
      ensures forall b :: 0 <= b < BLOCK_COUNT && b !in erase && !(first <= b < first + |source|) ==> image[b] == old(image)[b]
      ensures ok && completed == |source| ==> Stored(image, first, source)
      ensures old(legal) && Prepared(old(image), first, |source|, erase) ==> legal
      ensures faithful && Prepared(old(image), first, |source|, erase) && (forall b :: b in erase ==> b < BLOCK_COUNT) ==>
        ok && completed == |source|
      ensures checksumSound && Prepared(old(image), first, |source|, erase) ==>
        forall b :: first <= b < first + |source| && Probed(b) ==>
          Wiped(old(image)[b], image[b]) || CutOf(source[b - first], image[b])
    {
      hide Wiped, CutOf;
      refused := false;
      var erased := EraseBlocks(erase);
      if !erased {
        return false, 0;
      }
      ok, completed := ProgramBlocks(first, source);
    }

    method PrepareForErase() returns (ok: bool)
      modifies this`refused
      ensures refused == !ok && (faithful ==> ok)
    {
      ok := *;
      ok := ok || faithful;
      refused := !ok;
    }

    method PrepareForProgram() returns (ok: bool)
      modifies this`refused
      ensures refused == !ok && (faithful ==> ok)
    {
      ok := *;
      ok := ok || faithful;
      refused := !ok;
    }
  }

  /** Every block of the run holds a prefix of its part of `source`. */
  ghost predicate CutRun(image: Image, first: nat, source: seq<Block>)
  {
    forall b :: first <= b < first + |source| && b < BLOCK_COUNT ==> CutOf(source[b - first], image[b])
  }

  lemma BlankCuts(image: Image, first: nat, source: seq<Block>)
    requires BlankRun(image, first, |source|)
    ensures CutRun(image, first, source)
  {
    hide CutOf;
    forall b | first <= b < first + |source| && b < BLOCK_COUNT ensures CutOf(source[b - first], image[b]) {
      BlankIsCut(source[b - first]);
    }
  }

  lemma WipedOr(before: Image, after: Image)
    ensures forall b :: 0 <= b < BLOCK_COUNT && after[b] == before[b] ==> Wiped(before[b], after[b])
  {}

  lemma StillWiped(start: Image, before: Image, after: Image, block: nat)
    requires forall b :: 0 <= b < BLOCK_COUNT && Probed(b) ==> Wiped(start[b], before[b])
    requires SameBut(before, after, block) && (Probed(block) ==> Wiped(before[block], after[block]))
    ensures forall b :: 0 <= b < BLOCK_COUNT && Probed(b) ==> Wiped(start[b], after[b])
  {
    hide CutSlots.DirectQuiet, CutSlots.SlotQuiet, Probed;
  }

  lemma WholeCut(before: Block, data: Block)
    ensures CutSlots.Cut(data, BLOCK_SIZE) == data && ChecksumSound(before, data, CutSlots.Cut(data, BLOCK_SIZE))
  {}

  ghost predicate BlankRun(image: Image, first: nat, count: nat)
  {
    forall b :: first <= b < first + count && b < BLOCK_COUNT ==> image[b] == BLANK_BLOCK
  }

  /** Every block of the run is blank or about to be erased. */
  ghost predicate Prepared(image: Image, first: nat, count: nat, erase: seq<nat>)
  {
    first + count <= BLOCK_COUNT && forall b :: first <= b < first + count ==> b in erase || image[b] == BLANK_BLOCK
  }

  /** Block `first + i` holds `source[i]`. */
  ghost predicate Stored(image: Image, first: nat, source: seq<Block>)
  {
    && (source != [] ==> first + |source| <= BLOCK_COUNT)
    && forall b :: first <= b < first + |source| ==> image[b] == source[b - first]
  }

  lemma BlankProgrammable(data: Block)
    ensures Programmable(BLANK_BLOCK, data)
  {
    NorFlash.BlankAllows(data, BLOCK_SIZE);
  }
}
