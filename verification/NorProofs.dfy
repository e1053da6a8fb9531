/**
  What the operations of the in-memory chip achieve: when they succeed, and block by block what
  they leave. None of it is needed by the filesystem, which runs on a device that may fail anywhere.
 */
module NorProofs {
  import opened Bytes
  import opened NorFlash
  import opened BlockCache

  /** A program succeeds exactly inside the chip, with no fault that comes before its end, and over bits that are set where the source needs them. */
  lemma ProgramMeans(c: Chip, offset: nat, source: seq<byte>)
    requires ValidChip(c)
    ensures
      var (d, ok) := ProgramChip(c, offset, source);
      && (ok <==>
           && InRange(offset, |source|) && (c.fault.None? || |source| <= c.fault.value)
           && forall i :: 0 <= i < |source| ==> c.bytes[offset + i] & source[i] == source[i])
      && (ok ==> d == Chip(Splice(c.bytes, offset, source), None))
  {
    if InRange(offset, |source|) {
      var prior := c.bytes[offset..offset + |source|];
      assert forall i :: 0 <= i < |source| ==> prior[i] == c.bytes[offset + i];
      if Allowed(prior, source, |source|) {
        ProgrammedIsSource(prior, source);
      }
    }
  }

  /** With a fault armed, only the bytes before it are programmed, if they may be; the fault is gone in any case. */
  lemma FaultMeans(c: Chip, offset: nat, source: seq<byte>, n: nat)
    requires ValidChip(c) && InRange(offset, |source|) && c.fault == Some(n) && n < |source|
    ensures
      var (d, ok) := ProgramChip(c, offset, source);
      var may := forall i :: 0 <= i < n ==> c.bytes[offset + i] & source[i] == source[i];
      && !ok && d.fault == None
      && forall k :: 0 <= k < CAPACITY ==> d.bytes[k] == if may && offset <= k < offset + n then source[k - offset] else c.bytes[k]
  {
    hide Splice;
    var prior := c.bytes[offset..offset + |source|];
    assert forall i :: 0 <= i < |source| ==> prior[i] == c.bytes[offset + i];
    if Allowed(prior, source, n) {
      var part := AndPrefix(prior, source, n);
      forall k | 0 <= k < CAPACITY
        ensures Splice(c.bytes, offset, part)[k] == if offset <= k < offset + n then source[k - offset] else c.bytes[k]
      {
        SpliceAt(c.bytes, offset, part, k);
        if offset <= k < offset + n {
          assert OnlyClears(prior[k - offset], source[k - offset]);
        }
      }
    }
  }

  /** A list of erases succeeds exactly inside the chip, and then blanks these blocks and no other. */
  lemma EraseBlocksMeans(c: Chip, blocks: seq<nat>)
    requires ValidChip(c)
    ensures
      var (d, ok) := EraseBlocksChip(c, blocks);
      && (ok <==> forall b :: b in blocks ==> b < BLOCK_COUNT) && d.fault == c.fault
      && (ok ==> forall b :: 0 <= b < BLOCK_COUNT ==>
           BlockOf(d.bytes, b) == if b in blocks then Repeat(BLANK, BLOCK_SIZE) else BlockOf(c.bytes, b))
  {
    hide BlockOf, Repeat;
    EraseBlocksOk(c, blocks);
    if EraseBlocksChip(c, blocks).1 {
      forall b | 0 <= b < BLOCK_COUNT
        ensures BlockOf(EraseBlocksChip(c, blocks).0.bytes, b) == if b in blocks then Repeat(BLANK, BLOCK_SIZE) else BlockOf(c.bytes, b)
      {
        if b in blocks {
          EraseBlocksBlanks(c, blocks, b);
        } else {
          EraseBlocksKeeps(c, blocks, b);
        }
      }
    }
  }

  lemma {:induction false} EraseBlocksOk(c: Chip, blocks: seq<nat>)
    requires ValidChip(c)
    ensures EraseBlocksChip(c, blocks).1 <==> forall b :: b in blocks ==> b < BLOCK_COUNT
    ensures EraseBlocksChip(c, blocks).0.fault == c.fault
    decreases |blocks|
  {
    hide Repeat, Splice;
    if blocks != [] && blocks[0] >= BLOCK_COUNT {
      assert blocks[0] in blocks;
    } else if blocks != [] {
      EraseBlocksOk(EraseChip(c, blocks[0]).0, blocks[1..]);
      assert forall b :: b in blocks <==> b == blocks[0] || b in blocks[1..];
    }
  }

  /** Replacing a metadata block succeeds whatever it held; afterwards it holds the source and blanks behind it. */
  lemma MetadataMeans(c: Chip, block: nat, source: seq<byte>)
    requires ValidChip(c) && |source| <= BLOCK_SIZE
    ensures
      var (d, ok) := ReplaceMetadataChip(c, block, source);
      && (ok <==> block < BLOCK_COUNT && (c.fault.None? || |source| <= c.fault.value))
      && (ok ==>
           && BlockOf(d.bytes, block) == source + Repeat(BLANK, BLOCK_SIZE - |source|)
           && forall b :: 0 <= b < BLOCK_COUNT && b != block ==> BlockOf(d.bytes, b) == BlockOf(c.bytes, b))
  {
    if block < BLOCK_COUNT {
      var e := EraseChip(c, block).0;
      EraseBlanks(c, block);
      ErasedTakes(e, block, source);
      hide ProgramChip, EraseChip, BlockOf, Repeat;
      ProgramMeans(e, block * BLOCK_SIZE, source);
      forall b | 0 <= b < BLOCK_COUNT && b != block
        ensures BlockOf(ProgramChip(e, block * BLOCK_SIZE, source).0.bytes, b) == BlockOf(c.bytes, b)
      {
        EraseKeeps(c, block, b);
        ProgramKeeps(e, block * BLOCK_SIZE, source, b);
      }
    }
  }

  /** A blank block takes any source of at most its length. */
  lemma ErasedTakes(e: Chip, block: nat, source: seq<byte>)
    requires ValidChip(e) && block < BLOCK_COUNT && |source| <= BLOCK_SIZE && BlockOf(e.bytes, block) == Repeat(BLANK, BLOCK_SIZE)
    ensures InRange(block * BLOCK_SIZE, |source|)
    ensures forall i :: 0 <= i < |source| ==> e.bytes[block * BLOCK_SIZE + i] & source[i] == source[i]
    ensures BlockOf(Splice(e.bytes, block * BLOCK_SIZE, source), block) == source + Repeat(BLANK, BLOCK_SIZE - |source|)
  {
    hide Splice;
    var start := block * BLOCK_SIZE;
    forall k | start <= k < start + BLOCK_SIZE ensures e.bytes[k] == BLANK {
      assert BlockOf(e.bytes, block)[k - start] == BLANK;
    }
    var after := Splice(e.bytes, start, source);
    forall k | start <= k < start + BLOCK_SIZE ensures after[k] == if k - start < |source| then source[k - start] else BLANK {
      SpliceAt(e.bytes, start, source, k);
    }
  }

  /** Programming over blank blocks completes. */
  lemma {:induction false} BlankTakesAll(c: Chip, first: nat, source: seq<byte>, count: nat, done: nat)
    requires ValidChip(c) && |source| == count * BLOCK_SIZE && done <= count && first + count <= BLOCK_COUNT && c.fault == None
    requires forall b :: first + done <= b < first + count ==> BlockOf(c.bytes, b) == Repeat(BLANK, BLOCK_SIZE)
    ensures ProgramBlocksChip(c, first, source, count, done).1
    decreases count - done
  {
    hide BlockOf, Repeat, ProgramChip;
    if done < count {
      var part := source[done * BLOCK_SIZE..(done + 1) * BLOCK_SIZE];
      ErasedTakes(c, first + done, part);
      ProgramMeans(c, (first + done) * BLOCK_SIZE, part);
      var d := ProgramChip(c, (first + done) * BLOCK_SIZE, part).0;
      forall b | first + done + 1 <= b < first + count ensures BlockOf(d.bytes, b) == Repeat(BLANK, BLOCK_SIZE) {
        ProgramKeeps(c, (first + done) * BLOCK_SIZE, part, b);
      }
      BlankTakesAll(d, first, source, count, done + 1);
    }
  }

  /** A replacement whose run is blank or listed for erasing succeeds: the run holds the source, other listed blocks are blank, the rest is as before. */
  lemma ReplaceMeans(c: Chip, first: nat, source: seq<byte>, count: nat, erase: seq<nat>)
    requires ValidChip(c) && |source| == count * BLOCK_SIZE && first + count <= BLOCK_COUNT && c.fault == None
    requires forall b :: b in erase ==> b < BLOCK_COUNT
    requires forall b :: first <= b < first + count ==> b in erase || BlockOf(c.bytes, b) == Repeat(BLANK, BLOCK_SIZE)
    ensures
      var (d, ok, completed) := ReplaceBlocksChip(c, first, source, count, erase);
      && ok && completed == count
      && (forall i :: 0 <= i < count ==> BlockOf(d.bytes, first + i) == source[i * BLOCK_SIZE..(i + 1) * BLOCK_SIZE])
      && forall b :: 0 <= b < BLOCK_COUNT && !(first <= b < first + count) ==>
           BlockOf(d.bytes, b) == if b in erase then Repeat(BLANK, BLOCK_SIZE) else BlockOf(c.bytes, b)
  {
    hide BlockOf, Repeat, EraseBlocksChip, ProgramBlocksChip;
    EraseBlocksMeans(c, erase);
    var e := EraseBlocksChip(c, erase).0;
    BlankTakesAll(e, first, source, count, 0);
    AllCompleted(e, first, source, count, 0);
    forall i | 0 <= i < count
      ensures BlockOf(ProgramBlocksChip(e, first, source, count, 0).0.bytes, first + i) == source[i * BLOCK_SIZE..(i + 1) * BLOCK_SIZE]
    {
      ProgramBlocksStores(e, first, source, count, 0, i);
    }
    forall b | 0 <= b < BLOCK_COUNT && !(first <= b < first + count)
      ensures BlockOf(ProgramBlocksChip(e, first, source, count, 0).0.bytes, b) == BlockOf(e.bytes, b)
    {
      ProgramBlocksKeeps(e, first, source, count, 0, b);
    }
  }
}
