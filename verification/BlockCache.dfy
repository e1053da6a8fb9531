/**
  The write-through block cache of src/ezfa3fs_cached_block_device.cpp. For every sequence of
  requests, failing or not, the cache answers exactly as the flash under it would have answered,
  and leaves that flash in exactly the same state, as long as no metadata replacement is longer than
  a block and clears bits of another one.
 */
module BlockCache {
  import opened Bytes
  import opened NorFlash

  // ----- Which blocks a request can change -----

  /** The block range `program` invalidates: first block and count. */
  function Touched(offset: nat, size: nat): (nat, nat)
  {
    (offset / BLOCK_SIZE, if size == 0 then 0 else (offset % BLOCK_SIZE + size + BLOCK_SIZE - 1) / BLOCK_SIZE)
  }

  lemma OutsideTouched(offset: nat, size: nat, b: nat)
    requires b < Touched(offset, size).0 || Touched(offset, size).0 + Touched(offset, size).1 <= b
    ensures size == 0 || (b + 1) * BLOCK_SIZE <= offset || offset + size <= b * BLOCK_SIZE
  {}

  lemma ProgramKeeps(c: Chip, offset: nat, source: seq<byte>, b: nat)
    requires ValidChip(c) && b < BLOCK_COUNT
    requires |source| == 0 || (b + 1) * BLOCK_SIZE <= offset || offset + |source| <= b * BLOCK_SIZE
    ensures BlockOf(ProgramChip(c, offset, source).0.bytes, b) == BlockOf(c.bytes, b)
  {}

  lemma ProgramBlockStores(c: Chip, b: nat, source: seq<byte>)
    requires ValidChip(c) && |source| == BLOCK_SIZE && ProgramChip(c, b * BLOCK_SIZE, source).1
    ensures b < BLOCK_COUNT
    ensures BlockOf(ProgramChip(c, b * BLOCK_SIZE, source).0.bytes, b) == source
  {}

  lemma EraseKeeps(c: Chip, block: nat, b: nat)
    requires ValidChip(c) && b < BLOCK_COUNT && b != block
    ensures BlockOf(EraseChip(c, block).0.bytes, b) == BlockOf(c.bytes, b)
  {}

  lemma EraseBlanks(c: Chip, block: nat)
    requires ValidChip(c) && EraseChip(c, block).1
    ensures block < BLOCK_COUNT && BlockOf(EraseChip(c, block).0.bytes, block) == Repeat(BLANK, BLOCK_SIZE)
  {}

  lemma {:induction false} EraseBlocksKeeps(c: Chip, blocks: seq<nat>, b: nat)
    requires ValidChip(c) && b < BLOCK_COUNT && b !in blocks
    ensures BlockOf(EraseBlocksChip(c, blocks).0.bytes, b) == BlockOf(c.bytes, b)
    decreases |blocks|
  {
    hide EraseChip, BlockOf;
    if blocks != [] {
      EraseKeeps(c, blocks[0], b);
      EraseBlocksKeeps(EraseChip(c, blocks[0]).0, blocks[1..], b);
    }
  }

  lemma {:induction false} EraseBlocksBlanks(c: Chip, blocks: seq<nat>, b: nat)
    requires ValidChip(c) && b in blocks && EraseBlocksChip(c, blocks).1
    ensures b < BLOCK_COUNT && BlockOf(EraseBlocksChip(c, blocks).0.bytes, b) == Repeat(BLANK, BLOCK_SIZE)
    decreases |blocks|
  {
    hide EraseChip, BlockOf, Repeat;
    var d := EraseChip(c, blocks[0]).0;
    if b in blocks[1..] {
      EraseBlocksBlanks(d, blocks[1..], b);
    } else {
      EraseBlanks(c, b);
      EraseBlocksKeeps(d, blocks[1..], b);
    }
  }

  lemma {:induction false} ProgramBlocksKeeps(c: Chip, first: nat, source: seq<byte>, count: nat, done: nat, b: nat)
    requires ValidChip(c) && |source| == count * BLOCK_SIZE && done <= count && b < BLOCK_COUNT
    requires b < first + done || first + count <= b
    ensures BlockOf(ProgramBlocksChip(c, first, source, count, done).0.bytes, b) == BlockOf(c.bytes, b)
    decreases count - done
  {
    hide ProgramChip, BlockOf;
    if done < count {
      var part := source[done * BLOCK_SIZE..(done + 1) * BLOCK_SIZE];
      ProgramKeeps(c, (first + done) * BLOCK_SIZE, part, b);
      ProgramBlocksKeeps(ProgramChip(c, (first + done) * BLOCK_SIZE, part).0, first, source, count, done + 1, b);
    }
  }

  lemma {:induction false} ProgramBlocksStores(c: Chip, first: nat, source: seq<byte>, count: nat, done: nat, i: nat)
    requires ValidChip(c) && |source| == count * BLOCK_SIZE && done <= i < count
    requires ProgramBlocksChip(c, first, source, count, done).1
    ensures first + i < BLOCK_COUNT
    ensures BlockOf(ProgramBlocksChip(c, first, source, count, done).0.bytes, first + i)
         == source[i * BLOCK_SIZE..(i + 1) * BLOCK_SIZE]
    decreases count - done
  {
    hide ProgramChip, BlockOf;
    var part := source[done * BLOCK_SIZE..(done + 1) * BLOCK_SIZE];
    var d := ProgramChip(c, (first + done) * BLOCK_SIZE, part).0;
    if done < i {
      ProgramBlocksStores(d, first, source, count, done + 1, i);
    } else {
      ProgramBlockStores(c, first + done, part);
      ProgramBlocksKeeps(d, first, source, count, done + 1, first + i);
    }
  }

  lemma {:induction false} AllCompleted(c: Chip, first: nat, source: seq<byte>, count: nat, done: nat)
    requires ValidChip(c) && |source| == count * BLOCK_SIZE && done <= count
    requires ProgramBlocksChip(c, first, source, count, done).1
    ensures ProgramBlocksChip(c, first, source, count, done).2 == count
    decreases count - done
  {
    hide ProgramChip;
    if done < count {
      var part := source[done * BLOCK_SIZE..(done + 1) * BLOCK_SIZE];
      AllCompleted(ProgramChip(c, (first + done) * BLOCK_SIZE, part).0, first, source, count, done + 1);
    }
  }

  // ----- The reference: the flash used directly -----

  datatype Request =
    | Read(offset: nat, size: nat)
    | Program(offset: nat, source: seq<byte>)
    | ProgramBlocks(first: nat, count: nat, source: seq<byte>)
    | Erase(block: nat)
    | EraseBlocks(blocks: seq<nat>)
    | ReplaceBlocks(first: nat, count: nat, source: seq<byte>, erase: seq<nat>)
    | ReplaceMetadata(block: nat, source: seq<byte>)
    | ArmFault(bytes: nat)

  datatype Response = Response(ok: bool, completed: nat, data: seq<byte>)

  predicate WellFormed(r: Request)
  {
    (r.ProgramBlocks? || r.ReplaceBlocks?) ==> |r.source| == r.count * BLOCK_SIZE
  }

  /** What the flash does with one request, and its answer. */
  function Serve(c: Chip, r: Request): (s: (Chip, Response))
    requires ValidChip(c) && WellFormed(r)
    ensures ValidChip(s.0)
  {
    match r
    case Read(offset, size) =>
      if InRange(offset, size) then (c, Response(true, 0, c.bytes[offset..offset + size]))
      else (c, Response(false, 0, []))
    case Program(offset, source) =>
      var (d, ok) := ProgramChip(c, offset, source);
      (d, Response(ok, 0, []))
    case ProgramBlocks(first, count, source) =>
      var (d, ok, completed) := ProgramBlocksChip(c, first, source, count, 0);
      (d, Response(ok, completed, []))
    case Erase(block) =>
      var (d, ok) := EraseChip(c, block);
      (d, Response(ok, 0, []))
    case EraseBlocks(blocks) =>
      var (d, ok) := EraseBlocksChip(c, blocks);
      (d, Response(ok, 0, []))
    case ReplaceBlocks(first, count, source, erase) =>
      var (d, ok, completed) := ReplaceBlocksChip(c, first, source, count, erase);
      (d, Response(ok, completed, []))
    case ReplaceMetadata(block, source) =>
      var (d, ok) := ReplaceMetadataChip(c, block, source);
      (d, Response(ok, 0, []))
    case ArmFault(bytes) => (c.(fault := Some(bytes)), Response(true, 0, []))
  }

  function ServeAll(c: Chip, rs: seq<Request>): (s: (Chip, seq<Response>))
    requires ValidChip(c) && forall k :: 0 <= k < |rs| ==> WellFormed(rs[k])
    ensures ValidChip(s.0) && |s.1| == |rs|
  {
    if rs == [] then (c, [])
    else
      var last := |rs| - 1;
      var (d, answers) := ServeAll(c, rs[..last]);
      var (e, answer) := Serve(d, rs[last]);
      (e, answers + [answer])
  }

  type CachedBlock = Option<seq<byte>>

  /** Whatever is cached is what the flash holds. */
  ghost predicate Agree(blocks: seq<CachedBlock>, bytes: seq<byte>)
  {
    && |blocks| == BLOCK_COUNT && |bytes| == CAPACITY
    && forall b :: 0 <= b < BLOCK_COUNT && blocks[b].Some? ==> blocks[b].value == BlockOf(bytes, b)
  }

  /** The flash holds part `i` of `source` in block `first + i`. */
  ghost predicate Stored(bytes: seq<byte>, first: nat, source: seq<byte>, i: nat)
    requires |bytes| == CAPACITY
  {
    && first + i < BLOCK_COUNT && (i + 1) * BLOCK_SIZE <= |source|
    && BlockOf(bytes, first + i) == source[i * BLOCK_SIZE..(i + 1) * BLOCK_SIZE]
  }

  // ----- Metadata longer than a block -----

  /** How many bytes of `source` a program request writes. */
  function Programmed(c: Chip, offset: nat, source: seq<byte>): (n: nat)
    requires ValidChip(c)
    ensures n <= |source|
  {
    if !InRange(offset, |source|) then 0
    else
      var n := if c.fault.Some? then Min(|source|, c.fault.value) else |source|;
      if Allowed(c.bytes[offset..offset + |source|], source, n) then n else 0
  }

  /** How many bytes of `source` a metadata replacement writes. */
  function Written(c: Chip, block: nat, source: seq<byte>): (n: nat)
    requires ValidChip(c) && block < BLOCK_COUNT
    ensures n <= |source|
  {
    Programmed(EraseChip(c, block).0, block * BLOCK_SIZE, source)
  }

  /** What a metadata replacement writes beyond its own block clears no bit of block `b`. */
  ghost predicate Spares(c: Chip, block: nat, source: seq<byte>, b: nat)
    requires ValidChip(c) && block < b < BLOCK_COUNT
  {
    forall p :: b * BLOCK_SIZE <= p < (b + 1) * BLOCK_SIZE && p < block * BLOCK_SIZE + Written(c, block, source) ==>
      c.bytes[p] & source[p - block * BLOCK_SIZE] == c.bytes[p]
  }

  /** A metadata replacement clears no bit outside its own block. */
  ghost predicate Contained(c: Chip, r: Request)
    requires ValidChip(c)
  {
    r.ReplaceMetadata? ==> forall b :: r.block < b < BLOCK_COUNT ==> Spares(c, r.block, r.source, b)
  }

  lemma ProgramAt(c: Chip, offset: nat, source: seq<byte>, p: nat)
    requires ValidChip(c) && offset <= p < CAPACITY
    ensures ProgramChip(c, offset, source).0.bytes[p]
         == if p < offset + Programmed(c, offset, source) then c.bytes[p] & source[p - offset] else c.bytes[p]
  {
    hide Allowed, Splice, AndPrefix;
    var n := if c.fault.Some? then Min(|source|, c.fault.value) else |source|;
    if InRange(offset, |source|) {
      var prior := c.bytes[offset..offset + |source|];
      SpliceAt(c.bytes, offset, AndPrefix(prior, source, n), p);
      if p < offset + |source| {
        AndPrefixAt(prior, source, n, p - offset);
      }
    }
  }

  lemma AndPrefixAt(prior: seq<byte>, source: seq<byte>, n: nat, i: nat)
    requires |prior| == |source| && i < |source|
    ensures AndPrefix(prior, source, n)[i] == if i < n then prior[i] & source[i] else prior[i]
  {}

  lemma SpliceAt(bytes: seq<byte>, offset: nat, part: seq<byte>, p: nat)
    requires offset + |part| <= |bytes| && p < |bytes|
    ensures Splice(bytes, offset, part)[p] == if offset <= p < offset + |part| then part[p - offset] else bytes[p]
  {}

  /** Beyond its own block a metadata replacement only clears bits, as far as it writes. */
  lemma ByteAfter(c: Chip, block: nat, source: seq<byte>, p: nat)
    requires ValidChip(c) && (block + 1) * BLOCK_SIZE <= p < CAPACITY
    ensures block < BLOCK_COUNT
    ensures
      var offset := block * BLOCK_SIZE;
      ReplaceMetadataChip(c, block, source).0.bytes[p]
      == if p < offset + Written(c, block, source) then c.bytes[p] & source[p - offset] else c.bytes[p]
  {
    hide ProgramChip, Programmed;
    SpliceAt(c.bytes, block * BLOCK_SIZE, Repeat(BLANK, BLOCK_SIZE), p);
    ProgramAt(EraseChip(c, block).0, block * BLOCK_SIZE, source, p);
  }

  lemma SameBlock(x: seq<byte>, y: seq<byte>, b: nat)
    requires |x| == |y| == CAPACITY && b < BLOCK_COUNT
    ensures BlockOf(x, b) == BlockOf(y, b) <==> forall p :: b * BLOCK_SIZE <= p < (b + 1) * BLOCK_SIZE ==> x[p] == y[p]
  {
    if BlockOf(x, b) == BlockOf(y, b) {
      forall p | b * BLOCK_SIZE <= p < (b + 1) * BLOCK_SIZE ensures x[p] == y[p] {
        assert BlockOf(x, b)[p - b * BLOCK_SIZE] == BlockOf(y, b)[p - b * BLOCK_SIZE];
      }
    }
  }

  lemma SparesIs(c: Chip, block: nat, source: seq<byte>, b: nat)
    requires ValidChip(c) && block < b < BLOCK_COUNT
    ensures BlockOf(ReplaceMetadataChip(c, block, source).0.bytes, b) == BlockOf(c.bytes, b) <==> Spares(c, block, source, b)
    ensures |source| <= BLOCK_SIZE ==> Spares(c, block, source, b)
  {
    hide BlockOf, ReplaceMetadataChip, Written;
    var after := ReplaceMetadataChip(c, block, source).0.bytes;
    SameBlock(after, c.bytes, b);
    forall p | b * BLOCK_SIZE <= p < (b + 1) * BLOCK_SIZE
      ensures after[p] == if p < block * BLOCK_SIZE + Written(c, block, source) then c.bytes[p] & source[p - block * BLOCK_SIZE] else c.bytes[p]
    {
      ByteAfter(c, block, source, p);
    }
  }

  lemma ShortIsContained(c: Chip, r: Request)
    requires ValidChip(c) && (r.ReplaceMetadata? ==> |r.source| <= BLOCK_SIZE)
    ensures Contained(c, r)
  {
    hide BlockOf, ReplaceMetadataChip, Spares;
    if r.ReplaceMetadata? {
      forall b | r.block < b < BLOCK_COUNT ensures Spares(c, r.block, r.source, b) {
        SparesIs(c, r.block, r.source, b);
      }
    }
  }

  lemma MetadataKeepsBelow(c: Chip, block: nat, source: seq<byte>, b: nat)
    requires ValidChip(c) && b < block && b < BLOCK_COUNT
    ensures BlockOf(ReplaceMetadataChip(c, block, source).0.bytes, b) == BlockOf(c.bytes, b)
  {
    hide ProgramChip, EraseChip, BlockOf;
    EraseKeeps(c, block, b);
    ProgramKeeps(EraseChip(c, block).0, block * BLOCK_SIZE, source, b);
  }

  /** Blocks in `[first, first + count)` are not cached. */
  ghost predicate Absent(blocks: seq<CachedBlock>, first: nat, count: nat)
  {
    forall b :: first <= b < first + count && b < |blocks| ==> blocks[b].None?
  }

  /** The cache holds all of these blocks. */
  predicate Loaded(blocks: seq<CachedBlock>, first: nat, count: nat)
  {
    forall b :: first <= b < first + count ==> b < |blocks| && blocks[b].Some?
  }

  class CachedBlockDevice {
    const device: Nor
    var blocks: seq<CachedBlock>

    ghost predicate Valid()
      reads this, device, device.bytes
    {
      device.Valid() && Agree(blocks, device.bytes[..])
    }

    constructor (flash: Nor)
      requires flash.Valid()
      ensures Valid() && device == flash
    {
      device := flash;
      blocks := seq(BLOCK_COUNT, i => None);
    }

    method LoadBlock(block: nat) returns (ok: bool)
      requires Valid()
      modifies this`blocks
      ensures Valid()
      ensures ok <==> block < BLOCK_COUNT
      ensures ok ==> blocks[block].Some?
    {
      if block >= BLOCK_COUNT {
        return false;
      }
      if blocks[block].Some? {
        return true;
      }
      var read, bytes := device.Read(block * BLOCK_SIZE, BLOCK_SIZE);
      if !read {
        return false;
      }
      blocks := blocks[block := Some(bytes)];
      return true;
    }

    method ReadBytes(offset: nat, size: nat) returns (ok: bool, data: seq<byte>)
      requires Valid()
      modifies this`blocks
      ensures Valid()
      ensures ok <==> InRange(offset, size)
      ensures ok ==> data == device.bytes[offset..offset + size]
    {
      if offset > CAPACITY || size > CAPACITY - offset {
        return false, [];
      }
      data := [];
      while |data| < size
        invariant Valid() && |data| <= size
        invariant data == device.bytes[offset..offset + |data|]
        decreases size - |data|
      {
        var absolute := offset + |data|;
        var block, within := absolute / BLOCK_SIZE, absolute % BLOCK_SIZE;
        var count := Min(size - |data|, BLOCK_SIZE - within);
        var loaded := LoadBlock(block);
        if !loaded {
          return false, [];
        }
        ghost var image := device.bytes[..];
        assert blocks[block].value == BlockOf(image, block);
        SliceOfSlice(image, block * BLOCK_SIZE, BlockOf(image, block), within, within + count);
        assert image[offset..absolute] + image[absolute..absolute + count] == image[offset..absolute + count];
        data := data + blocks[block].value[within..within + count];
      }
      ok := true;
    }

    method Invalidate(first: nat, count: nat)
      requires Valid()
      modifies this`blocks
      ensures Valid() && Absent(blocks, first, count)
      ensures forall b :: 0 <= b < BLOCK_COUNT && !(first <= b < first + count) ==> blocks[b] == old(blocks)[b]
      ensures forall f: nat, n: nat :: Absent(old(blocks), f, n) ==> Absent(blocks, f, n)
    {
      var end := Min(BLOCK_COUNT, first + count);
      var block := first;
      while block < end
        invariant first <= block
        invariant |blocks| == BLOCK_COUNT
        invariant forall b :: 0 <= b < BLOCK_COUNT ==> blocks[b] == None || blocks[b] == old(blocks)[b]
        invariant forall b :: first <= b < block && b < BLOCK_COUNT ==> blocks[b] == None
        invariant forall b :: 0 <= b < BLOCK_COUNT && !(first <= b < first + count) ==> blocks[b] == old(blocks)[b]
      {
        blocks := blocks[block := None];
        block := block + 1;
      }
    }

    method Store(block: nat, source: seq<byte>)
      requires Valid() && block < BLOCK_COUNT && source == BlockOf(device.bytes[..], block)
      modifies this`blocks
      ensures Valid() && blocks == old(blocks)[block := Some(source)]
    {
      blocks := blocks[block := Some(source)];
    }

    method StoreAll(first: nat, source: seq<byte>, count: nat)
      requires Valid() && |source| == count * BLOCK_SIZE
      requires forall i :: 0 <= i < count ==> Stored(device.bytes[..], first, source, i)
      modifies this`blocks
      ensures Valid() && Loaded(blocks, first, count)
    {
      var index := 0;
      while index < count
        invariant 0 <= index <= count && Valid() && Loaded(blocks, first, index)
      {
        assert Stored(device.bytes[..], first, source, index);
        Store(first + index, source[index * BLOCK_SIZE..(index + 1) * BLOCK_SIZE]);
        index := index + 1;
      }
    }

    method ProgramBytes(offset: nat, source: seq<byte>) returns (ok: bool)
      requires Valid()
      modifies this`blocks, device`fault, device.bytes
      ensures Valid()
      ensures (device.State(), ok) == ProgramChip(old(device.State()), offset, source)
      ensures ok && offset % BLOCK_SIZE == 0 && |source| == BLOCK_SIZE ==>
        offset / BLOCK_SIZE < |blocks| && blocks[offset / BLOCK_SIZE] == Some(source)
    {
      hide ProgramChip, BlockOf;
      if offset > CAPACITY || |source| > CAPACITY - offset {
        OutOfRange(device.State(), offset, source);
        return false;
      }
      var (first, count) := Touched(offset, |source|);
      Invalidate(first, count);
      ghost var before := device.State();
      ok := device.Program(offset, source);
      forall b | 0 <= b < BLOCK_COUNT && blocks[b].Some? ensures blocks[b].value == BlockOf(device.bytes[..], b) {
        OutsideTouched(offset, |source|, b);
        ProgramKeeps(before, offset, source, b);
      }
      if ok && offset % BLOCK_SIZE == 0 && |source| == BLOCK_SIZE {
        ProgramBlockStores(before, first, source);
        Store(first, source);
      }
    }

    method ProgramWholeBlocks(first: nat, source: seq<byte>, count: nat) returns (ok: bool, completed: nat)
      requires Valid() && |source| == count * BLOCK_SIZE
      modifies this`blocks, device`fault, device.bytes
      ensures Valid()
      ensures (device.State(), ok, completed) == ProgramBlocksChip(old(device.State()), first, source, count, 0)
      ensures ok ==> Loaded(blocks, first, count)
    {
      hide ProgramBlocksChip, BlockOf;
      Invalidate(first, count);
      ghost var before := device.State();
      ok, completed := device.ProgramBlocks(first, source, count);
      forall b | 0 <= b < BLOCK_COUNT && blocks[b].Some? ensures blocks[b].value == BlockOf(device.bytes[..], b) {
        ProgramBlocksKeeps(before, first, source, count, 0, b);
      }
      if ok {
        AllCompleted(before, first, source, count, 0);
        var safe := Min(count, completed);
        assert source[..safe * BLOCK_SIZE] == source;
        forall i | 0 <= i < count ensures Stored(device.bytes[..], first, source, i) {
          ProgramBlocksStores(before, first, source, count, 0, i);
        }
        StoreAll(first, source[..safe * BLOCK_SIZE], safe);
      }
    }

    method EraseOne(block: nat) returns (ok: bool)
      requires Valid()
      modifies this`blocks, device.bytes
      ensures Valid()
      ensures (device.State(), ok) == EraseChip(old(device.State()), block)
      ensures ok ==> block < |blocks| && blocks[block].Some?
    {
      hide EraseChip, BlockOf;
      Invalidate(block, 1);
      ghost var before := device.State();
      ok := device.EraseBlock(block);
      forall b | 0 <= b < BLOCK_COUNT && blocks[b].Some? ensures blocks[b].value == BlockOf(device.bytes[..], b) {
        EraseKeeps(before, block, b);
      }
      if ok {
        EraseBlanks(before, block);
        Store(block, Repeat(BLANK, BLOCK_SIZE));
      }
    }

    method InvalidateAll(blocks': seq<nat>)
      requires Valid()
      modifies this`blocks
      ensures Valid()
      ensures forall b :: b in blocks' && b < BLOCK_COUNT ==> blocks[b].None?
      ensures forall f: nat, n: nat :: Absent(old(blocks), f, n) ==> Absent(blocks, f, n)
    {
      var i := 0;
      while i < |blocks'|
        invariant 0 <= i <= |blocks'| && Valid()
        invariant forall k :: 0 <= k < i ==> Absent(blocks, blocks'[k], 1)
        invariant forall f: nat, n: nat :: Absent(old(blocks), f, n) ==> Absent(blocks, f, n)
      {
        Invalidate(blocks'[i], 1);
        i := i + 1;
      }
      forall b | b in blocks' && b < BLOCK_COUNT ensures blocks[b].None? {
        var k :| 0 <= k < |blocks'| && blocks'[k] == b;
        assert Absent(blocks, blocks'[k], 1);
      }
    }

    method EraseMany(list: seq<nat>) returns (ok: bool)
      requires Valid()
      modifies this`blocks, device.bytes
      ensures Valid()
      ensures (device.State(), ok) == EraseBlocksChip(old(device.State()), list)
      ensures ok ==> forall k :: 0 <= k < |list| ==> list[k] < |blocks| && blocks[list[k]].Some?
    {
      hide EraseBlocksChip, BlockOf;
      InvalidateAll(list);
      ghost var before := device.State();
      ok := device.EraseBlocks(list);
      forall b | 0 <= b < BLOCK_COUNT && blocks[b].Some? ensures blocks[b].value == BlockOf(device.bytes[..], b) {
        EraseBlocksKeeps(before, list, b);
      }
      if ok {
        ghost var after := device.State();
        var i := 0;
        while i < |list|
          invariant 0 <= i <= |list| && Valid() && device.State() == after
          invariant forall k :: 0 <= k < i ==> list[k] < |blocks| && blocks[list[k]].Some?
        {
          EraseBlocksBlanks(before, list, list[i]);
          Store(list[i], Repeat(BLANK, BLOCK_SIZE));
          i := i + 1;
        }
      }
    }

    method ReplaceExtent(first: nat, source: seq<byte>, count: nat, erase: seq<nat>) returns (ok: bool, completed: nat)
      requires Valid() && |source| == count * BLOCK_SIZE
      modifies this`blocks, device`fault, device.bytes
      ensures Valid()
      ensures (device.State(), ok, completed) == ReplaceBlocksChip(old(device.State()), first, source, count, erase)
      ensures ok ==> Loaded(blocks, first, count)
    {
      hide ProgramBlocksChip, EraseBlocksChip, BlockOf;
      Invalidate(first, count);
      InvalidateAll(erase);
      ghost var before := device.State();
      ok, completed := device.ReplaceBlocks(first, source, count, erase);
      ghost var erased := EraseBlocksChip(before, erase).0;
      assert Absent(blocks, first, count);
      forall b | 0 <= b < BLOCK_COUNT && blocks[b].Some? ensures blocks[b].value == BlockOf(device.bytes[..], b) {
        EraseBlocksKeeps(before, erase, b);
        ProgramBlocksKeeps(erased, first, source, count, 0, b);
      }
      if ok {
        AllCompleted(erased, first, source, count, 0);
        var safe := Min(count, completed);
        assert source[..safe * BLOCK_SIZE] == source;
        forall i | 0 <= i < count ensures Stored(device.bytes[..], first, source, i) {
          ProgramBlocksStores(erased, first, source, count, 0, i);
        }
        StoreAll(first, source[..safe * BLOCK_SIZE], safe);
      }
    }

    /**
      The cache drops the slot of this one block, however long the source is. It agrees with the flash
      afterwards exactly if no bit of another cached block was cleared; a source of one block clears none.
     */
    method ReplaceMetadataBlock(block: nat, source: seq<byte>) returns (ok: bool)
      requires Valid()
      modifies this`blocks, device`fault, device.bytes
      ensures device.Valid() && |blocks| == BLOCK_COUNT
      ensures forall b :: 0 <= b < BLOCK_COUNT && b != block ==> blocks[b] == old(blocks)[b]
      ensures (device.State(), ok) == ReplaceMetadataChip(old(device.State()), block, source)
      ensures Valid() <==>
        forall b :: block < b < BLOCK_COUNT && old(blocks)[b].Some? ==> Spares(old(device.State()), block, source, b)
      ensures |source| <= BLOCK_SIZE ==> Valid()
      ensures ok && |source| == BLOCK_SIZE ==> block < |blocks| && blocks[block] == Some(source)
    {
      hide ProgramChip, EraseChip, BlockOf, Spares, ReplaceMetadataChip;
      Invalidate(block, 1);
      ghost var before := device.State();
      ok := device.ReplaceMetadataBlock(block, source);
      assert block < |blocks| ==> blocks[block].None? by { assert Absent(blocks, block, 1); }
      forall b | 0 <= b < BLOCK_COUNT && b != block
        ensures BlockOf(device.bytes[..], b) == BlockOf(before.bytes, b) <==> b < block || Spares(before, block, source, b)
        ensures |source| <= BLOCK_SIZE && b > block ==> Spares(before, block, source, b)
      {
        if b < block {
          MetadataKeepsBelow(before, block, source, b);
        } else {
          SparesIs(before, block, source, b);
        }
      }
      if ok && |source| == BLOCK_SIZE {
        MetadataStores(before, block, source);
        Store(block, source);
      }
    }

    /** One request through the cache is one request to the flash. */
    method Execute(r: Request) returns (answer: Response)
      requires Valid() && WellFormed(r)
      modifies this`blocks, device`fault, device.bytes
      ensures device.Valid()
      ensures (device.State(), answer) == Serve(old(device.State()), r)
      ensures Valid() <==> r.ReplaceMetadata? ==>
        forall b :: r.block < b < BLOCK_COUNT && old(blocks)[b].Some? ==> Spares(old(device.State()), r.block, r.source, b)
    {
      match r {
        case Read(offset, size) =>
          var ok, data := ReadBytes(offset, size);
          answer := Response(ok, 0, if ok then data else []);
        case Program(offset, source) =>
          var ok := ProgramBytes(offset, source);
          answer := Response(ok, 0, []);
        case ProgramBlocks(first, count, source) =>
          var ok, completed := ProgramWholeBlocks(first, source, count);
          answer := Response(ok, completed, []);
        case Erase(block) =>
          var ok := EraseOne(block);
          answer := Response(ok, 0, []);
        case EraseBlocks(list) =>
          var ok := EraseMany(list);
          answer := Response(ok, 0, []);
        case ReplaceBlocks(first, count, source, erase) =>
          var ok, completed := ReplaceExtent(first, source, count, erase);
          answer := Response(ok, completed, []);
        case ReplaceMetadata(block, source) =>
          var ok := ReplaceMetadataBlock(block, source);
          answer := Response(ok, 0, []);
        case ArmFault(bytes) =>
          device.FailNextProgramAfter(bytes);
          answer := Response(true, 0, []);
      }
    }

    /** Every sequence of requests gets the answers, and leaves the contents, of the flash used alone. */
    method ExecuteAll(rs: seq<Request>) returns (answers: seq<Response>)
      requires Valid() && forall k :: 0 <= k < |rs| ==> WellFormed(rs[k])
      requires forall k :: 0 <= k < |rs| ==> Contained(ServeAll(device.State(), rs[..k]).0, rs[k])
      modifies this`blocks, device`fault, device.bytes
      ensures Valid()
      ensures (device.State(), answers) == ServeAll(old(device.State()), rs)
    {
      hide Serve, Spares;
      answers := [];
      var i := 0;
      while i < |rs|
        invariant 0 <= i <= |rs| && Valid()
        invariant (device.State(), answers) == ServeAll(old(device.State()), rs[..i])
      {
        assert rs[..i + 1][..i] == rs[..i];
        assert Contained(device.State(), rs[i]);
        var answer := Execute(rs[i]);
        answers := answers + [answer];
        i := i + 1;
      }
      assert rs[..i] == rs;
    }
  }

  lemma MetadataStores(c: Chip, block: nat, source: seq<byte>)
    requires ValidChip(c) && |source| == BLOCK_SIZE && ReplaceMetadataChip(c, block, source).1
    ensures block < BLOCK_COUNT && BlockOf(ReplaceMetadataChip(c, block, source).0.bytes, block) == source
  {
    hide ProgramChip, EraseChip, BlockOf;
    ProgramBlockStores(EraseChip(c, block).0, block, source);
  }

  /** One byte too many: block 1 is cached as blank, and a metadata replacement of block 0 programs its first byte. */
  method StaleSlot() returns (cache: CachedBlockDevice)
    ensures fresh(cache) && fresh(cache.device) && fresh(cache.device.bytes) && cache.device.Valid() && |cache.blocks| == BLOCK_COUNT
    ensures cache.blocks[1] == Some(Repeat(BLANK, BLOCK_SIZE)) && cache.device.bytes[BLOCK_SIZE] == 0 && !cache.Valid()
  {
    hide Spares, ReplaceMetadataChip, BlockOf, Repeat;
    var flash := new Nor();
    cache := new CachedBlockDevice(flash);
    var loaded := cache.LoadBlock(1);
    BlankChip();
    var replaced := cache.ReplaceMetadataBlock(0, Repeat(0, BLOCK_SIZE + 1));
    assert cache.blocks[1] == Some(Repeat(BLANK, BLOCK_SIZE));
  }

  lemma BlankChip()
    ensures BlockOf(Repeat(BLANK, CAPACITY), 1) == Repeat(BLANK, BLOCK_SIZE)
    ensures BlockOf(ReplaceMetadataChip(Chip(Repeat(BLANK, CAPACITY), None), 0, Repeat(0, BLOCK_SIZE + 1)).0.bytes, 1) != Repeat(BLANK, BLOCK_SIZE)
    ensures ReplaceMetadataChip(Chip(Repeat(BLANK, CAPACITY), None), 0, Repeat(0, BLOCK_SIZE + 1)).0.bytes[BLOCK_SIZE] == 0
  {
    hide ReplaceMetadataChip, Written;
    var c, source := Chip(Repeat(BLANK, CAPACITY), None), Repeat(0, BLOCK_SIZE + 1);
    assert BlockOf(c.bytes, 1) == Repeat(BLANK, BLOCK_SIZE);
    AllWritten(c, source);
    ByteAfter(c, 0, source, BLOCK_SIZE);
    assert BlockOf(ReplaceMetadataChip(c, 0, source).0.bytes, 1)[0] == 0;
  }

  lemma AllWritten(c: Chip, source: seq<byte>)
    requires c == Chip(Repeat(BLANK, CAPACITY), None) && source == Repeat(0, BLOCK_SIZE + 1)
    ensures Written(c, 0, source) == BLOCK_SIZE + 1
  {
    BlankAllows(source, |source|);
    assert EraseChip(c, 0).0.bytes[..|source|] == Repeat(BLANK, |source|);
  }

  lemma OutOfRange(c: Chip, offset: nat, source: seq<byte>)
    requires ValidChip(c) && !InRange(offset, |source|)
    ensures ProgramChip(c, offset, source) == (c, false)
  {}
}
