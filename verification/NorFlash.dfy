/**
  The in-memory NOR flash of src/ezfa3fs_live_filesystem.cpp with its injected program fault, and
  the operations every block device inherits. Each method is proved equal to a function on chip
  values, so that layers above can be compared with the chip used directly.
 */
module NorFlash {
  import opened Bytes

  const CAPACITY: nat := BLOCK_SIZE * BLOCK_COUNT

  /** Flash contents and the armed fault: how many bytes of the next program get written. */
  datatype Chip = Chip(bytes: seq<byte>, fault: Option<nat>)

  predicate ValidChip(c: Chip)
  {
    |c.bytes| == CAPACITY
  }

  predicate InRange(offset: nat, size: nat)
  {
    offset <= CAPACITY && size <= CAPACITY - offset
  }

  /** Programming only clears bits. */
  predicate OnlyClears(prior: byte, source: byte)
  {
    prior & source == source
  }

  /** `n` bytes of `source` may be programmed over `prior`. */
  predicate Allowed(prior: seq<byte>, source: seq<byte>, n: nat)
    requires |prior| == |source|
  {
    forall i :: 0 <= i < n && i < |source| ==> OnlyClears(prior[i], source[i])
  }

  /** `prior` after the first `n` bytes of `source` were programmed. */
  function AndPrefix(prior: seq<byte>, source: seq<byte>, n: nat): (s: seq<byte>)
    requires |prior| == |source|
    ensures |s| == |prior|
  {
    seq(|prior|, i requires 0 <= i < |prior| => if i < n then prior[i] & source[i] else prior[i])
  }

  /** Chip after a program request, and whether the request succeeds. */
  function ProgramChip(c: Chip, offset: nat, source: seq<byte>): (r: (Chip, bool))
    requires ValidChip(c)
    ensures ValidChip(r.0)
  {
    if !InRange(offset, |source|) then (c, false)
    else
      var writable := if c.fault.Some? then Min(|source|, c.fault.value) else |source|;
      var prior := c.bytes[offset..offset + |source|];
      if !Allowed(prior, source, writable) then (c.(fault := None), false)
      else (Chip(Splice(c.bytes, offset, AndPrefix(prior, source, writable)), None), writable == |source|)
  }

  function EraseChip(c: Chip, block: nat): (r: (Chip, bool))
    requires ValidChip(c)
    ensures ValidChip(r.0)
  {
    if block >= BLOCK_COUNT then (c, false)
    else (c.(bytes := Splice(c.bytes, block * BLOCK_SIZE, Repeat(BLANK, BLOCK_SIZE))), true)
  }

  function EraseBlocksChip(c: Chip, blocks: seq<nat>): (r: (Chip, bool))
    requires ValidChip(c)
    ensures ValidChip(r.0)
    decreases |blocks|
  {
    if blocks == [] then (c, true)
    else
      var (d, ok) := EraseChip(c, blocks[0]);
      if ok then EraseBlocksChip(d, blocks[1..]) else (d, false)
  }

  /** Programs blocks `done`, `done + 1`, ... of `source`; also returns how many were completed. */
  function ProgramBlocksChip(c: Chip, first: nat, source: seq<byte>, count: nat, done: nat): (r: (Chip, bool, nat))
    requires ValidChip(c) && |source| == count * BLOCK_SIZE && done <= count
    ensures ValidChip(r.0) && r.2 <= count
    decreases count - done
  {
    if done == count then (c, true, done)
    else
      var (d, ok) := ProgramChip(c, (first + done) * BLOCK_SIZE, source[done * BLOCK_SIZE..(done + 1) * BLOCK_SIZE]);
      if ok then ProgramBlocksChip(d, first, source, count, done + 1) else (d, false, done)
  }

  function ReplaceMetadataChip(c: Chip, block: nat, source: seq<byte>): (r: (Chip, bool))
    requires ValidChip(c)
    ensures ValidChip(r.0)
  {
    var (d, ok) := EraseChip(c, block);
    if ok then ProgramChip(d, block * BLOCK_SIZE, source) else (d, false)
  }

  function ReplaceBlocksChip(c: Chip, first: nat, source: seq<byte>, count: nat, erase: seq<nat>): (r: (Chip, bool, nat))
    requires ValidChip(c) && |source| == count * BLOCK_SIZE
    ensures ValidChip(r.0)
  {
    var (d, ok) := EraseBlocksChip(c, erase);
    if ok then ProgramBlocksChip(d, first, source, count, 0) else (d, false, 0)
  }

  /** Block `b` of the chip. */
  function BlockOf(bytes: seq<byte>, b: nat): (s: seq<byte>)
    requires |bytes| == CAPACITY && b < BLOCK_COUNT
    ensures |s| == BLOCK_SIZE
  {
    bytes[b * BLOCK_SIZE..(b + 1) * BLOCK_SIZE]
  }

  /** What was allowed and fully programmed reads back as the source. */
  lemma ProgrammedIsSource(prior: seq<byte>, source: seq<byte>)
    requires |prior| == |source| && Allowed(prior, source, |source|)
    ensures AndPrefix(prior, source, |source|) == source
  {}

  /** On a blank range every program is allowed, and a cut-short one leaves a prefix over blanks. */
  lemma BlankAllows(source: seq<byte>, n: nat)
    requires n <= |source|
    ensures Allowed(Repeat(BLANK, |source|), source, n)
    ensures AndPrefix(Repeat(BLANK, |source|), source, n) == source[..n] + Repeat(BLANK, |source| - n)
  {}

  lemma MaskedIs(before: seq<byte>, after: seq<byte>, offset: nat, source: seq<byte>, writable: nat)
    requires |before| == |after| && offset + |source| <= |before| && writable <= |source|
    requires forall k :: 0 <= k < |before| ==>
      after[k] == if offset <= k < offset + writable then before[k] & source[k - offset] else before[k]
    ensures after == Splice(before, offset, AndPrefix(before[offset..offset + |source|], source, writable))
  {
    assert after[offset..offset + |source|] == AndPrefix(before[offset..offset + |source|], source, writable);
  }

  class Nor {
    const bytes: array<byte>
    var fault: Option<nat>

    ghost predicate Valid()
    {
      bytes.Length == CAPACITY
    }

    ghost function State(): (c: Chip)
      requires Valid()
      reads this, bytes
      ensures ValidChip(c)
    {
      Chip(bytes[..], fault)
    }

    constructor ()
      ensures Valid() && fresh(bytes)
      ensures State() == Chip(Repeat(BLANK, CAPACITY), None)
    {
      bytes := new byte[CAPACITY](_ => BLANK);
      fault := None;
      new;
      assert bytes[..] == Repeat(BLANK, CAPACITY);
    }

    method FailNextProgramAfter(count: nat)
      requires Valid()
      modifies this`fault
      ensures State() == Chip(old(State()).bytes, Some(count))
    {
      fault := Some(count);
    }

    method Read(offset: nat, size: nat) returns (ok: bool, data: seq<byte>)
      requires Valid()
      ensures ok <==> InRange(offset, size)
      ensures ok ==> data == bytes[offset..offset + size]
    {
      if offset > bytes.Length || size > bytes.Length - offset {
        return false, [];
      }
      return true, bytes[offset..offset + size];
    }

    /** The first pass of `Program`: is any 0-to-1 transition asked for? */
    method CheckAllowed(offset: nat, source: seq<byte>, writable: nat) returns (ok: bool)
      requires Valid() && InRange(offset, |source|) && writable <= |source|
      ensures ok == Allowed(bytes[offset..offset + |source|], source, writable)
    {
      hide OnlyClears;
      ghost var before := bytes[offset..offset + |source|];
      var i := 0;
      while i < writable
        invariant 0 <= i <= writable
        invariant Allowed(before, source, i)
      {
        assert before[i] == bytes[offset + i];
        if !OnlyClears(bytes[offset + i], source[i]) {
          return false;
        }
        i := i + 1;
      }
      return true;
    }

    /** The second pass: clears bits. */
    method AndInto(offset: nat, source: seq<byte>, writable: nat)
      requires Valid() && InRange(offset, |source|) && writable <= |source|
      modifies bytes
      ensures bytes[..] == Splice(old(bytes[..]), offset, AndPrefix(old(bytes[offset..offset + |source|]), source, writable))
    {
      var i := 0;
      while i < writable
        invariant 0 <= i <= writable
        invariant forall k :: 0 <= k < bytes.Length ==>
          bytes[k] == if offset <= k < offset + i then old(bytes[k]) & source[k - offset] else old(bytes[k])
      {
        bytes[offset + i] := bytes[offset + i] & source[i];
        i := i + 1;
      }
      MaskedIs(old(bytes[..]), bytes[..], offset, source, writable);
      assert old(bytes[..])[offset..offset + |source|] == old(bytes[offset..offset + |source|]);
    }

    method Program(offset: nat, source: seq<byte>) returns (ok: bool)
      requires Valid()
      modifies this`fault, bytes
      ensures (State(), ok) == ProgramChip(old(State()), offset, source)
    {
      hide Allowed, AndPrefix;
      if offset > bytes.Length || |source| > bytes.Length - offset {
        return false;
      }
      var writable := |source|;
      if fault.Some? {
        writable := Min(writable, fault.value);
        fault := None;
      }
      var allowed := CheckAllowed(offset, source, writable);
      if !allowed {
        return false;
      }
      AndInto(offset, source, writable);
      return writable == |source|;
    }

    method EraseBlock(block: nat) returns (ok: bool)
      requires Valid()
      modifies bytes
      ensures (State(), ok) == EraseChip(old(State()), block)
    {
      if block >= BLOCK_COUNT {
        return false;
      }
      CopyInto(bytes, block * BLOCK_SIZE, Repeat(BLANK, BLOCK_SIZE));
      return true;
    }

    method EraseBlocks(blocks: seq<nat>) returns (ok: bool)
      requires Valid()
      modifies bytes
      ensures (State(), ok) == EraseBlocksChip(old(State()), blocks)
    {
      var i := 0;
      while i < |blocks|
        invariant 0 <= i <= |blocks|
        invariant EraseBlocksChip(old(State()), blocks) == EraseBlocksChip(State(), blocks[i..])
      {
        assert blocks[i..][1..] == blocks[i + 1..];
        var erased := EraseBlock(blocks[i]);
        if !erased {
          return false;
        }
        i := i + 1;
      }
      return true;
    }

    method ProgramBlocks(first: nat, source: seq<byte>, count: nat) returns (ok: bool, completed: nat)
      requires Valid() && |source| == count * BLOCK_SIZE
      modifies this`fault, bytes
      ensures (State(), ok, completed) == ProgramBlocksChip(old(State()), first, source, count, 0)
    {
      completed := 0;
      while completed < count
        invariant 0 <= completed <= count
        invariant ProgramBlocksChip(old(State()), first, source, count, 0)
               == ProgramBlocksChip(State(), first, source, count, completed)
      {
        var programmed := Program((first + completed) * BLOCK_SIZE,
                                  source[completed * BLOCK_SIZE..(completed + 1) * BLOCK_SIZE]);
        if !programmed {
          return false, completed;
        }
        completed := completed + 1;
      }
      ok := true;
    }

    method ReplaceMetadataBlock(block: nat, source: seq<byte>) returns (ok: bool)
      requires Valid()
      modifies this`fault, bytes
      ensures (State(), ok) == ReplaceMetadataChip(old(State()), block, source)
    {
      ok := EraseBlock(block);
      if ok {
        ok := Program(block * BLOCK_SIZE, source);
      }
    }

    method ReplaceBlocks(first: nat, source: seq<byte>, count: nat, erase: seq<nat>) returns (ok: bool, completed: nat)
      requires Valid() && |source| == count * BLOCK_SIZE
      modifies this`fault, bytes
      ensures (State(), ok, completed) == ReplaceBlocksChip(old(State()), first, source, count, erase)
    {
      if erase != [] {
        var erased := EraseBlocks(erase);
        if !erased {
          return false, 0;
        }
      }
      ok, completed := ProgramBlocks(first, source, count);
    }
  }
}
