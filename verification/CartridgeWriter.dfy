/**
  Verified writing to a cartridge that may do anything wrong: the erase, program and replacement
  retry loops of src/ezfa3fs_cartridge_storage.cpp over an abstract bridge. Every command may be
  acknowledged or refused whatever it did to its target blocks; only a successful readback is
  taken at its word.
 */
module CartridgeWriter {
  import opened Bytes
  import opened Device
  import NorFlash

  const ATTEMPTS: nat := 3

  /** What happened on the bridge: blocks a command may have changed, and blocks accepted as finished. */
  datatype Step = Touched(blocks: set<nat>) | Accepted(block: nat)

  /** Once accepted, a block is never touched again. */
  ghost predicate AcceptedKept(log: seq<Step>)
  {
    forall i, j :: 0 <= i < j < |log| && log[i].Accepted? && log[j].Touched? ==> log[i].block !in log[j].blocks
  }

  /** All steps concern blocks of one extent, accepted ones below `next`. */
  ghost predicate Within(log: seq<Step>, first: nat, count: nat, next: nat)
  {
    && (forall i :: 0 <= i < |log| && log[i].Touched? ==> forall b :: b in log[i].blocks ==> first <= b < first + count)
    && (forall i :: 0 <= i < |log| && log[i].Accepted? ==> first <= log[i].block < first + next)
    && forall b :: first <= b < first + next ==> Accepted(b) in log
  }

  lemma NothingYet(first: nat, count: nat)
    ensures AcceptedKept([]) && Within([], first, count, 0)
  {}

  /** A further command above `first + next` keeps what is accepted. */
  lemma TouchAbove(log: seq<Step>, first: nat, count: nat, next: nat, blocks: set<nat>)
    requires AcceptedKept(log) && Within(log, first, count, next)
    requires forall b :: b in blocks ==> first + next <= b < first + count
    ensures AcceptedKept(log + [Touched(blocks)]) && Within(log + [Touched(blocks)], first, count, next)
  {}

  lemma AcceptNext(log: seq<Step>, first: nat, count: nat, next: nat)
    requires AcceptedKept(log) && Within(log, first, count, next)
    ensures AcceptedKept(log + [Accepted(first + next)]) && Within(log + [Accepted(first + next)], first, count, next + 1)
  {}

  /** Several commands on one and the same block. */
  ghost predicate OnlyTouches(log: seq<Step>, block: nat)
  {
    forall i :: 0 <= i < |log| ==> log[i].Touched? && log[i].blocks == {block}
  }

  /** `later` continues `log` with commands on one block only. */
  ghost predicate Touching(log: seq<Step>, later: seq<Step>, block: nat)
  {
    |log| <= |later| && later[..|log|] == log && OnlyTouches(later[|log|..], block)
  }

  lemma TouchingOnce(log: seq<Step>, block: nat)
    ensures Touching(log, log, block) && Touching(log, log + [Touched({block})], block)
  {}

  lemma TouchingMore(a: seq<Step>, b: seq<Step>, c: seq<Step>, block: nat)
    requires Touching(a, b, block) && Touching(b, c, block)
    ensures Touching(a, c, block)
  {}

  lemma {:induction false} TouchesAbove(log: seq<Step>, more: seq<Step>, first: nat, count: nat, next: nat, block: nat)
    requires AcceptedKept(log) && Within(log, first, count, next)
    requires OnlyTouches(more, block) && first + next <= block < first + count
    ensures AcceptedKept(log + more) && Within(log + more, first, count, next)
    decreases |more|
  {}

  /** The part of the log since `start` stays in order while one unaccepted block is worked on. */
  lemma TouchingAbove(log: seq<Step>, later: seq<Step>, start: nat, first: nat, count: nat, next: nat, block: nat)
    requires start <= |log| && AcceptedKept(log[start..]) && Within(log[start..], first, count, next)
    requires Touching(log, later, block) && first + next <= block < first + count
    ensures |later| >= |log| && later[..start] == log[..start]
    ensures AcceptedKept(later[start..]) && Within(later[start..], first, count, next)
  {
    hide AcceptedKept, Within;
    assert later[..start] == later[..|log|][..start];
    assert later[start..] == log[start..] + later[|log|..];
    TouchesAbove(log[start..], later[|log|..], first, count, next, block);
  }

  /** The block a program command leaves behind on sound flash. */
  function Programmed(before: Block, data: Block): Block
  {
    NorFlash.AndPrefix(before, data, BLOCK_SIZE)
  }

  lemma ProgrammedBlank(data: Block)
    ensures Programmed(BLANK_BLOCK, data) == data
  {}

  /** Programming a blank run writes the source. */
  lemma ProgrammedOverBlank(before: Image, after: Image, first: nat, source: seq<Block>, next: nat)
    requires next <= |source| && first + |source| <= BLOCK_COUNT && BlankRun(before, first + next, |source| - next)
    requires forall b :: first + next <= b < first + |source| ==> after[b] == Programmed(before[b], source[next..][b - (first + next)])
    ensures forall k :: next <= k < |source| ==> after[first + k] == source[k]
  {}

  class Bridge {
    /** Every command does what it was asked to do and every readback succeeds. */
    const faithful: bool
    var image: Image
    var open: bool
    ghost var log: seq<Step>
    /** How often a block has been read back, and how often the writer has been restarted. */
    ghost var readbacks: nat
    ghost var restarts: nat
    /** Every erase and program command so far was sent in an open session. */
    ghost var orderly: bool

    constructor (contents: Image, faithful: bool)
      ensures image == contents && !open && log == [] && this.faithful == faithful
    {
      image, open, log, this.faithful := contents, false, [], faithful;
      readbacks, restarts, orderly := 0, 0, true;
    }

    method OpenSession() returns (ok: bool)
      modifies this`open
      ensures open == ok && (faithful ==> ok)
    {
      ok := *;
      ok := ok || faithful;
      open := ok;
    }

    method Restart() returns (ok: bool)
      modifies this`open, this`restarts
      ensures open == ok && (faithful ==> ok)
      ensures restarts == old(restarts) + 1
    {
      restarts := restarts + 1;
      ok := *;
      ok := ok || faithful;
      open := ok;
    }

    /** May leave anything in the blocks it was asked to erase, whatever it reports. */
    method EraseCommand(blocks: seq<nat>) returns (completed: bool)
      modifies this
      ensures SameOutside(old(image), image, Members(blocks))
      ensures log == old(log) + [Touched(Members(blocks))] && restarts == old(restarts)
      ensures orderly == (old(orderly) && old(open))
      ensures faithful ==> completed && forall b :: b in blocks && b < BLOCK_COUNT ==> image[b] == BLANK_BLOCK
    {
      orderly := orderly && open;
      completed := *;
      completed := completed || faithful;
      open := *;
      assert |BLANK_BLOCK| == BLOCK_SIZE;
      var i := 0;
      while i < |blocks|
        invariant 0 <= i <= |blocks| && log == old(log) && restarts == old(restarts) && orderly == (old(orderly) && old(open))
        invariant SameOutside(old(image), image, Members(blocks))
        invariant faithful ==> forall b :: b in blocks[..i] && b < BLOCK_COUNT ==> image[b] == BLANK_BLOCK
      {
        var left: Block :| |left| == BLOCK_SIZE && (faithful ==> left == BLANK_BLOCK);
        assert blocks[i] in blocks && blocks[..i + 1] == blocks[..i] + [blocks[i]];
        if blocks[i] < BLOCK_COUNT {
          image := image[blocks[i] := left];
        }
        i := i + 1;
      }
      assert blocks[..i] == blocks;
      log := log + [Touched(Members(blocks))];
    }

    /** May leave anything in the blocks it was asked to program, whatever it reports. */
    method ProgramCommand(first: nat, source: seq<Block>) returns (transferred: bool, count: nat)
      modifies this
      ensures SameOutsideRun(old(image), image, first, |source|)
      ensures log == old(log) + [Touched(RunOf(first, |source|))] && restarts == old(restarts)
      ensures orderly == (old(orderly) && old(open))
      ensures faithful ==> transferred
      ensures faithful ==>
        forall b :: first <= b < first + |source| && b < BLOCK_COUNT ==> image[b] == Programmed(old(image)[b], source[b - first])
    {
      hide Programmed;
      orderly := orderly && open;
      transferred := *;
      transferred := transferred || faithful;
      count := *;
      open := *;
      assert |BLANK_BLOCK| == BLOCK_SIZE;
      var i := 0;
      while i < |source|
        invariant 0 <= i <= |source| && log == old(log) && restarts == old(restarts) && orderly == (old(orderly) && old(open))
        invariant SameOutsideRun(old(image), image, first, i)
        invariant faithful ==>
          forall b :: first <= b < first + i && b < BLOCK_COUNT ==> image[b] == Programmed(old(image)[b], source[b - first])
      {
        var left: Block := BLANK_BLOCK;
        if first + i < BLOCK_COUNT && faithful {
          left := Programmed(image[first + i], source[i]);
        } else {
          left :| |left| == BLOCK_SIZE;
        }
        if first + i < BLOCK_COUNT {
          image := image[first + i := left];
        }
        i := i + 1;
      }
      log := log + [Touched(RunOf(first, |source|))];
    }

    /** A readback may fail; when it succeeds it is true. */
    method ReadBack(block: nat, reopen: bool) returns (ok: bool, data: Block)
      modifies this`open, this`readbacks
      ensures readbacks == old(readbacks) + 1
      ensures ok ==> block < BLOCK_COUNT && data == image[block]
      ensures faithful && block < BLOCK_COUNT ==> ok
    {
      readbacks := readbacks + 1;
      var fails: bool := *;
      if reopen {
        open := *;
      }
      if block < BLOCK_COUNT && (faithful || !fails) {
        return true, image[block];
      }
      return false, BLANK_BLOCK;
    }

    ghost method Accept(block: nat)
      modifies this`log
      ensures log == old(log) + [Accepted(block)]
    {
      log := log + [Accepted(block)];
    }

    /** `verifyLiveBlockAfterWrite`: fails only after three readbacks. */
    method Verify(block: nat, expected: Block, reopenFirst: bool) returns (ok: bool)
      modifies this`open, this`readbacks
      ensures old(readbacks) < readbacks <= old(readbacks) + 3 && (!ok ==> readbacks == old(readbacks) + 3)
      ensures ok ==> block < BLOCK_COUNT && image[block] == expected
      ensures faithful && block < BLOCK_COUNT ==> (ok <==> image[block] == expected)
    {
      var attempt := 1;
      while attempt <= ATTEMPTS
        invariant 1 <= attempt <= ATTEMPTS + 1 && readbacks == old(readbacks) + attempt - 1
        invariant faithful && block < BLOCK_COUNT && attempt > 1 ==> image[block] != expected
      {
        var read, data := ReadBack(block, reopenFirst || attempt == ATTEMPTS);
        if read && data == expected {
          return true;
        }
        attempt := attempt + 1;
      }
      ok := false;
    }

    predicate Metadata(block: nat)
    {
      block < 2 || block >= BLOCK_COUNT - 2
    }

    /** `eraseLiveFilesystemBlock`: success means verified blank. */
    method EraseBlock(block: nat) returns (ok: bool)
      modifies this
      ensures old(orderly) ==> orderly
      ensures SameBut(old(image), image, block)
      ensures ok ==> block < BLOCK_COUNT && image[block] == BLANK_BLOCK
      ensures Touching(old(log), log, block) && restarts == old(restarts)
      ensures |log| <= |old(log)| + 3 && (!ok ==> !open || |log| == |old(log)| + 3)
      ensures faithful && block < BLOCK_COUNT ==> ok
    {
      hide Touching;
      TouchingOnce(log, block);
      var attempt := 1;
      while attempt <= ATTEMPTS
        invariant old(orderly) ==> orderly
        invariant SameBut(old(image), image, block)
        invariant Touching(old(log), log, block)
        invariant 1 <= attempt <= ATTEMPTS + 1 && |log| == |old(log)| + attempt - 1 && restarts == old(restarts)
        invariant faithful && block < BLOCK_COUNT ==> attempt == 1
      {
        if !open {
          var started := OpenSession();
          if !started {
            return false;
          }
        }
        OneMember(block);
        TouchingOnce(log, block);
        TouchingMore(old(log), log, log + [Touched({block})], block);
        var completed := EraseCommand([block]);
        ok := Verify(block, BLANK_BLOCK, !completed || Metadata(block));
        if ok {
          return;
        }
        attempt := attempt + 1;
      }
      ok := false;
    }

    /** `programLiveFilesystemBlock`: success means the block reads back as the source. */
    method ProgramBlock(block: nat, source: Block) returns (ok: bool)
      modifies this
      ensures old(orderly) ==> orderly
      ensures SameBut(old(image), image, block)
      ensures ok ==> block < BLOCK_COUNT && image[block] == source
      ensures |log| <= |old(log)| + 9 && restarts >= old(restarts)
      ensures Touching(old(log), log, block)
      ensures faithful && block < BLOCK_COUNT ==> ok
    {
      hide Touching, Programmed;
      ProgrammedBlank(source);
      TouchingOnce(log, block);
      var attempt := 1;
      while attempt <= ATTEMPTS
        invariant old(orderly) ==> orderly
        invariant SameBut(old(image), image, block)
        invariant 1 <= attempt <= ATTEMPTS && |log| <= |old(log)| + 4 * (attempt - 1) && restarts >= old(restarts)
        invariant Touching(old(log), log, block)
        invariant faithful && block < BLOCK_COUNT ==> attempt <= 2 && (attempt == 2 ==> image[block] == BLANK_BLOCK)
      {
        if !open {
          var started := OpenSession();
          if !started {
            return false;
          }
        }
        OneRun(block);
        TouchingOnce(log, block);
        TouchingMore(old(log), log, log + [Touched({block})], block);
        var completed, count := ProgramCommand(block, [source]);
        ok := Verify(block, source, !completed || Metadata(block));
        if ok {
          return;
        }
        if attempt == ATTEMPTS {
          return false;
        }
        ghost var before := log;
        var erased := EraseBlock(block);
        TouchingMore(old(log), before, log, block);
        if !erased {
          return false;
        }
        var restarted := Restart();
        if !restarted {
          return false;
        }
        attempt := attempt + 1;
      }
      ok := false;
    }

    /**
      `programLiveFilesystemExtent`: one transfer, then block by block verification; a block that
      does not verify is erased and programmed again on its own.
     */
    method ProgramExtent(first: nat, source: seq<Block>) returns (ok: bool, completed: nat, ghost accepted: nat)
      modifies this
      ensures old(orderly) ==> orderly
      ensures SameOutsideRun(old(image), image, first, |source|)
      ensures ok ==> completed == |source| && Stored(image, first, source)
      ensures accepted <= |source| && forall k :: 0 <= k < accepted ==> first + k < BLOCK_COUNT && image[first + k] == source[k]
      ensures |log| >= |old(log)| && log[..|old(log)|] == old(log)
      ensures AcceptedKept(log[|old(log)|..]) && Within(log[|old(log)|..], first, |source|, accepted)
      ensures completed <= |source| ==> completed <= accepted
      ensures faithful && source != [] && first + |source| <= BLOCK_COUNT && BlankRun(old(image), first, |source|) ==>
        log == old(log) + [Touched(RunOf(first, |source|))] + AcceptedRun(first, |source|)
      ensures faithful && (source == [] || first + |source| <= BLOCK_COUNT) ==> ok
    {
      hide AcceptedKept, Within, Programmed, AcceptedRun, BlankRun;
      AcceptedRunNone(first);
      completed, accepted := 0, 0;
      ghost var start := |log|;
      assert log[start..] == [];
      NothingYet(first, |source|);
      if source == [] {
        return true, 0, 0;
      }
      if first >= BLOCK_COUNT || |source| > BLOCK_COUNT - first {
        return false, 0, 0;
      }
      if !open {
        var started := OpenSession();
        if !started {
          return false, 0, 0;
        }
      }
      var transferred;
      ghost var before := image;
      ghost var smooth := faithful && BlankRun(before, first, |source|);
      transferred, completed := ProgramCommand(first, source);
      if smooth {
        ProgrammedOverBlank(before, image, first, source, 0);
      }
      assert log[start..] == [] + [Touched(RunOf(first, |source|))];
      TouchAbove([], first, |source|, 0, RunOf(first, |source|));
      var verifyCount := if transferred then |source| else Min(|source|, completed + 1);
      var reached := SettleRun(first, source, verifyCount, !transferred, start);
      accepted := reached;
      if reached < verifyCount {
        return false, reached, reached;
      }
      ok := transferred || verifyCount == |source|;
      if ok {
        completed := |source|;
      }
    }

    /** The verification of a transferred extent, up to the first block that cannot be settled. */
    method SettleRun(first: nat, source: seq<Block>, count: nat, reopen: bool, ghost start: nat) returns (reached: nat)
      requires count <= |source| && first + |source| <= BLOCK_COUNT
      requires start <= |log| && AcceptedKept(log[start..]) && Within(log[start..], first, |source|, 0)
      modifies this
      ensures old(orderly) ==> orderly
      ensures reached <= count && (faithful ==> reached == count)
      ensures SameOutsideRun(old(image), image, first, |source|)
      ensures forall k :: 0 <= k < reached ==> image[first + k] == source[k]
      ensures |log| >= |old(log)| && log[..start] == old(log[..start])
      ensures AcceptedKept(log[start..]) && Within(log[start..], first, |source|, reached)
      ensures faithful && (forall k :: 0 <= k < count ==> old(image)[first + k] == source[k]) ==>
        image == old(image) && log == old(log) + AcceptedRun(first, count)
    {
      hide AcceptedKept, Within, AcceptedRun;
      ghost var smooth := faithful && forall k :: 0 <= k < count ==> image[first + k] == source[k];
      AcceptedRunNone(first);
      reached := 0;
      while reached < count
        invariant old(orderly) ==> orderly
        invariant 0 <= reached <= count
        invariant SameOutsideRun(old(image), image, first, |source|)
        invariant forall k :: 0 <= k < reached ==> image[first + k] == source[k]
        invariant |log| >= |old(log)| && log[..start] == old(log[..start])
        invariant AcceptedKept(log[start..]) && Within(log[start..], first, |source|, reached)
        invariant smooth ==> image == old(image) && log == old(log) + AcceptedRun(first, reached)
      {
        AcceptedRunSnoc(first, reached);
        var settled := SettleBlock(first, source, reached, reopen && reached == 0, start);
        if !settled {
          return;
        }
        reached := reached + 1;
      }
    }

    /** One block of the verification: accepted as it is, or after it was erased and programmed again. */
    method SettleBlock(first: nat, source: seq<Block>, i: nat, reopen: bool, ghost start: nat) returns (ok: bool)
      requires i < |source| && first + |source| <= BLOCK_COUNT
      requires start <= |log| && AcceptedKept(log[start..]) && Within(log[start..], first, |source|, i)
      modifies this
      ensures old(orderly) ==> orderly
      ensures SameBut(old(image), image, first + i)
      ensures ok ==> image[first + i] == source[i]
      ensures |log| >= |old(log)| && log[..start] == old(log[..start])
      ensures AcceptedKept(log[start..]) && Within(log[start..], first, |source|, if ok then i + 1 else i)
      ensures faithful ==> ok
      ensures faithful && old(image)[first + i] == source[i] ==> image == old(image) && log == old(log) + [Accepted(first + i)]
    {
      hide AcceptedKept, Within;
      ok := Verify(first + i, source[i], reopen);
      if !ok {
        ok := RecoverBlock(first + i, source[i], first, |source|, i, start);
        if !ok {
          return;
        }
      }
      AcceptNext(log[start..], first, |source|, i);
      assert (log + [Accepted(first + i)])[start..] == log[start..] + [Accepted(first + i)];
      assert (log + [Accepted(first + i)])[..start] == log[..start];
      Accept(first + i);
    }

    /** Erase, restart the writer, program again. */
    method RecoverBlock(block: nat, source: Block, ghost first: nat, ghost count: nat, ghost next: nat, ghost start: nat) returns (ok: bool)
      requires start <= |log| && AcceptedKept(log[start..]) && Within(log[start..], first, count, next)
      requires first + next <= block < first + count
      modifies this
      ensures old(orderly) ==> orderly
      ensures SameBut(old(image), image, block)
      ensures ok ==> block < BLOCK_COUNT && image[block] == source
      ensures |log| >= |old(log)| && log[..start] == old(log[..start])
      ensures AcceptedKept(log[start..]) && Within(log[start..], first, count, next)
      ensures ok ==> restarts > old(restarts)
      ensures faithful && block < BLOCK_COUNT ==> ok
    {
      hide AcceptedKept, Within, Touching;
      ghost var before := log;
      ok := EraseBlock(block);
      TouchingAbove(before, log, start, first, count, next, block);
      if !ok {
        return;
      }
      ok := Restart();
      if !ok {
        return;
      }
      ghost var between := log;
      ok := ProgramBlock(block, source);
      TouchingAbove(between, log, start, first, count, next, block);
    }

    /**
      `replaceLiveFilesystemExtent`. Success means that the whole extent reads back as the source;
      `completed` is always the length of a verified prefix, and no later attempt touches it.
     */
    method ReplaceExtent(first: nat, source: seq<Block>, eraseBlocks: seq<nat>) returns (ok: bool, completed: nat)
      modifies this
      ensures SameOutsideRun(old(image), image, first, |source|)
      ensures completed <= |source|
      ensures forall k :: 0 <= k < completed ==> first + k < BLOCK_COUNT && image[first + k] == source[k]
      ensures ok <==> completed == |source| && ValidReplacement(first, source, eraseBlocks)
      ensures |log| >= |old(log)| && log[..|old(log)|] == old(log)
      ensures AcceptedKept(log[|old(log)|..]) && Within(log[|old(log)|..], first, |source|, completed)
      ensures !ValidReplacement(first, source, eraseBlocks) ==> image == old(image) && log == old(log)
      ensures faithful ==> (ok <==> ValidReplacement(first, source, eraseBlocks))
      ensures restarts <= old(restarts) + 3
      ensures ok && faithful && (forall b :: first <= b < first + |source| ==> b in eraseBlocks) ==> restarts == old(restarts) + 1
      ensures ValidReplacement(first, source, eraseBlocks) && !ok ==> restarts == old(restarts) + 3
    {
      hide AcceptedKept, Within, RangeFrom;
      completed := 0;
      ghost var start := |log|;
      assert log[start..] == [];
      NothingYet(first, |source|);
      if !ValidReplacement(first, source, eraseBlocks) {
        return false, 0;
      }
      var next, attempt := 0, 1;
      while attempt <= ATTEMPTS && next < |source|
        invariant 0 <= next < |source| && completed == next && first + |source| <= BLOCK_COUNT
        invariant SameOutsideRun(old(image), image, first, |source|)
        invariant forall k :: 0 <= k < next ==> image[first + k] == source[k]
        invariant |log| >= start && log[..start] == old(log)
        invariant AcceptedKept(log[start..]) && Within(log[start..], first, |source|, next)
        invariant attempt == 1 ==> next == 0
        invariant 1 <= attempt <= ATTEMPTS + 1 && restarts == old(restarts) + attempt - 1
        invariant faithful ==> attempt <= 2
        invariant faithful && (forall b :: first <= b < first + |source| ==> b in eraseBlocks) ==> attempt == 1
      {
        var restarted := Restart();
        if restarted {
          var blocks := if attempt == 1 then eraseBlocks else RangeFrom(first + next, |source| - next);
          RangeCovers(first + next, |source| - next);
          next := ReplaceAttempt(first, source, next, blocks, start);
          completed := next;
          if next == |source| {
            return true, completed;
          }
        }
        attempt := attempt + 1;
      }
      ok := false;
    }

    /** One attempt: erase what is not yet verified, program it, verify as far as it is right. */
    method ReplaceAttempt(first: nat, source: seq<Block>, next: nat, blocks: seq<nat>, ghost start: nat) returns (reached: nat)
      requires open && next < |source| && first + |source| <= BLOCK_COUNT
      requires forall b :: b in blocks ==> first + next <= b < first + |source|
      requires forall k :: 0 <= k < next ==> image[first + k] == source[k]
      requires start <= |log| && AcceptedKept(log[start..]) && Within(log[start..], first, |source|, next)
      modifies this
      ensures restarts == old(restarts)
      ensures next <= reached <= |source|
      ensures SameOutsideRun(old(image), image, first + next, |source| - next)
      ensures forall k :: 0 <= k < reached ==> image[first + k] == source[k]
      ensures |log| >= |old(log)| && log[..|old(log)|] == old(log)
      ensures AcceptedKept(log[start..]) && Within(log[start..], first, |source|, reached)
      ensures faithful && (forall b :: first + next <= b < first + |source| ==> b in blocks) ==> reached == |source|
    {
      hide AcceptedKept, Within, BlankRun, Programmed;
      reached := next;
      ghost var everything := forall b :: first + next <= b < first + |source| ==> b in blocks;
      var erased := EraseUnfinished(first, source, next, blocks, start);
      if !erased {
        return;
      }
      var transferred, count := ProgramUnfinished(first, source, next, start, everything);
      var remaining := |source| - next;
      var verifyCount := if transferred then remaining else Min(remaining, count + 1);
      reached := VerifyFrom(first, source, next, verifyCount, !transferred, start);
    }

    /** The erase of one attempt. */
    method EraseUnfinished(first: nat, source: seq<Block>, next: nat, blocks: seq<nat>, ghost start: nat) returns (erased: bool)
      requires next < |source| && first + |source| <= BLOCK_COUNT
      requires forall b :: b in blocks ==> first + next <= b < first + |source|
      requires start <= |log| && AcceptedKept(log[start..]) && Within(log[start..], first, |source|, next)
      modifies this
      ensures restarts == old(restarts)
      ensures SameOutsideRun(old(image), image, first + next, |source| - next)
      ensures |log| >= |old(log)| && log[..|old(log)|] == old(log)
      ensures AcceptedKept(log[start..]) && Within(log[start..], first, |source|, next)
      ensures blocks == [] ==> erased && log == old(log)
      ensures faithful ==> erased
      ensures faithful && (forall b :: first + next <= b < first + |source| ==> b in blocks) ==>
        BlankRun(image, first + next, |source| - next)
    {
      hide AcceptedKept, Within;
      if blocks == [] {
        assert first + next !in blocks;
        return true;
      }
      TouchAbove(log[start..], first, |source|, next, Members(blocks));
      assert (log + [Touched(Members(blocks))])[start..] == log[start..] + [Touched(Members(blocks))];
      erased := EraseCommand(blocks);
    }

    /** The transfer of one attempt. */
    method ProgramUnfinished(first: nat, source: seq<Block>, next: nat, ghost start: nat, ghost blank: bool) returns (transferred: bool, count: nat)
      requires next < |source| && first + |source| <= BLOCK_COUNT
      requires start <= |log| && AcceptedKept(log[start..]) && Within(log[start..], first, |source|, next)
      requires faithful && blank ==> BlankRun(image, first + next, |source| - next)
      modifies this
      ensures restarts == old(restarts)
      ensures SameOutsideRun(old(image), image, first + next, |source| - next)
      ensures |log| >= |old(log)| && log[..|old(log)|] == old(log)
      ensures AcceptedKept(log[start..]) && Within(log[start..], first, |source|, next)
      ensures faithful ==> transferred
      ensures faithful && blank ==> forall k :: next <= k < |source| ==> image[first + k] == source[k]
    {
      hide AcceptedKept, Within, BlankRun, Programmed;
      ghost var run, before := RunOf(first + next, |source| - next), image;
      TouchAbove(log[start..], first, |source|, next, run);
      assert (log + [Touched(run)])[start..] == log[start..] + [Touched(run)];
      transferred, count := ProgramCommand(first + next, source[next..]);
      if faithful && blank {
        ProgrammedOverBlank(before, image, first, source, next);
      }
    }

    /** Accepts blocks from `next` on as long as they read back right. */
    method VerifyFrom(first: nat, source: seq<Block>, next: nat, verifyCount: nat, reopen: bool, ghost start: nat) returns (reached: nat)
      requires next + verifyCount <= |source| && first + |source| <= BLOCK_COUNT
      requires start <= |log| && AcceptedKept(log[start..]) && Within(log[start..], first, |source|, next)
      modifies this`open, this`log, this`readbacks
      ensures next <= reached <= next + verifyCount
      ensures forall k :: next <= k < reached ==> image[first + k] == source[k]
      ensures |log| >= |old(log)| && log[..|old(log)|] == old(log)
      ensures AcceptedKept(log[start..]) && Within(log[start..], first, |source|, reached)
      ensures faithful && (forall k :: next <= k < next + verifyCount ==> image[first + k] == source[k]) ==> reached == next + verifyCount
    {
      hide AcceptedKept, Within;
      reached := next;
      while reached < next + verifyCount
        invariant next <= reached <= next + verifyCount
        invariant forall k :: next <= k < reached ==> image[first + k] == source[k]
        invariant |log| >= |old(log)| && log[..|old(log)|] == old(log)
        invariant AcceptedKept(log[start..]) && Within(log[start..], first, |source|, reached)
        modifies this`open, this`log, this`readbacks
      {
        var good := Verify(first + reached, source[reached], first + reached < 2 || (reopen && reached == next));
        if !good {
          return;
        }
        AcceptNext(log[start..], first, |source|, reached);
        assert (log + [Accepted(first + reached)])[start..] == log[start..] + [Accepted(first + reached)];
        Accept(first + reached);
        reached := reached + 1;
      }
    }
  }

  function AcceptedRun(first: nat, count: nat): seq<Step>
  {
    seq(count, i requires 0 <= i < count => Accepted(first + i))
  }

  lemma AcceptedRunNone(first: nat)
    ensures AcceptedRun(first, 0) == []
  {}

  lemma AcceptedRunSnoc(first: nat, n: nat)
    ensures AcceptedRun(first, n + 1) == AcceptedRun(first, n) + [Accepted(first + n)]
  {}

  function RangeFrom(first: nat, count: nat): (s: seq<nat>)
    ensures |s| == count && forall b :: b in s ==> first <= b < first + count
  {
    seq(count, i requires 0 <= i < count => first + i)
  }

  function RunOf(first: nat, count: nat): (s: set<nat>)
    ensures forall b :: b in s ==> first <= b < first + count
  {
    Members(RangeFrom(first, count))
  }

  lemma RangeCovers(first: nat, count: nat)
    ensures forall b :: first <= b < first + count ==> b in RangeFrom(first, count)
  {
    var s := RangeFrom(first, count);
    forall b | first <= b < first + count ensures b in s {
      assert s[b - first] == b;
    }
  }

  lemma OneMember(block: nat)
    ensures Members([block]) == {block}
  {}

  lemma OneRun(block: nat)
    ensures RunOf(block, 1) == {block}
  {
    assert RangeFrom(block, 1) == [block];
    OneMember(block);
  }

  /** What the replacement accepts: a whole extent inside the device, and erases sorted, distinct and within it. */
  predicate ValidReplacement(first: nat, source: seq<Block>, eraseBlocks: seq<nat>)
  {
    && source != [] && first < BLOCK_COUNT && |source| <= BLOCK_COUNT - first
    && (forall i, j :: 0 <= i < j < |eraseBlocks| ==> eraseBlocks[i] < eraseBlocks[j])
    && (forall i :: 0 <= i < |eraseBlocks| ==> first <= eraseBlocks[i] < first + |source|)
  }
}
