/**
  Which blocks an allocation may use, and the arithmetic of runs of such blocks.
 */
module Allocation {
  import opened Bytes
  import opened Manifest
  import opened Device
  import opened Volume
  import Placement

  datatype Search = Found | NoExtent | ReadError

  /** Neither in the metadata blocks, nor used by an entry, nor set aside. */
  predicate Candidate(es: seq<Entry>, unavailable: seq<bool>, b: nat)
  {
    !Referenced(es, b) && b < |unavailable| && !unavailable[b]
  }

  ghost predicate Spare(image: Image, es: seq<Entry>, unavailable: seq<bool>, b: nat)
  {
    Candidate(es, unavailable, b) && image[b] == BLANK_BLOCK
  }

  ghost predicate SpareRun(image: Image, es: seq<Entry>, unavailable: seq<bool>, first: nat, count: nat)
  {
    forall b :: first <= b < first + count ==> Spare(image, es, unavailable, b)
  }

  /** No usable run of this length lies between `begin` and `end`. */
  ghost predicate NoRun(image: Image, es: seq<Entry>, unavailable: seq<bool>, begin: nat, end: nat, count: nat)
  {
    forall first :: begin <= first && first + count <= end ==> !SpareRun(image, es, unavailable, first, count)
  }

  /** No usable run of this length on either side of the cursor. */
  ghost predicate NoRoom(image: Image, es: seq<Entry>, unavailable: seq<bool>, cursor: nat, count: nat)
  {
    && NoRun(image, es, unavailable, cursor, BLOCK_COUNT, count)
    && NoRun(image, es, unavailable, FIRST_DATA_BLOCK, cursor, count)
  }

  /** A search takes the first usable run at or above the cursor, and only without one the first below it. */
  ghost predicate FirstChoice(image: Image, es: seq<Entry>, unavailable: seq<bool>, cursor: nat, first: nat, count: nat)
    requires count > 0
  {
    && FIRST_DATA_BLOCK <= first && first + count <= BLOCK_COUNT && SpareRun(image, es, unavailable, first, count)
    && if cursor <= first then NoRun(image, es, unavailable, cursor, first + count - 1, count)
       else
         && first + count <= cursor && NoRun(image, es, unavailable, cursor, BLOCK_COUNT, count)
         && NoRun(image, es, unavailable, FIRST_DATA_BLOCK, first + count - 1, count)
  }

  /** A search that finds something and one that finds nothing are about different volumes. */
  lemma ChoiceIsRoom(image: Image, es: seq<Entry>, unavailable: seq<bool>, cursor: nat, first: nat, count: nat)
    requires count > 0 && FirstChoice(image, es, unavailable, cursor, first, count)
    ensures !NoRoom(image, es, unavailable, cursor, count)
  {
    hide SpareRun;
  }

  lemma ChoiceParts(image: Image, es: seq<Entry>, unavailable: seq<bool>, cursor: nat, first: nat, count: nat)
    requires count > 0 && FirstChoice(image, es, unavailable, cursor, first, count)
    ensures FIRST_DATA_BLOCK <= first && first + count <= BLOCK_COUNT && SpareRun(image, es, unavailable, first, count)
  {}

  lemma SetAsideChoice(image: Image, es: seq<Entry>, before: seq<bool>, after: seq<bool>, cursor: nat, first: nat, count: nat)
    requires SetAside(image, before, after) && count > 0
    ensures FirstChoice(image, es, before, cursor, first, count) <==> FirstChoice(image, es, after, cursor, first, count)
  {
    SetAsideRun(image, es, before, after, first, count);
    SetAsideNoRun(image, es, before, after, cursor, first + count - 1, count);
    SetAsideNoRun(image, es, before, after, cursor, BLOCK_COUNT, count);
    SetAsideNoRun(image, es, before, after, FIRST_DATA_BLOCK, first + count - 1, count);
    hide NoRun, SpareRun;
  }

  lemma ChosenAbove(image: Image, es: seq<Entry>, unavailable: seq<bool>, cursor: nat, first: nat, count: nat)
    requires FIRST_DATA_BLOCK <= cursor <= first && 0 < count && first + count <= BLOCK_COUNT && SpareRun(image, es, unavailable, first, count)
    requires NoRun(image, es, unavailable, cursor, first + count - 1, count)
    ensures FirstChoice(image, es, unavailable, cursor, first, count)
  {}

  lemma ChosenBelow(image: Image, es: seq<Entry>, unavailable: seq<bool>, cursor: nat, first: nat, count: nat)
    requires FIRST_DATA_BLOCK <= first && 0 < count && first + count <= cursor <= BLOCK_COUNT && SpareRun(image, es, unavailable, first, count)
    requires NoRun(image, es, unavailable, cursor, BLOCK_COUNT, count)
    requires NoRun(image, es, unavailable, FIRST_DATA_BLOCK, first + count - 1, count)
    ensures FirstChoice(image, es, unavailable, cursor, first, count)
  {}

  lemma RunFound(image: Image, es: seq<Entry>, unavailable: seq<bool>, begin: nat, end: nat, first: nat, count: nat)
    requires begin <= first && first + count <= end && SpareRun(image, es, unavailable, first, count)
    ensures !NoRun(image, es, unavailable, begin, end, count)
  {}

  lemma NoRoomIs(image: Image, es: seq<Entry>, unavailable: seq<bool>, cursor: nat, count: nat)
    ensures
      NoRoom(image, es, unavailable, cursor, count) <==>
      && NoRun(image, es, unavailable, cursor, BLOCK_COUNT, count)
      && NoRun(image, es, unavailable, FIRST_DATA_BLOCK, cursor, count)
  {}

  lemma SetAsideNoRoom(image: Image, es: seq<Entry>, before: seq<bool>, after: seq<bool>, cursor: nat, count: nat)
    requires SetAside(image, before, after)
    ensures NoRoom(image, es, before, cursor, count) <==> NoRoom(image, es, after, cursor, count)
  {
    SetAsideNoRun(image, es, before, after, cursor, BLOCK_COUNT, count);
    SetAsideNoRun(image, es, before, after, FIRST_DATA_BLOCK, cursor, count);
    hide NoRun;
  }

  /** No run of this many unreferenced blocks, blank or not, between `begin` and `end`. */
  ghost predicate NoFreeRun(es: seq<Entry>, begin: nat, end: nat, count: nat)
  {
    forall first :: begin <= first && first + count <= end ==> !Placement.FreeRun(es, first, count)
  }

  ghost predicate NoFreeRoom(es: seq<Entry>, cursor: nat, count: nat)
  {
    NoFreeRun(es, cursor, BLOCK_COUNT, count) && NoFreeRun(es, FIRST_DATA_BLOCK, cursor, count)
  }

  /** Once all garbage is collected, the unreferenced blocks are the usable ones. */
  lemma CleanRuns(image: Image, es: seq<Entry>, unavailable: seq<bool>, begin: nat, end: nat, count: nat)
    requires |unavailable| == BLOCK_COUNT && AllSpare(image, es, unavailable)
    ensures NoRun(image, es, unavailable, begin, end, count) <==> NoFreeRun(es, begin, end, count)
  {
    forall first: nat ensures SpareRun(image, es, unavailable, first, count) <==> Placement.FreeRun(es, first, count) {
      forall b: nat | first <= b < first + count ensures Spare(image, es, unavailable, b) <==> !Referenced(es, b) {
        assert b >= BLOCK_COUNT ==> Referenced(es, b);
        hide Referenced;
      }
      hide Spare, Referenced, AllSpare;
    }
    hide SpareRun, Placement.FreeRun, AllSpare;
  }

  /** Setting aside blocks that are not blank changes no decision. */
  ghost predicate SetAside(image: Image, before: seq<bool>, after: seq<bool>)
  {
    && |before| == |after| == BLOCK_COUNT
    && forall b :: 0 <= b < BLOCK_COUNT ==> after[b] == before[b] || (after[b] && image[b] != BLANK_BLOCK)
  }

  lemma SetAsideSpare(image: Image, es: seq<Entry>, before: seq<bool>, after: seq<bool>, b: nat)
    requires SetAside(image, before, after)
    ensures Spare(image, es, before, b) <==> Spare(image, es, after, b)
  {}

  lemma SetAsideNoRun(image: Image, es: seq<Entry>, before: seq<bool>, after: seq<bool>, begin: nat, end: nat, count: nat)
    requires SetAside(image, before, after)
    ensures NoRun(image, es, before, begin, end, count) <==> NoRun(image, es, after, begin, end, count)
  {
    hide Spare;
    forall first: nat ensures SpareRun(image, es, before, first, count) <==> SpareRun(image, es, after, first, count) {
      forall b: nat | first <= b < first + count ensures Spare(image, es, before, b) <==> Spare(image, es, after, b) {
        SetAsideSpare(image, es, before, after, b);
      }
    }
  }

  // ----- The scan -----

  /** `run` usable blocks end before `block`, no more, and no run of `count` blocks ends earlier. */
  ghost predicate Scanned(image: Image, es: seq<Entry>, unavailable: seq<bool>, begin: nat, block: nat, run: nat, count: nat)
  {
    && begin + run <= block && run < count
    && SpareRun(image, es, unavailable, block - run, run)
    && (begin + run < block ==> !Spare(image, es, unavailable, block - run - 1))
    && NoRun(image, es, unavailable, begin, block, count)
  }

  lemma ScanStart(image: Image, es: seq<Entry>, unavailable: seq<bool>, begin: nat, count: nat)
    requires count > 0
    ensures Scanned(image, es, unavailable, begin, begin, 0, count)
  {}

  lemma ScanOver(image: Image, es: seq<Entry>, unavailable: seq<bool>, begin: nat, block: nat, run: nat, count: nat)
    requires Scanned(image, es, unavailable, begin, block, run, count)
    requires !Spare(image, es, unavailable, block)
    ensures Scanned(image, es, unavailable, begin, block + 1, 0, count)
  {}

  lemma ScanGrow(image: Image, es: seq<Entry>, unavailable: seq<bool>, begin: nat, block: nat, run: nat, count: nat)
    requires Scanned(image, es, unavailable, begin, block, run, count)
    requires Spare(image, es, unavailable, block)
    ensures SpareRun(image, es, unavailable, block - run, run + 1)
    ensures run + 1 < count ==> Scanned(image, es, unavailable, begin, block + 1, run + 1, count)
  {}

  lemma ScannedBounds(image: Image, es: seq<Entry>, unavailable: seq<bool>, begin: nat, block: nat, run: nat, count: nat)
    requires Scanned(image, es, unavailable, begin, block, run, count)
    ensures begin + run <= block && run < count && NoRun(image, es, unavailable, begin, block, count)
  {}

  lemma NothingBelow(image: Image, es: seq<Entry>, unavailable: seq<bool>, begin: nat, end: nat, count: nat)
    requires end < begin + count
    ensures NoRun(image, es, unavailable, begin, end, count)
  {}

  lemma SetAsideSame(image: Image, unavailable: seq<bool>)
    requires |unavailable| == BLOCK_COUNT
    ensures SetAside(image, unavailable, unavailable)
  {}

  lemma SetAsideTrans(image: Image, a: seq<bool>, b: seq<bool>, c: seq<bool>)
    requires SetAside(image, a, b) && SetAside(image, b, c)
    ensures SetAside(image, a, c)
  {}

  lemma SetAsideRun(image: Image, es: seq<Entry>, before: seq<bool>, after: seq<bool>, first: nat, count: nat)
    requires SetAside(image, before, after)
    ensures SpareRun(image, es, before, first, count) <==> SpareRun(image, es, after, first, count)
  {
    hide Spare;
    forall b: nat | first <= b < first + count ensures Spare(image, es, before, b) <==> Spare(image, es, after, b) {
      SetAsideSpare(image, es, before, after, b);
    }
  }

  /** Both searches find nothing exactly if every usable run of this length lies across the cursor. */
  lemma MissedAcross(image: Image, es: seq<Entry>, unavailable: seq<bool>, cursor: nat, count: nat)
    requires FIRST_DATA_BLOCK <= cursor <= BLOCK_COUNT && |unavailable| == BLOCK_COUNT && count > 0
    ensures
      NoRun(image, es, unavailable, cursor, BLOCK_COUNT, count) && NoRun(image, es, unavailable, FIRST_DATA_BLOCK, cursor, count)
      <==> forall first: nat :: SpareRun(image, es, unavailable, first, count) ==> first < cursor < first + count
  {
    hide Referenced;
    forall first: nat | SpareRun(image, es, unavailable, first, count) ensures FIRST_DATA_BLOCK <= first && first + count <= BLOCK_COUNT {
      assert Spare(image, es, unavailable, first) && Spare(image, es, unavailable, first + count - 1);
      SpareInRange(image, es, unavailable, first);
      SpareInRange(image, es, unavailable, first + count - 1);
    }
    hide SpareRun;
  }

  lemma SpareInRange(image: Image, es: seq<Entry>, unavailable: seq<bool>, b: nat)
    requires Spare(image, es, unavailable, b)
    ensures FIRST_DATA_BLOCK <= b < BLOCK_COUNT
  {}

  /** On an empty volume with the cursor at block 3 there is room for 510 blocks, and a search for them fails. */
  lemma RunAcrossCursor(image: Image, unavailable: seq<bool>)
    requires |unavailable| == BLOCK_COUNT && forall b :: 0 <= b < BLOCK_COUNT ==> !unavailable[b]
    requires forall b :: FIRST_DATA_BLOCK <= b < BLOCK_COUNT ==> image[b] == BLANK_BLOCK
    ensures SpareRun(image, [], unavailable, FIRST_DATA_BLOCK, 510)
    ensures NoRun(image, [], unavailable, 3, BLOCK_COUNT, 510) && NoRun(image, [], unavailable, FIRST_DATA_BLOCK, 3, 510)
  {}

  // ----- Counting free blocks -----

  function FreeCount(es: seq<Entry>, unavailable: seq<bool>, hi: nat): nat
  {
    if hi <= FIRST_DATA_BLOCK then 0
    else FreeCount(es, unavailable, hi - 1) + if Candidate(es, unavailable, hi - 1) then 1 else 0
  }

  /** It is the number of such blocks. */
  lemma {:induction false} FreeCountIs(es: seq<Entry>, unavailable: seq<bool>, hi: nat)
    ensures FreeCount(es, unavailable, hi) == |set b | FIRST_DATA_BLOCK <= b < hi && Candidate(es, unavailable, b)|
  {
    hide Candidate;
    if hi > FIRST_DATA_BLOCK {
      FreeCountIs(es, unavailable, hi - 1);
      var less := set b | FIRST_DATA_BLOCK <= b < hi - 1 && Candidate(es, unavailable, b);
      assert (set b | FIRST_DATA_BLOCK <= b < hi && Candidate(es, unavailable, b))
          == less + if Candidate(es, unavailable, hi - 1) then {hi - 1} else {};
    }
  }

  lemma {:induction false} FreeCountMonotone(es: seq<Entry>, unavailable: seq<bool>, lo: nat, hi: nat)
    requires lo <= hi
    ensures FreeCount(es, unavailable, lo) <= FreeCount(es, unavailable, hi)
    decreases hi
  {
    hide Candidate;
    if lo < hi && hi > FIRST_DATA_BLOCK {
      FreeCountMonotone(es, unavailable, lo, hi - 1);
    }
  }

  lemma {:induction false} RunCounts(image: Image, es: seq<Entry>, unavailable: seq<bool>, first: nat, count: nat)
    requires FIRST_DATA_BLOCK <= first && SpareRun(image, es, unavailable, first, count)
    ensures FreeCount(es, unavailable, first + count) >= count
    decreases count
  {
    hide Candidate;
    if count > 0 {
      RunCounts(image, es, unavailable, first, count - 1);
      assert Spare(image, es, unavailable, first + count - 1);
    }
  }

  /** A request for more blocks than are free cannot be met anywhere. */
  lemma TooMany(image: Image, es: seq<Entry>, unavailable: seq<bool>, begin: nat, end: nat, count: nat)
    requires FIRST_DATA_BLOCK <= begin && end <= BLOCK_COUNT
    requires count > FreeCount(es, unavailable, BLOCK_COUNT)
    ensures NoRun(image, es, unavailable, begin, end, count)
  {
    hide Spare, FreeCount;
    forall first | begin <= first && first + count <= end ensures !SpareRun(image, es, unavailable, first, count) {
      if SpareRun(image, es, unavailable, first, count) {
        RunCounts(image, es, unavailable, first, count);
        FreeCountMonotone(es, unavailable, first + count, BLOCK_COUNT);
      }
    }
  }

  /** A usable run is free and blank. */
  lemma SpareIsFree(image: Image, es: seq<Entry>, unavailable: seq<bool>, first: nat, count: nat)
    requires SpareRun(image, es, unavailable, first, count)
    ensures Placement.FreeRun(es, first, count) && BlankRun(image, first, count)
  {
    hide Candidate;
    forall b | first <= b < first + count ensures !Referenced(es, b) && image[b] == BLANK_BLOCK {
      CandidateFree(es, unavailable, b);
      assert Spare(image, es, unavailable, b);
    }
  }

  lemma CandidateFree(es: seq<Entry>, unavailable: seq<bool>, b: nat)
    ensures Candidate(es, unavailable, b) ==> !Referenced(es, b)
  {}

  // ----- Garbage -----

  /** Every block no entry uses is blank and available. */
  ghost predicate AllSpare(image: Image, es: seq<Entry>, unavailable: seq<bool>)
    requires |unavailable| == BLOCK_COUNT
  {
    forall b :: 0 <= b < BLOCK_COUNT && !Referenced(es, b) ==> image[b] == BLANK_BLOCK && !unavailable[b]
  }

  /** No block is set aside. */
  function Available(): (s: seq<bool>)
    ensures |s| == BLOCK_COUNT && forall b :: 0 <= b < BLOCK_COUNT ==> !s[b]
  {
    seq(BLOCK_COUNT, i => false)
  }

  /** Once all garbage is collected, the free blocks are those no entry uses. */
  lemma {:induction false} SpareCount(image: Image, es: seq<Entry>, unavailable: seq<bool>, hi: nat)
    requires |unavailable| == BLOCK_COUNT && AllSpare(image, es, unavailable) && hi <= BLOCK_COUNT
    ensures FreeCount(es, unavailable, hi) == FreeCount(es, Available(), hi)
  {
    hide Referenced;
    if hi > 0 {
      SpareCount(image, es, unavailable, hi - 1);
    }
  }

  /** Every block no entry uses, other than the missed ones, is ready for allocation. */
  ghost predicate SpareExcept(image: Image, es: seq<Entry>, unavailable: seq<bool>, missed: set<nat>)
    requires |unavailable| == BLOCK_COUNT
  {
    forall b :: 0 <= b < BLOCK_COUNT && !Referenced(es, b) && b !in missed ==> image[b] == BLANK_BLOCK && !unavailable[b]
  }

  lemma SpareEverywhere(image: Image, es: seq<Entry>, unavailable: seq<bool>, missed: set<nat>)
    requires |unavailable| == BLOCK_COUNT && SpareExcept(image, es, unavailable, missed)
    ensures missed == {} ==> AllSpare(image, es, unavailable)
  {}

  /** Below `end`, every block no entry uses is spare, missed or among the garbage; all garbage is free. */
  ghost predicate GarbageBelow(image: Image, es: seq<Entry>, unavailable: seq<bool>, end: nat, garbage: seq<nat>, missed: set<nat>)
    requires |unavailable| == BLOCK_COUNT && end <= BLOCK_COUNT
  {
    && (forall b :: b in garbage ==> !Referenced(es, b))
    && forall b :: 0 <= b < end && !Referenced(es, b) ==>
      b in garbage || b in missed || (image[b] == BLANK_BLOCK && !unavailable[b])
  }

  /** The number of blocks below `hi` that no entry uses and that are not blank. */
  ghost function GarbageCount(image: Image, es: seq<Entry>, hi: nat): nat
    requires hi <= BLOCK_COUNT
  {
    if hi == 0 then 0
    else GarbageCount(image, es, hi - 1) + if !Referenced(es, hi - 1) && image[hi - 1] != BLANK_BLOCK then 1 else 0
  }

  /** It is the number of such blocks. */
  lemma {:induction false} GarbageCountIs(image: Image, es: seq<Entry>, hi: nat)
    requires hi <= BLOCK_COUNT
    ensures GarbageCount(image, es, hi) == |set b | 0 <= b < hi && !Referenced(es, b) && image[b] != BLANK_BLOCK|
  {
    hide Referenced;
    if hi > 0 {
      GarbageCountIs(image, es, hi - 1);
      GarbageSetStep(image, es, hi - 1);
    }
  }

  lemma GarbageSetStep(image: Image, es: seq<Entry>, n: nat)
    requires n < BLOCK_COUNT
    ensures (set b | 0 <= b < n + 1 && !Referenced(es, b) && image[b] != BLANK_BLOCK)
         == (set b | 0 <= b < n && !Referenced(es, b) && image[b] != BLANK_BLOCK)
            + if !Referenced(es, n) && image[n] != BLANK_BLOCK then {n} else {}
  {
    hide Referenced;
  }

  lemma GarbageCountStart(image: Image, es: seq<Entry>)
    ensures GarbageCount(image, es, FIRST_DATA_BLOCK) == 0
  {
    assert Referenced(es, 0) && Referenced(es, 1);
    hide Referenced;
    assert GarbageCount(image, es, 1) == 0;
  }

  lemma NoGarbage(image: Image, es: seq<Entry>, unavailable: seq<bool>, missed: set<nat>)
    requires |unavailable| == BLOCK_COUNT
    ensures GarbageBelow(image, es, unavailable, FIRST_DATA_BLOCK, [], missed)
    ensures GarbageBelow(image, es, unavailable, BLOCK_COUNT, [], missed) <==> SpareExcept(image, es, unavailable, missed)
  {}

  lemma GarbageStep(image: Image, es: seq<Entry>, unavailable: seq<bool>, b: nat, garbage: seq<nat>, missed: set<nat>)
    requires |unavailable| == BLOCK_COUNT && b < BLOCK_COUNT && GarbageBelow(image, es, unavailable, b, garbage, missed)
    ensures Referenced(es, b) ==> GarbageBelow(image, es, unavailable, b + 1, garbage, missed)
    ensures image[b] == BLANK_BLOCK ==> GarbageBelow(image, es, unavailable[b := false], b + 1, garbage, missed)
    ensures !Referenced(es, b) ==> GarbageBelow(image, es, unavailable, b + 1, garbage + [b], missed)
    ensures GarbageBelow(image, es, unavailable, b + 1, garbage, missed + {b})
  {}

  /** Neither a commit nor an erase of garbage turns anything else into garbage. */
  lemma GarbageKept(before: Image, after: Image, es: seq<Entry>, was: seq<bool>, now: seq<bool>, end: nat, garbage: seq<nat>, missed: set<nat>)
    requires |was| == |now| == BLOCK_COUNT && end <= BLOCK_COUNT && GarbageBelow(before, es, was, end, garbage, missed)
    requires forall b :: FIRST_DATA_BLOCK <= b < BLOCK_COUNT && b !in garbage ==> after[b] == before[b] && now[b] == was[b]
    ensures GarbageBelow(after, es, now, end, garbage, missed)
    ensures end == BLOCK_COUNT && (forall b :: b in garbage ==> b < BLOCK_COUNT && after[b] == BLANK_BLOCK && !now[b]) ==>
      SpareExcept(after, es, now, missed)
  {}

  lemma GarbageFree(image: Image, es: seq<Entry>, unavailable: seq<bool>, end: nat, garbage: seq<nat>, missed: set<nat>)
    requires |unavailable| == BLOCK_COUNT && end <= BLOCK_COUNT && GarbageBelow(image, es, unavailable, end, garbage, missed)
    ensures forall b :: b in garbage ==> !Referenced(es, b)
  {}

  /** A pass over an empty volume whose read of block 2 failed is complete and has left the garbage in it. */
  lemma SkippedBlock(image: Image, unavailable: seq<bool>)
    requires |unavailable| == BLOCK_COUNT && forall b :: 0 <= b < BLOCK_COUNT ==> !unavailable[b]
    requires image[2] != BLANK_BLOCK && forall b :: 2 < b < BLOCK_COUNT ==> image[b] == BLANK_BLOCK
    ensures GarbageBelow(image, [], unavailable, BLOCK_COUNT, [], {2}) && SpareExcept(image, [], unavailable, {2})
    ensures !AllSpare(image, [], unavailable)
  {
    assert !Referenced([], 2);
  }

  // ----- The fixed point of compaction -----

  /** A whole-block file that compaction may move. */
  predicate Movable(e: Entry)
  {
    !e.directory && e.blockCount != 0 && e.storage.Dedicated?
  }

  /** No spare run below the file is long enough for it. */
  ghost predicate Stuck(image: Image, es: seq<Entry>, unavailable: seq<bool>, k: nat)
  {
    k < |es| && NoRun(image, es, unavailable, FIRST_DATA_BLOCK, es[k].firstBlock, es[k].blockCount)
  }

  /** Every whole-block file is as low as a single move can bring it. */
  ghost predicate Compacted(image: Image, es: seq<Entry>, unavailable: seq<bool>)
  {
    forall k :: 0 <= k < |es| && Movable(es[k]) ==> Stuck(image, es, unavailable, k)
  }

  lemma SetAsideStuck(image: Image, es: seq<Entry>, before: seq<bool>, after: seq<bool>, k: nat)
    requires SetAside(image, before, after)
    ensures Stuck(image, es, before, k) <==> Stuck(image, es, after, k)
  {
    if k < |es| {
      SetAsideNoRun(image, es, before, after, FIRST_DATA_BLOCK, es[k].firstBlock, es[k].blockCount);
    }
  }

  lemma SetAsideCompacted(image: Image, es: seq<Entry>, before: seq<bool>, after: seq<bool>)
    requires SetAside(image, before, after)
    ensures Compacted(image, es, before) <==> Compacted(image, es, after)
  {
    hide Stuck, Movable;
    forall k: nat ensures Stuck(image, es, before, k) <==> Stuck(image, es, after, k) {
      SetAsideStuck(image, es, before, after, k);
    }
  }

  lemma ShorterRun(image: Image, es: seq<Entry>, first: nat, count: nat, shorter: nat)
    requires Placement.FreeRun(es, first, count) && BlankRun(image, first, count) && shorter <= count
    ensures Placement.FreeRun(es, first, shorter) && BlankRun(image, first, shorter)
  {}
}
