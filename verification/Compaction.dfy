/**
  What a compaction has to do, read off the volume before it: which records are repacked and
  whether that is worth a move, how whole-block files move down one by one, and that blocks which
  were in use or ready for allocation stay so.
 */
module Compaction {
  import opened Bytes
  import opened Paths
  import opened Manifest
  import opened Device
  import opened Volume
  import opened EntryOps
  import opened Placement
  import opened Allocation
  import opened Carrying
  import opened Relocation
  import opened Planning
  import opened BinPacking
  import PackedBlock

  // ----- The records to repack -----

  function Renumbered(p: Pending, id: nat): Pending
  {
    p.(record := p.record.(id := if id < 0x1_0000_0000 then id else 0))
  }

  /** Records under the numbers that follow `from`. */
  function NumberedFrom(records: seq<Pending>, from: nat): (s: seq<Pending>)
    ensures |s| == |records|
  {
    seq(|records|, k requires 0 <= k < |records| => Renumbered(records[k], from + k + 1))
  }

  /** The live records of these blocks, block by block and in the order of the entries. */
  function LiveRecords(image: Image, es: seq<Entry>, blocks: seq<nat>): seq<Pending>
    requires AllAcceptable(es)
  {
    if blocks == [] then []
    else
      var last := |blocks| - 1;
      LiveRecords(image, es, blocks[..last]) + CarriedBlock(image, es, {}, blocks[last], |es|)
  }

  /** All of them, numbered from one. */
  function LivePacked(image: Image, es: seq<Entry>, blocks: seq<nat>): seq<Pending>
    requires AllAcceptable(es)
  {
    NumberedFrom(LiveRecords(image, es, blocks), 0)
  }

  lemma NoLivePacked(image: Image, es: seq<Entry>, none: seq<nat>)
    requires AllAcceptable(es) && none == []
    ensures LivePacked(image, es, none) == []
  {}

  lemma LivePackedSnoc(image: Image, es: seq<Entry>, blocks: seq<nat>, n: nat)
    requires AllAcceptable(es) && n < |blocks|
    ensures
      var so := LivePacked(image, es, blocks[..n]);
      LivePacked(image, es, blocks[..n + 1]) == so + NumberedFrom(CarriedBlock(image, es, {}, blocks[n], |es|), |so|)
  {
    hide AllAcceptable, CarriedBlock, Renumbered;
    assert blocks[..n + 1][..n] == blocks[..n];
  }

  lemma NumberedSnoc(records: seq<Pending>, r: Pending, from: nat)
    ensures NumberedFrom(records + [r], from) == NumberedFrom(records, from) + [Renumbered(r, from + |records| + 1)]
    ensures NumberedFrom([], from) == []
  {
    hide Renumbered;
  }

  lemma NumberedNone(from: nat)
    ensures NumberedFrom([], from) == []
  {}

  lemma CarriedIsRenumbered(image: Image, e: Entry, p: Pending, id: nat)
    requires CarriedFrom(image, e, p) && p.record.id == id
    ensures p == Renumbered(CarriedRecord(image, e), id)
  {}

  /** The records do not depend on free blocks. */
  lemma LivePackedFrame(before: Image, after: Image, es: seq<Entry>, blocks: seq<nat>)
    requires AllAcceptable(es) && SameOnReferenced(before, after, es)
    ensures LivePacked(before, es, blocks) == LivePacked(after, es, blocks)
  {
    hide AllAcceptable, SameOnReferenced, LiveRecords;
    LiveRecordsFrame(before, after, es, blocks);
  }

  lemma {:induction false} LiveRecordsFrame(before: Image, after: Image, es: seq<Entry>, blocks: seq<nat>)
    requires AllAcceptable(es) && SameOnReferenced(before, after, es)
    ensures LiveRecords(before, es, blocks) == LiveRecords(after, es, blocks)
  {
    hide AllAcceptable, SameOnReferenced, CarriedBlock;
    if blocks != [] {
      LiveRecordsFrame(before, after, es, blocks[..|blocks| - 1]);
      CarriedBlockFrame(before, after, es, blocks[|blocks| - 1], |es|);
    }
  }

  lemma {:induction false} CarriedBlockFrame(before: Image, after: Image, es: seq<Entry>, block: nat, n: nat)
    requires AllAcceptable(es) && SameOnReferenced(before, after, es) && n <= |es|
    ensures CarriedBlock(before, es, {}, block, n) == CarriedBlock(after, es, {}, block, n)
  {
    hide SameOnReferenced, FileBytes, Acceptable, Live;
    if n > 0 {
      CarriedBlockFrame(before, after, es, block, n - 1);
      NodeFrame(before, after, es, n - 1);
      CarriedBlockStep(before, es, {}, block, n - 1);
      CarriedBlockStep(after, es, {}, block, n - 1);
    }
  }

  /** The live files of a block among the first `upto` entries were packed in this generation. */
  predicate BlockGeneration(es: seq<Entry>, block: nat, skip: set<Name>, upto: nat, generation: u64)
  {
    forall k :: 0 <= k < upto && k < |es| && Live(es[k], block, skip) ==> es[k].packedGeneration == generation
  }

  lemma BlockGenerationNext(es: seq<Entry>, block: nat, skip: set<Name>, n: nat, generation: u64)
    requires n < |es| && BlockGeneration(es, block, skip, n, generation)
    requires Live(es[n], block, skip) ==> es[n].packedGeneration == generation
    ensures BlockGeneration(es, block, skip, n + 1, generation)
  {}

  lemma NoBlockGeneration(es: seq<Entry>, block: nat, skip: set<Name>, generation: u64)
    ensures BlockGeneration(es, block, skip, 0, generation)
    ensures (forall k :: 0 <= k < |es| ==> !Live(es[k], block, skip)) ==> BlockGeneration(es, block, skip, |es|, generation)
  {}

  lemma GenerationOfFirst(es: seq<Entry>, block: nat, skip: set<Name>, generation: u64)
    requires BlockGeneration(es, block, skip, |es|, generation)
    ensures forall k :: 0 <= k < |es| && Live(es[k], block, skip) ==> BlockGeneration(es, block, skip, |es|, es[k].packedGeneration)
  {}

  /** The files in these blocks were packed in earlier generations, and this is the next one. */
  predicate Outdated(es: seq<Entry>, blocks: seq<nat>, generation: nat)
  {
    && (forall k :: 0 <= k < |es| && Live(es[k], es[k].firstBlock, {}) && es[k].firstBlock in blocks ==> es[k].packedGeneration < generation)
    && (generation == 1 || exists k :: 0 <= k < |es| && es[k].storage.Packed? && es[k].packedGeneration + 1 == generation)
  }

  lemma OutdatedNone(es: seq<Entry>, none: seq<nat>)
    requires none == []
    ensures Outdated(es, none, 1)
  {}

  lemma OutdatedNext(es: seq<Entry>, blocks: seq<nat>, n: nat, generation: nat, k: nat, higher: nat)
    requires n < |blocks| && Outdated(es, blocks[..n], generation)
    requires higher == if k < |es| then Max(generation, es[k].packedGeneration + 1) else generation
    requires k < |es| ==> Live(es[k], blocks[n], {}) && BlockGeneration(es, blocks[n], {}, |es|, es[k].packedGeneration)
    requires k >= |es| ==> forall i :: 0 <= i < |es| ==> !Live(es[i], blocks[n], {})
    ensures Outdated(es, blocks[..n + 1], higher)
  {
    assert blocks[..n + 1] == blocks[..n] + [blocks[n]];
    forall i | 0 <= i < |es| && Live(es[i], es[i].firstBlock, {}) && es[i].firstBlock in blocks[..n + 1]
      ensures es[i].packedGeneration < higher
    {
      if es[i].firstBlock !in blocks[..n] {
        assert Live(es[i], blocks[n], {});
      }
    }
  }

  lemma OutdatedIsNew(es: seq<Entry>, blocks: seq<nat>, generation: nat)
    requires AllAcceptable(es) && AllPackedIn(es, Members(blocks)) && Outdated(es, blocks, generation)
    ensures NewGeneration(es, generation)
  {
    hide ValidPath;
    forall k | 0 <= k < |es| && es[k].storage.Packed? ensures es[k].packedGeneration < generation {
      assert Acceptable(es[k]) && es[k].firstBlock in Members(blocks);
    }
  }

  // ----- Whether repacking is worth it -----

  /** The blocks that first fit needs for the records. */
  function BinsFor(pending: seq<Pending>): nat
  {
    if AllEligible(RecordsOf(pending)) then |PlanOf(RecordsOf(pending)).bins| else 0
  }

  /**
    Nothing to repack; or a block would be saved but there is no spare run for the bins on either
    side of the cursor; or none would be saved and there is no such run below all the packed blocks.
   */
  ghost predicate PackedStays(image: Image, es: seq<Entry>, unavailable: seq<bool>, cursor: nat, pending: seq<Pending>, sources: seq<nat>)
  {
    || pending == []
    || (if BinsFor(pending) < |sources| then NoRoom(image, es, unavailable, cursor, BinsFor(pending))
        else sources != [] && NoRun(image, es, unavailable, FIRST_DATA_BLOCK, sources[0], BinsFor(pending)))
  }

  lemma PackedStaysIs(image: Image, es: seq<Entry>, unavailable: seq<bool>, cursor: nat, pending: seq<Pending>, sources: seq<nat>, needed: nat)
    requires Plannable(RecordsOf(pending)) && needed == |PlanOf(RecordsOf(pending)).bins| && sources != []
    ensures
      pending != [] ==>
        (PackedStays(image, es, unavailable, cursor, pending, sources)
        <==> if needed < |sources| then NoRoom(image, es, unavailable, cursor, needed)
             else NoRun(image, es, unavailable, FIRST_DATA_BLOCK, sources[0], needed))
  {
    hide PlanOf, NoRun, RecordsOf, Eligible;
  }

  lemma NothingPacked(image: Image, es: seq<Entry>, unavailable: seq<bool>, cursor: nat, pending: seq<Pending>, sources: seq<nat>)
    ensures pending == [] ==> PackedStays(image, es, unavailable, cursor, pending, sources)
  {}

  /** The same when all unreferenced blocks count as spare, as they do after a garbage collection. */
  ghost predicate PackedStaysClean(es: seq<Entry>, cursor: nat, pending: seq<Pending>, sources: seq<nat>)
  {
    || pending == []
    || (if BinsFor(pending) < |sources| then NoFreeRoom(es, cursor, BinsFor(pending))
        else sources != [] && NoFreeRun(es, FIRST_DATA_BLOCK, sources[0], BinsFor(pending)))
  }

  lemma StaysWhenClean(image: Image, es: seq<Entry>, unavailable: seq<bool>, cursor: nat, pending: seq<Pending>, sources: seq<nat>)
    requires |unavailable| == BLOCK_COUNT && AllSpare(image, es, unavailable)
    ensures PackedStays(image, es, unavailable, cursor, pending, sources) <==> PackedStaysClean(es, cursor, pending, sources)
  {
    hide AllSpare, NoRun, NoFreeRun, BinsFor;
    var n := BinsFor(pending);
    CleanRuns(image, es, unavailable, cursor, BLOCK_COUNT, n);
    CleanRuns(image, es, unavailable, FIRST_DATA_BLOCK, cursor, n);
    if sources != [] {
      CleanRuns(image, es, unavailable, FIRST_DATA_BLOCK, sources[0], n);
    }
  }

  /** The new place of the packed blocks: where a search from the cursor finds room, or the lowest run below them all. */
  ghost predicate Destination(image: Image, es: seq<Entry>, unavailable: seq<bool>, cursor: nat, count: nat, sources: seq<nat>, first: nat)
  {
    count > 0 && sources != []
    && if count < |sources| then FirstChoice(image, es, unavailable, cursor, first, count)
       else
         && FIRST_DATA_BLOCK <= first && first + count <= sources[0] && SpareRun(image, es, unavailable, first, count)
         && NoRun(image, es, unavailable, FIRST_DATA_BLOCK, first + count - 1, count)
  }

  lemma DestinationIs(image: Image, es: seq<Entry>, unavailable: seq<bool>, cursor: nat, pending: seq<Pending>, count: nat, sources: seq<nat>, first: nat)
    requires AllEligible(RecordsOf(pending)) && count == |PlanOf(RecordsOf(pending)).bins| && count > 0 && sources != []
    requires count < |sources| ==> FirstChoice(image, es, unavailable, cursor, first, count)
    requires count >= |sources| ==>
      && FIRST_DATA_BLOCK <= first && first + count <= sources[0] && SpareRun(image, es, unavailable, first, count)
      && NoRun(image, es, unavailable, FIRST_DATA_BLOCK, first + count - 1, count)
    ensures Destination(image, es, unavailable, cursor, BinsFor(pending), sources, first) && count == BinsFor(pending)
  {
    hide PlanOf, NoRun, SpareRun, RecordsOf, Eligible;
  }

  lemma PlannableIs(records: seq<PackedBlock.Record>)
    requires Plannable(records)
    ensures AllEligible(records)
  {}

  // ----- The volume after repacking -----

  /** One more than the latest generation of a packed block, or the first one. */
  predicate NewGeneration(es: seq<Entry>, generation: nat)
  {
    && (forall k :: 0 <= k < |es| && es[k].storage.Packed? ==> es[k].packedGeneration < generation)
    && (generation == 1 || exists k :: 0 <= k < |es| && es[k].storage.Packed? && es[k].packedGeneration + 1 == generation)
  }

  /** All packed files are in the bins that first fit gives them, in one new run of blocks; all other entries are as before. */
  ghost predicate RepackedAs(es: seq<Entry>, pending: seq<Pending>, next: seq<Entry>)
  {
    exists generation: u64, first: nat ::
      NewGeneration(es, generation) && RepackedAt(es, pending, generation, first, next)
  }

  ghost predicate RepackedAt(es: seq<Entry>, pending: seq<Pending>, generation: u64, first: nat, next: seq<Entry>)
  {
    Plannable(RecordsOf(pending))
    && var bins := PlanOf(RecordsOf(pending)).bins;
    && Planned(pending, bins, generation) && Positioned(bins, first)
    && next == UpsertAll(es, PackedEntries(pending, bins, generation, first))
  }

  lemma RepackedIs(es: seq<Entry>, pending: seq<Pending>, bins: seq<seq<nat>>, generation: u64, first: nat, next: seq<Entry>)
    requires Planned(pending, bins, generation) && Positioned(bins, first) && NewGeneration(es, generation)
    requires next == UpsertAll(es, PackedEntries(pending, bins, generation, first))
    ensures RepackedAs(es, pending, next)
  {
    hide NewGeneration, PackedEntries, UpsertAll, Positioned, PlanOf, Plannable, RecordsOf, PendingOk;
    assert RepackedAt(es, pending, generation, first, next);
  }

  /** A whole-block file is not touched by repacking. */
  lemma {:induction false} UpsertAllKeeps(es: seq<Entry>, placed: seq<Entry>, k: nat)
    requires k < |es| && es[k].name !in Names(placed)
    ensures k < |UpsertAll(es, placed)| && UpsertAll(es, placed)[k] == es[k]
    decreases |placed|
  {
    hide Find;
    if placed != [] {
      var last := |placed| - 1;
      assert placed == placed[..last + 1];
      NamesSnoc(placed, last);
      var before := UpsertAll(es, placed[..last]);
      UpsertAllKeeps(es, placed[..last], k);
      FindMiss(before, placed[last].name);
    }
  }

  lemma DedicatedNotCarried(image: Image, es: seq<Entry>, pending: seq<Pending>, blocks: set<nat>, k: nat)
    requires DistinctNames(es) && Carried(image, es, pending, {}, blocks, 0, 0)
    requires k < |es| && !es[k].storage.Packed?
    ensures es[k].name !in PathsOf(pending)
  {
    hide CarriedFrom, Find;
    FindIs(es, k);
    forall i | 0 <= i < |pending| ensures pending[i].path != es[k].name {
      assert HasSource(image, es, pending[i], {}, blocks, 0, 0);
    }
  }

  /** Every bin gets an entry in its block. */
  lemma BinUsed(pending: seq<Pending>, bins: seq<seq<nat>>, generation: u64, first: nat, b: nat) returns (j: nat)
    requires Planned(pending, bins, generation) && Positioned(bins, first) && b < |bins|
    ensures j < |PackedEntries(pending, bins, generation, first)|
    ensures Occupies(PackedEntries(pending, bins, generation, first)[j], first + b)
  {
    hide Planned, Slots, SlotEntry, Positioned, ValidPath, RecordsOf, BinRecords;
    NoEmptyBin(pending, bins, generation, b);
    assert bins[..|bins|] == bins;
    SlotAt(bins, b, 0, |bins|);
    j := |Slots(bins[..b])|;
    SlotEntryFields(pending, bins, generation, first, j);
  }

  lemma NoEmptyBin(pending: seq<Pending>, bins: seq<seq<nat>>, generation: u64, b: nat)
    requires Planned(pending, bins, generation) && b < |bins|
    ensures bins[b] != []
  {
    hide PlanOf, PendingOk;
    BinsNotEmpty(RecordsOf(pending), b);
  }

  /** After repacking, the new blocks are in use, and so is everything that was, but for the blocks repacked. */
  lemma RepackedReferences(image: Image, es: seq<Entry>, pending: seq<Pending>, bins: seq<seq<nat>>, generation: u64, first: nat, blocks: seq<nat>, b: nat)
    requires DistinctNames(es) && Carried(image, es, pending, {}, Members(blocks), 0, 0) && AllPackedIn(es, Members(blocks)) && AllAcceptable(es)
    requires Planned(pending, bins, generation) && Positioned(bins, first)
    ensures
      var next := UpsertAll(es, PackedEntries(pending, bins, generation, first));
      && (Referenced(es, b) && b !in blocks ==> Referenced(next, b))
      && (first <= b < first + |bins| ==> Referenced(next, b))
  {
    hide Planned, PackedEntries, UpsertAll, Carried, PathsOf, Positioned, Find, ValidPath, DistinctNames, AllPackedIn;
    var placed := PackedEntries(pending, bins, generation, first);
    var next := UpsertAll(es, placed);
    RepackedNames(image, es, pending, bins, generation, first, Members(blocks));
    if first <= b < first + |bins| {
      var j := BinUsed(pending, bins, generation, first, b - first);
      UpsertAllFinds(es, placed, j);
      assert Occupies(next[Find(next, placed[j].name)], b);
    } else if Referenced(es, b) && b !in blocks && FIRST_DATA_BLOCK <= b < BLOCK_COUNT {
      var k :| 0 <= k < |es| && Occupies(es[k], b);
      PackedAtFirst(es, Members(blocks), k, b);
      DedicatedNotCarried(image, es, pending, Members(blocks), k);
      UpsertAllKeeps(es, placed, k);
      assert Occupies(next[k], b);
    }
  }

  lemma RepackedNames(image: Image, es: seq<Entry>, pending: seq<Pending>, bins: seq<seq<nat>>, generation: u64, first: nat, blocks: set<nat>)
    requires Carried(image, es, pending, {}, blocks, 0, 0)
    requires Planned(pending, bins, generation) && Positioned(bins, first)
    ensures DistinctNames(PackedEntries(pending, bins, generation, first))
    ensures Names(PackedEntries(pending, bins, generation, first)) == PathsOf(pending)
  {
    hide Planned, Slots, SlotEntry, BatchReady, Positioned, PathsOf, Names, HasSource;
    RepackReady(image, es, pending, bins, generation, first, blocks, 0);
    PlacedNames(pending, bins, generation, [], first);
    forall i, j | 0 <= i < j < |Slots(bins)|
      ensures SlotEntry(pending, bins, generation, first, i).name != SlotEntry(pending, bins, generation, first, j).name
    {
      SlotNamesDistinct(pending, bins, generation, first, i, j);
    }
  }

  lemma RepackReuses(image: Image, es: seq<Entry>, pending: seq<Pending>, bins: seq<seq<nat>>, generation: u64, first: nat, blocks: seq<nat>)
    requires DistinctNames(es) && Carried(image, es, pending, {}, Members(blocks), 0, 0) && AllPackedIn(es, Members(blocks)) && AllAcceptable(es)
    requires Planned(pending, bins, generation) && Positioned(bins, first)
    ensures Reused(es, UpsertAll(es, PackedEntries(pending, bins, generation, first)), first, |bins|, blocks)
  {
    hide Planned, PackedEntries, UpsertAll, Carried, Positioned, DistinctNames, AllPackedIn, Referenced, AllAcceptable;
    forall b: nat | (Referenced(es, b) && b !in blocks) || first <= b < first + |bins|
      ensures Referenced(UpsertAll(es, PackedEntries(pending, bins, generation, first)), b)
    {
      RepackedReferences(image, es, pending, bins, generation, first, blocks, b);
    }
  }

  lemma PackedAtFirst(es: seq<Entry>, blocks: set<nat>, k: nat, b: nat)
    requires AllAcceptable(es) && AllPackedIn(es, blocks) && k < |es| && Occupies(es[k], b) && b !in blocks
    ensures !es[k].storage.Packed?
  {
    hide ValidPath;
    assert Acceptable(es[k]);
  }

  /** No packed file is in any of these blocks. */
  ghost predicate NonePackedIn(es: seq<Entry>, blocks: seq<nat>)
  {
    forall k :: 0 <= k < |es| && es[k].storage.Packed? ==> es[k].firstBlock !in blocks
  }

  lemma NonePacked(es: seq<Entry>, blocks: seq<nat>)
    requires AllAcceptable(es) && forall b :: b in blocks ==> !Referenced(es, b)
    ensures NonePackedIn(es, blocks)
  {
    hide ValidPath;
    forall k | 0 <= k < |es| && es[k].storage.Packed? ensures es[k].firstBlock !in blocks {
      assert Acceptable(es[k]) && Occupies(es[k], es[k].firstBlock);
    }
  }

  // ----- Files that move down -----

  /** File number `file` of the list goes to block `destination`. */
  datatype Move = Move(file: nat, destination: u32)

  /** The entries after some moves, one after the other. */
  function Moved(es: seq<Entry>, moves: seq<Move>): (next: seq<Entry>)
    ensures |next| == |es|
  {
    if moves == [] then es
    else
      var last := moves[|moves| - 1];
      var so := Moved(es, moves[..|moves| - 1]);
      if last.file < |so| then so[last.file := MovedEntry(so[last.file], last.destination)] else so
  }

  /** The move brings a whole-block file to a lower place. */
  predicate GoesDown(es: seq<Entry>, m: Move)
  {
    m.file < |es| && Movable(es[m.file]) && FIRST_DATA_BLOCK <= m.destination < es[m.file].firstBlock
  }

  /** Every move, when its turn comes, brings a file down. */
  predicate AllDown(es: seq<Entry>, moves: seq<Move>)
  {
    forall i :: 0 <= i < |moves| ==> GoesDown(Moved(es, moves[..i]), moves[i])
  }

  /** The blocks that the moves carry, all together. */
  function BlocksMoved(es: seq<Entry>, moves: seq<Move>): nat
  {
    if moves == [] then 0
    else
      var last := moves[|moves| - 1];
      BlocksMoved(es, moves[..|moves| - 1]) + if last.file < |es| then es[last.file].blockCount else 0
  }

  lemma NoMoves(es: seq<Entry>)
    ensures Moved(es, []) == es && AllDown(es, []) && BlocksMoved(es, []) == 0
  {}

  lemma MovesSnoc(es: seq<Entry>, moves: seq<Move>, m: Move)
    requires AllDown(es, moves) && GoesDown(Moved(es, moves), m)
    ensures AllDown(es, moves + [m])
    ensures Moved(es, moves + [m]) == Moved(es, moves)[m.file := MovedEntry(Moved(es, moves)[m.file], m.destination)]
    ensures BlocksMoved(es, moves + [m]) == BlocksMoved(es, moves) + Moved(es, moves)[m.file].blockCount
  {
    hide Movable;
    var all := moves + [m];
    assert all[..|moves|] == moves;
    forall i | 0 <= i < |all| ensures GoesDown(Moved(es, all[..i]), all[i]) {
      if i < |moves| {
        assert all[..i] == moves[..i];
      }
    }
    OnlyPlaces(es, moves, m.file);
  }

  lemma {:induction false} OnlyPlaces(es: seq<Entry>, moves: seq<Move>, k: nat)
    requires k < |es|
    ensures Moved(es, moves)[k] == es[k].(firstBlock := Moved(es, moves)[k].firstBlock)
    decreases |moves|
  {
    if moves != [] {
      OnlyPlaces(es, moves[..|moves| - 1], k);
    }
  }

  lemma AllDownPrefix(es: seq<Entry>, moves: seq<Move>)
    requires AllDown(es, moves) && moves != []
    ensures AllDown(es, moves[..|moves| - 1]) && GoesDown(Moved(es, moves[..|moves| - 1]), moves[|moves| - 1])
  {
    hide Moved, GoesDown;
    var so := moves[..|moves| - 1];
    forall i | 0 <= i < |so| ensures GoesDown(Moved(es, so[..i]), so[i]) {
      assert so[..i] == moves[..i];
    }
  }

  /** A moved file changes nothing but its place, downwards; packed files and directories do not move at all. */
  lemma {:induction false} MovedKeeps(es: seq<Entry>, moves: seq<Move>, k: nat)
    requires k < |es| && AllDown(es, moves)
    ensures Moved(es, moves)[k] == es[k].(firstBlock := Moved(es, moves)[k].firstBlock)
    ensures !Movable(es[k]) ==> Moved(es, moves)[k] == es[k]
    ensures Moved(es, moves)[k].firstBlock <= es[k].firstBlock
    decreases |moves|
  {
    hide Movable, AllDown;
    OnlyPlaces(es, moves, k);
    if moves != [] {
      var last := |moves| - 1;
      AllDownPrefix(es, moves);
      MovedKeeps(es, moves[..last], k);
      SameMovable(es[k], Moved(es, moves[..last])[k].firstBlock);
    }
  }

  lemma SameMovable(e: Entry, destination: u32)
    ensures Movable(e) <==> Movable(e.(firstBlock := destination))
    ensures Movable(e) ==> e.storage.Dedicated?
  {}

  /** All packed files lie in one run of as many blocks as first fit needs, which are no more than before. */
  ghost predicate PackedTight(es: seq<Entry>, records: seq<PackedBlock.Record>, before: nat)
  {
    && Plannable(records) && |PlanOf(records).bins| <= before
    && exists first: nat :: PackedWithin(es, first, |PlanOf(records).bins|)
  }

  lemma PackedTightIs(es: seq<Entry>, records: seq<PackedBlock.Record>, before: nat, first: nat)
    requires Plannable(records) && |PlanOf(records).bins| <= before && PackedWithin(es, first, |PlanOf(records).bins|)
    ensures PackedTight(es, records, before)
  {
    hide Plannable, PlanOf, PackedWithin;
  }

  /** No packed file is in these blocks; each of them is blank and available, or in use for another file by now. */
  ghost predicate LeftBehind(image: Image, es: seq<Entry>, unavailable: seq<bool>, blocks: seq<nat>)
  {
    NonePackedIn(es, blocks) && forall b :: b in blocks ==> Tidy(image, es, unavailable, b)
  }

  lemma EmptiedLeft(image: Image, es: seq<Entry>, unavailable: seq<bool>, blocks: seq<nat>)
    requires AllAcceptable(es) && Emptied(image, unavailable, blocks) && forall b :: b in blocks ==> !Referenced(es, b)
    ensures LeftBehind(image, es, unavailable, blocks)
  {
    NonePacked(es, blocks);
    hide NonePackedIn, Referenced;
  }

  /** Moves of whole-block files leave the packed ones where they are. */
  lemma PackedStayPut(es: seq<Entry>, m: Move, records: seq<PackedBlock.Record>, before: nat, blocks: seq<nat>)
    requires GoesDown(es, m)
    ensures
      var next := es[m.file := MovedEntry(es[m.file], m.destination)];
      && (PackedTight(es, records, before) ==> PackedTight(next, records, before))
      && (NonePackedIn(es, blocks) ==> NonePackedIn(next, blocks))
  {
    hide PlanOf, Eligible, PackedBlock.DistinctIds;
    SameMovable(es[m.file], m.destination);
    if PackedTight(es, records, before) {
      var first: nat :| PackedWithin(es, first, |PlanOf(records).bins|);
      assert PackedWithin(es[m.file := MovedEntry(es[m.file], m.destination)], first, |PlanOf(records).bins|);
    }
  }

  lemma LeftBehindKept(before: Image, es: seq<Entry>, was: seq<bool>, after: Image, next: seq<Entry>, now: seq<bool>, blocks: seq<nat>)
    requires LeftBehind(before, es, was, blocks) && TidyKept(before, es, was, after, next, now)
    requires NonePackedIn(es, blocks) ==> NonePackedIn(next, blocks)
    ensures LeftBehind(after, next, now, blocks)
  {
    hide Tidy, NonePackedIn;
  }

  /** The file that has to move next: the highest one with a spare run of its length below it, to the lowest such run. */
  ghost predicate NextMove(image: Image, es: seq<Entry>, unavailable: seq<bool>, m: Move)
  {
    && GoesDown(es, m)
    && SpareRun(image, es, unavailable, m.destination, es[m.file].blockCount)
    && m.destination + es[m.file].blockCount <= es[m.file].firstBlock
    && NoRun(image, es, unavailable, FIRST_DATA_BLOCK, m.destination + es[m.file].blockCount - 1, es[m.file].blockCount)
    && forall k :: 0 <= k < |es| && Movable(es[k]) && es[k].firstBlock > es[m.file].firstBlock ==> Stuck(image, es, unavailable, k)
  }

  lemma NextMoveIs(image: Image, es: seq<Entry>, unavailable: seq<bool>, candidates: seq<nat>, i: nat, destination: u32)
    requires i < |candidates| && (forall k: nat :: k in candidates <==> k < |es| && Movable(es[k])) && Descending(es, candidates)
    requires forall j :: 0 <= j < i ==> Stuck(image, es, unavailable, candidates[j])
    requires FIRST_DATA_BLOCK <= destination && destination + es[candidates[i]].blockCount <= es[candidates[i]].firstBlock
    requires SpareRun(image, es, unavailable, destination, es[candidates[i]].blockCount)
    requires NoRun(image, es, unavailable, FIRST_DATA_BLOCK, destination + es[candidates[i]].blockCount - 1, es[candidates[i]].blockCount)
    ensures NextMove(image, es, unavailable, Move(candidates[i], destination))
  {
    hide SpareRun, NoRun, Stuck;
    assert candidates[i] in candidates;
    forall k | 0 <= k < |es| && Movable(es[k]) && es[k].firstBlock > es[candidates[i]].firstBlock ensures Stuck(image, es, unavailable, k) {
      assert k in candidates;
      var j :| 0 <= j < |candidates| && candidates[j] == k;
    }
  }

  // ----- The report -----

  /** What a compaction reports: the repacked files and the blocks they have left, if any, and the moved files and their blocks. */
  function Reported(stays: bool, pending: seq<Pending>, sources: seq<nat>, middle: seq<Entry>, moves: seq<Move>): Report
  {
    Report((if stays then 0 else |pending|) + |moves|, (if stays then 0 else |sources|) + BlocksMoved(middle, moves))
  }

  lemma MovedOneIs(es: seq<Entry>, next: seq<Entry>, m: Move)
    requires MovedOne(es, next, m.file, m.destination)
    ensures m.file < |es| && next == es[m.file := MovedEntry(es[m.file], m.destination)]
  {}

  lemma SetAsideNext(image: Image, es: seq<Entry>, before: seq<bool>, after: seq<bool>, m: Move)
    requires SetAside(image, before, after)
    ensures NextMove(image, es, before, m) <==> NextMove(image, es, after, m)
  {
    hide Movable, Stuck, SpareRun, NoRun;
    if GoesDown(es, m) {
      GoesInRange(es, m);
      SetAsideRun(image, es, before, after, m.destination, es[m.file].blockCount);
      SetAsideNoRun(image, es, before, after, FIRST_DATA_BLOCK, m.destination + es[m.file].blockCount - 1, es[m.file].blockCount);
    }
    forall k: nat ensures Stuck(image, es, before, k) <==> Stuck(image, es, after, k) {
      SetAsideStuck(image, es, before, after, k);
    }
  }

  /**
    A whole compaction of the entries: repacking first, unless nothing speaks for it; then the moves of
    whole-block files, one by one; and a report of exactly these.
   */
  ghost predicate CompactedAs(es: seq<Entry>, pending: seq<Pending>, sources: seq<nat>, stays: bool, middle: seq<Entry>, moves: seq<Move>,
                              next: seq<Entry>, report: Report)
  {
    && (if stays then middle == es else RepackedAs(es, pending, middle))
    && AllDown(middle, moves) && next == Moved(middle, moves)
    && report == Reported(stays, pending, sources, middle, moves)
  }

  lemma CompactedStart(es: seq<Entry>, pending: seq<Pending>, sources: seq<nat>, stays: bool, middle: seq<Entry>, report: Report)
    requires if stays then middle == es else RepackedAs(es, pending, middle)
    requires report == if stays then Report(0, 0) else Report(|pending|, |sources|)
    ensures CompactedAs(es, pending, sources, stays, middle, [], middle, report)
  {
    hide RepackedAs;
    NoMoves(middle);
  }

  lemma CompactedNext(es: seq<Entry>, pending: seq<Pending>, sources: seq<nat>, stays: bool, middle: seq<Entry>, moves: seq<Move>,
                      so: seq<Entry>, report: Report, m: Move)
    requires CompactedAs(es, pending, sources, stays, middle, moves, so, report) && GoesDown(so, m)
    ensures
      CompactedAs(es, pending, sources, stays, middle, moves + [m], so[m.file := MovedEntry(so[m.file], m.destination)],
                  Report(report.files + 1, report.blocks + so[m.file].blockCount))
  {
    hide RepackedAs, AllDown, Moved, BlocksMoved, GoesDown, MovedEntry;
    GoesInRange(so, m);
    MovesSnoc(middle, moves, m);
  }

  lemma NothingReported(es: seq<Entry>, pending: seq<Pending>, sources: seq<nat>, stays: bool, middle: seq<Entry>, moves: seq<Move>,
                        next: seq<Entry>, report: Report)
    requires CompactedAs(es, pending, sources, stays, middle, moves, next, report) && (pending == [] ==> stays)
    ensures report.files == 0 ==> next == es
  {
    hide RepackedAs, AllDown;
  }

  lemma GoesInRange(es: seq<Entry>, m: Move)
    requires GoesDown(es, m)
    ensures m.file < |es|
  {}

  lemma NextGoesDown(image: Image, es: seq<Entry>, unavailable: seq<bool>, m: Move)
    requires NextMove(image, es, unavailable, m)
    ensures GoesDown(es, m)
  {}

  /** A search for this many blocks fails although there is no garbage left; there are too few free blocks, or nothing can move down. */
  ghost predicate NothingLeft(image: Image, es: seq<Entry>, unavailable: seq<bool>, cursor: nat, count: nat)
  {
    && |unavailable| == BLOCK_COUNT && AllSpare(image, es, unavailable)
    && NoRoom(image, es, unavailable, cursor, count)
    && (count > FreeCount(es, unavailable, BLOCK_COUNT) || Compacted(image, es, unavailable))
  }

  lemma NothingLeftIs(image: Image, es: seq<Entry>, unavailable: seq<bool>, cursor: nat, count: nat)
    requires |unavailable| == BLOCK_COUNT && AllSpare(image, es, unavailable) && NoRoom(image, es, unavailable, cursor, count)
    requires count > FreeCount(es, unavailable, BLOCK_COUNT) || Compacted(image, es, unavailable)
    ensures NothingLeft(image, es, unavailable, cursor, count)
  {}

  lemma NoRoomWhenClean(image: Image, es: seq<Entry>, unavailable: seq<bool>, cursor: nat, count: nat)
    requires |unavailable| == BLOCK_COUNT && AllSpare(image, es, unavailable)
    ensures NoRoom(image, es, unavailable, cursor, count) <==> NoFreeRoom(es, cursor, count)
  {
    CleanRuns(image, es, unavailable, cursor, BLOCK_COUNT, count);
    CleanRuns(image, es, unavailable, FIRST_DATA_BLOCK, cursor, count);
    hide AllSpare, NoRun, NoFreeRun;
  }

  // ----- Blocks that stay tidy -----

  /** In use, or ready for allocation. */
  predicate Tidy(image: Image, es: seq<Entry>, unavailable: seq<bool>, b: nat)
  {
    Referenced(es, b) || (b < |unavailable| && b < BLOCK_COUNT && image[b] == BLANK_BLOCK && !unavailable[b])
  }

  /** Blocks that were tidy still are. */
  ghost predicate TidyKept(before: Image, es: seq<Entry>, was: seq<bool>, after: Image, next: seq<Entry>, now: seq<bool>)
  {
    forall b: nat :: Tidy(before, es, was, b) ==> Tidy(after, next, now, b)
  }

  lemma TidySame(image: Image, es: seq<Entry>, unavailable: seq<bool>)
    ensures TidyKept(image, es, unavailable, image, es, unavailable)
  {}

  lemma TidyTrans(a: Image, es: seq<Entry>, was: seq<bool>, b: Image, mid: seq<Entry>, between: seq<bool>, c: Image, next: seq<Entry>, now: seq<bool>)
    requires TidyKept(a, es, was, b, mid, between) && TidyKept(b, mid, between, c, next, now)
    ensures TidyKept(a, es, was, c, next, now)
  {
    hide Tidy;
  }

  lemma SpareIsTidy(image: Image, es: seq<Entry>, unavailable: seq<bool>)
    requires |unavailable| == BLOCK_COUNT
    ensures AllSpare(image, es, unavailable) <==> forall b: nat :: Tidy(image, es, unavailable, b)
  {
    if forall b: nat :: Tidy(image, es, unavailable, b) {
      forall b | 0 <= b < BLOCK_COUNT && !Referenced(es, b) ensures image[b] == BLANK_BLOCK && !unavailable[b] {
        assert Tidy(image, es, unavailable, b);
      }
    }
  }

  lemma AllSpareKept(before: Image, es: seq<Entry>, was: seq<bool>, after: Image, next: seq<Entry>, now: seq<bool>)
    requires |was| == |now| == BLOCK_COUNT && TidyKept(before, es, was, after, next, now) && AllSpare(before, es, was)
    ensures AllSpare(after, next, now)
  {
    hide Tidy, AllSpare;
    SpareIsTidy(before, es, was);
    SpareIsTidy(after, next, now);
  }

  lemma SetAsideTidy(image: Image, es: seq<Entry>, before: seq<bool>, after: seq<bool>)
    requires SetAside(image, before, after)
    ensures TidyKept(image, es, before, image, es, after)
  {}

  /** Outside the superblock slots only these blocks have changed. */
  ghost predicate SameAround(before: Image, was: seq<bool>, after: Image, now: seq<bool>, sources: seq<nat>)
  {
    && |was| == |now| == BLOCK_COUNT
    && forall b :: FIRST_DATA_BLOCK <= b < BLOCK_COUNT && b !in sources ==> after[b] == before[b] && now[b] == was[b]
  }

  /** Blank and available. */
  ghost predicate Emptied(image: Image, unavailable: seq<bool>, blocks: seq<nat>)
  {
    forall b :: b in blocks ==> b < BLOCK_COUNT && b < |unavailable| && image[b] == BLANK_BLOCK && !unavailable[b]
  }

  lemma EmptiedIs(image: Image, unavailable: seq<bool>, blocks: seq<nat>)
    requires |unavailable| == BLOCK_COUNT
    ensures Emptied(image, unavailable, blocks) <==>
      forall b :: b in blocks ==> b < BLOCK_COUNT && image[b] == BLANK_BLOCK && !unavailable[b]
  {}

  lemma SlotOnly(before: Image, after: Image, slot: nat)
    requires SameBut(before, after, slot) && slot < 2
    ensures forall b :: FIRST_DATA_BLOCK <= b < BLOCK_COUNT ==> after[b] == before[b]
  {}

  lemma ReclaimedAround(before: Image, was: seq<bool>, published: Image, after: Image, now: seq<bool>, sources: seq<nat>)
    requires |was| == |now| == BLOCK_COUNT
    requires forall b :: FIRST_DATA_BLOCK <= b < BLOCK_COUNT ==> published[b] == before[b]
    requires SameOutside(published, after, Members(sources))
    requires forall b :: 0 <= b < BLOCK_COUNT && b !in sources ==> now[b] == was[b]
    ensures SameAround(before, was, after, now, sources)
  {}

  lemma SameImage(image: Image, es: seq<Entry>)
    ensures SameOnReferenced(image, image, es)
  {}

  lemma SlotThenSame(before: Image, published: Image, after: Image, es: seq<Entry>, slot: nat)
    requires SameBut(before, published, slot) && slot < 2 && SameOnReferenced(published, after, es)
    ensures SameOnReferenced(before, after, es)
  {}

  /** Everything in use is still in use, but for the sources; and so is a new run. */
  ghost predicate Reused(es: seq<Entry>, next: seq<Entry>, first: nat, count: nat, sources: seq<nat>)
  {
    forall b: nat :: (Referenced(es, b) && b !in sources) || first <= b < first + count ==> Referenced(next, b)
  }

  /** A move: the new blocks and the old ones come to be tidy, nothing else changes. */
  lemma MoveKeepsTidy(before: Image, es: seq<Entry>, was: seq<bool>, programmed: Image, after: Image, next: seq<Entry>, now: seq<bool>,
                      first: nat, written: nat, count: nat, sources: seq<nat>)
    requires SameOutsideRun(before, programmed, first, written) && written <= count
    requires SameAround(programmed, was, after, now, sources) && Emptied(after, now, sources)
    requires Reused(es, next, first, count, sources)
    ensures TidyKept(before, es, was, after, next, now)
  {
    forall b: nat | Tidy(before, es, was, b) ensures Tidy(after, next, now, b) {
      assert b < FIRST_DATA_BLOCK || b >= BLOCK_COUNT ==> Referenced(next, b);
      hide Referenced;
    }
  }

  lemma RelocationReuses(es: seq<Entry>, k: nat, destination: u32, sources: seq<nat>)
    requires k < |es| && Movable(es[k]) && sources == BlockRange(es[k].firstBlock, es[k].blockCount)
    ensures Reused(es, es[k := MovedEntry(es[k], destination)], destination, es[k].blockCount, sources)
  {
    hide Referenced;
    forall b: nat | (Referenced(es, b) && b !in sources) || destination <= b < destination + es[k].blockCount
      ensures Referenced(es[k := MovedEntry(es[k], destination)], b)
    {
      RelocationReferences(es, k, destination, sources, b);
    }
  }

  lemma RelocationReferences(es: seq<Entry>, k: nat, destination: u32, sources: seq<nat>, b: nat)
    requires k < |es| && Movable(es[k]) && sources == BlockRange(es[k].firstBlock, es[k].blockCount)
    ensures
      var next := es[k := MovedEntry(es[k], destination)];
      && (Referenced(es, b) && b !in sources ==> Referenced(next, b))
      && (destination <= b < destination + es[k].blockCount ==> Referenced(next, b))
  {
    var next := es[k := MovedEntry(es[k], destination)];
    if destination <= b < destination + es[k].blockCount {
      assert Occupies(next[k], b);
    } else if Referenced(es, b) && b !in sources && FIRST_DATA_BLOCK <= b < BLOCK_COUNT {
      var i :| 0 <= i < |es| && Occupies(es[i], b);
      BlockInRange(es[k].firstBlock, es[k].blockCount, b);
      assert Occupies(next[i], b);
    }
  }

  lemma BlockInRange(first: nat, count: nat, b: nat)
    ensures b in BlockRange(first, count) <==> first <= b < first + count
  {
    if first <= b < first + count {
      assert BlockRange(first, count)[b - first] == b;
    }
  }
}
