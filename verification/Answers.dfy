/**
  What an operation that was asked of a mounted volume has to answer, told by the volume before
  and after it: why a batch was refused, what a collection and a compaction leave, where a mount starts.
 */
module Answers {
  import opened Bytes
  import opened Manifest
  import opened Device
  import opened Opening
  import opened Volume
  import opened Placement
  import opened TreeSpec
  import opened Allocation
  import opened Planning
  import opened Compaction
  import opened Verdicts
  import Batches
  import EditSteps

  /** The flash, and what a mount keeps in memory. */
  datatype Snapshot = Snapshot(image: Image, entries: seq<Entry>, unavailable: seq<bool>, cursor: nat, generation: u64)

  ghost predicate Sane(v: Snapshot)
  {
    |v.unavailable| == BLOCK_COUNT && AllAcceptable(v.entries)
  }

  // ----- Batches -----

  /** There is no way to place the batch: generations have run out, or all space has been tried. */
  ghost predicate NoPlace(before: Snapshot, files: seq<FileWrite>, repack: set<nat>, after: Snapshot)
    requires AllAcceptable(before.entries)
  {
    || after.generation == EditSteps.LAST_GENERATION
    || (!IdsExhausted(before.entries, files)
        && var needed := Needed(before.image, before.entries, files, repack);
           && NothingLeft(after.image, after.entries, after.unavailable, after.cursor, needed)
           && NoFreeRoom(before.entries, before.cursor, needed))
  }

  lemma NoPlaceIs(before: Snapshot, files: seq<FileWrite>, repack: set<nat>, needed: nat, after: Snapshot)
    requires AllAcceptable(before.entries) && !IdsExhausted(before.entries, files)
    requires needed == Needed(before.image, before.entries, files, repack)
    ensures after.generation == EditSteps.LAST_GENERATION ==> NoPlace(before, files, repack, after)
    ensures NothingLeft(after.image, after.entries, after.unavailable, after.cursor, needed) && NoFreeRoom(before.entries, before.cursor, needed)
      ==> NoPlace(before, files, repack, after)
  {
    hide AllAcceptable, IdsExhausted, Needed, NothingLeft, NoFreeRoom;
  }

  /** The branch that ended a batch is the one the volume before and after it accounts for. */
  ghost predicate Answered(faithful: bool, before: Snapshot, files: seq<FileWrite>, repack: set<nat>, why: Ending, after: Snapshot)
    requires AllAcceptable(before.entries)
  {
    && (why == Rejected <==> !Batches.AcceptedSoFar(TreeOf(before.image, before.entries), before.entries, files, |files|))
    && (files == [] ==> why == Done)
    && (files != [] && why != Rejected ==>
          Rewrites(before.entries, files, repack) && Ends(before.image, before.entries, files, repack, why))
    && (why == Done ==> StoredBySize(after.entries, files))
    && (faithful ==> why != ReadFailed)
    && (faithful && why == WriteFailed ==> NoPlace(before, files, repack, after))
  }

  /** A batch that was stored, or declined for a reason. */
  ghost predicate PutAnswered(faithful: bool, before: Snapshot, files: seq<FileWrite>, ok: bool, after: Snapshot)
  {
    Sane(before) && exists repack, why :: ok == (why == Done) && Answered(faithful, before, files, repack, why, after)
  }

  lemma AnsweredIs(faithful: bool, before: Snapshot, files: seq<FileWrite>, repack: set<nat>, why: Ending, after: Snapshot)
    requires AllAcceptable(before.entries)
    requires why == Rejected <==> !Batches.AcceptedSoFar(TreeOf(before.image, before.entries), before.entries, files, |files|)
    requires files == [] ==> why == Done
    requires files != [] && why != Rejected ==>
      Rewrites(before.entries, files, repack) && Ends(before.image, before.entries, files, repack, why)
    requires why == Done ==> StoredBySize(after.entries, files)
    requires faithful ==> why != ReadFailed
    requires faithful && why == WriteFailed ==> NoPlace(before, files, repack, after)
    ensures Answered(faithful, before, files, repack, why, after)
  {
    hide TreeOf, AllAcceptable, NoPlace;
  }

  lemma PutAnsweredIs(faithful: bool, before: Snapshot, files: seq<FileWrite>, repack: set<nat>, why: Ending, after: Snapshot)
    requires Sane(before) && Answered(faithful, before, files, repack, why, after)
    ensures PutAnswered(faithful, before, files, why == Done, after)
  {
    hide Answered, Sane;
  }

  /** An empty batch is stored at once. */
  lemma NothingToPut(faithful: bool, v: Snapshot, files: seq<FileWrite>)
    requires Sane(v) && files == []
    ensures PutAnswered(faithful, v, files, true, v)
  {
    hide TreeOf, AllAcceptable, NoPlace;
    Batches.AcceptNone(TreeOf(v.image, v.entries), v.entries, files);
    assert files[..0] == files;
    StoredNone(v.entries, files);
    PutAnsweredIs(faithful, v, files, {}, Done, v);
  }

  // ----- Maintenance -----

  /** All garbage is gone, and nothing else has changed. */
  ghost predicate Collected(before: Snapshot, after: Snapshot)
  {
    && Sane(before) && Sane(after) && after.entries == before.entries && after.cursor == before.cursor
    && AllSpare(after.image, after.entries, after.unavailable)
  }

  /** All garbage is gone, and the entries have been compacted as far as the entries before allow. */
  ghost predicate CompactedFrom(before: Snapshot, after: Snapshot)
  {
    && Sane(before) && Sane(after)
    && AllSpare(after.image, after.entries, after.unavailable) && Compacted(after.image, after.entries, after.unavailable)
    && exists sources, middle, moves, report :: CompactedBy(before, sources, middle, moves, report, after)
  }

  ghost predicate CompactedBy(before: Snapshot, sources: seq<nat>, middle: seq<Entry>, moves: seq<Move>, report: Report, after: Snapshot)
  {
    && AllAcceptable(before.entries) && SourcesOf(before.entries, sources)
    && var pending := LivePacked(before.image, before.entries, sources);
       CompactedAs(before.entries, pending, sources, PackedStaysClean(before.entries, before.cursor, pending, sources),
                   middle, moves, after.entries, report)
  }

  lemma CollectedIs(before: Snapshot, after: Snapshot)
    requires Sane(before) && Sane(after) && after.entries == before.entries && after.cursor == before.cursor
    requires AllSpare(after.image, after.entries, after.unavailable)
    ensures Collected(before, after)
  {}

  lemma CompactedFromIs(before: Snapshot, pending: seq<Pending>, sources: seq<nat>, middle: seq<Entry>, moves: seq<Move>,
                        report: Report, after: Snapshot)
    requires Sane(before) && Sane(after) && SourcesOf(before.entries, sources)
    requires AllAcceptable(before.entries) && pending == LivePacked(before.image, before.entries, sources)
    requires CompactedAs(before.entries, pending, sources, PackedStaysClean(before.entries, before.cursor, pending, sources),
                         middle, moves, after.entries, report)
    requires AllSpare(after.image, after.entries, after.unavailable) && Compacted(after.image, after.entries, after.unavailable)
    ensures CompactedFrom(before, after)
  {
    hide Sane, SourcesOf, CompactedAs, LivePacked, PackedStaysClean, AllSpare, Compacted, AllAcceptable;
    assert CompactedBy(before, sources, middle, moves, report, after);
  }

  // ----- Mounting -----

  /** A fresh mount allocates behind the last extent and holds no block to be unavailable. */
  ghost predicate FreshlyMounted(v: Snapshot)
  {
    && Sane(v) && EditSteps.CursorBehind(v.entries, v.cursor)
    && forall b :: 0 <= b < BLOCK_COUNT ==> !v.unavailable[b]
  }
}
