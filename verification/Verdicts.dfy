/**
  How a batch of writes must end: which packed blocks it rewrites, which records it carries over,
  how many blocks it needs, and which obstacle, if any, stops it before anything is written.
 */
module Verdicts {
  import opened Bytes
  import opened Paths
  import opened Manifest
  import opened Device
  import opened Volume
  import opened TreeSpec
  import opened Placement
  import opened Carrying
  import opened Batches
  import opened BinPacking
  import opened Reading
  import opened Planning
  import Crc32
  import PackedBlock

  // ----- The rewritten blocks -----

  /** The packed blocks that hold a file the batch overwrites. */
  function OverwrittenBlocks(es: seq<Entry>, names: set<Name>): set<nat>
  {
    set k | 0 <= k < |es| && es[k].storage.Packed? && es[k].name in names :: es[k].firstBlock
  }

  lemma NothingOverwritten(es: seq<Entry>)
    ensures OverwrittenBlocks(es, {}) == {}
  {}

  lemma OverwrittenNext(es: seq<Entry>, names: set<Name>, n: Name)
    requires DistinctNames(es)
    ensures
      var k := Find(es, n);
      OverwrittenBlocks(es, names + {n})
      == OverwrittenBlocks(es, names) + if k < |es| && es[k].storage.Packed? then {es[k].firstBlock} else {}
  {
    FindMiss(es, n);
    if Find(es, n) < |es| {
      var e := es[Find(es, n)];
      assert e.name == n;
      assert forall k :: 0 <= k < |es| && es[k].name == n ==> es[k] == e;
    }
  }

  /** The length of the shortest file. */
  function Shortest(files: seq<FileWrite>): nat
    requires files != []
  {
    var last := |files[|files| - 1].bytes|;
    if |files| == 1 then last else Min(Shortest(files[..|files| - 1]), last)
  }

  lemma {:induction false} ShortestIs(files: seq<FileWrite>, k: nat)
    requires k < |files| && forall j :: 0 <= j < |files| ==> |files[k].bytes| <= |files[j].bytes|
    ensures Shortest(files) == |files[k].bytes|
    decreases |files|
  {
    var last := |files| - 1;
    if last > 0 {
      if k < last {
        ShortestIs(files[..last], k);
      } else {
        ShortestBounds(files[..last], |files[k].bytes|);
      }
    }
  }

  lemma {:induction false} ShortestBounds(files: seq<FileWrite>, low: nat)
    requires files != [] && forall j :: 0 <= j < |files| ==> low <= |files[j].bytes|
    ensures low <= Shortest(files)
    decreases |files|
  {
    if |files| > 1 {
      ShortestBounds(files[..|files| - 1], low);
    }
  }

  /**
    The blocks the batch rewrites: those with an overwritten file; without one, and with small files to
    store, the best block that still takes the smallest of them.
   */
  ghost predicate Rewrites(es: seq<Entry>, files: seq<FileWrite>, repack: set<nat>)
  {
    var overwritten, small := OverwrittenBlocks(es, FilePaths(files)), Selected(files, true);
    if overwritten != {} || small == [] then repack == overwritten
    else exists choice :: Fullest(es, PackedBlock.EncodedRecordSize(Shortest(small)), choice) && repack == AsSet(choice)
  }

  function AsSet(choice: Option<nat>): set<nat>
  {
    match choice
    case None => {}
    case Some(b) => {b}
  }

  /** There is exactly one such set. */
  lemma RewritesUnique(es: seq<Entry>, files: seq<FileWrite>, a: set<nat>, b: set<nat>)
    requires Rewrites(es, files, a) && Rewrites(es, files, b)
    ensures a == b
  {
    hide Occupied, FirstUse, TakesMore;
  }

  // ----- Carried and incoming records -----

  /** One more than every record identifier in use. */
  function NextId(es: seq<Entry>): (id: nat)
    ensures id > 0
  {
    if es == [] then 1
    else
      var last := |es| - 1;
      Max(NextId(es[..last]), if es[last].storage.Packed? then es[last].packedRecordId + 1 else 0)
  }

  lemma NextIdSnoc(es: seq<Entry>, i: nat)
    requires i < |es|
    ensures NextId(es[..i + 1]) == Max(NextId(es[..i]), if es[i].storage.Packed? then es[i].packedRecordId + 1 else 0)
  {
    assert es[..i + 1][..i] == es[..i];
  }

  lemma NextIdNone(es: seq<Entry>)
    ensures NextId(es[..0]) == 1
  {}

  predicate IdsExhausted(es: seq<Entry>, files: seq<FileWrite>)
  {
    Selected(files, true) != [] && NextId(es) + |Selected(files, true)| > 0x1_0000_0000
  }

  function Incoming(small: seq<FileWrite>, id: nat): (s: seq<Pending>)
    requires small == [] || id + |small| <= 0x1_0000_0000
    ensures |s| == |small|
  {
    seq(|small|, k requires 0 <= k < |small| =>
      Pending(small[k].path, PackedBlock.Record(id + k, small[k].modifiedTime, small[k].bytes), Crc32.Crc(small[k].bytes)))
  }

  lemma IncomingIs(small: seq<FileWrite>, id: nat, incoming: seq<Pending>)
    requires small == [] || id + |small| <= 0x1_0000_0000
    requires NewRecords(small, incoming) && forall i :: 0 <= i < |incoming| ==> incoming[i].record.id == id + i
    ensures incoming == Incoming(small, id)
  {}

  /** The records the batch packs: the surviving neighbours of what it rewrites, and the small files. */
  function BatchRecords(image: Image, es: seq<Entry>, files: seq<FileWrite>, repack: set<nat>): seq<Pending>
    requires AllAcceptable(es) && !IdsExhausted(es, files)
  {
    CarriedBlocks(image, es, FilePaths(files), repack, BLOCK_COUNT) + Incoming(Selected(files, true), NextId(es))
  }

  // ----- Clashing identifiers -----

  /** Entry `k` is a neighbour that the batch carries over. */
  predicate Survives(es: seq<Entry>, k: nat, files: seq<FileWrite>, repack: set<nat>)
  {
    k < |es| && es[k].firstBlock in repack && Live(es[k], es[k].firstBlock, FilePaths(files))
  }

  /** Two neighbours that are carried over have one record identifier. */
  ghost predicate Clash(es: seq<Entry>, files: seq<FileWrite>, repack: set<nat>)
  {
    exists i: nat, j: nat :: i < j && Survives(es, i, files, repack) && Survives(es, j, files, repack) && SameRecordId(es, i, j)
  }

  predicate SameRecordId(es: seq<Entry>, i: nat, j: nat)
  {
    i < |es| && j < |es| && es[i].packedRecordId == es[j].packedRecordId
  }

  lemma SurvivorVisited(es: seq<Entry>, k: nat, files: seq<FileWrite>, repack: set<nat>)
    requires k < |es|
    ensures Survives(es, k, files, repack) <==> Visited(es, k, FilePaths(files), repack, 0, 0)
  {}

  /** A survivor's record is among the carried ones, under its own identifier. */
  lemma SurvivorCarried(image: Image, es: seq<Entry>, carried: seq<Pending>, files: seq<FileWrite>, repack: set<nat>, k: nat) returns (p: nat)
    requires Carried(image, es, carried, FilePaths(files), repack, 0, 0) && DistinctNames(es)
    requires forall i :: 0 <= i < |carried| ==> SameIdentifier(es, carried[i])
    requires Survives(es, k, files, repack)
    ensures p < |carried| && carried[p].path == es[k].name && carried[p].record.id == es[k].packedRecordId
  {
    hide HasSource, Live;
    SurvivorVisited(es, k, files, repack);
    assert es[k].name in PathsOf(carried);
    p :| 0 <= p < |carried| && carried[p].path == es[k].name;
    FindIs(es, k);
    assert SameIdentifier(es, carried[p]);
  }

  /** A carried record belongs to a survivor. */
  lemma CarriedSurvives(image: Image, es: seq<Entry>, carried: seq<Pending>, files: seq<FileWrite>, repack: set<nat>, p: nat)
    requires Carried(image, es, carried, FilePaths(files), repack, 0, 0) && p < |carried| && SameIdentifier(es, carried[p])
    ensures
      var k := Find(es, carried[p].path);
      Survives(es, k, files, repack) && es[k].packedRecordId == carried[p].record.id
  {
    hide Find, Live, CarriedFrom;
    assert HasSource(image, es, carried[p], FilePaths(files), repack, 0, 0);
    SurvivorVisited(es, Find(es, carried[p].path), files, repack);
  }

  /** The planner refuses the records of a batch exactly if two carried neighbours have one identifier. */
  lemma ClashExactly(image: Image, es: seq<Entry>, carried: seq<Pending>, files: seq<FileWrite>, incoming: seq<Pending>, id: nat, repack: set<nat>)
    requires AllAcceptable(es) && DistinctNames(es) && Carried(image, es, carried, FilePaths(files), repack, 0, 0)
    requires forall i :: 0 <= i < |carried| ==> SameIdentifier(es, carried[i]) && 0 < |carried[i].record.bytes| <= PackedBlock.THRESHOLD
    requires NewRecords(Selected(files, true), incoming) && forall i :: 0 <= i < |incoming| ==> incoming[i].record.id == id + i
    requires id > 0 && forall k :: 0 <= k < |es| && es[k].storage.Packed? ==> es[k].packedRecordId < id
    ensures AllEligible(RecordsOf(carried + incoming))
    ensures Plannable(RecordsOf(carried + incoming)) <==> !Clash(es, files, repack)
  {
    hide Selected, Find, Eligible, NewRecords, SameIdentifier, FieldsOk, Carried, Survives, RecordsOf, Clash, SameRecordId;
    var records := RecordsOf(carried + incoming);
    RecordsAt(carried + incoming);
    forall i | 0 <= i < |records| ensures Eligible(records[i]) {
      if i < |carried| {
        CarriedEligible(es, carried[i]);
      } else {
        IncomingEligible(files, incoming, id, i - |carried|);
      }
    }
    if !PackedBlock.DistinctIds(records) {
      var i, j :| 0 <= i < j < |records| && records[i].id == records[j].id;
      ClashFound(image, es, carried, files, incoming, id, repack, i, j);
    }
    if Clash(es, files, repack) {
      var p, q := ClashCarried(image, es, carried, files, repack);
      assert records[p].id == records[q].id;
    }
  }

  lemma RecordsAt(pending: seq<Pending>)
    ensures |RecordsOf(pending)| == |pending| && forall k :: 0 <= k < |pending| ==> RecordsOf(pending)[k] == pending[k].record
  {}

  lemma ClashCarried(image: Image, es: seq<Entry>, carried: seq<Pending>, files: seq<FileWrite>, repack: set<nat>) returns (p: nat, q: nat)
    requires DistinctNames(es) && Carried(image, es, carried, FilePaths(files), repack, 0, 0)
    requires forall i :: 0 <= i < |carried| ==> SameIdentifier(es, carried[i])
    requires Clash(es, files, repack)
    ensures p < q < |carried| && carried[p].record.id == carried[q].record.id
  {
    hide Find, Carried, Survives;
    var i: nat, j: nat :| i < j && Survives(es, i, files, repack) && Survives(es, j, files, repack) && SameRecordId(es, i, j);
    p := SurvivorCarried(image, es, carried, files, repack, i);
    q := SurvivorCarried(image, es, carried, files, repack, j);
    if q < p {
      p, q := q, p;
    }
  }

  lemma ClashFound(image: Image, es: seq<Entry>, carried: seq<Pending>, files: seq<FileWrite>, incoming: seq<Pending>, id: nat, repack: set<nat>,
                   i: nat, j: nat)
    requires Carried(image, es, carried, FilePaths(files), repack, 0, 0)
    requires forall k :: 0 <= k < |carried| ==> SameIdentifier(es, carried[k])
    requires forall k :: 0 <= k < |incoming| ==> incoming[k].record.id == id + k
    requires forall k :: 0 <= k < |es| && es[k].storage.Packed? ==> es[k].packedRecordId < id
    requires i < j < |carried + incoming|
    requires (carried + incoming)[i].record.id == (carried + incoming)[j].record.id
    ensures Clash(es, files, repack)
  {
    hide Find, Live, HasSource, Survives, Visited;
    assert i < |carried| ==> SameIdentifier(es, carried[i]);
    assert j < |carried| ==> SameIdentifier(es, carried[j]);
    assert j < |carried|;
    var a, b := Find(es, carried[i].path), Find(es, carried[j].path);
    CarriedSurvives(image, es, carried, files, repack, i);
    CarriedSurvives(image, es, carried, files, repack, j);
    assert es[a].name != es[b].name;
    if a < b {
      assert SameRecordId(es, a, b);
    } else {
      assert SameRecordId(es, b, a);
    }
  }

  // ----- The verdict -----

  /** The blocks the batch takes: first-fit bins for the records, whole blocks for the other files. */
  function Needed(image: Image, es: seq<Entry>, files: seq<FileWrite>, repack: set<nat>): nat
    requires AllAcceptable(es) && !IdsExhausted(es, files)
  {
    var records := RecordsOf(BatchRecords(image, es, files, repack));
    (if AllEligible(records) then |PlanOf(records).bins| else 0) + BlocksOf(Selected(files, false))
  }

  /** What stops an admitted batch on this volume before anything is written. */
  ghost function Obstacle(image: Image, es: seq<Entry>, files: seq<FileWrite>, repack: set<nat>): Option<Ending>
    requires AllAcceptable(es)
  {
    if GenerationsUsedUp(es) then Some(GenerationsExhausted)
    else if IdsExhausted(es, files) then Some(IdentifiersExhausted)
    else if Clash(es, files, repack) then Some(IdentifiersClash)
    else if Needed(image, es, files, repack) > BLOCK_COUNT - FIRST_DATA_BLOCK then Some(TooLarge)
    else None
  }

  /** How an admitted batch may end: at its obstacle, or done or failed in writing without one. Reading comes early. */
  ghost predicate Ends(image: Image, es: seq<Entry>, files: seq<FileWrite>, repack: set<nat>, why: Ending)
    requires AllAcceptable(es)
  {
    if why == ReadFailed then !GenerationsUsedUp(es)
    else
      match Obstacle(image, es, files, repack)
      case Some(obstacle) => why == obstacle
      case None => why == Done || why == WriteFailed
  }

  lemma EndsIs(image: Image, es: seq<Entry>, files: seq<FileWrite>, repack: set<nat>)
    requires AllAcceptable(es)
    ensures GenerationsUsedUp(es) ==> Ends(image, es, files, repack, GenerationsExhausted)
    ensures !GenerationsUsedUp(es) ==> Ends(image, es, files, repack, ReadFailed)
    ensures !GenerationsUsedUp(es) && IdsExhausted(es, files) ==> Ends(image, es, files, repack, IdentifiersExhausted)
    ensures !GenerationsUsedUp(es) && !IdsExhausted(es, files) && Clash(es, files, repack) ==> Ends(image, es, files, repack, IdentifiersClash)
    ensures !GenerationsUsedUp(es) && !IdsExhausted(es, files) && !Clash(es, files, repack) ==>
      if Needed(image, es, files, repack) > BLOCK_COUNT - FIRST_DATA_BLOCK then Ends(image, es, files, repack, TooLarge)
      else Ends(image, es, files, repack, Done) && Ends(image, es, files, repack, WriteFailed)
  {
    hide Clash, GenerationsUsedUp, IdsExhausted, Needed, AllAcceptable;
  }

  lemma RecordsAre(image: Image, es: seq<Entry>, files: seq<FileWrite>, repack: set<nat>, carried: seq<Pending>, incoming: seq<Pending>)
    requires AllAcceptable(es) && !IdsExhausted(es, files)
    requires carried == CarriedBlocks(image, es, FilePaths(files), repack, BLOCK_COUNT)
    requires NewRecords(Selected(files, true), incoming) && forall i :: 0 <= i < |incoming| ==> incoming[i].record.id == NextId(es) + i
    ensures BatchRecords(image, es, files, repack) == carried + incoming
  {
    hide AllAcceptable, NewRecords, Selected, CarriedBlocks, NextId;
    IncomingIs(Selected(files, true), NextId(es), incoming);
  }

  lemma NeededIs(image: Image, es: seq<Entry>, files: seq<FileWrite>, repack: set<nat>, pending: seq<Pending>)
    requires AllAcceptable(es) && !IdsExhausted(es, files) && pending == BatchRecords(image, es, files, repack)
    requires AllEligible(RecordsOf(pending))
    ensures Needed(image, es, files, repack) == |PlanOf(RecordsOf(pending)).bins| + BlocksOf(Selected(files, false))
  {}

  lemma ExhaustedIs(es: seq<Entry>, files: seq<FileWrite>)
    ensures IdsExhausted(es, files) <==> Selected(files, true) != [] && NextId(es) + |Selected(files, true)| > 0x1_0000_0000
  {}

  /** The choice of a full block completes the set of rewritten blocks. */
  lemma RewritesIs(es: seq<Entry>, files: seq<FileWrite>)
    ensures
      var overwritten, small := OverwrittenBlocks(es, FilePaths(files)), Selected(files, true);
      && (overwritten != {} || small == [] ==> Rewrites(es, files, overwritten))
      && (overwritten == {} && small != [] ==>
           forall choice :: Fullest(es, PackedBlock.EncodedRecordSize(Shortest(small)), choice) ==> Rewrites(es, files, AsSet(choice)))
    ensures AsSet(None) == {} && forall b: nat :: AsSet(Some(b)) == {b}
  {
    hide Selected, OverwrittenBlocks, Fullest, Shortest;
  }

  lemma RewritesInRange(es: seq<Entry>, files: seq<FileWrite>, repack: set<nat>)
    requires AllAcceptable(es) && Rewrites(es, files, repack)
    ensures forall b :: b in repack ==> b < BLOCK_COUNT
  {
    hide Selected, Shortest, Occupied;
  }
}
