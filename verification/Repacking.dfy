/**
  The live records of a packed block fit in one block, in whatever order they are gathered; hence
  repacking them never needs more blocks than they came from.
 */
module Repacking {
  import opened Bytes
  import opened Paths
  import opened Manifest
  import opened Device
  import opened Volume
  import opened Placement
  import opened PackedBlock
  import opened BinPacking
  import Carrying
  import PackedBlockProofs

  /** Encoded size of the records with these indexes. */
  function SizeOfSome(records: seq<Record>, chosen: set<nat>): nat
  {
    if records == [] then 0
    else
      var last := |records| - 1;
      SizeOfSome(records[..last], chosen) + if last in chosen then EncodedRecordSize(|records[last].bytes|) else 0
  }

  lemma {:induction false} SomeFit(records: seq<Record>, chosen: set<nat>)
    ensures SizeOfSome(records, chosen) <= PayloadSize(records)
  {
    hide EncodedRecordSize;
    if records != [] {
      SomeFit(records[..|records| - 1], chosen);
    }
  }

  lemma {:induction false} OneMoreChosen(records: seq<Record>, chosen: set<nat>, x: nat)
    requires x !in chosen
    ensures SizeOfSome(records, chosen + {x})
         == SizeOfSome(records, chosen) + if x < |records| then EncodedRecordSize(|records[x].bytes|) else 0
  {
    hide EncodedRecordSize;
    if records != [] {
      OneMoreChosen(records[..|records| - 1], chosen, x);
    }
  }

  lemma {:induction false} NoneChosen(records: seq<Record>)
    ensures SizeOfSome(records, {}) == 0
  {
    if records != [] {
      NoneChosen(records[..|records| - 1]);
    }
  }

  /** The gathered records are those of some files among the first `upto`, each with its own place in the block. */
  ghost predicate Gathered(es: seq<Entry>, records: seq<Record>, locations: seq<Location>, block: nat, skip: set<Name>,
                           upto: nat, chosen: set<nat>, group: seq<Record>)
    requires |records| == |locations|
  {
    && (forall x :: x in chosen ==> x < |records| && ChosenFor(es, locations, block, skip, upto, x))
    && PayloadSize(group) == SizeOfSome(records, chosen)
  }

  predicate ChosenFor(es: seq<Entry>, locations: seq<Location>, block: nat, skip: set<Name>, upto: nat, x: nat)
  {
    && x < |locations|
    && exists k :: 0 <= k < upto && k < |es| && Carrying.Live(es[k], block, skip) && es[k].packedRecordOffset == locations[x].offset
  }

  lemma GatheredNone(es: seq<Entry>, records: seq<Record>, locations: seq<Location>, block: nat, skip: set<Name>)
    requires |records| == |locations|
    ensures Gathered(es, records, locations, block, skip, 0, {}, [])
  {
    NoneChosen(records);
  }

  lemma GatheredSkip(es: seq<Entry>, records: seq<Record>, locations: seq<Location>, block: nat, skip: set<Name>,
                     upto: nat, chosen: set<nat>, group: seq<Record>)
    requires |records| == |locations| && Gathered(es, records, locations, block, skip, upto, chosen, group)
    ensures Gathered(es, records, locations, block, skip, upto + 1, chosen, group)
  {}

  lemma {:induction false} ResolvedIndex(e: Entry, records: seq<Record>, locations: seq<Location>, k: nat) returns (n: nat)
    requires |records| == |locations| && k <= |records| && Resolve(e, records, locations, k).Some?
    ensures n < |records| && records[n].id == e.packedRecordId && locations[n].offset == e.packedRecordOffset
    ensures records[n].bytes == Resolve(e, records, locations, k).value
    decreases |records| - k
  {
    if records[k].id != e.packedRecordId || locations[k].offset != e.packedRecordOffset {
      n := ResolvedIndex(e, records, locations, k + 1);
    } else {
      n := k;
    }
  }

  /** One more live file: its record is one that was not chosen before. */
  lemma GatheredAdd(es: seq<Entry>, records: seq<Record>, locations: seq<Location>, block: nat, skip: set<Name>,
                    upto: nat, chosen: set<nat>, group: seq<Record>, r: Record) returns (more: set<nat>)
    requires |records| == |locations| && Gathered(es, records, locations, block, skip, upto, chosen, group)
    requires upto < |es| && Carrying.Live(es[upto], block, skip) && AllCompatible(es) && AllAcceptable(es)
    requires Resolve(es[upto], records, locations, 0) == Some(r.bytes)
    ensures Gathered(es, records, locations, block, skip, upto + 1, more, group + [r])
  {
    hide PayloadSize, SizeOfSome, Resolve, ValidPath, EncodedRecordSize;
    var n := ResolvedIndex(es[upto], records, locations, 0);
    forall k | 0 <= k < upto && Carrying.Live(es[k], block, skip) ensures es[k].packedRecordOffset != es[upto].packedRecordOffset {
      OffsetsDiffer(es, block, skip, k, upto);
    }
    assert !ChosenFor(es, locations, block, skip, upto, n);
    more := chosen + {n};
    OneMoreChosen(records, chosen, n);
    PayloadSnoc(group, r);
    forall x | x in more ensures x < |records| && ChosenFor(es, locations, block, skip, upto + 1, x) {
      if x in chosen {
        assert ChosenFor(es, locations, block, skip, upto, x);
      }
    }
  }

  lemma OffsetsDiffer(es: seq<Entry>, block: nat, skip: set<Name>, i: nat, j: nat)
    requires i < j < |es| && AllCompatible(es) && AllAcceptable(es) && Carrying.Live(es[i], block, skip) && Carrying.Live(es[j], block, skip)
    ensures es[i].packedRecordOffset != es[j].packedRecordOffset
  {}

  lemma PayloadSnoc(group: seq<Record>, r: Record)
    ensures PayloadSize(group + [r]) == PayloadSize(group) + EncodedRecordSize(|r.bytes|)
  {}

  /** What has been gathered from one block fits in one block. */
  lemma GatheredFits(data: Block, d: Decoded, es: seq<Entry>, block: nat, skip: set<Name>, upto: nat, chosen: set<nat>, group: seq<Record>)
    requires DecodeResult(data) == Some(d) && |d.records| == |d.locations|
    requires Gathered(es, d.records, d.locations, block, skip, upto, chosen, group)
    ensures FitsOneBlock(group)
  {
    hide PayloadSize, SizeOfSome, DecodeResult, Encoded, DistinctIds, Locations;
    PackedBlockProofs.AcceptedIsEncodable(data);
    SomeFit(d.records, chosen);
  }

  /** Repacking the records gathered from these blocks needs at most as many blocks. */
  lemma NoMoreBins(pending: seq<Pending>, groups: seq<seq<Record>>)
    requires Plannable(RecordsOf(pending)) && RecordsOf(pending) == Concat(groups)
    requires forall g :: 0 <= g < |groups| ==> FitsOneBlock(groups[g])
    ensures |PlanOf(RecordsOf(pending)).bins| <= |groups|
  {
    hide PlanOf, RecordsOf, Concat;
    RepackingNeverGrows(groups);
  }

  lemma ConcatSnoc(groups: seq<seq<Record>>, group: seq<Record>)
    ensures Concat(groups + [group]) == Concat(groups) + group
  {}

  lemma RecordsOfConcat(a: seq<Pending>, b: seq<Pending>)
    ensures RecordsOf(a + b) == RecordsOf(a) + RecordsOf(b)
  {}
}
