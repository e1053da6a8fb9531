/**
  Live records on their way out of the packed blocks they are in: which entries have been
  visited, and that each pending record is the content of the entry it was made from.
 */
module Carrying {
  import opened Bytes
  import opened Paths
  import opened Manifest
  import opened Device
  import opened Volume
  import opened Placement
  import PackedBlock
  import Crc32

  /** A live packed file in this block that is not about to be overwritten. */
  predicate Live(e: Entry, block: nat, skip: set<Name>)
  {
    !e.directory && e.storage.Packed? && e.firstBlock == block && e.name !in skip
  }

  /** `p` is the current content of `e`. */
  ghost predicate CarriedFrom(image: Image, e: Entry, p: Pending)
  {
    && Acceptable(e) && !e.directory && FileBytes(image, e) == Some(p.record.bytes)
    && p.path == e.name && p.crc == e.crc && p.record.modifiedTime == e.modifiedTime
  }

  /** Entry `k` has been visited: its block is done, or it is among the first `upto` entries and in `block`. */
  predicate Visited(es: seq<Entry>, k: nat, skip: set<Name>, done: set<nat>, block: nat, upto: nat)
  {
    k < |es| && Live(es[k], es[k].firstBlock, skip) && (es[k].firstBlock in done || (es[k].firstBlock == block && k < upto))
  }

  function PathsOf(pending: seq<Pending>): set<Name>
  {
    set i | 0 <= i < |pending| :: pending[i].path
  }

  ghost predicate HasSource(image: Image, es: seq<Entry>, p: Pending, skip: set<Name>, done: set<nat>, block: nat, upto: nat)
  {
    var k := Find(es, p.path);
    Visited(es, k, skip, done, block, upto) && CarriedFrom(image, es[k], p)
  }

  /** The pending records are exactly the visited live files. */
  ghost predicate Carried(image: Image, es: seq<Entry>, pending: seq<Pending>, skip: set<Name>, done: set<nat>, block: nat, upto: nat)
  {
    && (forall i :: 0 <= i < |pending| ==> HasSource(image, es, pending[i], skip, done, block, upto))
    && (forall k :: 0 <= k < |es| && Visited(es, k, skip, done, block, upto) ==> es[k].name in PathsOf(pending))
    && DistinctPaths(pending)
  }

  lemma CarryNone(image: Image, es: seq<Entry>, skip: set<Name>, block: nat)
    ensures Carried(image, es, [], skip, {}, block, 0)
  {}

  /** Starting on another block. */
  lemma CarryStart(image: Image, es: seq<Entry>, pending: seq<Pending>, skip: set<Name>, done: set<nat>, was: nat, block: nat)
    requires Carried(image, es, pending, skip, done, was, 0)
    ensures Carried(image, es, pending, skip, done, block, 0)
  {}

  lemma CarrySkip(image: Image, es: seq<Entry>, pending: seq<Pending>, skip: set<Name>, done: set<nat>, block: nat, upto: nat)
    requires Carried(image, es, pending, skip, done, block, upto) && upto < |es| && !Live(es[upto], block, skip)
    ensures Carried(image, es, pending, skip, done, block, upto + 1)
  {}

  lemma CarryAdd(image: Image, es: seq<Entry>, pending: seq<Pending>, p: Pending, skip: set<Name>, done: set<nat>, block: nat, upto: nat)
    requires Carried(image, es, pending, skip, done, block, upto) && upto < |es| && Live(es[upto], block, skip)
    requires DistinctNames(es) && block !in done && CarriedFrom(image, es[upto], p)
    ensures Carried(image, es, pending + [p], skip, done, block, upto + 1)
  {
    hide CarriedFrom, Find;
    CarriedName(image, es[upto], p);
    FindIs(es, upto);
    var more := pending + [p];
    forall i | 0 <= i < |more| ensures HasSource(image, es, more[i], skip, done, block, upto + 1) {
      if i < |pending| {
        assert HasSource(image, es, pending[i], skip, done, block, upto);
      }
    }
    forall i | 0 <= i < |pending| ensures pending[i].path != p.path {
      assert HasSource(image, es, pending[i], skip, done, block, upto);
    }
    forall k | 0 <= k < |es| && Visited(es, k, skip, done, block, upto + 1) ensures es[k].name in PathsOf(more) {
      if k == upto {
        assert more[|pending|].path == es[k].name;
      } else {
        assert Visited(es, k, skip, done, block, upto);
        var i :| 0 <= i < |pending| && pending[i].path == es[k].name;
        assert more[i].path == es[k].name;
      }
    }
  }

  lemma CarriedName(image: Image, e: Entry, p: Pending)
    requires CarriedFrom(image, e, p)
    ensures p.path == e.name
  {}

  /** A block is done when all entries have been visited. */
  lemma CarryDone(image: Image, es: seq<Entry>, pending: seq<Pending>, skip: set<Name>, done: set<nat>, block: nat)
    requires Carried(image, es, pending, skip, done, block, |es|)
    ensures Carried(image, es, pending, skip, done + {block}, block, 0)
  {}

  /** A block without live files is done at once. */
  lemma {:induction false} CarryEmpty(image: Image, es: seq<Entry>, pending: seq<Pending>, skip: set<Name>, done: set<nat>, block: nat, upto: nat)
    requires Carried(image, es, pending, skip, done, block, upto) && upto <= |es|
    requires forall k :: 0 <= k < |es| ==> !Live(es[k], block, skip)
    ensures Carried(image, es, pending, skip, done + {block}, block, 0)
    decreases |es| - upto
  {}

  /** A carried record is what the tree shows. */
  lemma CarriedNode(image: Image, es: seq<Entry>, p: Pending, skip: set<Name>, done: set<nat>, block: nat, upto: nat)
    requires AllAcceptable(es) && HasSource(image, es, p, skip, done, block, upto)
    ensures p.path in TreeOf(image, es) && TreeOf(image, es)[p.path] == File(p.record.bytes, p.record.modifiedTime)
    ensures PendingOk(p) && p.path !in skip
  {
    hide Find, PackedBytes, ValidPath;
    FindMiss(es, p.path);
    var e := es[Find(es, p.path)];
    CrcOfFile(image, e);
    assert ValidPath(e.name) by { NameValid(e); }
  }

  lemma NameValid(e: Entry)
    requires Acceptable(e)
    ensures ValidPath(e.name)
  {}

  lemma CrcOfFile(image: Image, e: Entry)
    requires Acceptable(e) && !e.directory && FileBytes(image, e).Some?
    ensures Crc32.Crc(FileBytes(image, e).value) == e.crc
  {
    hide Resolve, ValidPath, PackedBlock.DecodeResult;
    if e.storage.Packed? {
      var d := PackedBlock.DecodeResult(image[e.firstBlock]);
      DecodedSameLength(image[e.firstBlock]);
      ResolvedCrc(e, d.value.records, d.value.locations, 0);
    }
  }

  lemma {:induction false} ResolvedCrc(e: Entry, records: seq<PackedBlock.Record>, locations: seq<PackedBlock.Location>, k: nat)
    requires |records| == |locations| && k <= |records|
    ensures Resolve(e, records, locations, k).Some? ==> Crc32.Crc(Resolve(e, records, locations, k).value) == e.crc
    decreases |records| - k
  {
    if k < |records| {
      ResolvedCrc(e, records, locations, k + 1);
    }
  }

  /** Carried contents do not depend on free blocks. */
  lemma CarriedFrame(before: Image, after: Image, es: seq<Entry>, pending: seq<Pending>, skip: set<Name>, done: set<nat>, block: nat)
    requires AllAcceptable(es) && SameOnReferenced(before, after, es) && Carried(before, es, pending, skip, done, block, 0)
    ensures Carried(after, es, pending, skip, done, block, 0)
  {
    hide Find, Acceptable, FileBytes, SameOnReferenced, PathsOf;
    forall i | 0 <= i < |pending| ensures HasSource(after, es, pending[i], skip, done, block, 0) {
      assert HasSource(before, es, pending[i], skip, done, block, 0);
      NodeFrame(before, after, es, Find(es, pending[i].path));
    }
  }

  /** Something was carried from somewhere. */
  lemma CarriedSomewhere(image: Image, es: seq<Entry>, pending: seq<Pending>, skip: set<Name>, done: set<nat>)
    requires Carried(image, es, pending, skip, done, 0, 0) && pending != []
    ensures done != {}
  {
    hide Find, CarriedFrom;
    assert HasSource(image, es, pending[0], skip, done, 0, 0);
  }

  // ----- The carried records as a list -----

  /** An entry's record, under the identifier it has. */
  function CarriedRecord(image: Image, e: Entry): Pending
    requires Acceptable(e) && !e.directory
  {
    var contents := FileBytes(image, e);
    Pending(e.name, PackedBlock.Record(e.packedRecordId, e.modifiedTime, if contents.Some? then contents.value else []), e.crc)
  }

  /** The records of one block that survive the batch, among the first `n` entries, in the order of the entries. */
  function CarriedBlock(image: Image, es: seq<Entry>, skip: set<Name>, block: nat, n: nat): seq<Pending>
    requires AllAcceptable(es) && n <= |es|
  {
    if n == 0 then []
    else
      CarriedBlock(image, es, skip, block, n - 1)
      + if Live(es[n - 1], block, skip) then [CarriedRecord(image, es[n - 1])] else []
  }

  /** The records of all rewritten blocks below `hi` that survive the batch, block by block. */
  function CarriedBlocks(image: Image, es: seq<Entry>, skip: set<Name>, repack: set<nat>, hi: nat): seq<Pending>
    requires AllAcceptable(es)
  {
    if hi == 0 then []
    else
      CarriedBlocks(image, es, skip, repack, hi - 1)
      + if hi - 1 in repack then CarriedBlock(image, es, skip, hi - 1, |es|) else []
  }

  lemma CarriedBlockStep(image: Image, es: seq<Entry>, skip: set<Name>, block: nat, n: nat)
    requires AllAcceptable(es) && n < |es|
    ensures Live(es[n], block, skip) ==>
      Acceptable(es[n]) && !es[n].directory
      && CarriedBlock(image, es, skip, block, n + 1) == CarriedBlock(image, es, skip, block, n) + [CarriedRecord(image, es[n])]
    ensures !Live(es[n], block, skip) ==> CarriedBlock(image, es, skip, block, n + 1) == CarriedBlock(image, es, skip, block, n)
  {}

  lemma NothingCarried(image: Image, es: seq<Entry>, skip: set<Name>, block: nat)
    requires AllAcceptable(es)
    ensures CarriedBlock(image, es, skip, block, 0) == []
  {}

  lemma NoBlocksCarried(image: Image, es: seq<Entry>, skip: set<Name>, repack: set<nat>)
    requires AllAcceptable(es)
    ensures CarriedBlocks(image, es, skip, repack, 0) == []
  {}

  lemma CarriedBlocksStep(image: Image, es: seq<Entry>, skip: set<Name>, repack: set<nat>, block: nat)
    requires AllAcceptable(es)
    ensures CarriedBlocks(image, es, skip, repack, block + 1)
         == CarriedBlocks(image, es, skip, repack, block) + if block in repack then CarriedBlock(image, es, skip, block, |es|) else []
  {}

  lemma CarriedIsRecord(image: Image, e: Entry, p: Pending)
    requires CarriedFrom(image, e, p) && p.record.id == e.packedRecordId
    ensures p == CarriedRecord(image, e)
  {}

  lemma {:induction false} NothingLive(image: Image, es: seq<Entry>, skip: set<Name>, block: nat, n: nat)
    requires AllAcceptable(es) && n <= |es| && forall k :: 0 <= k < |es| ==> !Live(es[k], block, skip)
    ensures CarriedBlock(image, es, skip, block, n) == []
  {
    if n > 0 {
      NothingLive(image, es, skip, block, n - 1);
    }
  }
}
