/**
  From a batch of file writes to what is put on flash: which files are packed, which records are
  carried along with them, and why placing all of that is exactly the batch.
 */
module Batches {
  import opened Bytes
  import opened Paths
  import opened Manifest
  import opened Device
  import opened Volume
  import opened TreeSpec
  import opened Placement
  import opened Carrying
  import Relocation
  import PackedBlock
  import Crc32

  /** The files of a batch that are packed, or those that are not, in order. */
  function Selected(files: seq<FileWrite>, pack: bool): seq<FileWrite>
  {
    if files == [] then []
    else
      var last := |files| - 1;
      Selected(files[..last], pack) + if PackedBlock.ShouldPack(|files[last].bytes|) == pack then [files[last]] else []
  }

  lemma SelectedSnoc(files: seq<FileWrite>, i: nat, pack: bool)
    requires i < |files|
    ensures Selected(files[..i + 1], pack)
         == Selected(files[..i], pack) + if PackedBlock.ShouldPack(|files[i].bytes|) == pack then [files[i]] else []
  {
    assert files[..i + 1][..i] == files[..i];
  }

  lemma {:induction false} SelectedIn(files: seq<FileWrite>, pack: bool, f: FileWrite)
    ensures f in Selected(files, pack) <==> f in files && PackedBlock.ShouldPack(|f.bytes|) == pack
  {
    if files != [] {
      var last := |files| - 1;
      SelectedIn(files[..last], pack, f);
      assert files == files[..last] + [files[last]];
    }
  }

  ghost predicate DistinctFiles(files: seq<FileWrite>)
  {
    forall i, j :: 0 <= i < j < |files| ==> files[i].path != files[j].path
  }

  lemma {:induction false} SelectedDistinct(files: seq<FileWrite>, pack: bool)
    requires DistinctFiles(files)
    ensures DistinctFiles(Selected(files, pack))
  {
    if files != [] {
      var last := |files| - 1;
      var before := Selected(files[..last], pack);
      SelectedDistinct(files[..last], pack);
      forall i | 0 <= i < |before| ensures before[i].path != files[last].path {
        SelectedIn(files[..last], pack, before[i]);
        assert before[i] in before;
        var k :| 0 <= k < last && files[..last][k] == before[i];
        assert files[k].path != files[last].path;
      }
    }
  }

  lemma FilePathsSnoc(files: seq<FileWrite>, i: nat)
    requires i < |files|
    ensures FilePaths(files[..i + 1]) == FilePaths(files[..i]) + {files[i].path}
  {}

  /** Pending records for the new small files, with consecutive identifiers. */
  predicate NewRecords(files: seq<FileWrite>, pending: seq<Pending>)
  {
    && |pending| == |files|
    && forall i :: 0 <= i < |files| ==>
      && pending[i].path == files[i].path && pending[i].record.bytes == files[i].bytes
      && pending[i].record.modifiedTime == files[i].modifiedTime && pending[i].crc == Crc32.Crc(files[i].bytes)
  }

  /** Records that only move: the tree has them already and the batch does not touch them. */
  ghost predicate OnlyCarried(t: Tree, files: seq<FileWrite>, pending: seq<Pending>)
  {
    && DistinctPaths(pending)
    && forall i :: 0 <= i < |pending| ==>
      && PendingOk(pending[i]) && pending[i].path !in FilePaths(files)
      && pending[i].path in t && t[pending[i].path] == Relocation.PendingNode(pending[i])
  }

  lemma PathIn(files: seq<FileWrite>, f: FileWrite)
    requires f in files
    ensures f.path in FilePaths(files)
  {}

  /** Everything that is placed has its own path, all of them valid. */
  lemma BatchPaths(t: Tree, files: seq<FileWrite>, carried: seq<Pending>, incoming: seq<Pending>)
    requires Batch(t, files) && OnlyCarried(t, files, carried) && NewRecords(Selected(files, true), incoming)
    ensures
      var pending, dedicated := carried + incoming, Selected(files, false);
      && DistinctPaths(pending) && DistinctFiles(dedicated)
      && (forall i :: 0 <= i < |pending| ==> PendingOk(pending[i]))
      && (forall i :: 0 <= i < |dedicated| ==> ValidPath(dedicated[i].path))
      && (forall i, j :: 0 <= i < |pending| && 0 <= j < |dedicated| ==> pending[i].path != dedicated[j].path)
  {
    hide Selected, ValidPath;
    var packed, dedicated := Selected(files, true), Selected(files, false);
    SelectedDistinct(files, true);
    SelectedDistinct(files, false);
    forall i | 0 <= i < |packed|
      ensures packed[i] in files && PackedBlock.ShouldPack(|packed[i].bytes|) && packed[i].path in FilePaths(files) && ValidPath(packed[i].path)
    {
      SelectedIn(files, true, packed[i]);
      PathIn(files, packed[i]);
    }
    forall i | 0 <= i < |dedicated|
      ensures dedicated[i] in files && !PackedBlock.ShouldPack(|dedicated[i].bytes|) && dedicated[i].path in FilePaths(files) && ValidPath(dedicated[i].path)
    {
      SelectedIn(files, false, dedicated[i]);
      PathIn(files, dedicated[i]);
    }
    forall i, j | 0 <= i < |packed| && 0 <= j < |dedicated| ensures packed[i].path != dedicated[j].path {
      SamePathSameFile(files, packed[i], dedicated[j]);
    }
  }

  lemma SamePathSameFile(files: seq<FileWrite>, f: FileWrite, g: FileWrite)
    requires DistinctFiles(files) && f in files && g in files
    ensures f.path == g.path ==> f == g
  {}

  /** Placing the carried and the new records and the whole-block files is exactly the batch. */
  lemma BatchWrites(t: Tree, files: seq<FileWrite>, carried: seq<Pending>, incoming: seq<Pending>)
    requires Batch(t, files) && OnlyCarried(t, files, carried) && NewRecords(Selected(files, true), incoming)
    ensures Relocation.Writes(t, carried + incoming, Selected(files, false), PutAll(t, files))
  {
    hide Selected, ValidPath, PutAll, PathsOf;
    var pending, packed, dedicated, u := carried + incoming, Selected(files, true), Selected(files, false), PutAll(t, files);
    BatchReadsBack(t, files);
    forall i | 0 <= i < |packed| ensures packed[i].path in u && u[packed[i].path] == FileNode(packed[i]) {
      SelectedIn(files, true, packed[i]);
    }
    forall i | 0 <= i < |dedicated| ensures dedicated[i].path in u && u[dedicated[i].path] == FileNode(dedicated[i]) {
      SelectedIn(files, false, dedicated[i]);
    }
    forall i | 0 <= i < |pending| ensures pending[i].path in u && u[pending[i].path] == Relocation.PendingNode(pending[i]) {
      if i < |carried| {
        NotABatchPath(files, carried[i].path);
      } else {
        assert pending[i] == incoming[i - |carried|];
      }
    }
    BatchNames(t, files, carried, incoming);
    forall n | n in t && n !in PathsOf(pending) && (forall i :: 0 <= i < |dedicated| ==> dedicated[i].path != n)
      ensures u[n] == t[n]
    {
      OutsideBatch(files, carried, incoming, n);
    }
  }

  lemma NotABatchPath(files: seq<FileWrite>, n: Name)
    requires n !in FilePaths(files)
    ensures forall k :: 0 <= k < |files| ==> files[k].path != n
  {}

  /** A path that is neither placed as a record nor as a file is not in the batch. */
  lemma OutsideBatch(files: seq<FileWrite>, carried: seq<Pending>, incoming: seq<Pending>, n: Name)
    requires NewRecords(Selected(files, true), incoming) && n !in PathsOf(carried + incoming)
    requires forall i :: 0 <= i < |Selected(files, false)| ==> Selected(files, false)[i].path != n
    ensures forall k :: 0 <= k < |files| ==> files[k].path != n
  {
    hide Selected;
    forall k | 0 <= k < |files| ensures files[k].path != n {
      SelectedIn(files, true, files[k]);
      SelectedIn(files, false, files[k]);
      if files[k] in Selected(files, true) {
        var i :| 0 <= i < |Selected(files, true)| && Selected(files, true)[i] == files[k];
        assert (carried + incoming)[|carried| + i].path == files[k].path;
      }
    }
  }

  lemma BatchNames(t: Tree, files: seq<FileWrite>, carried: seq<Pending>, incoming: seq<Pending>)
    requires Batch(t, files) && OnlyCarried(t, files, carried) && NewRecords(Selected(files, true), incoming)
    ensures PutAll(t, files).Keys
         == t.Keys + PathsOf(carried + incoming) + FilePaths(Selected(files, false))
  {
    hide Selected, ValidPath, PutAll;
    var pending, packed, dedicated, u := carried + incoming, Selected(files, true), Selected(files, false), PutAll(t, files);
    forall n | n in u ensures n in t.Keys + PathsOf(pending) + FilePaths(dedicated) {
      PutAllAt(t, files, n);
      if n !in PathsOf(pending) && n !in FilePaths(dedicated) {
        NotABatchPath(dedicated, n);
        OutsideBatch(files, carried, incoming, n);
      }
    }
    forall n | n in t ensures n in u {
      PutAllAt(t, files, n);
    }
    forall i | 0 <= i < |pending| ensures pending[i].path in u {
      if i < |carried| {
        PutAllAt(t, files, pending[i].path);
      } else {
        SelectedIn(files, true, packed[i - |carried|]);
        PutAllAt(t, files, pending[i].path);
      }
    }
    forall i | 0 <= i < |dedicated| ensures dedicated[i].path in u {
      SelectedIn(files, false, dedicated[i]);
      PutAllAt(t, files, dedicated[i].path);
    }
  }

  lemma CarriedOnly(image: Image, es: seq<Entry>, files: seq<FileWrite>, pending: seq<Pending>, done: set<nat>)
    requires AllAcceptable(es) && Carried(image, es, pending, FilePaths(files), done, 0, 0)
    ensures OnlyCarried(TreeOf(image, es), files, pending)
  {
    hide HasSource, TreeOf, Acceptable;
    var t := TreeOf(image, es);
    forall i | 0 <= i < |pending|
      ensures PendingOk(pending[i]) && pending[i].path !in FilePaths(files)
        && pending[i].path in t && t[pending[i].path] == Relocation.PendingNode(pending[i])
    {
      CarriedNode(image, es, pending[i], FilePaths(files), done, 0, 0);
    }
  }

  // ----- Admission -----

  predicate Admissible(t: Tree, f: FileWrite)
  {
    ValidPath(f.path) && ParentOk(t, f.path) && !IsDir(t, f.path)
  }

  /** Manifest bytes that new names add. */
  function Growth(es: seq<Entry>, files: seq<FileWrite>): nat
  {
    if files == [] then 0
    else
      var last := |files| - 1;
      Growth(es, files[..last]) + if Find(es, files[last].path) == |es| then ENTRY_SIZE + |files[last].path| else 0
  }

  lemma GrowthSnoc(es: seq<Entry>, files: seq<FileWrite>, i: nat)
    requires i < |files|
    ensures Growth(es, files[..i + 1])
         == Growth(es, files[..i]) + if Find(es, files[i].path) == |es| then ENTRY_SIZE + |files[i].path| else 0
  {
    assert files[..i + 1][..i] == files[..i];
  }

  /** File `i` of the batch still fits in the manifest. */
  predicate FitsManifest(es: seq<Entry>, files: seq<FileWrite>, i: nat)
    requires i < |files|
  {
    && |files[i].path| <= LARGEST_NAME
    && 4 + |EntriesBytes(es)| + Growth(es, files[..i + 1]) <= BLOCK_SIZE - SUPERBLOCK_HEADER
  }

  /** What the classification loop accepts among the first `n` files. */
  ghost predicate AcceptedSoFar(t: Tree, es: seq<Entry>, files: seq<FileWrite>, n: nat)
    requires n <= |files|
  {
    && DistinctFiles(files[..n])
    && forall i :: 0 <= i < n ==> Admissible(t, files[i]) && FitsManifest(es, files, i)
  }

  lemma AcceptNext(t: Tree, es: seq<Entry>, files: seq<FileWrite>, n: nat)
    requires n < |files| && AcceptedSoFar(t, es, files, n)
    ensures
      var accepted := Admissible(t, files[n]) && files[n].path !in FilePaths(files[..n]) && FitsManifest(es, files, n);
      && (accepted ==> AcceptedSoFar(t, es, files, n + 1))
      && (!accepted ==> !AcceptedSoFar(t, es, files, |files|))
  {
    hide Admissible, FitsManifest;
    assert files[..|files|] == files;
    var so, more := files[..n], files[..n + 1];
    if files[n].path in FilePaths(so) {
      var k :| 0 <= k < n && so[k].path == files[n].path;
      assert files[k].path == files[n].path;
    } else {
      forall i, j {:trigger more[i], more[j]} | 0 <= i < j < |more| ensures more[i].path != more[j].path {
        assert so[i].path in FilePaths(so);
        if j < n {
          assert so[i].path != so[j].path;
        }
      }
    }
  }

  lemma AcceptNone(t: Tree, es: seq<Entry>, files: seq<FileWrite>)
    ensures AcceptedSoFar(t, es, files, 0)
  {}

  lemma AcceptedIsBatch(t: Tree, es: seq<Entry>, files: seq<FileWrite>)
    ensures AcceptedSoFar(t, es, files, |files|) ==> Batch(t, files)
    ensures Batch(t, files) && (forall i :: 0 <= i < |files| ==> FitsManifest(es, files, i)) ==>
      AcceptedSoFar(t, es, files, |files|)
  {
    hide FitsManifest, ValidPath;
    assert files[..|files|] == files;
  }

  // ----- Which packed block takes new records -----

  /** Encoded size of the live records in a packed block. */
  function LiveBytes(es: seq<Entry>, block: nat): nat
  {
    if es == [] then 0
    else
      var last := |es| - 1;
      LiveBytes(es[..last], block)
      + if es[last].storage.Packed? && es[last].firstBlock == block then PackedBlock.EncodedRecordSize(es[last].size) else 0
  }

  lemma LiveBytesSnoc(es: seq<Entry>, i: nat, block: nat)
    requires i < |es|
    ensures LiveBytes(es[..i + 1], block)
         == LiveBytes(es[..i], block)
            + if es[i].storage.Packed? && es[i].firstBlock == block then PackedBlock.EncodedRecordSize(es[i].size) else 0
  {
    assert es[..i + 1][..i] == es[..i];
  }

  function Occupied(es: seq<Entry>, block: nat): nat
  {
    PackedBlock.HEADER_SIZE + LiveBytes(es, block)
  }

  predicate InUse(es: seq<Entry>, block: nat)
  {
    exists k :: 0 <= k < |es| && es[k].storage.Packed? && es[k].firstBlock == block
  }

  predicate TakesMore(es: seq<Entry>, block: nat, size: nat)
  {
    InUse(es, block) && Occupied(es, block) + size <= BLOCK_SIZE
  }

  /** The live length of every packed block among the first `i` entries. */
  ghost predicate Measured(es: seq<Entry>, i: nat, blocks: seq<nat>, lengths: seq<nat>)
    requires i <= |es|
  {
    && |blocks| == |lengths|
    && (forall a, b :: 0 <= a < b < |blocks| ==> blocks[a] != blocks[b])
    && (forall a :: 0 <= a < |blocks| ==> InUse(es[..i], blocks[a]) && lengths[a] == Occupied(es[..i], blocks[a]))
    && (forall b: nat :: b !in blocks ==> LiveBytes(es[..i], b) == 0 && !InUse(es[..i], b))
  }

  lemma InUseSnoc(es: seq<Entry>, i: nat, block: nat)
    requires i < |es|
    ensures InUse(es[..i + 1], block) <==> InUse(es[..i], block) || (es[i].storage.Packed? && es[i].firstBlock == block)
  {}

  lemma MeasureNone(es: seq<Entry>)
    ensures Measured(es, 0, [], [])
  {}

  lemma MeasureOther(es: seq<Entry>, i: nat, blocks: seq<nat>, lengths: seq<nat>)
    requires i < |es| && Measured(es, i, blocks, lengths) && !es[i].storage.Packed?
    ensures Measured(es, i + 1, blocks, lengths)
  {
    hide LiveBytes, InUse;
    forall b: nat ensures LiveBytes(es[..i + 1], b) == LiveBytes(es[..i], b) && (InUse(es[..i + 1], b) <==> InUse(es[..i], b)) {
      LiveBytesSnoc(es, i, b);
      InUseSnoc(es, i, b);
    }
  }

  lemma MeasureMore(es: seq<Entry>, i: nat, blocks: seq<nat>, lengths: seq<nat>, at: nat)
    requires i < |es| && Measured(es, i, blocks, lengths) && es[i].storage.Packed?
    requires at <= |blocks| && (at < |blocks| ==> blocks[at] == es[i].firstBlock) && (at == |blocks| ==> es[i].firstBlock !in blocks)
    ensures
      var size := PackedBlock.EncodedRecordSize(es[i].size);
      if at < |blocks| then Measured(es, i + 1, blocks, lengths[at := lengths[at] + size])
      else Measured(es, i + 1, blocks + [es[i].firstBlock], lengths + [PackedBlock.HEADER_SIZE + size])
  {
    hide LiveBytes, InUse, PackedBlock.EncodedRecordSize;
    forall b: nat
      ensures LiveBytes(es[..i + 1], b) == LiveBytes(es[..i], b) + if es[i].firstBlock == b then PackedBlock.EncodedRecordSize(es[i].size) else 0
      ensures InUse(es[..i + 1], b) <==> InUse(es[..i], b) || es[i].firstBlock == b
    {
      LiveBytesSnoc(es, i, b);
      InUseSnoc(es, i, b);
    }
    if at < |blocks| {
      assert forall a :: 0 <= a < |blocks| && a != at ==> blocks[a] != blocks[at];
    } else {
      var more := blocks + [es[i].firstBlock];
      assert forall b: nat :: b !in more ==> b !in blocks && b != es[i].firstBlock;
      assert forall a :: 0 <= a < |blocks| ==> blocks[a] in blocks;
    }
  }

  /** The first entry that uses the block. */
  function FirstUse(es: seq<Entry>, block: nat): (k: nat)
    ensures k <= |es| && (k < |es| <==> InUse(es, block))
    ensures k < |es| ==> es[k].storage.Packed? && es[k].firstBlock == block
    decreases |es|
  {
    if es == [] then 0
    else
      var last := |es| - 1;
      var k := FirstUse(es[..last], block);
      InUseSnoc(es, last, block);
      assert es[..last + 1] == es;
      if k < last || (es[last].storage.Packed? && es[last].firstBlock == block) then k else |es|
  }

  lemma FirstUseSnoc(es: seq<Entry>, i: nat, block: nat)
    requires i < |es|
    ensures InUse(es[..i], block) ==> FirstUse(es[..i + 1], block) == FirstUse(es[..i], block) < i
    ensures !InUse(es[..i], block) ==> FirstUse(es[..i + 1], block) >= i
  {
    assert es[..i + 1][..i] == es[..i];
  }

  /** Of two blocks that could take the record, the fuller one is better, and then the one used first. */
  ghost predicate Better(es: seq<Entry>, b: nat, c: nat)
  {
    Occupied(es, b) > Occupied(es, c) || (Occupied(es, b) == Occupied(es, c) && FirstUse(es, b) < FirstUse(es, c))
  }

  /** The block `ChooseRepack` picks: the best one that takes a record of this encoded size. */
  ghost predicate Fullest(es: seq<Entry>, size: nat, choice: Option<nat>)
  {
    match choice
    case None => forall b: nat :: !TakesMore(es, b, size)
    case Some(c) => TakesMore(es, c, size) && forall b: nat :: TakesMore(es, b, size) ==> b == c || Better(es, c, b)
  }

  /** The measured blocks are in the order of their first use. */
  ghost predicate InOrder(es: seq<Entry>, i: nat, blocks: seq<nat>)
    requires i <= |es|
  {
    forall a, b :: 0 <= a < b < |blocks| ==> FirstUse(es[..i], blocks[a]) < FirstUse(es[..i], blocks[b])
  }

  lemma OrderNext(es: seq<Entry>, i: nat, blocks: seq<nat>, lengths: seq<nat>)
    requires i < |es| && Measured(es, i, blocks, lengths) && InOrder(es, i, blocks)
    ensures InOrder(es, i + 1, blocks)
    ensures es[i].storage.Packed? && es[i].firstBlock !in blocks ==> InOrder(es, i + 1, blocks + [es[i].firstBlock])
  {
    hide FirstUse, InUse, LiveBytes;
    forall a | 0 <= a < |blocks| ensures FirstUse(es[..i + 1], blocks[a]) == FirstUse(es[..i], blocks[a]) < i {
      FirstUseSnoc(es, i, blocks[a]);
    }
    FirstUseSnoc(es, i, es[i].firstBlock);
  }

  lemma OrderNone(es: seq<Entry>)
    ensures InOrder(es, 0, [])
  {}

  lemma MeasuredUse(es: seq<Entry>, blocks: seq<nat>, lengths: seq<nat>)
    requires Measured(es, |es|, blocks, lengths)
    ensures forall a :: 0 <= a < |blocks| ==> InUse(es, blocks[a]) && lengths[a] == Occupied(es, blocks[a])
    ensures forall b: nat :: b !in blocks ==> !InUse(es, b)
    ensures InOrder(es, |es|, blocks) ==> forall a, b :: 0 <= a < b < |blocks| ==> FirstUse(es, blocks[a]) < FirstUse(es, blocks[b])
  {
    hide LiveBytes, InUse, FirstUse;
    assert es[..|es|] == es;
  }
}
