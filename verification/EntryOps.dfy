/**
  How the operations edit the entry list, and what each edit does to the tree and to the
  allocation invariant. All of it is about values; the filesystem class applies these edits.
 */
module EntryOps {
  import opened Bytes
  import opened Paths
  import opened Manifest
  import opened Device
  import opened Volume
  import opened TreeSpec
  import PackedBlock

  /** Trees are read off entry by entry. */
  lemma TreeFromEntries(image: Image, es: seq<Entry>, t: Tree)
    requires AllAcceptable(es)
    requires t.Keys == Names(es)
    requires forall k :: 0 <= k < |es| ==> es[k].name in t && t[es[k].name] == NodeOf(image, es[k])
    ensures TreeOf(image, es) == t
  {
    hide NodeOf, Acceptable;
    forall n | n in Names(es) ensures TreeOf(image, es)[n] == t[n] {
      FindMiss(es, n);
    }
  }

  lemma CompatibleSymmetric(a: Entry, b: Entry)
    ensures Compatible(a, b) <==> Compatible(b, a)
  {}

  lemma TreeHas(image: Image, es: seq<Entry>, path: Name)
    requires AllAcceptable(es)
    ensures path in TreeOf(image, es) <==> Find(es, path) < |es|
    ensures path in TreeOf(image, es) ==> TreeOf(image, es)[path] == NodeOf(image, es[Find(es, path)])
    ensures IsDir(TreeOf(image, es), path) <==> Find(es, path) < |es| && es[Find(es, path)].directory
  {}

  // ----- Insert or replace -----

  function Upsert(es: seq<Entry>, e: Entry): (r: seq<Entry>)
    ensures Names(r) == Names(es) + {e.name}
    ensures forall k :: 0 <= k < |r| ==> r[k] in es || r[k] == e
  {
    var k := Find(es, e.name);
    if k < |es| then
      NamesUpdate(es, k, e);
      es[k := e]
    else
      NamesAppend(es, e);
      es + [e]
  }

  lemma NamesUpdate(es: seq<Entry>, k: nat, e: Entry)
    requires k < |es| && es[k].name == e.name
    ensures Names(es[k := e]) == Names(es)
  {
    var r := es[k := e];
    forall n | n in Names(es) ensures n in Names(r) {
      var i :| 0 <= i < |es| && es[i].name == n;
      assert r[i].name == n;
    }
    forall n | n in Names(r) ensures n in Names(es) {
      var i :| 0 <= i < |r| && r[i].name == n;
      assert es[i].name == n;
    }
  }

  lemma UpsertDistinct(es: seq<Entry>, e: Entry)
    requires DistinctNames(es)
    ensures DistinctNames(Upsert(es, e))
  {}

  /** An entry may join the volume: acceptable, readable, and apart from every entry it does not replace. */
  ghost predicate Joins(image: Image, es: seq<Entry>, e: Entry)
  {
    && Acceptable(e) && (!e.directory ==> FileBytes(image, e).Some?)
    && forall k :: 0 <= k < |es| && es[k].name != e.name ==> Compatible(es[k], e)
  }

  lemma UpsertAt(es: seq<Entry>, e: Entry, k: nat)
    requires DistinctNames(es) && k < |Upsert(es, e)|
    ensures k == Find(es, e.name) <==> Upsert(es, e)[k].name == e.name
    ensures k == Find(es, e.name) ==> Upsert(es, e)[k] == e
    ensures k != Find(es, e.name) ==> k < |es| && Upsert(es, e)[k] == es[k]
  {}

  lemma UpsertCompatible(image: Image, es: seq<Entry>, e: Entry)
    requires AllCompatible(es) && DistinctNames(es) && Joins(image, es, e)
    ensures AllCompatible(Upsert(es, e))
  {
    hide Compatible, Acceptable, FileBytes, Upsert, DistinctNames;
    var r := Upsert(es, e);
    forall i, j | 0 <= i < j < |r| ensures Compatible(r[i], r[j]) {
      UpsertAt(es, e, i);
      UpsertAt(es, e, j);
      if i == Find(es, e.name) {
        CompatibleSymmetric(e, es[j]);
      }
    }
  }

  lemma UpsertPublishable(image: Image, es: seq<Entry>, e: Entry)
    requires Publishable(image, es) && DistinctNames(es) && Joins(image, es, e)
    ensures Publishable(image, Upsert(es, e)) && DistinctNames(Upsert(es, e))
    ensures TreeOf(image, Upsert(es, e)) == TreeOf(image, es)[e.name := NodeOf(image, e)]
  {
    UpsertDistinct(es, e);
    UpsertCompatible(image, es, e);
    hide Compatible, Acceptable, FileBytes, Upsert, AllCompatible, DistinctNames, NodeOf;
    var r := Upsert(es, e);
    forall k | 0 <= k < |r|
      ensures Acceptable(r[k]) && (!r[k].directory ==> FileBytes(image, r[k]).Some?)
    {
      UpsertAt(es, e, k);
    }
    var t := TreeOf(image, es)[e.name := NodeOf(image, e)];
    forall k | 0 <= k < |r| ensures r[k].name in t && t[r[k].name] == NodeOf(image, r[k]) {
      UpsertAt(es, e, k);
      if k != Find(es, e.name) {
        TreeAt(image, es, k);
      }
    }
    TreeFromEntries(image, r, t);
  }

  /** Replacement entries, inserted one after the other. */
  function UpsertAll(es: seq<Entry>, placed: seq<Entry>): seq<Entry>
  {
    if placed == [] then es
    else
      var last := |placed| - 1;
      Upsert(UpsertAll(es, placed[..last]), placed[last])
  }

  /** The tree after the placed entries overwrote their names. */
  ghost function Overwritten(image: Image, t: Tree, placed: seq<Entry>): Tree
    requires AllAcceptable(placed)
  {
    if placed == [] then t
    else
      var last := |placed| - 1;
      Overwritten(image, t, placed[..last])[placed[last].name := NodeOf(image, placed[last])]
  }

  /** Replacements are apart from all current entries and from each other. */
  ghost predicate Placeable(image: Image, es: seq<Entry>, placed: seq<Entry>)
  {
    && AllCompatible(placed)
    && (forall k :: 0 <= k < |placed| ==> Joins(image, es, placed[k]) && Acceptable(placed[k]))
  }

  lemma {:induction false} UpsertAllMembers(es: seq<Entry>, placed: seq<Entry>, k: nat)
    requires k < |UpsertAll(es, placed)|
    ensures UpsertAll(es, placed)[k] in es || UpsertAll(es, placed)[k] in placed
    decreases |placed|
  {
    hide Upsert;
    if placed != [] {
      var last := |placed| - 1;
      var before := UpsertAll(es, placed[..last]);
      var r := Upsert(before, placed[last]);
      assert r[k] in before || r[k] == placed[last];
      if r[k] in before {
        var i :| 0 <= i < |before| && before[i] == r[k];
        UpsertAllMembers(es, placed[..last], i);
      }
    }
  }

  lemma {:induction false} UpsertAllPublishable(image: Image, es: seq<Entry>, placed: seq<Entry>)
    requires Publishable(image, es) && DistinctNames(es) && Placeable(image, es, placed)
    ensures Publishable(image, UpsertAll(es, placed)) && DistinctNames(UpsertAll(es, placed))
    ensures TreeOf(image, UpsertAll(es, placed)) == Overwritten(image, TreeOf(image, es), placed)
    decreases |placed|
  {
    hide Compatible, Acceptable, FileBytes, Upsert, NodeOf, TreeOf, DistinctNames;
    if placed != [] {
      var last := |placed| - 1;
      var before, e := UpsertAll(es, placed[..last]), placed[last];
      assert Joins(image, es, e);
      UpsertAllPublishable(image, es, placed[..last]);
      PlacedApart(image, es, placed, last);
      UpsertPublishable(image, before, e);
    }
  }

  /** An entry to be placed is compatible with everything that is there when its turn comes. */
  lemma PlacedApart(image: Image, es: seq<Entry>, placed: seq<Entry>, n: nat)
    requires Placeable(image, es, placed) && n < |placed|
    ensures
      var before := UpsertAll(es, placed[..n]);
      forall k :: 0 <= k < |before| && before[k].name != placed[n].name ==> Compatible(before[k], placed[n])
  {
    hide Compatible, Acceptable, FileBytes, Upsert, UpsertAll;
    var before := UpsertAll(es, placed[..n]);
    forall k | 0 <= k < |before| && before[k].name != placed[n].name ensures Compatible(before[k], placed[n]) {
      UpsertAllMembers(es, placed[..n], k);
      if before[k] in es {
        var i :| 0 <= i < |es| && es[i] == before[k];
        assert Joins(image, es, placed[n]);
        assert Compatible(es[i], placed[n]);
      } else {
        var i :| 0 <= i < n && placed[i] == before[k];
        assert Compatible(placed[i], placed[n]);
      }
    }
  }

  lemma FindFirst(es: seq<Entry>, n: Name, r: nat)
    requires r < |es| && es[r].name == n && forall k :: 0 <= k < r ==> es[k].name != n
    ensures Find(es, n) == r
  {}

  /** What is found under a name after one entry was put in. */
  lemma UpsertFind(es: seq<Entry>, e: Entry, n: Name)
    ensures
      var r := Upsert(es, e);
      var k := if n == e.name then Find(es, e.name) else Find(es, n);
      n == e.name || k < |es| ==> Find(r, n) == k < |r| && r[k] == if n == e.name then e else es[k]
  {
    var r := Upsert(es, e);
    var k := if n == e.name then Find(es, e.name) else Find(es, n);
    if n == e.name || k < |es| {
      FindFirst(r, n, k);
    }
  }

  /** Every placed entry is found under its name. */
  lemma {:induction false} UpsertAllFinds(es: seq<Entry>, placed: seq<Entry>, j: nat)
    requires DistinctNames(placed) && j < |placed|
    ensures
      var r := UpsertAll(es, placed);
      Find(r, placed[j].name) < |r| && r[Find(r, placed[j].name)] == placed[j]
    decreases |placed|
  {
    hide Find, Upsert;
    var last := |placed| - 1;
    if j < last {
      UpsertAllFinds(es, placed[..last], j);
    }
    UpsertFind(UpsertAll(es, placed[..last]), placed[last], placed[j].name);
  }

  lemma {:induction false} OverwrittenAt(image: Image, t: Tree, placed: seq<Entry>, n: Name)
    requires AllAcceptable(placed)
    ensures n in Overwritten(image, t, placed) <==> n in t || n in Names(placed)
    ensures n !in Names(placed) && n in t ==> Overwritten(image, t, placed)[n] == t[n]
    decreases |placed|
  {
    hide Acceptable, NodeOf;
    if placed != [] {
      var last := |placed| - 1;
      OverwrittenAt(image, t, placed[..last], n);
      assert placed == placed[..last + 1];
      NamesSnoc(placed, last);
    }
  }

  lemma {:induction false} OverwrittenPlaced(image: Image, t: Tree, placed: seq<Entry>, k: nat)
    requires AllAcceptable(placed) && DistinctNames(placed) && k < |placed|
    ensures placed[k].name in Overwritten(image, t, placed)
    ensures Overwritten(image, t, placed)[placed[k].name] == NodeOf(image, placed[k])
    decreases |placed|
  {
    hide Acceptable, NodeOf;
    var last := |placed| - 1;
    if k < last {
      assert DistinctNames(placed[..last]);
      OverwrittenPlaced(image, t, placed[..last], k);
    }
  }

  // ----- Remove -----

  function RemoveAt(es: seq<Entry>, k: nat): seq<Entry>
    requires k < |es|
  {
    es[..k] + es[k + 1..]
  }

  function Skip(k: nat, i: nat): nat
  {
    if i < k then i else i + 1
  }

  lemma RemoveAtIndex(es: seq<Entry>, k: nat)
    requires k < |es|
    ensures |RemoveAt(es, k)| == |es| - 1
    ensures forall i :: 0 <= i < |es| - 1 ==> RemoveAt(es, k)[i] == es[Skip(k, i)]
  {}

  lemma RemoveNames(es: seq<Entry>, k: nat)
    requires DistinctNames(es) && k < |es|
    ensures DistinctNames(RemoveAt(es, k)) && Names(RemoveAt(es, k)) == Names(es) - {es[k].name}
  {
    var r := RemoveAt(es, k);
    RemoveAtIndex(es, k);
    forall n | n in Names(es) - {es[k].name} ensures n in Names(r) {
      var i :| 0 <= i < |es| && es[i].name == n;
      assert r[if i < k then i else i - 1].name == n;
    }
    forall n | n in Names(r) ensures n in Names(es) - {es[k].name} {
      var i :| 0 <= i < |r| && r[i].name == n;
      assert es[Skip(k, i)].name == n;
    }
  }

  lemma RemoveTree(image: Image, es: seq<Entry>, k: nat)
    requires AllAcceptable(es) && DistinctNames(es) && k < |es|
    ensures AllAcceptable(RemoveAt(es, k))
    ensures TreeOf(image, RemoveAt(es, k)) == TreeOf(image, es) - {es[k].name}
  {
    hide Acceptable, NodeOf, RemoveAt, Names;
    var r := RemoveAt(es, k);
    RemoveAtIndex(es, k);
    RemoveNames(es, k);
    var t := TreeOf(image, es) - {es[k].name};
    forall i | 0 <= i < |r| ensures r[i].name in t && t[r[i].name] == NodeOf(image, r[i]) {
      TreeAt(image, es, Skip(k, i));
    }
    assert t.Keys == Names(r);
    TreeFromEntries(image, r, t);
  }

  lemma RemovePublishable(image: Image, es: seq<Entry>, k: nat)
    requires Publishable(image, es) && DistinctNames(es) && k < |es|
    ensures Publishable(image, RemoveAt(es, k)) && DistinctNames(RemoveAt(es, k))
    ensures TreeOf(image, RemoveAt(es, k)) == TreeOf(image, es) - {es[k].name}
  {
    hide Compatible, Acceptable, FileBytes, NodeOf, RemoveAt, TreeOf, Names;
    RemoveAtIndex(es, k);
    RemoveNames(es, k);
    RemoveTree(image, es, k);
  }

  // ----- Rename -----

  function RenamedEntry(e: Entry, from: Name, to: Name, directory: bool): Entry
  {
    if e.name == from || (directory && Inside(e.name, from)) then e.(name := Relabel(e.name, from, to)) else e
  }

  function RenameEntries(es: seq<Entry>, from: Name, to: Name, directory: bool): (r: seq<Entry>)
    ensures |r| == |es| && forall k :: 0 <= k < |es| ==> r[k] == RenamedEntry(es[k], from, to, directory)
  {
    seq(|es|, k requires 0 <= k < |es| => RenamedEntry(es[k], from, to, directory))
  }

  lemma RenamedSame(image: Image, e: Entry, from: Name, to: Name, directory: bool)
    requires Acceptable(e) && ValidPath(to)
    ensures Acceptable(RenamedEntry(e, from, to, directory))
    ensures !e.directory ==> FileBytes(image, RenamedEntry(e, from, to, directory)) == FileBytes(image, e)
    ensures NodeOf(image, RenamedEntry(e, from, to, directory)) == NodeOf(image, e)
  {
    var r := RenamedEntry(e, from, to, directory);
    if r != e {
      RelabelValid(e.name, from, to);
    }
    if !e.directory && e.storage.Dedicated? {
      assert ExtentBytes(image, r) == ExtentBytes(image, e);
    }
    if !e.directory && e.storage.Packed? {
      ResolveIgnoresName(image[e.firstBlock], e, r.name);
    }
  }

  lemma ResolveIgnoresName(block: Block, e: Entry, name: Name)
    ensures PackedBytes(block, e.(name := name)) == PackedBytes(block, e)
  {
    DecodedSameLength(block);
    var d := PackedBlock.DecodeResult(block);
    if d.Some? {
      ResolveName(e, name, d.value.records, d.value.locations, 0);
    }
  }

  lemma {:induction false} ResolveName(e: Entry, name: Name, records: seq<PackedBlock.Record>, locations: seq<PackedBlock.Location>, k: nat)
    requires |records| == |locations| && k <= |records|
    ensures Resolve(e.(name := name), records, locations, k) == Resolve(e, records, locations, k)
    decreases |records| - k
  {
    if k < |records| {
      ResolveName(e, name, records, locations, k + 1);
    }
  }

  lemma RenamePublishable(image: Image, es: seq<Entry>, from: Name, to: Name, directory: bool)
    requires Publishable(image, es) && ValidPath(to)
    ensures Publishable(image, RenameEntries(es, from, to, directory))
  {
    var r := RenameEntries(es, from, to, directory);
    forall k | 0 <= k < |r|
      ensures Acceptable(r[k]) && (!r[k].directory ==> FileBytes(image, r[k]).Some?)
    {
      RenamedSame(image, es[k], from, to, directory);
    }
    hide FileBytes, Acceptable, Readable, AllAcceptable;
    forall i, j | 0 <= i < j < |r| ensures Compatible(r[i], r[j]) {
      assert Compatible(es[i], es[j]);
    }
    assert Readable(image, r) && AllAcceptable(r) by { AllOfEach(image, r); }
  }

  lemma AllOfEach(image: Image, r: seq<Entry>)
    requires forall k :: 0 <= k < |r| ==> Acceptable(r[k]) && (!r[k].directory ==> FileBytes(image, r[k]).Some?)
    ensures AllAcceptable(r) && Readable(image, r)
  {}

  lemma RenameKeys(image: Image, es: seq<Entry>, from: Name, to: Name, directory: bool)
    requires AllAcceptable(es) && DistinctNames(es) && directory == IsDir(TreeOf(image, es), from)
    ensures Names(RenameEntries(es, from, to, directory)) == MovedNames(TreeOf(image, es), from, to)
    ensures forall k :: 0 <= k < |es| ==>
      RenameEntries(es, from, to, directory)[k].name == Moved(TreeOf(image, es), es[k].name, from, to)
  {
    hide NodeOf, Acceptable, RenamedEntry, Moved;
    var t, r := TreeOf(image, es), RenameEntries(es, from, to, directory);
    forall k | 0 <= k < |es| ensures r[k].name == Moved(t, es[k].name, from, to) {
      RenamedIsMoved(t, es[k], from, to, directory);
    }
    forall m | m in MovedNames(t, from, to) ensures m in Names(r) {
      var n := Origin(t, m, from, to);
      FindMiss(es, n);
      assert r[Find(es, n)].name == m;
    }
    forall m | m in Names(r) ensures m in MovedNames(t, from, to) {
      var k :| 0 <= k < |r| && r[k].name == m;
      TreeAt(image, es, k);
      assert es[k].name in t;
    }
  }

  lemma RenameNode(image: Image, es: seq<Entry>, from: Name, to: Name, directory: bool, k: nat)
    requires AllAcceptable(es) && DistinctNames(es) && directory == IsDir(TreeOf(image, es), from)
    requires DistinctNames(RenameEntries(es, from, to, directory)) && k < |es|
    ensures
      var u, m := RenameTree(TreeOf(image, es), from, to), RenameEntries(es, from, to, directory)[k].name;
      m in u && u[m] == NodeOf(image, es[k])
  {
    hide NodeOf, Acceptable, RenamedEntry, Moved;
    var t, r := TreeOf(image, es), RenameEntries(es, from, to, directory);
    RenameKeys(image, es, from, to, directory);
    TreeAt(image, es, k);
    var n := Origin(t, r[k].name, from, to);
    FindMiss(es, n);
    var i := Find(es, n);
    assert r[i].name == r[k].name;
    assert i == k;
  }

  lemma RenameTreeOf(image: Image, es: seq<Entry>, from: Name, to: Name, directory: bool)
    requires Publishable(image, es) && DistinctNames(es) && ValidPath(to)
    requires directory == IsDir(TreeOf(image, es), from)
    requires DistinctNames(RenameEntries(es, from, to, directory))
    ensures AllAcceptable(RenameEntries(es, from, to, directory))
    ensures TreeOf(image, RenameEntries(es, from, to, directory)) == RenameTree(TreeOf(image, es), from, to)
  {
    RenamePublishable(image, es, from, to, directory);
    RenameKeys(image, es, from, to, directory);
    var t, r := TreeOf(image, es), RenameEntries(es, from, to, directory);
    var u := RenameTree(t, from, to);
    assert u.Keys == Names(r);
    hide NodeOf, Acceptable, FileBytes, RenamedEntry, Moved, RenameTree, TreeOf, Names, AllCompatible;
    forall k | 0 <= k < |r| ensures r[k].name in u && u[r[k].name] == NodeOf(image, r[k]) {
      RenameNode(image, es, from, to, directory, k);
      RenamedSame(image, es[k], from, to, directory);
    }
    TreeFromEntries(image, r, u);
  }

  lemma RenamedIsMoved(t: Tree, e: Entry, from: Name, to: Name, directory: bool)
    requires directory == IsDir(t, from)
    ensures RenamedEntry(e, from, to, directory).name == Moved(t, e.name, from, to)
  {}
}
