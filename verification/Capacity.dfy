/**
  The manifest's size is a function of the set of names in it. Hence an edit that keeps the names
  is never refused for its size, and the size check `putFiles` makes up front is exact.
 */
module Capacity {
  import opened Bytes
  import opened Paths
  import opened Manifest
  import opened Volume
  import opened TreeSpec
  import opened Batches
  import ManifestProofs

  function Weight(n: Name): nat
  {
    ENTRY_SIZE + |n|
  }

  /** Manifest bytes that a set of names takes. */
  ghost function NameBytes(names: set<Name>): nat
  {
    if names == {} then 0
    else
      var n :| n in names;
      NameBytes(names - {n}) + Weight(n)
  }

  lemma {:induction false} NameBytesWithout(names: set<Name>, x: Name)
    requires x in names
    ensures NameBytes(names) == NameBytes(names - {x}) + Weight(x)
  {
    var n :| n in names && NameBytes(names) == NameBytes(names - {n}) + Weight(n);
    if n != x {
      NameBytesWithout(names - {n}, x);
      NameBytesWithout(names - {x}, n);
      assert names - {n} - {x} == names - {x} - {n};
    }
  }

  lemma NameBytesWith(names: set<Name>, x: Name)
    ensures NameBytes(names + {x}) == NameBytes(names) + if x in names then 0 else Weight(x)
  {
    if x in names {
      assert names + {x} == names;
    } else {
      NameBytesWithout(names + {x}, x);
      assert names + {x} - {x} == names;
    }
  }

  lemma {:induction false} EntriesAreNames(es: seq<Entry>)
    requires DistinctNames(es)
    ensures |EntriesBytes(es)| == NameBytes(Names(es))
  {
    hide EntryBytes, NameBytes;
    if es == [] {
      NoNameBytes(Names(es));
    } else {
      var last := |es| - 1;
      EntriesAreNames(es[..last]);
      assert es[..last + 1] == es;
      NamesSnoc(es, last);
      EntriesSnoc(es, last);
      ManifestProofs.FirstNamesDistinct(es, last);
      NameBytesWith(Names(es[..last]), es[last].name);
      EntryWeight(es[last]);
    }
  }

  lemma EntryWeight(e: Entry)
    ensures |EntryBytes(e)| == Weight(e.name)
  {}

  lemma NoNameBytes(names: set<Name>)
    ensures names == {} ==> NameBytes(names) == 0
  {}

  /** Acceptance by commit, in terms of names. */
  predicate NamesFit(names: set<Name>)
  {
    forall n :: n in names ==> |n| <= LARGEST_NAME
  }

  ghost predicate ManifestFits(names: set<Name>)
  {
    NamesFit(names) && 4 + NameBytes(names) <= BLOCK_SIZE - SUPERBLOCK_HEADER
  }

  lemma AcceptedNames(es: seq<Entry>)
    requires DistinctNames(es) && AllAcceptable(es)
    ensures CommitAccepts(es) <==> ManifestFits(Names(es))
  {
    hide NameBytes, EntryBytes, Acceptable, CommitAcceptsEntry;
    EntriesAreNames(es);
    assert |ManifestBytes(es)| == 4 + |EntriesBytes(es)|;
    if NamesFit(Names(es)) {
      forall k | 0 <= k < |es| ensures CommitAcceptsEntry(es[k]) {
        assert es[k].name in Names(es);
        ManifestProofs.AcceptableForCommit(es[k]);
      }
    }
    if CommitAccepts(es) {
      forall n | n in Names(es) ensures |n| <= LARGEST_NAME {
        var k :| 0 <= k < |es| && es[k].name == n;
        assert CommitAcceptsEntry(es[k]);
        ShortName(es[k]);
      }
    }
  }

  lemma ShortName(e: Entry)
    requires CommitAcceptsEntry(e)
    ensures |e.name| <= LARGEST_NAME
  {}

  /** An edit that keeps the names is never refused for its size. */
  lemma SameNamesAccepted(es: seq<Entry>, next: seq<Entry>)
    requires CommitAccepts(es) && AllAcceptable(es)
    requires DistinctNames(next) && AllAcceptable(next) && Names(next) == Names(es)
    ensures CommitAccepts(next)
  {
    hide NameBytes, Acceptable, CommitAcceptsEntry, EntryBytes;
    AcceptedNames(es);
    AcceptedNames(next);
  }

  /** The running total of the size check is the size of the manifest to come. */
  lemma {:induction false} GrowthIsNames(es: seq<Entry>, files: seq<FileWrite>)
    requires DistinctFiles(files)
    ensures NameBytes(Names(es) + FilePaths(files)) == NameBytes(Names(es)) + Growth(es, files)
  {
    hide NameBytes, Find;
    if files == [] {
      assert Names(es) + FilePaths(files) == Names(es);
    } else {
      var last := |files| - 1;
      GrowthIsNames(es, files[..last]);
      assert files[..last + 1] == files;
      FilePathsSnoc(files, last);
      FindMiss(es, files[last].path);
      var before := Names(es) + FilePaths(files[..last]);
      NotYet(files, last);
      NameBytesWith(before, files[last].path);
      assert Names(es) + FilePaths(files) == before + {files[last].path};
    }
  }

  lemma NotYet(files: seq<FileWrite>, last: nat)
    requires DistinctFiles(files) && last < |files|
    ensures files[last].path !in FilePaths(files[..last])
  {}

  /** An admitted batch is never refused by the commit that publishes it. */
  lemma AdmittedFits(t: Tree, es: seq<Entry>, files: seq<FileWrite>)
    requires CommitAccepts(es) && AllAcceptable(es) && AcceptedSoFar(t, es, files, |files|)
    ensures ManifestFits(Names(es) + FilePaths(files))
  {
    hide NameBytes, Acceptable, CommitAcceptsEntry, EntryBytes, Admissible, Growth;
    assert files[..|files|] == files;
    AcceptedNames(es);
    EntriesAreNames(es);
    GrowthIsNames(es, files);
    var names := Names(es) + FilePaths(files);
    forall n | n in names ensures |n| <= LARGEST_NAME {
      if n !in Names(es) {
        var k :| 0 <= k < |files| && files[k].path == n;
        assert FitsManifest(es, files, k);
      }
    }
    if files != [] {
      assert FitsManifest(es, files, |files| - 1);
    } else {
      assert names == Names(es);
    }
  }

  /** The names after a batch. */
  lemma PutAllNames(t: Tree, files: seq<FileWrite>)
    ensures PutAll(t, files).Keys == t.Keys + FilePaths(files)
  {}
}
