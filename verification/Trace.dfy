/**
  What a run looks like from outside: the requests, what was reported about each, and between them
  the tree and the generation the flash opens with. This file says which runs are correct, and what
  follows for a caller; that every run is correct is proved in Runs.
 */
module Trace {
  import opened Bytes
  import opened Paths
  import opened Manifest
  import opened Volume
  import opened TreeSpec
  import opened Device
  import opened Answers
  import Batches
  import Allocation
  import Compaction
  import Planning
  import Verdicts
  import Capacity
  import EditSteps
  import EntryOps

  datatype Request =
    | Do(command: Command)
    | CollectGarbage
    | CollectGarbageStep
    | Compact
    | PowerCut
    | Remount

  /**
    What a request reports: success; a failure with the volume still mounted; a commit that failed
    on the device, after which nothing more is asked of this mount; nothing, as it was not carried out;
    or that a mount has come upon a volume of the other layout.
   */
  datatype Outcome = Succeeded | Declined | Interrupted | Skipped | Strayed

  /**
    Between two requests: what the slots hold, with which generation, whether the volume is mounted,
    and if it is, what the mount has in memory over the flash.
   */
  datatype State = State(tree: Tree, generation: u64, mounted: bool, volume: Snapshot)

  /** The mount shows this tree and counts from this generation. */
  ghost predicate Shown(s: State)
  {
    Sane(s.volume) && TreeOf(s.volume.image, s.volume.entries) == s.tree && s.volume.generation == s.generation
  }

  /** Two paths would become one. */
  ghost predicate Collides(t: Tree, from: Name, to: Name)
  {
    exists n, m :: n in t && m in t && n != m && Moved(t, n, from, to) == Moved(t, m, from, to)
  }

  /** The tree can be written down in a manifest. */
  ghost predicate Storable(t: Tree, c: Command, u: Tree)
  {
    Capacity.ManifestFits(u.Keys) && (c.Rename? ==> !Collides(t, c.from, c.to))
  }

  /** The commands that only edit the entry list. */
  predicate Edits(c: Command)
  {
    c.CreateDirectory? || c.RemoveFile? || c.RemoveDirectory? || c.Rename?
  }

  /** The reasons to decline an edit. */
  ghost predicate Excused(t: Tree, c: Command, generation: u64)
  {
    match Apply(t, c)
    case Some(u) => generation == EditSteps.LAST_GENERATION || !Storable(t, c, u)
    case None => true
  }

  /** A command on a mounted volume. */
  ghost predicate Commanded(faithful: bool, s: State, c: Command, o: Outcome, next: State)
  {
    && next.mounted == (o != Interrupted)
    && (c.PutFiles? && o != Interrupted ==> PutAnswered(faithful, s.volume, c.files, o == Succeeded, next.volume))
    && match o
       case Succeeded =>
         Apply(s.tree, c) == Some(next.tree) && (Edits(c) ==> next.generation == s.generation + 1)
       case Declined =>
         && next.tree == s.tree
         && (Edits(c) ==>
           next.generation == s.generation && Excused(s.tree, c, s.generation))
       case Interrupted =>
         Apply(s.tree, c).Some? && (next.tree == s.tree || Apply(s.tree, c) == Some(next.tree))
       case _ => false
  }

  /** Garbage collection or compaction on a mounted volume. */
  ghost predicate Maintained(faithful: bool, s: State, r: Request, o: Outcome, next: State)
  {
    && next.tree == s.tree && o != Skipped && o != Strayed && next.mounted == (o != Interrupted)
    && (faithful && o == Declined && !r.Compact? ==> next.generation == EditSteps.LAST_GENERATION)
    && (faithful && o == Declined && r.Compact? ==>
          next.generation == EditSteps.LAST_GENERATION || Planning.GenerationsUsedUp(s.volume.entries))
    && (o == Succeeded ==>
          if r.CollectGarbage? then Collected(s.volume, next.volume)
          else if r.Compact? then CompactedFrom(s.volume, next.volume)
          else next.volume.entries == s.volume.entries && next.volume.cursor == s.volume.cursor)
  }

  /**
    One request, correctly carried out. On a device without faults every mount succeeds, except that
    it may stray when files are written that are not tame.
   */
  ghost predicate Step(faithful: bool, tame: bool, s: State, r: Request, o: Outcome, next: State)
  {
    && (faithful ==> o != Interrupted) && (next.mounted ==> Shown(next))
    && match r
       case PowerCut => o == Skipped && next == s
       case Remount =>
         && (o == Succeeded || (o == Declined && !faithful) || (o == Strayed && !tame))
         && next == s.(mounted := o == Succeeded, volume := next.volume) && (next.mounted ==> FreshlyMounted(next.volume))
       case Do(c) => if s.mounted then Commanded(faithful, s, c, o, next) else o == Skipped && next == s
       case _ => if s.mounted then Maintained(faithful, s, r, o, next) else o == Skipped && next == s
  }

  ghost predicate History(faithful: bool, tame: bool, states: seq<State>, requests: seq<Request>, outcomes: seq<Outcome>)
  {
    && |states| == |requests| + 1 && |outcomes| == |requests|
    && forall i :: 0 <= i < |requests| ==> Step(faithful, tame, states[i], requests[i], outcomes[i], states[i + 1])
  }

  lemma HistoryStart(faithful: bool, tame: bool, start: State, requests: seq<Request>)
    ensures History(faithful, tame, [start], requests[..0], [])
  {}

  lemma HistoryStep(faithful: bool, tame: bool, states: seq<State>, requests: seq<Request>, outcomes: seq<Outcome>, i: nat, o: Outcome, next: State)
    requires i < |requests| && History(faithful, tame, states, requests[..i], outcomes)
    requires Step(faithful, tame, states[i], requests[i], o, next)
    ensures History(faithful, tame, states + [next], requests[..i + 1], outcomes + [o])
  {
    hide Step;
  }

  // ----- What follows -----

  /**
    On a device without faults a batch that is admitted, meets no obstacle and has a run of
    unreferenced blocks of the length it needs on one side of the cursor is stored, as long as there
    are generations left; it does not matter how much garbage the run holds.
   */
  lemma RoomSuffices(tame: bool, states: seq<State>, requests: seq<Request>, outcomes: seq<Outcome>, i: nat)
    requires History(true, tame, states, requests, outcomes) && i < |requests| && states[i].mounted
    requires requests[i].Do? && requests[i].command.PutFiles? && Sane(states[i].volume)
    requires
      var v, files := states[i].volume, requests[i].command.files;
      && Batches.AcceptedSoFar(TreeOf(v.image, v.entries), v.entries, files, |files|)
      && forall repack :: Verdicts.Rewrites(v.entries, files, repack) ==>
        && Verdicts.Obstacle(v.image, v.entries, files, repack).None?
        && !Allocation.NoFreeRoom(v.entries, v.cursor, Verdicts.Needed(v.image, v.entries, files, repack))
    ensures outcomes[i] == Succeeded || states[i + 1].volume.generation == EditSteps.LAST_GENERATION
  {
    hide Apply, Storable, Shown, AllAcceptable, Verdicts.Needed, Batches.AcceptedSoFar, Verdicts.Rewrites, Allocation.NoFreeRoom,
         Compaction.NothingLeft, Planning.StoredBySize;
    assert Step(true, tame, states[i], requests[i], outcomes[i], states[i + 1]);
  }

  /** The request may have changed the tree. */
  predicate Changes(r: Request, o: Outcome)
  {
    r.Do? && (o == Succeeded || o == Interrupted)
  }

  /** Only a command that succeeded or was interrupted changes the tree. */
  lemma {:induction false} TreePersists(faithful: bool, tame: bool, states: seq<State>, requests: seq<Request>, outcomes: seq<Outcome>, i: nat, j: nat)
    requires History(faithful, tame, states, requests, outcomes) && i <= j < |states|
    requires forall k :: i <= k < j ==> !Changes(requests[k], outcomes[k])
    ensures states[j].tree == states[i].tree
    decreases j
  {
    hide Apply, Storable, Excused, Shown, PutAnswered, Collected, CompactedFrom, FreshlyMounted;
    if i < j {
      TreePersists(faithful, tame, states, requests, outcomes, i, j - 1);
      assert Step(faithful, tame, states[j - 1], requests[j - 1], outcomes[j - 1], states[j]);
    }
  }

  /**
    What was acknowledged stays: after a command that reported success, through any power cuts,
    remounts, refused commands and maintenance, the slots hold the tree with that command applied. A
    mount that succeeds shows it, and on a device without faults and with tame files every mount does.
   */
  lemma AcknowledgedSurvives(faithful: bool, tame: bool, states: seq<State>, requests: seq<Request>, outcomes: seq<Outcome>, i: nat, j: nat)
    requires History(faithful, tame, states, requests, outcomes) && i < j < |states|
    requires requests[i].Do? && outcomes[i] == Succeeded
    requires forall k :: i < k < j ==> !Changes(requests[k], outcomes[k])
    ensures Apply(states[i].tree, requests[i].command) == Some(states[j].tree)
    ensures j < |requests| && requests[j] == Remount ==>
      && Apply(states[i].tree, requests[i].command) == Some(states[j + 1].tree)
      && (outcomes[j] == Succeeded ==> states[j + 1].mounted) && (faithful && tame ==> outcomes[j] == Succeeded)
  {
    hide Apply, Storable, Excused, Shown, PutAnswered, Collected, CompactedFrom, FreshlyMounted;
    assert Step(faithful, tame, states[i], requests[i], outcomes[i], states[i + 1]);
    TreePersists(faithful, tame, states, requests, outcomes, i + 1, j);
    if j < |requests| {
      assert Step(faithful, tame, states[j], requests[j], outcomes[j], states[j + 1]);
    }
  }

  /** The commands that took effect: all that succeeded, and of the interrupted ones a choice. */
  ghost predicate Effects(requests: seq<Request>, outcomes: seq<Outcome>, done: seq<bool>)
  {
    && |requests| == |outcomes| == |done|
    && forall k :: 0 <= k < |done| ==>
      && (requests[k].Do? && outcomes[k] == Succeeded ==> done[k])
      && (done[k] ==> Changes(requests[k], outcomes[k]))
  }

  /** All the marked commands, in order. */
  ghost function ApplyAll(t: Tree, requests: seq<Request>, done: seq<bool>): Option<Tree>
    requires |requests| == |done|
  {
    if requests == [] then Some(t)
    else
      var last := |requests| - 1;
      var before := ApplyAll(t, requests[..last], done[..last]);
      if !done[last] || !requests[last].Do? || before.None? then before
      else Apply(before.value, requests[last].command)
  }

  /**
    The run as a whole: the final tree is the first one with a sequence of whole commands applied to
    it: every one that reported success, none that was declined or skipped, and each interrupted one or not.
   */
  lemma {:induction false} RunIsCommands(faithful: bool, tame: bool, states: seq<State>, requests: seq<Request>, outcomes: seq<Outcome>) returns (done: seq<bool>)
    requires History(faithful, tame, states, requests, outcomes)
    ensures Effects(requests, outcomes, done)
    ensures ApplyAll(states[0].tree, requests, done) == Some(states[|requests|].tree)
    decreases |requests|
  {
    hide Apply, Storable, Excused, Shown, PutAnswered, Collected, CompactedFrom, FreshlyMounted;
    done := [];
    if requests != [] {
      var last := |requests| - 1;
      var before := RunIsCommands(faithful, tame, states[..last + 1], requests[..last], outcomes[..last]);
      var s, r, o, next := states[last], requests[last], outcomes[last], states[last + 1];
      assert Step(faithful, tame, s, r, o, next);
      var effective := Changes(r, o) && (o == Succeeded || next.tree != s.tree);
      done := before + [effective];
      assert done[..last] == before;
    }
  }

  /** On a faithful device every command reports, and the tree is determined by the reports. */
  lemma FaithfulRun(tame: bool, states: seq<State>, requests: seq<Request>, outcomes: seq<Outcome>, done: seq<bool>)
    requires History(true, tame, states, requests, outcomes) && Effects(requests, outcomes, done)
    ensures forall k :: 0 <= k < |done| ==> (done[k] <==> requests[k].Do? && outcomes[k] == Succeeded)
  {
    hide Apply, Storable, Excused, Shown, PutAnswered, Collected, CompactedFrom, FreshlyMounted;
    forall k | 0 <= k < |done| ensures done[k] <==> requests[k].Do? && outcomes[k] == Succeeded {
      assert Step(true, tame, states[k], requests[k], outcomes[k], states[k + 1]);
    }
  }

  /** Unless a directory is renamed into itself, every tree of a run is a well-formed namespace. */
  lemma {:induction false} RunNamespace(faithful: bool, tame: bool, states: seq<State>, requests: seq<Request>, outcomes: seq<Outcome>, n: nat)
    requires History(faithful, tame, states, requests, outcomes) && Namespace(states[0].tree) && n <= |requests|
    requires forall i :: 0 <= i < |requests| && requests[i].Do? ==> !IntoItself(states[i].tree, requests[i].command)
    ensures Namespace(states[n].tree)
  {
    hide Namespace, Apply, IntoItself, Storable, Excused, Shown, PutAnswered, Collected, CompactedFrom, FreshlyMounted;
    if n > 0 {
      RunNamespace(faithful, tame, states, requests, outcomes, n - 1);
      assert Step(faithful, tame, states[n - 1], requests[n - 1], outcomes[n - 1], states[n]);
      if states[n].tree != states[n - 1].tree {
        ApplyKeepsNamespace(states[n - 1].tree, requests[n - 1].command);
      }
    }
  }

  /** In a well-formed namespace no rename collides. */
  lemma NoCollision(t: Tree, from: Name, to: Name)
    requires Namespace(t) && to !in t
    ensures !Collides(t, from, to)
  {
    hide Namespace, Moved;
    if Collides(t, from, to) {
      var n, m :| n in t && m in t && n != m && Moved(t, n, from, to) == Moved(t, m, from, to);
      MovedInjective(t, n, m, from, to);
      assert false;
    }
  }

  // ----- Refusals, read off the entry list -----

  lemma CreateStorable(image: Image, es: seq<Entry>, path: Name, generation: u64)
    requires Publishable(image, es) && DistinctNames(es) && AllAcceptable(es)
    requires Apply(TreeOf(image, es), CreateDirectory(path)).Some?
    requires EditSteps.Refused(EntryOps.Upsert(es, DirectoryEntry(path)), generation)
    ensures
      var t, c := TreeOf(image, es), CreateDirectory(path);
      generation == EditSteps.LAST_GENERATION || !Storable(t, c, Apply(t, c).value)
  {
    hide Publishable, TreeOf, AllAcceptable, Apply, ValidPath, DistinctNames, CommitAccepts, Capacity.ManifestFits;
    EditSteps.CreateSpec(image, es, path);
    var next := es + [DirectoryEntry(path)];
    StillDistinct(es, path);
    Capacity.AcceptedNames(next);
    assert TreeOf(image, next).Keys == Names(next);
  }

  lemma StillDistinct(es: seq<Entry>, path: Name)
    requires DistinctNames(es) && Find(es, path) == |es|
    ensures DistinctNames(es + [DirectoryEntry(path)])
  {}

  lemma RenameStorable(image: Image, es: seq<Entry>, from: Name, to: Name, generation: u64)
    requires Publishable(image, es) && DistinctNames(es) && AllAcceptable(es)
    requires Apply(TreeOf(image, es), Rename(from, to)).Some?
    requires EditSteps.Refused(EntryOps.RenameEntries(es, from, to, IsDir(TreeOf(image, es), from)), generation)
    ensures
      var t, c := TreeOf(image, es), Rename(from, to);
      generation == EditSteps.LAST_GENERATION || !Storable(t, c, Apply(t, c).value)
  {
    hide Publishable, TreeOf, AllAcceptable, ValidPath, DistinctNames, CommitAccepts, Capacity.ManifestFits, Collides, RenameTree, ParentOk;
    var t, directory := TreeOf(image, es), IsDir(TreeOf(image, es), from);
    EditSteps.RenameStep(image, es, from, to, directory);
    var next := EntryOps.RenameEntries(es, from, to, directory);
    if DistinctNames(next) {
      Capacity.AcceptedNames(next);
      assert TreeOf(image, next).Keys == Names(next);
    } else {
      SameNameCollides(image, es, from, to);
    }
  }

  lemma SameNameCollides(image: Image, es: seq<Entry>, from: Name, to: Name)
    requires AllAcceptable(es) && DistinctNames(es)
    requires !DistinctNames(EntryOps.RenameEntries(es, from, to, IsDir(TreeOf(image, es), from)))
    ensures Collides(TreeOf(image, es), from, to)
  {
    hide TreeOf, AllAcceptable, Inside;
    var t := TreeOf(image, es);
    var next := EntryOps.RenameEntries(es, from, to, IsDir(t, from));
    var i, j :| 0 <= i < j < |next| && next[i].name == next[j].name;
    assert es[i].name in Names(es) && es[j].name in Names(es);
    assert es[i].name in t && es[j].name in t && es[i].name != es[j].name;
    assert Moved(t, es[i].name, from, to) == next[i].name;
    assert Moved(t, es[j].name, from, to) == next[j].name;
  }
}
