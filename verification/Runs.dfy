/**
  Whole runs: any sequence of operations, power cuts and remounts on one device, from a volume
  that opens as some tree. Every request is a correct step (Trace.Step), and what it reports about
  itself is part of that: what succeeded is on the flash, what was declined changed nothing.
 */
module Runs {
  import opened Bytes
  import opened Paths
  import opened Manifest
  import opened Device
  import opened Opening
  import opened Volume
  import opened TreeSpec
  import opened EditSteps
  import opened Trace
  import opened Answers
  import Tame
  import Steps
  import Planning
  import EntryOps
  import FS = Filesystem

  /** One command on a mounted filesystem. An edit is declined only for a reason the tree and the generation show. */
  method Execute(fs: FS.Filesystem, command: Command) returns (ok: bool)
    requires fs.Usable() && fs.Sound() && (fs.tame ==> TameRequest(Do(command)))
    modifies fs, fs.flash
    ensures fs.Refines(old(fs.Tree()), command, ok)
    ensures Edits(command) ==>
      fs.generation == old(fs.generation) + (if ok then 1 else 0)
      && (!ok && !fs.commitFailed ==> Excused(old(fs.Tree()), command, old(fs.generation)))
    ensures command.PutFiles? ==> PutAnswered(fs.flash.faithful, old(fs.Now()), command.files, ok, fs.Now())
  {
    hide *;
    EditsIs(command);
    ExcusedIs(fs.Tree(), command, fs.generation);
    TameIs(command);
    fs.UsableParts();
    fs.NowIs();
    ghost var before := fs.Now();
    match command
    case CreateDirectory(path) =>
      CreateExcused(fs.flash.image, fs.entries, path, fs.generation);
      ok := fs.CreateDirectory(path);
    case PutFiles(files) =>
      var why;
      ghost var repack;
      ok, why, repack := fs.PutFiles(files);
      PutAnsweredIs(fs.flash.faithful, before, files, repack, why, fs.Now());
    case RemoveFile(path) => ok := fs.RemoveFile(path);
    case RemoveDirectory(path) => ok := fs.RemoveDirectory(path);
    case Rename(from, to) =>
      RenameExcused(fs.flash.image, fs.entries, from, to, fs.generation);
      ok := fs.Rename(from, to);
  }

  /** The request writes no file that open could take for a direct-boot volume. */
  predicate TameRequest(r: Request)
  {
    r.Do? && r.command.PutFiles? ==> Tame.TameFiles(r.command.files)
  }

  lemma TameIs(c: Command)
    ensures TameRequest(Do(c)) && c.PutFiles? ==> Tame.TameFiles(c.files)
  {}

  lemma EditsIs(c: Command)
    ensures Edits(c) <==> c.CreateDirectory? || c.RemoveFile? || c.RemoveDirectory? || c.Rename?
  {}

  lemma ExcusedIs(t: Tree, c: Command, generation: u64)
    ensures Apply(t, c).None? || generation == LAST_GENERATION ==> Excused(t, c, generation)
  {}

  lemma CreateExcused(image: Image, es: seq<Entry>, path: Name, generation: u64)
    requires Publishable(image, es) && DistinctNames(es) && AllAcceptable(es)
    ensures Apply(TreeOf(image, es), CreateDirectory(path)).Some? && Refused(EntryOps.Upsert(es, DirectoryEntry(path)), generation)
      ==> Excused(TreeOf(image, es), CreateDirectory(path), generation)
  {
    hide Publishable, DistinctNames, AllAcceptable, TreeOf, Apply, Refused, Storable;
    if Apply(TreeOf(image, es), CreateDirectory(path)).Some? && Refused(EntryOps.Upsert(es, DirectoryEntry(path)), generation) {
      CreateStorable(image, es, path, generation);
    }
  }

  lemma RenameExcused(image: Image, es: seq<Entry>, from: Name, to: Name, generation: u64)
    requires Publishable(image, es) && DistinctNames(es) && AllAcceptable(es)
    ensures
      var t := TreeOf(image, es);
      Apply(t, Rename(from, to)).Some? && Refused(EntryOps.RenameEntries(es, from, to, IsDir(t, from)), generation)
      ==> Excused(t, Rename(from, to), generation)
  {
    hide Publishable, DistinctNames, AllAcceptable, TreeOf, Apply, Refused, Storable, IsDir;
    var t := TreeOf(image, es);
    if Apply(t, Rename(from, to)).Some? && Refused(EntryOps.RenameEntries(es, from, to, IsDir(t, from)), generation) {
      RenameStorable(image, es, from, to, generation);
    }
  }

  lemma AfterParts(fs: FS.Filesystem, t: Tree, ok: bool)
    requires fs.After(t, t, ok)
    ensures fs.Sound() && (fs.commitFailed || fs.Usable()) && fs.Tree() == t
    ensures fs.commitFailed && fs.flash.checksumSound ==> SlotsHold(fs.flash.image, t)
  {
    hide fs.Sound, fs.Usable, fs.Tree, SlotsHold;
  }

  lemma UsableRecovers(fs: FS.Filesystem)
    requires fs.Usable() && fs.Sound()
    ensures SlotsHold(fs.flash.image, fs.Tree())
  {
    hide Durable, TreeOf, SlotsHold, VolumeOk;
    VolumeParts(fs.flash.image, fs.entries);
    Steps.GoodRecovers(fs.flash.image, fs.entries, fs.generation, fs.active);
  }

  lemma SoundIsCareful(fs: FS.Filesystem)
    requires fs.Sound()
    ensures fs.Careful()
  {
    hide fs.Careful;
  }

  /** What holds between two steps. */
  ghost predicate Settled(fs: FS.Filesystem, s: State)
    reads fs, fs.flash
  {
    && fs.Careful() && SlotsHold(fs.flash.image, s.tree) && NewestSlot(fs.flash.image).value.generation == s.generation
    && (s.mounted ==> fs.Usable() && fs.Sound() && fs.Tree() == s.tree && fs.generation == s.generation && fs.Now() == s.volume)
  }

  lemma SettledMounted(fs: FS.Filesystem, s: State)
    requires Settled(fs, s) && s.mounted
    ensures fs.Usable() && fs.Sound() && fs.Tree() == s.tree && fs.generation == s.generation && !fs.commitFailed
    ensures fs.Now() == s.volume
  {
    hide fs.Sound, fs.Tree, SlotsHold, fs.Careful, NewestSlot;
  }

  lemma SettledParts(fs: FS.Filesystem, s: State)
    requires Settled(fs, s)
    ensures fs.Careful() && SlotsHold(fs.flash.image, s.tree)
    ensures NewestSlot(fs.flash.image).Some? && NewestSlot(fs.flash.image).value.generation == s.generation
  {
    hide fs.Sound, fs.Usable, fs.Tree, fs.Careful, NewestSlot, Durable, VolumeOk, TreeOf;
  }

  /** A mounted volume is settled on its own tree and generation. */
  lemma UsableSettles(fs: FS.Filesystem)
    requires fs.Usable() && fs.Sound()
    ensures Settled(fs, State(fs.Tree(), fs.generation, true, fs.Now())) && Shown(State(fs.Tree(), fs.generation, true, fs.Now()))
  {
    hide fs.Sound, fs.Tree, SlotsHold, fs.Careful, NewestSlot, Durable, VolumeOk;
    UsableRecovers(fs);
    SoundIsCareful(fs);
    UsableMounts(fs);
    fs.NowIs();
  }

  lemma UsableMounts(fs: FS.Filesystem)
    requires fs.Usable()
    ensures NewestSlot(fs.flash.image) == Some(Mounted(fs.entries, fs.generation, fs.active))
  {
    hide NewestSlot, TreeOf, VolumeOk;
    DurableMounts(fs.flash.image, fs.entries, fs.generation, fs.active);
  }

  /** A volume whose last commit failed on the device is settled on what the flash opens as. */
  lemma UnmountedSettles(fs: FS.Filesystem, t: Tree) returns (s: State)
    requires fs.Careful() && SlotsHold(fs.flash.image, t)
    ensures Settled(fs, s) && !s.mounted && s.tree == t
  {
    hide fs.Sound, fs.Usable, fs.Tree, fs.Careful, NewestSlot, Durable, VolumeOk, TreeOf;
    assert NewestSlot(fs.flash.image).Some?;
    s := State(t, NewestSlot(fs.flash.image).value.generation, false, fs.Now());
  }

  function Reported(ok: bool, failed: bool): Outcome
  {
    if failed then Interrupted else if ok then Succeeded else Declined
  }

  /** After a command the flash opens as the tree before or the tree after it, as reported. */
  lemma CommandSettles(fs: FS.Filesystem, s: State, c: Command, ok: bool) returns (next: State)
    requires s.mounted && fs.Refines(s.tree, c, ok) && fs.flash.checksumSound
    requires Edits(c) ==>
      && fs.generation == s.generation + (if ok then 1 else 0)
      && (!ok && !fs.commitFailed ==> Excused(s.tree, c, s.generation))
    requires c.PutFiles? ==> PutAnswered(fs.flash.faithful, s.volume, c.files, ok, fs.Now())
    ensures Settled(fs, next) && Commanded(fs.flash.faithful, s, c, Reported(ok, fs.commitFailed), next)
    ensures next.mounted ==> Shown(next)
    ensures fs.flash.faithful ==> !fs.commitFailed
  {
    hide *;
    fs.RefinesParts(s.tree, c, ok);
    SoundIsCareful(fs);
    if !fs.commitFailed {
      next := State(fs.Tree(), fs.generation, true, fs.Now());
      UsableSettles(fs);
    } else if SlotsHold(fs.flash.image, s.tree) {
      next := UnmountedSettles(fs, s.tree);
    } else {
      next := UnmountedSettles(fs, Apply(s.tree, c).value);
    }
    CommandedIs(fs.flash.faithful, s, c, ok, fs.commitFailed, next);
  }

  lemma CommandedIs(faithful: bool, s: State, c: Command, ok: bool, failed: bool, next: State)
    requires next.mounted == !failed && (ok ==> !failed && Apply(s.tree, c) == Some(next.tree))
    requires failed ==> Apply(s.tree, c).Some? && (next.tree == s.tree || Apply(s.tree, c) == Some(next.tree))
    requires !ok && !failed ==> next.tree == s.tree
    requires Edits(c) && !failed ==> next.generation == s.generation + (if ok then 1 else 0)
    requires Edits(c) && !ok && !failed ==> Excused(s.tree, c, s.generation)
    requires c.PutFiles? && !failed ==> PutAnswered(faithful, s.volume, c.files, ok, next.volume)
    ensures Commanded(faithful, s, c, Reported(ok, failed), next)
  {
    hide Apply, Edits, Excused, PutAnswered;
  }

  /** A maintenance operation settles on the tree it found. */
  lemma MaintenanceSettles(fs: FS.Filesystem, s: State, r: Request, ok: bool) returns (next: State)
    requires s.mounted && fs.After(s.tree, s.tree, ok) && fs.flash.checksumSound
    requires fs.flash.faithful && !ok && !r.Compact? ==> fs.generation == LAST_GENERATION
    requires fs.flash.faithful && !ok && r.Compact? ==>
      fs.generation == LAST_GENERATION || Planning.GenerationsUsedUp(s.volume.entries)
    requires ok && r.CollectGarbage? ==> Collected(s.volume, fs.Now())
    requires ok && r.Compact? ==> CompactedFrom(s.volume, fs.Now())
    requires ok && !r.CollectGarbage? && !r.Compact? ==> fs.entries == s.volume.entries && fs.nextFree == s.volume.cursor
    ensures Settled(fs, next) && next.mounted == !fs.commitFailed && (next.mounted ==> Shown(next))
    ensures Trace.Maintained(fs.flash.faithful, s, r, Reported(ok, fs.commitFailed), next)
    ensures fs.flash.faithful ==> !fs.commitFailed
  {
    hide fs.Sound, fs.Usable, fs.Tree, SlotsHold, Settled, fs.Careful, Collected, CompactedFrom, Shown, Planning.GenerationsUsedUp;
    AfterParts(fs, s.tree, ok);
    SoundIsCareful(fs);
    if !fs.commitFailed {
      next := State(fs.Tree(), fs.generation, true, fs.Now());
      UsableSettles(fs);
    } else {
      next := UnmountedSettles(fs, s.tree);
    }
  }

  /**
    Power returns and the volume is mounted again from what the flash holds. The mount strays if and
    only if the last two blocks do not yield, which they do when all files have been tame.
   */
  method Reopen(fs: FS.Filesystem, ghost s: State) returns (o: Outcome, ghost next: State)
    requires fs.flash.checksumSound && Settled(fs, s)
    modifies fs, fs.flash
    ensures Settled(fs, next) && fs.flash.image == old(fs.flash.image)
    ensures next == s.(mounted := o == Succeeded, volume := fs.Now())
    ensures o == Succeeded ==> FreshlyMounted(next.volume) && Shown(next)
    ensures o == Succeeded || o == Declined || o == Strayed
    ensures o == Succeeded ==> TailYields(fs.flash.image)
    ensures o == Strayed ==> !TailYields(fs.flash.image)
    ensures fs.tame ==> TailYields(fs.flash.image)
    ensures fs.flash.faithful ==> o != Declined
  {
    hide *;
    SettledParts(fs, s);
    fs.CarefulIs();
    fs.flash.PowerOn();
    fs.CarefulIs();
    OpenedByTail(fs.flash.image, s.tree);
    QuietYields(fs.flash.image);
    var ok, layout := fs.Open();
    fs.CarefulIs();
    if !ok {
      o := Declined;
    } else if layout.DirectBoot? {
      o := Strayed;
    } else {
      o := Succeeded;
      OpenedAcceptable(fs.flash.image, Mounted(fs.entries, fs.generation, fs.active));
      UsableSettles(fs);
      fs.NowIs();
      FreshIs(fs.Now());
    }
    next := SettledAgain(fs, s, o == Succeeded);
  }

  lemma FreshIs(v: Snapshot)
    requires Sane(v) && CursorBehind(v.entries, v.cursor) && forall b :: 0 <= b < BLOCK_COUNT ==> !v.unavailable[b]
    ensures FreshlyMounted(v)
  {
    hide Sane, CursorBehind;
  }

  /** What open finds on slots that hold a tree. */
  lemma OpenedByTail(image: Image, t: Tree)
    requires SlotsHold(image, t)
    ensures NewestSlot(image).Some? && OpenedAs(image).Some?
    ensures LayoutOf(OpenedAs(image).value).Transactional? <==> TailYields(image)
  {
    hide Durable, VolumeOk, TreeOf, TailYields, NewestSlot, OpenedAs;
    var m := NewestSlot(image).value;
    OpensSlots(image, m);
    if OpenedAs(image).value.InSlots? {
      OpensSlots(image, OpenedAs(image).value.mounted);
    }
  }

  lemma SettledAgain(fs: FS.Filesystem, s: State, mounted: bool) returns (next: State)
    requires fs.Careful() && SlotsHold(fs.flash.image, s.tree)
    requires NewestSlot(fs.flash.image).Some? && NewestSlot(fs.flash.image).value.generation == s.generation
    requires mounted ==> fs.Usable() && fs.Sound() && fs.Tree() == s.tree && fs.generation == s.generation
    requires mounted ==> Shown(State(s.tree, s.generation, true, fs.Now()))
    ensures next == s.(mounted := mounted, volume := fs.Now()) && Settled(fs, next) && (mounted ==> Shown(next))
  {
    hide fs.Sound, fs.Usable, fs.Tree, SlotsHold, fs.Careful, NewestSlot, Shown;
    next := s.(mounted := mounted, volume := fs.Now());
  }

  method CutPower(fs: FS.Filesystem, ghost s: State)
    requires Settled(fs, s)
    modifies fs.flash
    ensures Settled(fs, s) && fs.commitFailed == old(fs.commitFailed) && !fs.flash.powered
  {
    hide SlotsHold, SafeErases, QuietTail, VolumeOk, Durable, TreeOf, NewestSlot;
    fs.flash.PowerOff();
  }

  lemma StepIs(faithful: bool, tame: bool, s: State, r: Request, o: Outcome, next: State)
    requires (faithful ==> o != Interrupted) && (next.mounted ==> Shown(next))
    ensures r == PowerCut && o == Skipped && next == s ==> Step(faithful, tame, s, r, o, next)
    ensures r == Remount && (o == Succeeded || (o == Declined && !faithful) || (o == Strayed && !tame))
        && next == s.(mounted := o == Succeeded, volume := next.volume) && (next.mounted ==> FreshlyMounted(next.volume))
      ==> Step(faithful, tame, s, r, o, next)
    ensures r != PowerCut && r != Remount && !s.mounted && o == Skipped && next == s ==> Step(faithful, tame, s, r, o, next)
    ensures r.Do? && s.mounted && Commanded(faithful, s, r.command, o, next) ==> Step(faithful, tame, s, r, o, next)
    ensures (r == CollectGarbage || r == CollectGarbageStep || r == Compact) && s.mounted && Trace.Maintained(faithful, s, r, o, next)
      ==> Step(faithful, tame, s, r, o, next)
  {
    hide Commanded, Trace.Maintained, Shown, FreshlyMounted;
  }

  lemma ReportedIs(ok: bool, failed: bool)
    ensures Reported(ok, failed) == if failed then Interrupted else if ok then Succeeded else Declined
  {}

  /** Carries out one request; the collector is the paused incremental collection, if `resynchronize` is not set. */
  method Perform(fs: FS.Filesystem, collector: FS.GcState, request: Request, mounted: bool, resynchronize: bool, ghost s: State)
    returns (o: Outcome, stillMounted: bool, mustResynchronize: bool, ghost next: State)
    requires fs.flash.checksumSound && Settled(fs, s) && mounted == s.mounted && (mounted ==> Shown(s))
    requires fs.tame ==> TameRequest(request)
    requires mounted && !resynchronize ==> fs.Shaped() && fs.Paused(collector)
    modifies fs, fs.flash, collector
    ensures Settled(fs, next) && stillMounted == next.mounted
    ensures Step(fs.flash.faithful, fs.tame, s, request, o, next) && (stillMounted ==> Shown(next))
    ensures request == PowerCut ==> !fs.flash.powered
    ensures mounted && stillMounted && request == CollectGarbageStep ==> !mustResynchronize
    ensures stillMounted && !mustResynchronize ==> fs.Shaped() && fs.Paused(collector)
  {
    hide *;
    o, stillMounted, mustResynchronize, next := Skipped, mounted, true, s;
    if request == Remount {
      o, next := Reopen(fs, s);
      stillMounted := o == Succeeded;
    } else if request == PowerCut {
      CutPower(fs, s);
    } else if mounted {
      SettledMounted(fs, s);
      var ok;
      match request {
        case Do(command) =>
          ok := Execute(fs, command);
          next := CommandSettles(fs, s, command, ok);
        case CollectGarbage =>
          var reclaimed;
          ghost var before := fs.Now();
          fs.NowIs();
          ok, reclaimed := fs.CollectGarbage();
          if ok {
            AfterParts(fs, s.tree, ok);
            fs.NowIs();
            CollectedIs(before, fs.Now());
          }
          next := MaintenanceSettles(fs, s, request, ok);
        case CollectGarbageStep =>
          var complete;
          fs.UsableParts();
          fs.NowIs();
          ok, complete := fs.CollectGarbageStep(collector, resynchronize);
          next := MaintenanceSettles(fs, s, request, ok);
          mustResynchronize := false;
          PausedIs(fs, collector);
        case Compact =>
          var reclaimed, report;
          ghost var pending, sources, middle, moves;
          ghost var before := fs.Now();
          fs.NowIs();
          ok, reclaimed, report, pending, sources, middle, moves := fs.Compact();
          if ok {
            AfterParts(fs, s.tree, ok);
            fs.NowIs();
            CompactedFromIs(before, pending, sources, middle, moves, report, fs.Now());
          }
          next := MaintenanceSettles(fs, s, request, ok);
      }
      o := Reported(ok, fs.commitFailed);
      ReportedIs(ok, fs.commitFailed);
      stillMounted := !fs.commitFailed;
      CommandMounts(fs.flash.faithful, s, request, o, next);
    }
    StepIs(fs.flash.faithful, fs.tame, s, request, o, next);
  }

  lemma CommandMounts(faithful: bool, s: State, r: Request, o: Outcome, next: State)
    requires r.Do? ==> Commanded(faithful, s, r.command, o, next)
    ensures r.Do? ==> next.mounted == (o != Interrupted)
  {}

  /**
    Runs all requests. Commands are carried out while the volume is mounted; after a commit that
    failed on the device nothing is asked of it until a remount succeeds.
   */
  method Run(fs: FS.Filesystem, requests: seq<Request>, ghost start: Tree) returns (outcomes: seq<Outcome>, ghost states: seq<State>)
    requires fs.flash.checksumSound && fs.Careful() && SlotsHold(fs.flash.image, start)
    requires fs.tame ==> forall i :: 0 <= i < |requests| ==> TameRequest(requests[i])
    modifies fs, fs.flash
    ensures History(fs.flash.faithful, fs.tame, states, requests, outcomes)
    ensures states[0].tree == start && states[0].generation == old(NewestSlot(fs.flash.image).value.generation) && !states[0].mounted
    ensures Settled(fs, states[|requests|])
    ensures fs.tame ==> RecoversTo(fs.flash.image, states[|requests|].tree)
  {
    hide *;
    var collector := new FS.GcState();
    var mounted, resynchronize, i := false, true, 0;
    ghost var s := UnmountedSettles(fs, start);
    SettledParts(fs, s);
    outcomes, states := [], [s];
    HistoryStart(fs.flash.faithful, fs.tame, s, requests);
    while i < |requests|
      invariant 0 <= i <= |requests| && |states| == i + 1 && |outcomes| == i && states[0] == s
      invariant History(fs.flash.faithful, fs.tame, states, requests[..i], outcomes)
      invariant Settled(fs, states[i]) && states[i].mounted == mounted && (mounted ==> Shown(states[i]))
      invariant mounted && !resynchronize ==> fs.Shaped() && fs.Paused(collector)
      invariant fresh(collector)
    {
      var o;
      ghost var next;
      o, mounted, resynchronize, next := Perform(fs, collector, requests[i], mounted, resynchronize, states[i]);
      HistoryStep(fs.flash.faithful, fs.tame, states, requests, outcomes, i, o, next);
      outcomes, states := outcomes + [o], states + [next];
      i := i + 1;
    }
    assert requests[..i] == requests;
    SettledRecovers(fs, states[i]);
  }

  /** With tame files, open finds what the slots hold. */
  lemma SettledRecovers(fs: FS.Filesystem, s: State)
    requires Settled(fs, s) && fs.flash.checksumSound
    ensures fs.tame ==> RecoversTo(fs.flash.image, s.tree)
  {
    hide *;
    SettledParts(fs, s);
    fs.CarefulIs();
    OpenedByTail(fs.flash.image, s.tree);
    QuietYields(fs.flash.image);
    RecoversIfYields(fs.flash.image, s.tree);
  }

  lemma PausedIs(fs: FS.Filesystem, collector: FS.GcState)
    requires fs.Shaped() && (!fs.commitFailed ==> fs.Collecting(collector))
    ensures !fs.commitFailed ==> fs.Paused(collector)
  {}

  /** From a freshly formatted device on. */
  method FormatAndRun(device: FaultyDevice, requests: seq<Request>, ghost tame: bool)
    returns (ok: bool, outcomes: seq<Outcome>, ghost states: seq<State>)
    requires device.checksumSound
    requires tame ==> forall i :: 0 <= i < |requests| ==> TameRequest(requests[i])
    modifies device
    ensures ok ==> History(device.faithful, tame, states, requests, outcomes)
    ensures ok ==> states[0].tree == map[] && states[0].generation == 1 && !states[0].mounted
    ensures ok ==> SlotsHold(device.image, states[|requests|].tree) && device.legal && SafeErases(device.erases)
    ensures ok && tame ==> RecoversTo(device.image, states[|requests|].tree)
    ensures device.faithful ==> ok
  {
    hide *;
    outcomes, states := [], [];
    ok := FS.Filesystem.Format(device);
    if ok {
      device.StartHistory();
      NoErases(device.erases);
      var fs := new FS.Filesystem(device, tame);
      fs.CarefulIs();
      RecoversIfYields(device.image, map[]);
      outcomes, states := Run(fs, requests, map[]);
      HistoryLength(device.faithful, tame, states, requests, outcomes);
      SettledParts(fs, states[|requests|]);
      fs.CarefulIs();
    }
  }

  lemma HistoryLength(faithful: bool, tame: bool, states: seq<State>, requests: seq<Request>, outcomes: seq<Outcome>)
    requires History(faithful, tame, states, requests, outcomes)
    ensures |states| == |requests| + 1 && |outcomes| == |requests|
  {}

  lemma NoErases(log: seq<EraseEvent>)
    requires log == []
    ensures SafeErases(log)
  {}
}
