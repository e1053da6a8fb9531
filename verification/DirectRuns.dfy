/**
  Whole runs on a direct-boot volume: boot ROMs installed and removed, commits that fail on the
  device, power cuts and remounts, in any order. All programs are legal, every failure leaves the
  volume before or the volume after, and the other files stay listed and byte for byte the same.
 */
module DirectRuns {
  import opened Bytes
  import opened Paths
  import opened Manifest
  import opened Device
  import opened Opening
  import opened DirectManifest
  import opened DirectBoot
  import opened Placement
  import opened Trace
  import Volume
  import EditSteps

  datatype RomRequest =
    | PutRom(path: Name, bytes: seq<byte>, time: u64)
    | RemoveRom
    | CutPower
    | Reopen

  /** Between two requests: the flash, the volume it opens as and where that is, and whether it is mounted. */
  datatype RomState = RomState(image: Image, volume: DirectVolume, active: nat, mounted: bool)

  ghost predicate Found(s: RomState)
  {
    NewestDirect(s.image) == Some((s.volume, s.active)) && !Tied(s.image)
  }

  /** The files other than the boot ROM. */
  function Others(es: seq<Entry>): seq<Entry>
  {
    if HasRom(es) then es[1..] else es
  }

  function WithRom(v: DirectVolume, path: Name, bytes: seq<byte>, time: u64): DirectVolume
    requires v.generation < EditSteps.LAST_GENERATION && DataBlocks(|bytes|) <= DATA_END
  {
    DirectVolume(v.generation + 1, DataBlocks(|bytes|), [RomEntry(path, bytes, time)] + v.entries)
  }

  function RomRemoved(v: DirectVolume): DirectVolume
    requires v.generation < EditSteps.LAST_GENERATION && HasRom(v.entries)
  {
    DirectVolume(v.generation + 1, RomSlot(v.entries, v.slot), v.entries[1..])
  }

  /** A ROM that a volume takes and an open accepts afterwards. */
  predicate Installs(v: DirectVolume, path: Name, bytes: seq<byte>, time: u64)
  {
    && RomFits(v.entries, v.slot, path, bytes, time) && v.generation < EditSteps.LAST_GENERATION
    && EmptyFilesAbove(v.entries, DataBlocks(|bytes|))
  }

  /** The ROM is listed, and its bytes are at cartridge offset zero. */
  ghost predicate Installed(s: RomState, next: RomState, path: Name, bytes: seq<byte>, time: u64)
  {
    && Installs(s.volume, path, bytes, time)
    && next.volume == WithRom(s.volume, path, bytes, time) && next.active == Other(s.active)
    && Stored(next.image, 0, Padded(bytes))
  }

  ghost predicate Unchanged(s: RomState, next: RomState)
  {
    next.volume == s.volume && next.active == s.active
  }

  /** Installing a ROM on a mounted volume without one. A ROM over empty files is reported installed and not found again. */
  ghost predicate PutStep(faithful: bool, s: RomState, path: Name, bytes: seq<byte>, time: u64, o: Outcome, next: RomState)
  {
    && FilesKept(s.image, next.image, s.volume.entries)
    && match o
       case Succeeded =>
         && RomFits(s.volume.entries, s.volume.slot, path, bytes, time) && s.volume.generation < EditSteps.LAST_GENERATION
         && (if Installs(s.volume, path, bytes, time) then Installed(s, next, path, bytes, time) && next.mounted
             else Unchanged(s, next) && !next.mounted)
       case Declined =>
         && Unchanged(s, next) && next.mounted
         && (faithful ==>
           !RomFits(s.volume.entries, s.volume.slot, path, bytes, time) || s.volume.generation == EditSteps.LAST_GENERATION)
       case Interrupted => !next.mounted && (Unchanged(s, next) || Installed(s, next, path, bytes, time))
       case _ => false
  }

  ghost predicate Removed(s: RomState, next: RomState)
  {
    && HasRom(s.volume.entries) && s.volume.generation < EditSteps.LAST_GENERATION
    && next.volume == RomRemoved(s.volume) && next.active == Other(s.active)
  }

  /** Removing the ROM of a mounted volume. */
  ghost predicate RemoveStep(faithful: bool, s: RomState, o: Outcome, next: RomState)
  {
    && FilesKept(s.image, next.image, Others(s.volume.entries))
    && (Unchanged(s, next) ==> FilesKept(s.image, next.image, s.volume.entries))
    && next.mounted == (o != Interrupted)
    && match o
       case Succeeded => Removed(s, next) && next.image[0] == BLANK_BLOCK
       case Declined =>
         && (Unchanged(s, next) || Removed(s, next))
         && (faithful ==> s.volume.generation == EditSteps.LAST_GENERATION)
       case Interrupted => Unchanged(s, next) || Removed(s, next)
       case _ => false
  }

  ghost predicate RomStep(faithful: bool, plain: bool, s: RomState, r: RomRequest, o: Outcome, next: RomState)
  {
    && Found(s) && Found(next) && (faithful ==> o != Interrupted)
    && match r
       case CutPower => o == Skipped && next == s
       case Reopen =>
         && (o == Succeeded || (o == Declined && !faithful) || (o == Strayed && !plain))
         && next == s.(mounted := o == Succeeded)
       case PutRom(path, bytes, time) =>
         if s.mounted && !HasRom(s.volume.entries) then PutStep(faithful, s, path, bytes, time, o, next)
         else o == Skipped && next == s
       case RemoveRom =>
         if s.mounted && HasRom(s.volume.entries) then RemoveStep(faithful, s, o, next)
         else o == Skipped && next == s
  }

  ghost predicate RomHistory(faithful: bool, plain: bool, states: seq<RomState>, requests: seq<RomRequest>, outcomes: seq<Outcome>)
  {
    && |states| == |requests| + 1 && |outcomes| == |requests|
    && forall i :: 0 <= i < |requests| ==> RomStep(faithful, plain, states[i], requests[i], outcomes[i], states[i + 1])
  }

  // ----- What follows -----

  lemma FoundPlaced(s: RomState)
    requires Found(s)
    ensures 0 < s.volume.slot <= DATA_END && AllPlaced(s.volume.entries, s.volume.slot) && DirectCommitAccepts(s.volume.entries)
  {
    hide ParseDirect, DirectCommitAccepts, AllPlaced;
    ParsedIsPlaced(s.image[s.active]);
  }

  lemma OthersWithRom(v: DirectVolume, path: Name, bytes: seq<byte>, time: u64)
    requires !HasRom(v.entries) && Installs(v, path, bytes, time) && DataBlocks(|bytes|) <= DATA_END
    ensures HasRom(WithRom(v, path, bytes, time).entries) && Others(WithRom(v, path, bytes, time).entries) == v.entries
  {
    hide RomName, DirectCommitAccepts, DataBlocks, RoomForRom;
    var es := WithRom(v, path, bytes, time).entries;
    RomFirst(es, path, bytes, time);
    assert es[1..] == v.entries;
  }

  lemma OthersWithoutRom(es: seq<Entry>, slot: nat)
    requires AllPlaced(es, slot) && HasRom(es) && slot > 0
    ensures !HasRom(es[1..]) && Others(es[1..]) == es[1..]
  {
    hide RomName, DirectAcceptable;
    if es[1..] != [] {
      assert es[1..][0] == es[1] && Placed(es[1], slot, false);
    }
  }

  lemma FitsSlot(es: seq<Entry>, slot: nat, path: Name, bytes: seq<byte>, time: u64)
    requires RomFits(es, slot, path, bytes, time)
    ensures DataBlocks(|bytes|) <= DATA_END
  {}

  /** One request leaves the other files alone. */
  lemma OthersStep(faithful: bool, plain: bool, s: RomState, r: RomRequest, o: Outcome, next: RomState)
    requires RomStep(faithful, plain, s, r, o, next)
    ensures Others(next.volume.entries) == Others(s.volume.entries)
    ensures FilesKept(s.image, next.image, Others(s.volume.entries))
  {
    hide AllPlaced, DirectCommitAccepts, NewestDirect, Tied, HasRom, FilesKept, RomFits, EmptyFilesAbove;
    FoundPlaced(s);
    SameFilesKept(s.image, Others(s.volume.entries));
    match r
    case PutRom(path, bytes, time) =>
      if Installs(s.volume, path, bytes, time) && s.mounted && !HasRom(s.volume.entries) {
        FitsSlot(s.volume.entries, s.volume.slot, path, bytes, time);
        OthersWithRom(s.volume, path, bytes, time);
      }
    case RemoveRom =>
      if s.mounted && HasRom(s.volume.entries) {
        OthersWithoutRom(s.volume.entries, s.volume.slot);
      }
    case _ =>
  }

  /** Through any run the files other than the ROM stay listed, and no byte of them changes. */
  lemma {:induction false} OthersAreKept(faithful: bool, plain: bool, states: seq<RomState>, requests: seq<RomRequest>, outcomes: seq<Outcome>, i: nat, j: nat)
    requires RomHistory(faithful, plain, states, requests, outcomes) && i <= j < |states|
    ensures Others(states[j].volume.entries) == Others(states[i].volume.entries)
    ensures FilesKept(states[i].image, states[j].image, Others(states[i].volume.entries))
    decreases j
  {
    hide RomStep, Others, FilesKept;
    if i < j {
      OthersAreKept(faithful, plain, states, requests, outcomes, i, j - 1);
      assert RomStep(faithful, plain, states[j - 1], requests[j - 1], outcomes[j - 1], states[j]);
      OthersStep(faithful, plain, states[j - 1], requests[j - 1], outcomes[j - 1], states[j]);
      KeptOn(states[i].image, states[j - 1].image, states[j].image, Others(states[i].volume.entries));
    } else {
      SameFilesKept(states[i].image, Others(states[i].volume.entries));
    }
  }

  lemma KeptOn(a: Image, b: Image, c: Image, es: seq<Entry>)
    requires FilesKept(a, b, es) && FilesKept(b, c, es)
    ensures FilesKept(a, c, es)
  {}

  /** The ROM listed first is this one, and block for block what was put. */
  ghost predicate Holds(s: RomState, path: Name, bytes: seq<byte>, time: u64)
  {
    && 0 < DataBlocks(|bytes|) <= DATA_END && HasRom(s.volume.entries)
    && s.volume.entries[0] == RomEntry(path, bytes, time) && Stored(s.image, 0, Padded(bytes))
  }

  lemma StoredKept(before: Image, after: Image, es: seq<Entry>, path: Name, bytes: seq<byte>, time: u64)
    requires FilesKept(before, after, es) && es != [] && DataBlocks(|bytes|) <= DATA_END && es[0] == RomEntry(path, bytes, time)
    requires Stored(before, 0, Padded(bytes))
    ensures Stored(after, 0, Padded(bytes))
  {
    assert forall b :: 0 <= b < |Padded(bytes)| ==> Volume.Occupies(es[0], b);
  }

  lemma HoldsStep(faithful: bool, plain: bool, s: RomState, r: RomRequest, o: Outcome, next: RomState, path: Name, bytes: seq<byte>, time: u64)
    requires RomStep(faithful, plain, s, r, o, next) && Holds(s, path, bytes, time) && (r == RemoveRom ==> o == Skipped || Unchanged(s, next))
    ensures Holds(next, path, bytes, time)
  {
    hide NewestDirect, Tied, HasRom, FilesKept, RomFits, EmptyFilesAbove, DataBlocks, RomEntry, Padded, Stored, Others;
    if r == RemoveRom && o != Skipped {
      StoredKept(s.image, next.image, s.volume.entries, path, bytes, time);
    }
  }

  /**
    A ROM that was reported installed, on a volume where no empty file is in its way, is there and
    readable at cartridge offset zero until a removal takes it away, through power cuts and remounts.
   */
  lemma {:induction false} RomSurvives(faithful: bool, plain: bool, states: seq<RomState>, requests: seq<RomRequest>, outcomes: seq<Outcome>, i: nat, j: nat)
    requires RomHistory(faithful, plain, states, requests, outcomes) && i < j < |states|
    requires requests[i].PutRom? && outcomes[i] == Succeeded && EmptyFilesAbove(states[i].volume.entries, DataBlocks(|requests[i].bytes|))
    requires forall k :: i < k < j && requests[k] == RemoveRom ==> outcomes[k] == Skipped || Unchanged(states[k], states[k + 1])
    ensures Holds(states[j], requests[i].path, requests[i].bytes, requests[i].time)
    ensures j < |requests| && requests[j] == Reopen && faithful && plain ==> outcomes[j] == Succeeded && states[j + 1] == states[j].(mounted := true)
    decreases j
  {
    hide RomStep, Unchanged, Holds, EmptyFilesAbove, DataBlocks;
    if j < |requests| && requests[j] == Reopen && faithful && plain {
      assert RomStep(faithful, plain, states[j], requests[j], outcomes[j], states[j + 1]);
      PlainReopens(states[j], outcomes[j], states[j + 1]);
    }
    if i + 1 < j {
      RomSurvives(faithful, plain, states, requests, outcomes, i, j - 1);
      assert RomStep(faithful, plain, states[j - 1], requests[j - 1], outcomes[j - 1], states[j]);
      HoldsStep(faithful, plain, states[j - 1], requests[j - 1], outcomes[j - 1], states[j], requests[i].path, requests[i].bytes, requests[i].time);
    } else {
      assert RomStep(faithful, plain, states[i], requests[i], outcomes[i], states[j]);
      PutHolds(faithful, plain, states[i], requests[i], outcomes[i], states[j]);
    }
  }

  lemma PlainReopens(s: RomState, o: Outcome, next: RomState)
    requires RomStep(true, true, s, Reopen, o, next)
    ensures o == Succeeded && next == s.(mounted := true)
  {
    hide Found;
  }

  lemma PutHolds(faithful: bool, plain: bool, s: RomState, r: RomRequest, o: Outcome, next: RomState)
    requires RomStep(faithful, plain, s, r, o, next) && r.PutRom? && o == Succeeded
    requires EmptyFilesAbove(s.volume.entries, DataBlocks(|r.bytes|))
    ensures Holds(next, r.path, r.bytes, r.time)
  {
    hide NewestDirect, Tied, HasRom, FilesKept, EmptyFilesAbove, DataBlocks, RomEntry, Padded, Stored, Others, DirectCommitAccepts, RomName;
    OthersWithRom(s.volume, r.path, r.bytes, r.time);
  }

  // ----- The runs -----

  /** What holds between two requests. */
  ghost predicate RomSettled(fs: DirectFilesystem, s: RomState, plain: bool)
    reads fs, fs.flash
  {
    && fs.flash.legal && Found(s) && s.image == fs.flash.image && (plain ==> QuietFront(fs.flash.image))
    && (s.mounted ==>
      && fs.Held() && fs.entries == s.volume.entries && fs.generation == s.volume.generation
      && fs.active == s.active && fs.slot == RomSlot(s.volume.entries, s.volume.slot))
  }

  /** A held volume is settled on what memory says. */
  lemma HeldSettles(fs: DirectFilesystem, plain: bool) returns (s: RomState)
    requires fs.Held() && fs.flash.legal && (plain ==> QuietFront(fs.flash.image))
    ensures RomSettled(fs, s, plain) && s.mounted && s.volume.entries == fs.entries && s.volume.generation == fs.generation && s.active == fs.active
    ensures Some(s.volume) == ParseDirect(fs.flash.image[s.active]) && fs.slot == RomSlot(fs.entries, s.volume.slot) && s.image == fs.flash.image
  {
    hide ParseDirect, Tied, NewestDirect, HasRom;
    fs.HeldMounts();
    s := RomState(fs.flash.image, ParseDirect(fs.flash.image[fs.active]).value, fs.active, true);
  }

  lemma SettledHeld(fs: DirectFilesystem, s: RomState, plain: bool)
    requires RomSettled(fs, s, plain) && s.mounted
    ensures fs.Held() && fs.entries == s.volume.entries && fs.generation == s.volume.generation && fs.active == s.active
    ensures fs.slot == RomSlot(s.volume.entries, s.volume.slot)
    ensures fs.flash.legal && Found(s) && s.image == fs.flash.image && (plain ==> QuietFront(fs.flash.image))
    ensures Some(s.volume) == ParseDirect(fs.flash.image[s.active]) && (s.active == DATA_END || s.active == DATA_END + 1)
    ensures s.volume.generation <= EditSteps.LAST_GENERATION
  {
    hide fs.Held, ParseDirect, Tied, HasRom;
  }

  lemma FoundIs(s: RomState)
    ensures Found(s) <==> NewestDirect(s.image) == Some((s.volume, s.active)) && !Tied(s.image)
  {}

  /** Between mounts only the flash counts. */
  lemma UnmountedIs(fs: DirectFilesystem, s: RomState, plain: bool)
    requires fs.flash.legal && Found(s) && s.image == fs.flash.image && !s.mounted && (plain ==> QuietFront(fs.flash.image))
    ensures RomSettled(fs, s, plain)
  {
    hide fs.Held, Found;
  }

  method InstallOne(fs: DirectFilesystem, path: Name, bytes: seq<byte>, time: u64, ghost s: RomState, ghost plain: bool)
    returns (o: Outcome, mounted: bool, ghost next: RomState)
    requires fs.flash.checksumSound && RomSettled(fs, s, plain) && s.mounted && !HasRom(s.volume.entries)
    requires plain ==> PlainRom(bytes)
    modifies fs, fs.flash
    ensures RomSettled(fs, next, plain) && mounted == next.mounted
    ensures PutStep(fs.flash.faithful, s, path, bytes, time, o, next) && (fs.flash.faithful ==> o != Interrupted)
  {
    hide fs.Held, NewestDirect, Tied, ParseDirect, HasRom, RomFits, EmptyFilesAbove, DataBlocks, FilesKept, Found, RomSettled, Stored, Padded,
         RomEntry, RomSlot, PutStep;
    SettledHeld(fs, s, plain);
    FoundIs(s);
    SlotWithoutRom(s.volume);
    var prior := fs.entries;
    var ok := fs.PutRom(path, bytes, time);
    if RomFits(s.volume.entries, s.volume.slot, path, bytes, time) {
      FitsSlot(s.volume.entries, s.volume.slot, path, bytes, time);
    }
    if fs.commitFailed {
      o, mounted := Interrupted, false;
      next := RomState(fs.flash.image, NewestDirect(fs.flash.image).value.0, NewestDirect(fs.flash.image).value.1, false);
      FoundIs(next);
      UnmountedIs(fs, next, plain);
    } else if ok && !EmptyFilesAbove(prior, fs.slot) {
      o, mounted := Succeeded, false;
      next := s.(image := fs.flash.image, mounted := false);
      FoundIs(next);
      UnmountedIs(fs, next, plain);
    } else {
      o, mounted := if ok then Succeeded else Declined, true;
      next := HeldSettles(fs, plain);
      if ok {
        SettledHeld(fs, next, plain);
        FoundIs(next);
      }
    }
    PutStepIs(fs.flash.faithful, s, path, bytes, time, o, next);
  }

  lemma SlotWithoutRom(v: DirectVolume)
    ensures !HasRom(v.entries) ==> RomSlot(v.entries, v.slot) == v.slot
  {}

  lemma PutStepIs(faithful: bool, s: RomState, path: Name, bytes: seq<byte>, time: u64, o: Outcome, next: RomState)
    requires FilesKept(s.image, next.image, s.volume.entries)
    requires o == Succeeded ==>
      && RomFits(s.volume.entries, s.volume.slot, path, bytes, time) && s.volume.generation < EditSteps.LAST_GENERATION
      && (next.mounted <==> EmptyFilesAbove(s.volume.entries, DataBlocks(|bytes|)))
      && (if next.mounted then Installed(s, next, path, bytes, time) else Unchanged(s, next))
    requires o == Declined ==>
      && Unchanged(s, next) && next.mounted
      && (faithful ==>
           !RomFits(s.volume.entries, s.volume.slot, path, bytes, time) || s.volume.generation == EditSteps.LAST_GENERATION)
    requires o == Interrupted ==> !next.mounted && (Unchanged(s, next) || Installed(s, next, path, bytes, time))
    requires o != Skipped && o != Strayed
    ensures PutStep(faithful, s, path, bytes, time, o, next)
  {
    hide FilesKept, RomFits, EmptyFilesAbove, DataBlocks;
  }

  method RemoveOne(fs: DirectFilesystem, ghost s: RomState, ghost plain: bool) returns (o: Outcome, mounted: bool, ghost next: RomState)
    requires fs.flash.checksumSound && RomSettled(fs, s, plain) && s.mounted && HasRom(s.volume.entries)
    modifies fs, fs.flash
    ensures RomSettled(fs, next, plain) && mounted == next.mounted
    ensures RemoveStep(fs.flash.faithful, s, o, next) && (fs.flash.faithful ==> o != Interrupted)
  {
    hide *;
    SettledHeld(fs, s, plain);
    FoundIs(s);
    FoundPlaced(s);
    OthersWithoutRom(s.volume.entries, s.volume.slot);
    RestDiffers(s.volume.entries);
    var ok := fs.RemoveRom();
    if fs.commitFailed {
      o, mounted := Interrupted, false;
      next := RomState(fs.flash.image, NewestDirect(fs.flash.image).value.0, NewestDirect(fs.flash.image).value.1, false);
      FoundIs(next);
      UnmountedIs(fs, next, plain);
    } else {
      o, mounted := if ok then Succeeded else Declined, true;
      next := HeldSettles(fs, plain);
      SlotWithoutRom(next.volume);
      if fs.entries == s.volume.entries {
        SameFilesKept(fs.flash.image, s.volume.entries);
      }
    }
    RemoveStepIs(fs.flash.faithful, s, o, next, next.volume.entries != s.volume.entries);
  }

  lemma RemoveStepIs(faithful: bool, s: RomState, o: Outcome, next: RomState, removed: bool)
    requires HasRom(s.volume.entries) && o != Skipped && o != Strayed && next.mounted == (o != Interrupted)
    requires FilesKept(s.image, next.image, s.volume.entries[1..])
    requires !removed ==> o != Succeeded && next.volume == s.volume && next.active == s.active && FilesKept(s.image, next.image, s.volume.entries)
    requires removed ==>
      && s.volume.generation < EditSteps.LAST_GENERATION && next.active == Other(s.active)
      && next.volume == DirectVolume(s.volume.generation + 1, RomSlot(s.volume.entries, s.volume.slot), s.volume.entries[1..])
    requires o == Succeeded ==> next.image[0] == BLANK_BLOCK
    requires faithful && o == Declined ==> s.volume.generation == EditSteps.LAST_GENERATION
    ensures RemoveStep(faithful, s, o, next)
  {
    hide FilesKept, HasRom, RomSlot;
  }

  /** The mount strays if and only if the first two blocks do not yield, which they do when all ROMs have been plain. */
  method ReopenDirect(fs: DirectFilesystem, ghost s: RomState, ghost plain: bool) returns (o: Outcome)
    requires RomSettled(fs, s, plain)
    modifies fs, fs.flash
    ensures RomSettled(fs, s.(mounted := o == Succeeded), plain)
    ensures o == Succeeded || o == Declined || o == Strayed
    ensures o == Succeeded ==> FrontYields(s.image[0], s.image[1], s.volume.generation)
    ensures o == Strayed ==> !FrontYields(s.image[0], s.image[1], s.volume.generation)
    ensures plain ==> FrontYields(s.image[0], s.image[1], s.volume.generation)
    ensures fs.flash.faithful ==> o != Declined
  {
    hide *;
    SettledFound(fs, s, plain);
    FoundIs(s);
    OpenedByFront(s.image, s.volume, s.active);
    QuietYields(s.image);
    fs.flash.PowerOn();
    var ok, layout := fs.Open();
    o := if !ok then Declined else if layout.DirectBoot? then Succeeded else Strayed;
    SettledAgain(fs, s, o == Succeeded, plain);
  }

  /** What open finds when the last two blocks hold a volume. */
  lemma OpenedByFront(image: Image, v: DirectVolume, at: nat)
    requires NewestDirect(image) == Some((v, at))
    ensures OpenedAs(image).Some?
    ensures LayoutOf(OpenedAs(image).value).DirectBoot? <==> FrontYields(image[0], image[1], v.generation)
  {
    hide ParseDirect, NewestDirect, FrontYields, OpenedAs;
    OpensDirect(image, v, at);
    if OpenedAs(image).Some? && OpenedAs(image).value.InTail? {
      OpensDirect(image, OpenedAs(image).value.volume, OpenedAs(image).value.at);
    }
  }

  method CutDirect(fs: DirectFilesystem, ghost s: RomState, ghost plain: bool)
    requires RomSettled(fs, s, plain)
    modifies fs.flash
    ensures RomSettled(fs, s, plain)
  {
    hide NewestDirect, Tied, ParseDirect, RomSlot;
    fs.flash.PowerOff();
  }

  lemma SettledFound(fs: DirectFilesystem, s: RomState, plain: bool)
    requires RomSettled(fs, s, plain)
    ensures fs.flash.legal && Found(s) && s.image == fs.flash.image && (plain ==> QuietFront(fs.flash.image))
  {
    hide fs.Held, Found;
  }

  lemma SettledAgain(fs: DirectFilesystem, s: RomState, mounted: bool, plain: bool)
    requires fs.flash.legal && Found(s) && s.image == fs.flash.image && (plain ==> QuietFront(fs.flash.image))
    requires mounted ==>
      && fs.Held() && fs.entries == s.volume.entries && fs.generation == s.volume.generation
      && fs.active == s.active && fs.slot == RomSlot(s.volume.entries, s.volume.slot)
    ensures RomSettled(fs, s.(mounted := mounted), plain)
  {
    hide fs.Held, NewestDirect, Tied, RomSlot;
  }

  lemma StepIs(faithful: bool, plain: bool, s: RomState, r: RomRequest, o: Outcome, next: RomState)
    requires Found(s) && Found(next) && (faithful ==> o != Interrupted)
    ensures r == CutPower && o == Skipped && next == s ==> RomStep(faithful, plain, s, r, o, next)
    ensures r == Reopen && (o == Succeeded || (o == Declined && !faithful) || (o == Strayed && !plain)) && next == s.(mounted := o == Succeeded)
      ==> RomStep(faithful, plain, s, r, o, next)
    ensures r.PutRom? && s.mounted && !HasRom(s.volume.entries) && PutStep(faithful, s, r.path, r.bytes, r.time, o, next)
      ==> RomStep(faithful, plain, s, r, o, next)
    ensures r == RemoveRom && s.mounted && HasRom(s.volume.entries) && RemoveStep(faithful, s, o, next)
      ==> RomStep(faithful, plain, s, r, o, next)
    ensures r.PutRom? && !(s.mounted && !HasRom(s.volume.entries)) && o == Skipped && next == s ==> RomStep(faithful, plain, s, r, o, next)
    ensures r == RemoveRom && !(s.mounted && HasRom(s.volume.entries)) && o == Skipped && next == s ==> RomStep(faithful, plain, s, r, o, next)
  {
    hide Found, HasRom, PutStep, RemoveStep;
  }

  /** One request. A second ROM, and a removal where there is none, are left to the caller. */
  method PerformRom(fs: DirectFilesystem, request: RomRequest, mounted: bool, ghost s: RomState, ghost plain: bool)
    returns (o: Outcome, stillMounted: bool, ghost next: RomState)
    requires fs.flash.checksumSound && RomSettled(fs, s, plain) && mounted == s.mounted
    requires plain && request.PutRom? ==> PlainRom(request.bytes)
    modifies fs, fs.flash
    ensures RomSettled(fs, next, plain) && stillMounted == next.mounted
    ensures RomStep(fs.flash.faithful, plain, s, request, o, next)
  {
    hide *;
    SettledFound(fs, s, plain);
    if mounted {
      SettledHeld(fs, s, plain);
    }
    o, stillMounted, next := Skipped, mounted, s;
    match request {
      case CutPower =>
        CutDirect(fs, s, plain);
      case Reopen =>
        o := ReopenDirect(fs, s, plain);
        stillMounted := o == Succeeded;
        next := s.(mounted := stillMounted);
      case PutRom(path, bytes, time) =>
        if mounted && !HasRom(fs.entries) {
          o, stillMounted, next := InstallOne(fs, path, bytes, time, s, plain);
        }
      case RemoveRom =>
        if mounted && HasRom(fs.entries) {
          o, stillMounted, next := RemoveOne(fs, s, plain);
        }
    }
    SettledFound(fs, next, plain);
    StepIs(fs.flash.faithful, plain, s, request, o, next);
  }

  /** All ROMs to install are plain. */
  predicate PlainRequests(requests: seq<RomRequest>)
  {
    forall i :: 0 <= i < |requests| && requests[i].PutRom? ==> PlainRom(requests[i].bytes)
  }

  lemma PlainAt(requests: seq<RomRequest>, i: nat)
    requires i < |requests|
    ensures PlainRequests(requests) && requests[i].PutRom? ==> PlainRom(requests[i].bytes)
  {}

  /** Any sequence of requests, from a flash that opens as some direct-boot volume. */
  method RunRoms(fs: DirectFilesystem, requests: seq<RomRequest>, ghost plain: bool)
    returns (outcomes: seq<Outcome>, ghost states: seq<RomState>)
    requires fs.flash.checksumSound && fs.flash.legal && NewestDirect(fs.flash.image).Some? && !Tied(fs.flash.image)
    requires plain ==> QuietFront(fs.flash.image) && PlainRequests(requests)
    modifies fs, fs.flash
    ensures RomHistory(fs.flash.faithful, plain, states, requests, outcomes)
    ensures
      var (volume, active) := old(NewestDirect(fs.flash.image).value);
      states[0] == RomState(old(fs.flash.image), volume, active, false)
    ensures fs.flash.legal && fs.flash.image == states[|requests|].image && (plain ==> QuietFront(fs.flash.image))
  {
    hide *;
    var mounted, i := false, 0;
    ghost var m := NewestDirect(fs.flash.image).value;
    ghost var start := RomState(fs.flash.image, m.0, m.1, false);
    FoundIs(start);
    UnmountedIs(fs, start, plain);
    outcomes, states := [], [start];
    RomHistoryStart(fs.flash.faithful, plain, start, requests);
    while i < |requests|
      invariant 0 <= i <= |requests| && |states| == i + 1 && states[0] == start
      invariant RomHistory(fs.flash.faithful, plain, states, requests[..i], outcomes)
      invariant RomSettled(fs, states[i], plain) && states[i].mounted == mounted
    {
      PlainAt(requests, i);
      var o;
      ghost var next;
      o, mounted, next := PerformRom(fs, requests[i], mounted, states[i], plain);
      RomHistoryNext(fs.flash.faithful, plain, states, requests, outcomes, i, o, next);
      outcomes, states := outcomes + [o], states + [next];
      i := i + 1;
    }
    assert requests[..i] == requests;
    SettledFound(fs, states[i], plain);
  }

  lemma RomHistoryStart(faithful: bool, plain: bool, start: RomState, requests: seq<RomRequest>)
    ensures RomHistory(faithful, plain, [start], requests[..0], [])
  {}

  lemma RomHistoryNext(faithful: bool, plain: bool, states: seq<RomState>, requests: seq<RomRequest>, outcomes: seq<Outcome>, i: nat, o: Outcome, next: RomState)
    requires i < |requests| && RomHistory(faithful, plain, states, requests[..i], outcomes)
    requires RomStep(faithful, plain, states[i], requests[i], o, next)
    ensures RomHistory(faithful, plain, states + [next], requests[..i + 1], outcomes + [o])
  {
    hide RomStep;
  }

  /** From a freshly formatted device on. */
  method FormatAndRunRoms(device: FaultyDevice, slotBlocks: u32, requests: seq<RomRequest>, ghost plain: bool)
    returns (ok: bool, outcomes: seq<Outcome>, ghost states: seq<RomState>)
    requires device.checksumSound && device.legal && (plain ==> PlainRequests(requests))
    modifies device
    ensures device.legal
    ensures ok ==>
      && RomHistory(device.faithful, plain, states, requests, outcomes) && device.image == states[|requests|].image
      && states[0].volume == DirectVolume(1, slotBlocks, []) && !states[0].mounted
    ensures device.faithful ==> (ok <==> 0 < slotBlocks <= DATA_END)
  {
    hide *;
    outcomes, states := [], [];
    ok := DirectFilesystem.FormatEmpty(device, slotBlocks);
    if ok {
      var fs := new DirectFilesystem(device, slotBlocks);
      outcomes, states := RunRoms(fs, requests, plain);
      RomHistoryLength(device.faithful, plain, states, requests, outcomes);
    }
  }

  lemma RomHistoryLength(faithful: bool, plain: bool, states: seq<RomState>, requests: seq<RomRequest>, outcomes: seq<Outcome>)
    requires RomHistory(faithful, plain, states, requests, outcomes)
    ensures |states| == |requests| + 1
  {}
}
