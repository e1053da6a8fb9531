/**
  Which volume `open` in src/ezfa3fs_live_filesystem.cpp finds on a flash: the loop over its four
  candidates, and what decides between the layouts.
 */
module Opening {
  import opened Bytes
  import opened Manifest
  import opened Device
  import opened DirectManifest
  import opened CutSlots

  datatype Layout = Transactional | DirectBoot

  datatype Mounted = Mounted(entries: seq<Entry>, generation: u64, active: nat)
  datatype Opened = InSlots(mounted: Mounted) | InTail(volume: DirectVolume, at: nat)

  function LayoutOf(o: Opened): Layout
  {
    if o.InSlots? then Transactional else DirectBoot
  }

  function GenerationOf(o: Opened): u64
  {
    match o
    case InSlots(m) => m.generation
    case InTail(v, _) => v.generation
  }

  // ----- The candidates -----

  /** Blocks 0 and 1, then the last two. */
  function CandidateBlock(k: nat): (b: nat)
    requires k < 4
    ensures b < BLOCK_COUNT
  {
    if k < 2 then k else DATA_END + k - 2
  }

  function Candidate(image: Image, k: nat): Option<Opened>
    requires k < 4
  {
    var block := CandidateBlock(k);
    if k < 2 then
      match ParseSlot(image[block])
      case Some(s) => Some(InSlots(Mounted(s.entries, s.generation, block)))
      case None => None
    else
      match ParseDirect(image[block])
      case Some(v) => Some(InTail(v, block))
      case None => None
  }

  /** The later of two candidates, if it is valid and the earlier one is not as new. */
  function Newer(best: Option<Opened>, next: Option<Opened>): Option<Opened>
  {
    if next.Some? && (best.None? || GenerationOf(next.value) > GenerationOf(best.value)) then next else best
  }

  /** The newest of the first `k` candidates. */
  function Newest(image: Image, k: nat): Option<Opened>
    requires k <= 4
  {
    if k == 0 then None else Newer(Newest(image, k - 1), Candidate(image, k - 1))
  }

  /** What `open` finds: a valid block 1 ends the search. */
  function OpenedAs(image: Image): Option<Opened>
  {
    Newest(image, if Candidate(image, 1).Some? then 2 else 4)
  }

  /** The loop of `open`. */
  method Probe(flash: FaultyDevice) returns (ok: bool, found: Option<Opened>)
    ensures ok ==> found == OpenedAs(flash.image)
    ensures flash.faithful ==> ok
  {
    hide ParseSlot, ParseDirect, Newer;
    found := None;
    var k := 0;
    while k < 4
      invariant 0 <= k <= 4 && found == Newest(flash.image, k)
      invariant k > 1 ==> Candidate(flash.image, 1).None?
    {
      var block := CandidateBlock(k);
      var read, data := flash.Read(block);
      if !read {
        return false, None;
      }
      var candidate: Option<Opened> := None;
      if k < 2 {
        var slot := ReadSlot(data);
        if slot.Some? {
          candidate := Some(InSlots(Mounted(slot.value.entries, slot.value.generation, block)));
        }
      } else {
        var direct := ReadDirectSlot(data);
        if direct.Some? {
          candidate := Some(InTail(direct.value, block));
        }
      }
      found := Newer(found, candidate);
      k := k + 1;
      if block == 1 && candidate.Some? {
        return true, found;
      }
    }
    ok := true;
  }

  // ----- One layout alone -----

  /** The slot choice among blocks 0 and 1. */
  function NewestSlot(image: Image): Option<Mounted>
  {
    Choose(ParseSlot(image[0]), ParseSlot(image[1]))
  }

  /** The slot choice depends on the two parsed slots alone. */
  function Choose(s0: Option<Superblock>, s1: Option<Superblock>): Option<Mounted>
  {
    if s1.Some? && (s0.None? || s1.value.generation > s0.value.generation) then
      Some(Mounted(s1.value.entries, s1.value.generation, 1))
    else if s0.Some? then Some(Mounted(s0.value.entries, s0.value.generation, 0))
    else None
  }

  /** The newest of the last two blocks, block 510 before block 511. */
  function NewestDirect(image: Image): Option<(DirectVolume, nat)>
  {
    var a, b := ParseDirect(image[DATA_END]), ParseDirect(image[DATA_END + 1]);
    if b.Some? && (a.None? || b.value.generation > a.value.generation) then Some((b.value, DATA_END + 1))
    else if a.Some? then Some((a.value, DATA_END))
    else None
  }

  // ----- Between the layouts -----

  /** The last two blocks hold no direct-boot superblock of a generation above `generation`. */
  predicate TailBelow(image: Image, generation: u64)
  {
    forall b :: DATA_END <= b < BLOCK_COUNT && ParseDirect(image[b]).Some? ==> ParseDirect(image[b]).value.generation <= generation
  }

  /** Block 1 is valid, or block 0 is, and nothing newer is in the last two blocks. */
  predicate TailYields(image: Image)
  {
    ParseSlot(image[1]).Some? || (ParseSlot(image[0]).Some? && TailBelow(image, ParseSlot(image[0]).value.generation))
  }

  /** Block 1 is not valid, and block 0 is not, or is older than `generation`. */
  predicate FrontYields(front: Block, second: Block, generation: u64)
  {
    ParseSlot(second).None? && (ParseSlot(front).Some? ==> ParseSlot(front).value.generation < generation)
  }

  /** The four candidates, spelled out. */
  lemma Unrolled(image: Image)
    ensures Newest(image, 2) == (match NewestSlot(image) case Some(m) => Some(InSlots(m)) case None => None)
    ensures Newest(image, 4) == Newer(Newer(Newest(image, 2), Candidate(image, 2)), Candidate(image, 3))
    ensures Newest(image, 2).Some? && ParseSlot(image[1]).None? ==> GenerationOf(Newest(image, 2).value) == ParseSlot(image[0]).value.generation
  {
    hide ParseSlot, ParseDirect;
    assert Newest(image, 1) == Candidate(image, 0);
    assert Newest(image, 2) == Newer(Candidate(image, 0), Candidate(image, 1));
    assert Newest(image, 3) == Newer(Newest(image, 2), Candidate(image, 2));
  }

  /**
    Open finds a transactional volume if and only if block 1 is valid, or block 0 is and neither of
    the last two blocks is a newer direct-boot superblock; it is the newer of the two slots.
   */
  lemma OpensSlots(image: Image, m: Mounted)
    ensures OpenedAs(image) == Some(InSlots(m)) <==> NewestSlot(image) == Some(m) && TailYields(image)
    ensures TailYields(image) ==> NewestSlot(image).Some?
    ensures NewestSlot(image).Some? ==> OpenedAs(image).Some?
  {
    hide ParseSlot, ParseDirect;
    Unrolled(image);
    assert DATA_END + 1 < BLOCK_COUNT;
    if ParseSlot(image[1]).None? && ParseSlot(image[0]).Some? {
      TailIs(image, ParseSlot(image[0]).value.generation);
    }
  }

  lemma TailIs(image: Image, generation: u64)
    ensures TailBelow(image, generation) <==>
      && (ParseDirect(image[DATA_END]).Some? ==> ParseDirect(image[DATA_END]).value.generation <= generation)
      && (ParseDirect(image[DATA_END + 1]).Some? ==> ParseDirect(image[DATA_END + 1]).value.generation <= generation)
  {
    hide ParseDirect;
  }

  /**
    Open finds a direct-boot volume if and only if block 1 is not valid and block 0 is not or is
    older; it is the newest of the last two blocks.
   */
  lemma OpensDirect(image: Image, v: DirectVolume, at: nat)
    ensures OpenedAs(image) == Some(InTail(v, at)) <==>
      NewestDirect(image) == Some((v, at)) && FrontYields(image[0], image[1], v.generation)
    ensures NewestDirect(image).Some? ==> OpenedAs(image).Some?
  {
    hide ParseSlot, ParseDirect;
    Unrolled(image);
  }

  // ----- Quiet blocks -----

  /** Nothing in the last two blocks can be taken for a direct-boot superblock. */
  ghost predicate QuietTail(image: Image)
  {
    forall b :: DATA_END <= b < BLOCK_COUNT ==> DirectQuiet(image[b])
  }

  /** Nothing in the first two blocks can be taken for a transactional superblock. */
  ghost predicate QuietFront(image: Image)
  {
    SlotQuiet(image[0]) && SlotQuiet(image[1])
  }

  /** Of an extent, what lands in the last two blocks is quiet. */
  ghost predicate TailSafe(first: nat, extent: seq<Block>)
  {
    forall i :: 0 <= i < |extent| && first + i >= DATA_END ==> DirectQuiet(extent[i])
  }

  lemma QuietYields(image: Image)
    ensures QuietTail(image) && NewestSlot(image).Some? ==> TailYields(image)
    ensures QuietFront(image) ==> forall g: u64 :: FrontYields(image[0], image[1], g)
  {
    hide ParseSlot, ParseDirect, DirectQuiet, SlotQuiet;
    QuietWhole(image[0]);
    QuietWhole(image[1]);
    if QuietTail(image) {
      forall b | DATA_END <= b < BLOCK_COUNT ensures ParseDirect(image[b]).None? {
        QuietWhole(image[b]);
      }
    }
  }

  /** A blank run programmed with blocks that are quiet where it matters leaves the tail quiet, wherever it stopped. */
  lemma QuietAfterProgram(before: Image, after: Image, first: nat, extent: seq<Block>)
    requires QuietTail(before) && SameOutsideRun(before, after, first, |extent|) && CutRun(after, first, extent) && TailSafe(first, extent)
    ensures QuietTail(after)
  {
    hide DirectQuiet, Cut;
    forall b | DATA_END <= b < BLOCK_COUNT ensures DirectQuiet(after[b]) {
      if first <= b < first + |extent| {
        assert CutOf(extent[b - first], after[b]);
        var n: nat :| n <= BLOCK_SIZE && after[b] == Cut(extent[b - first], n);
        QuietCut(extent[b - first], n);
      }
    }
  }

  lemma QuietAfterErase(before: Image, after: Image)
    requires QuietTail(before) && forall b :: 0 <= b < BLOCK_COUNT && Probed(b) ==> Wiped(before[b], after[b])
    ensures QuietTail(after)
  {
    hide DirectQuiet, SlotQuiet;
  }

  lemma QuietElsewhere(before: Image, after: Image, block: nat)
    requires QuietTail(before) && SameBut(before, after, block) && block < DATA_END
    ensures QuietTail(after)
  {
    hide DirectQuiet;
  }

  lemma QuietBlank(image: Image)
    requires forall b :: DATA_END <= b < BLOCK_COUNT ==> image[b] == BLANK_BLOCK
    ensures QuietTail(image)
  {
    BlankQuiet(BLANK_BLOCK);
  }
}
