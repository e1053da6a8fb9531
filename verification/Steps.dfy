/**
  What single steps on the flash leave intact: writes and erases outside the referenced blocks,
  and the replacement of the older superblock slot.
 */
module Steps {
  import opened Bytes
  import opened Manifest
  import opened Device
  import opened Volume
  import Opening
  import Placement

  /** Neither the slots nor any block these entries use have changed. */
  ghost predicate Untouched(before: Image, after: Image, es: seq<Entry>)
  {
    before[0] == after[0] && before[1] == after[1] && SameOnReferenced(before, after, es)
  }

  /** The state of a volume that is mounted and agrees with the flash. */
  ghost predicate Good(image: Image, es: seq<Entry>, generation: u64, active: nat)
  {
    VolumeOk(image, es) && Durable(image, es, generation, active)
  }

  lemma GoodRecovers(image: Image, es: seq<Entry>, generation: u64, active: nat)
    requires Good(image, es, generation, active)
    ensures SlotsHold(image, TreeOf(image, es))
    ensures Opening.TailYields(image) ==> RecoversTo(image, TreeOf(image, es))
  {
    hide Opening.NewestSlot, Durable, VolumeOk, TreeOf, Opening.OpenedAs, Opening.TailYields;
    assert AllAcceptable(es) by { VolumeParts(image, es); }
    DurableMounts(image, es, generation, active);
  }

  lemma UntouchedKeeps(before: Image, after: Image, es: seq<Entry>, generation: u64, active: nat)
    requires Untouched(before, after, es) && AllAcceptable(es)
    ensures TreeOf(before, es) == TreeOf(after, es)
    ensures VolumeOk(before, es) ==> VolumeOk(after, es)
    ensures Durable(before, es, generation, active) ==> Durable(after, es, generation, active)
    ensures BothHold(before, es) ==> BothHold(after, es)
  {
    hide VolumeOk, TreeOf, AllAcceptable, SameOnReferenced, ParseSlot;
    Frame(before, after, es);
    if active < 2 {
      assert before[active] == after[active] && before[1 - active] == after[1 - active];
    }
  }

  /** A free run lies in the data range. */
  lemma FreeRunInRange(es: seq<Entry>, first: nat, count: nat)
    requires Placement.FreeRun(es, first, count) && count > 0
    ensures FIRST_DATA_BLOCK <= first && first + count <= BLOCK_COUNT
  {
    assert !Referenced(es, first);
    assert !Referenced(es, first + count - 1);
  }

  lemma FreeWrite(before: Image, after: Image, es: seq<Entry>, first: nat, count: nat)
    requires Placement.FreeRun(es, first, count) && SameOutsideRun(before, after, first, count)
    ensures Untouched(before, after, es)
  {
    hide Referenced;
    if count > 0 {
      FreeRunInRange(es, first, count);
    }
  }

  lemma FreeErase(before: Image, after: Image, es: seq<Entry>, blocks: set<nat>)
    requires SameOutside(before, after, blocks) && forall b :: b in blocks ==> !Referenced(es, b)
    ensures Untouched(before, after, es)
  {}

  /** The two slots after a commit that succeeded. */
  lemma Published(before: Image, after: Image, es: seq<Entry>, next: seq<Entry>, generation: u64, active: nat)
    requires Good(before, es, generation, active) && generation + 1 < 0x1_0000_0000_0000_0000
    requires CommitAccepts(next) && Publishable(before, next)
    requires SameBut(before, after, 1 - active) && after[1 - active] == SuperblockBytes(generation + 1, next)
    ensures Good(after, next, generation + 1, 1 - active)
    ensures TreeOf(after, next) == TreeOf(before, next)
    ensures es == next ==> BothHold(after, next)
  {
    hide VolumeOk, Publishable, CommitAccepts, SuperblockBytes, ParseSlot, ChecksumAccepts, TreeOf, AllAcceptable, SameOnReferenced, ManifestBytes;
    assert VolumeOk(before, next) by { VolumeFromParts(before, next); }
    VolumeParts(before, next);
    SlotsOnly(before, after, next);
    Frame(before, after, next);
    WrittenSlot(generation + 1, next);
    assert after[active] == before[active];
    if active == 0 {
      assert after[1 - active] == after[1] && after[active] == after[0];
    } else {
      assert after[1 - active] == after[0] && after[active] == after[1];
    }
  }

  /** Both entry lists stay sound, whatever became of the slot a commit failed on. */
  lemma SlotLost(before: Image, after: Image, es: seq<Entry>, slot: nat)
    requires VolumeOk(before, es) && slot < 2 && SameBut(before, after, slot)
    ensures AllAcceptable(es) && VolumeOk(after, es) && TreeOf(after, es) == TreeOf(before, es)
  {
    hide VolumeOk, TreeOf, AllAcceptable, SameOnReferenced;
    VolumeParts(before, es);
    SlotsOnly(before, after, es);
    Frame(before, after, es);
  }

  lemma PublishableKept(before: Image, after: Image, es: seq<Entry>, slot: nat)
    requires Publishable(before, es) && slot < 2 && SameBut(before, after, slot)
    ensures AllAcceptable(es) && Publishable(after, es) && TreeOf(after, es) == TreeOf(before, es)
  {
    hide TreeOf, SameOnReferenced;
    SlotsOnly(before, after, es);
    Frame(before, after, es);
  }

  // ----- Safe erases -----

  lemma SlotEraseSafe(image: Image, es: seq<Entry>, generation: u64, active: nat)
    requires Durable(image, es, generation, active)
    ensures SafeErase(EraseEvent(image[0], image[1], 1 - active))
  {
    hide ParseSlot, Durable;
    DurableSlots(image, es, generation, active);
    if active == 1 {
      SlotsErase(image[1], image[0], 0);
    } else {
      SlotsErase(image[0], image[1], 1);
    }
  }

  lemma DurableSlots(image: Image, es: seq<Entry>, generation: u64, active: nat)
    requires Durable(image, es, generation, active)
    ensures active < 2 && (active == 1 ==> Older(image[0], image[1])) && (active == 0 ==> Older(image[1], image[0]))
  {
    hide ParseSlot;
    assert image[1 - active] == if active == 1 then image[0] else image[1];
  }

  ghost predicate Older(a: Block, b: Block)
  {
    ParseSlot(b).Some? && (ParseSlot(a).Some? ==> ParseSlot(a).value.generation < ParseSlot(b).value.generation)
  }

  lemma SlotsErase(kept: Block, erased: Block, slot: nat)
    requires slot < 2 && Older(erased, kept)
    ensures SafeErase(if slot == 0 then EraseEvent(erased, kept, 0) else EraseEvent(kept, erased, 1))
  {
    hide ParseSlot;
  }

  lemma FreeEraseSafe(image: Image, es: seq<Entry>, block: nat)
    requires BothHold(image, es) && !Referenced(es, block)
    ensures SafeErase(EraseEvent(image[0], image[1], block))
  {
    hide ParseSlot;
  }

  /** Erasing free blocks while both slots agree extends a safe log safely. */
  lemma BatchEraseSafe(image: Image, es: seq<Entry>, log: seq<EraseEvent>, longer: seq<EraseEvent>, blocks: seq<nat>)
    requires SafeErases(log) && BothHold(image, es) && forall b :: b in blocks ==> !Referenced(es, b)
    requires |longer| >= |log| && longer[..|log|] == log
    requires forall k :: |log| <= k < |longer| ==>
      longer[k].slot0 == image[0] && longer[k].slot1 == image[1] && longer[k].block in blocks
    ensures SafeErases(longer)
  {
    hide BothHold, Referenced, SafeErase;
    forall k | 0 <= k < |longer| ensures SafeErase(longer[k]) {
      if k < |log| {
        assert longer[..|log|][k] == log[k];
      } else {
        FreeEraseSafe(image, es, longer[k].block);
        assert longer[k] == EraseEvent(image[0], image[1], longer[k].block);
      }
    }
  }

  lemma BlocksInRange(es: seq<Entry>, blocks: seq<nat>)
    requires forall b :: b in blocks ==> !Referenced(es, b)
    ensures forall b :: b in blocks ==> FIRST_DATA_BLOCK <= b < BLOCK_COUNT
  {}

  lemma SameRun(image: Image, first: nat, count: nat)
    ensures SameOutsideRun(image, image, first, count)
  {}

  lemma SameBlocks(image: Image, blocks: set<nat>)
    ensures SameOutside(image, image, blocks)
  {}

  lemma OnlyBlocks(before: Image, after: Image, blocks: seq<nat>)
    requires SameOutside(before, after, Members(blocks))
    ensures forall b :: 0 <= b < BLOCK_COUNT && b !in blocks ==> after[b] == before[b]
  {}

  lemma SlotsNotFree(es: seq<Entry>, blocks: seq<nat>)
    requires forall b :: b in blocks ==> !Referenced(es, b)
    ensures 0 !in blocks && 1 !in blocks
  {}
}
