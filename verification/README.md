# A verified model of the EZFA3FS cartridge filesystem

EZFA3FS keeps files on the NOR flash of a GBA cartridge. The flash has 512 blocks of 64 KiB; programming can
only clear bits, erasing sets a whole block to 0xFF, and power may fail at any byte. The filesystem is
transactional: two superblocks alternate, new data goes to blank unreferenced blocks, and a commit that writes the
older superblock makes the new list of entries durable. Small files share packed blocks; garbage collection and two
kinds of compaction reclaim space.

The central specification is a map from paths to nodes, `TreeSpec.Apply`: a directory with its time, or a file with
its bytes and its time. Every operation of the filesystem is proved to refine one step of that map, maintenance to
refine doing nothing, and whole runs with any number of power cuts and reopenings to be sequences of whole operations:
every one that reported success, none that was declined, and each one whose commit was interrupted, or not.

How the modules build on each other:

- `Bytes`, `Crc32`, `PackedBlock`, `PackedBlockProofs`, `BinPacking`: fields, checksum, the packed-block codec and the
  first-fit packer.
- `NorFlash`, `NorProofs`, `BlockCache`: the in-memory chip over a byte array, what its operations achieve, and the write-through cache over it.
- `Paths`, `Manifest`, `ManifestProofs`, `Volume`: path rules, the superblock codec, and what an image of blocks means:
  which tree it recovers to, the allocation invariant, which erases are safe.
- `Opening`, `CutSlots`: which volume `open` finds among its four candidates, and superblocks of which only a part was written.
- `Device`: the device the filesystem runs on. Any request may fail; a failed program leaves any prefix of its bytes, a
  failed erase leaves anything in its block; power may be lost inside any request. The in-memory chip is shown to be
  one such device. The device keeps a record of whether a program ever asked for a 0-to-1 transition, or a batch was sent although its preparation had been refused, and of every erase.
- `TreeSpec`, `EntryOps`, `EditSteps`, `Placement`, `Steps`, `Allocation`, `Carrying`, `Relocation`, `Batches`, `Capacity`,
  `Repacking`, `Reading`, `Planning`: the map specification and the lemmas each operation rests on.
- `Compaction`: what a compaction has to do, read off the volume before it. `Answers`: what batches and maintenance have to answer.
- `Verdicts`, `IdentifierClash`: how a batch must end, and a volume on which an admitted batch is refused.
- `Filesystem`: the class with the source's fields and one method per operation.
- `Trace`, `Runs`: which runs are correct, what follows for a caller, and that every run is. `Backend`: the staging layer.
  `Session`: the queue of deferred commits and its worker, as a state machine over every interleaving. `CartridgeWriter`:
  the verified writer with retries, over a bridge that may do anything.
- `Tame`, `Strays`: which writes can make `open` find a volume of the other layout, with examples.
- `DirectManifest`, `DirectBoot`, `DirectRuns`: the direct-boot layout, as far as its boot ROM and its metadata go, and
  whole runs of it.

Terms that the contracts use:

- `Usable`: the active superblock holds the entries in memory, the other one is older or invalid, every file is
  readable, extents are pairwise disjoint except for packed neighbours at different offsets of one block of one
  generation, all programs so far were legal and all erases safe.
- An erase of a data block is *safe* when both superblocks held one and the same entry list at that moment and that list
  does not reference the block; an erase of a superblock is safe when the other one is valid and newer.
- `After(t, u, ok)`: the tree is `u` on success and `t` on failure; if a commit was reported failed after it reached
  the flash (`commitFailed`), the slots hold `t` or `u`, and the run is over until the next mount, as the mount
  session enforces.
- `faithful`: no request fails. Contracts of the form "on a fault-free device" say exactly when an operation fails there.
- `SlotsHold(image, t)`: blocks 0 and 1 hold a sound volume with tree `t`. `RecoversTo(image, t)`: open finds it. The difference is
  `TailYields`: block 1 is valid, or blocks 510 and 511 hold no newer direct-boot superblock (`Volume.RecoversIfYields`).
- `tame`: a promise of the caller about the files it writes: no whole block of one, nor any prefix of such a block, could be taken
  for a direct-boot superblock. Whoever keeps it always has `TailYields`; whoever does not give it has all other guarantees.
  `PlainRom` is the same for the first two blocks of a boot ROM and transactional superblocks.
- `checksumSound`: a hypothesis about the device, for two kinds of leftovers: of a cut-short erase of a block that open looks at,
  which may be anything, and of a superblock write cut before the last four bytes of its manifest. Such a leftover passes the
  checksum, whole or cut, only if it is the old or the new superblock. Only statements about what open finds use it. Of every other cut that is
  proved (`CutSlots.CutDecided`, `Volume.CutCommitRecovers`); for a cut in mid-manifest acceptance is exactly a CRC-32
  collision (`CutSlots.CutManifest`).

Where the code does not do what one would expect of it, the model keeps the code's behaviour and states the exact condition:

- `rename` accepts a destination inside the renamed directory. Parents stay directories if and only if it is not
  (`TreeSpec.RenameNamespace`, with the example `TreeSpec.RenameIntoItselfOrphans`).
- `findBlankExtent` looks above and below the cursor separately. It finds nothing if and only if every run of the length asked
  for lies across the cursor (`Allocation.MissedAcross`, with the example `Allocation.RunAcrossCursor`).
- `putFiles` refuses an admissible batch because two records have one id if and only if two packed files have one id, both are in
  blocks the batch rewrites, and neither is overwritten (`Verdicts.ClashExactly`); ids are distinct within a block, not across
  blocks (`IdentifierClash.ClashAcrossBlocks`, with the example `IdentifierClash.AdmittedAndRefused`).
- A cooperative collection step that cannot read a block has already moved past it. A pass ends with garbage left only in blocks at
  which a step failed (`Filesystem.Filesystem.CollectPass`, with the example `Allocation.SkippedBlock`).
- `open` looks at blocks 510 and 511 whenever block 1 is not valid, in both layouts. It finds the transactional volume if and only if
  block 1 is valid or they hold nothing newer (`Opening.OpensSlots`, with the example `Strays.FileHidesVolume`).
- `open` looks at blocks 0 and 1 before the direct-boot metadata, where a boot ROM lies. It finds the direct-boot volume if and only if
  they hold no transactional superblock that goes before it (`Opening.OpensDirect`, `DirectBoot.DirectFilesystem.PutRom`, with the
  example `Strays.RomHidesVolume`).
- Creating a directory over a staged file of the same name makes the mount's visible nodes disagree with its overlay; they agree if
  and only if no such file is staged (`Backend.LiveMountBackend.CreateDirectory`, with the example `Backend.DirectoryOverStaged`).
- The write-through cache drops one slot for a metadata replacement, however long the source is. It agrees with the flash
  afterwards if and only if the excess bytes clear no bit of a cached block
  (`BlockCache.CachedBlockDevice.ReplaceMetadataBlock`, with the example `BlockCache.StaleSlot`).
- In the direct-boot layout, a commit after installing a ROM larger than the slot is not accepted by open if and only if
  an empty file starts below the end of the ROM (`DirectBoot.RomInFront`, with the example
  `DirectBoot.GrownSlotHidesVolume`).

## Model

| member | source | states |
|---|---|---|
| Crc32.Calculate | src/ezfa3fs_crc32.cpp:3-7 | The nested bit loop computes the CRC-32 of the data, for every input |
| Crc32.MatchesRfc1952 | src/ezfa3fs_crc32.cpp:3-7 | That CRC-32 is the function of the table-driven sample code in section 8 of RFC 1952, for every input |
| Crc32.RegisterBijective | src/ezfa3fs_crc32.cpp:3-7 | Feeding any fixed data is a bijection on the 32-bit register: every end value comes from exactly one start value |
| Crc32.DetectsBurst | src/ezfa3fs_crc32.cpp:3-7 | Two different byte strings of one length that differ only within four adjacent bytes have different checksums |
| PackedBlock.CheckFits | src/ezfa3fs_packed_block.cpp:44-57 | The admission loop accepts exactly the nonempty record lists with nonzero ids, nonempty contents and a total size within one block |
| PackedBlock.Encode | src/ezfa3fs_packed_block.cpp:59-122 | Accepts exactly a nonzero generation with fitting records of distinct ids, and fills the buffer with the specified header, records, padding and checksums |
| PackedBlock.Decode | src/ezfa3fs_packed_block.cpp:124-203 | The header checks and the record loop accept and return exactly what the format function accepts and returns, errors included |
| PackedBlockProofs.RoundTrip | src/ezfa3fs_packed_block.cpp:59-203 | For everything encode accepts, decode returns the same generation, records in order, and locations |
| PackedBlockProofs.AcceptedIsEncodable | src/ezfa3fs_packed_block.cpp:124-203 | Conversely every accepted block holds an encodable record list: distinct nonzero ids, nonempty contents, locations laid out back to back up to the stored used length |
| PackedBlockProofs.Reencode | src/ezfa3fs_packed_block.cpp:59-203 | Encoding again whatever was decoded decodes to the same generation, records and locations |
| PackedBlockProofs.LocationsDisjoint | src/ezfa3fs_packed_block.cpp:96-113 | Records lie at increasing, non-overlapping offsets inside the used length, each location naming its own record |
| PackedBlockProofs.TailIgnored | src/ezfa3fs_packed_block.cpp:157-197 | Bytes past the used length never change what decode returns |
| PackedBlockProofs.PayloadCorruption | src/ezfa3fs_packed_block.cpp:124-203 | Any change confined to four adjacent payload bytes is rejected, or lies past the used length and changes nothing |
| PackedBlockProofs.ByteCorruption | src/ezfa3fs_packed_block.cpp:124-203 | Changing any one byte of an accepted block makes decode reject it exactly when the byte lies below the used length; otherwise the result is identical |
| BinPacking.BuildPlan | src/ezfa3fs_packed_block.cpp:205-245 | Refuses exactly the lists with an ineligible record or a repeated id; otherwise returns the first-fit plan |
| BinPacking.PlacesEachOnce | src/ezfa3fs_packed_block.cpp:211-241 | Every record index is in exactly one bin, at one position |
| BinPacking.BinsEncodable | src/ezfa3fs_packed_block.cpp:211-241 | Every bin of a plan is accepted by encode, with any nonzero generation |
| BinPacking.BinsDense | src/ezfa3fs_packed_block.cpp:223-241 | Every bin but the last carries more than 49,056 encoded bytes |
| BinPacking.BinCount | src/ezfa3fs_packed_block.cpp:223-241 | Hence the number of bins is bounded by the total encoded size |
| BinPacking.IndexInRange | src/ezfa3fs_packed_block.cpp:223-241 | What a bin lists are record indexes |
| BinPacking.Locate | src/ezfa3fs_packed_block.cpp:223-241 | Every record index has a place in some bin |
| BinPacking.RepackingNeverGrows | src/ezfa3fs_packed_block.cpp:205-245 | First fit over groups that each fit one block, taken group by group, uses at most as many bins as there are groups |
| Repacking.GatheredFits | src/ezfa3fs_live_filesystem.cpp:1344-1376 | The live records found in one packed block fit one packed block, because distinct entries point at distinct records |
| Repacking.NoMoreBins | src/ezfa3fs_live_filesystem.cpp:1331-1390 | So repacking the live records of some packed blocks never needs more blocks than they occupy |
| NorFlash.Nor.Read | src/ezfa3fs_live_filesystem.cpp:125-129 | Returns the bytes asked for, or fails exactly when the range is outside the chip |
| NorFlash.Nor.Program | src/ezfa3fs_live_filesystem.cpp:131-142 | Bitwise AND that refuses any 0-to-1 transition within the writable prefix, stops after an armed fault, and clears the fault |
| NorFlash.Nor.FailNextProgramAfter | include/ezfa3fs/live_filesystem.hpp:74 | Arms the fault of the next program and changes nothing else |
| NorFlash.Nor.ProgramBlocks | src/ezfa3fs_live_filesystem.cpp:144-157 | Programs block by block and reports how many were completed |
| NorFlash.Nor.EraseBlock | src/ezfa3fs_live_filesystem.cpp:184-189 | Sets one block to 0xFF, or fails outside the chip |
| NorFlash.Nor.EraseBlocks | src/ezfa3fs_live_filesystem.cpp:166-171 | Erases in order up to the first failure |
| NorFlash.Nor.ReplaceBlocks | src/ezfa3fs_live_filesystem.cpp:173-182 | Erases the listed blocks, then programs the run |
| NorFlash.Nor.ReplaceMetadataBlock | src/ezfa3fs_live_filesystem.cpp:159-164 | Erases one block, then programs it |
| NorFlash.ProgrammedIsSource | src/ezfa3fs_live_filesystem.cpp:131-142 | A program that succeeds leaves exactly the source: old AND source equals source |
| NorFlash.BlankAllows | src/ezfa3fs_live_filesystem.cpp:131-142 | Programming blank flash never asks for a 0-to-1 transition and leaves the written prefix followed by blanks |
| NorProofs.ProgramMeans | src/ezfa3fs_live_filesystem.cpp:131-142 | A program succeeds if and only if it lies inside the chip, no armed fault comes before its end and no bit has to rise; then the range holds the source and nothing else has changed |
| NorProofs.FaultMeans | src/ezfa3fs_live_filesystem.cpp:131-142 | With a fault armed before its end a program fails, exactly the bytes before the fault are written, or none if a bit had to rise among them, and the fault is gone |
| NorProofs.EraseBlocksMeans | src/ezfa3fs_live_filesystem.cpp:166-171 | A list of erases succeeds if and only if all blocks are inside the chip; then exactly these are blank and all others as before |
| NorProofs.MetadataMeans | src/ezfa3fs_live_filesystem.cpp:159-164 | Replacing a metadata block by at most one block succeeds if and only if it is inside the chip and no fault comes before its end, whatever the block held; then it holds the source and blanks |
| NorProofs.ReplaceMeans | src/ezfa3fs_live_filesystem.cpp:173-182 | Replacing a run each block of which is blank or listed for erasing succeeds without a fault; the run holds the source, other listed blocks are blank, the rest is as before |
| Device.NorProgramIsOutcome | src/ezfa3fs_live_filesystem.cpp:131-142 | Every program of the in-memory chip is an outcome the filesystem's abstract device allows |
| Device.NorEraseIsOutcome | src/ezfa3fs_live_filesystem.cpp:184-189 | So is every erase |
| Device.FaultyDevice.ProgramBlocks | src/ezfa3fs_live_filesystem.cpp:144-157 | A device that may fail at any byte: success stores the source; blank targets keep all programs legal; on a fault-free device blank targets succeed |
| Device.FaultyDevice.EraseBlocks | src/ezfa3fs_live_filesystem.cpp:166-171 | Success leaves the listed blocks blank, nothing else changes, every request is recorded with what both superblocks held |
| Device.FaultyDevice.ReplaceMetadataBlock | src/ezfa3fs_live_filesystem.cpp:159-164 | Success leaves the new superblock; a cut program leaves a prefix of it; a cut erase may leave anything |
| Device.FaultyDevice.ReplaceBlocks | src/ezfa3fs_live_filesystem.cpp:173-182 | Erase then program of one run: legal when every block of the run is blank or listed for erasing |
| BlockCache.CachedBlockDevice.LoadBlock | src/ezfa3fs_cached_block_device.cpp:12-27 | Fills a slot from the device, or fails outside it |
| BlockCache.CachedBlockDevice.ReadBytes | src/ezfa3fs_cached_block_device.cpp:29-47 | A cached read returns the bytes the device holds, for ranges over several blocks too |
| BlockCache.CachedBlockDevice.ProgramBytes | src/ezfa3fs_cached_block_device.cpp:61-77 | Same result and device state as the device alone; the slot stored afterwards agrees with the flash |
| BlockCache.CachedBlockDevice.ProgramWholeBlocks | src/ezfa3fs_cached_block_device.cpp:79-93 | Same for programming several blocks, failing or not |
| BlockCache.CachedBlockDevice.EraseOne | src/ezfa3fs_cached_block_device.cpp:95-102 | Same for erasing one block |
| BlockCache.CachedBlockDevice.EraseMany | src/ezfa3fs_cached_block_device.cpp:104-113 | Same for erasing a list of blocks, failing or not |
| BlockCache.CachedBlockDevice.ReplaceExtent | src/ezfa3fs_cached_block_device.cpp:115-129 | Same for replacing a run |
| BlockCache.CachedBlockDevice.ReplaceMetadataBlock | src/ezfa3fs_cached_block_device.cpp:131-140 | Same result and device state for replacing a metadata block with a source of any length; the cache agrees with the flash afterwards if and only if no bit of another cached block was cleared, which a source of one block never does |
| BlockCache.StaleSlot | src/ezfa3fs_cached_block_device.cpp:131-140 | A source one byte longer than a block, after which a cached block differs from the flash |
| BlockCache.ShortIsContained | src/ezfa3fs_cached_block_device.cpp:131-140 | A source of at most one block is always within that |
| BlockCache.SparesIs | src/ezfa3fs_cached_block_device.cpp:131-140 | What decides that, read off the request and the flash before it: the bits that the excess bytes clear |
| BlockCache.CachedBlockDevice.Execute | src/ezfa3fs_cached_block_device.cpp:12-140 | One request of any kind gets the same answer, and leaves the same flash, as the device alone; the cache still agrees afterwards, with the one exception of an over-long metadata source |
| BlockCache.CachedBlockDevice.ExecuteAll | src/ezfa3fs_cached_block_device.cpp:12-140 | Every sequence of requests, with faults armed anywhere, is answered as by the device alone, as long as no metadata replacement clears bits outside its own block |
| Paths.CheckPath | src/ezfa3fs_live_filesystem.cpp:64-71 | Accepts exactly the nonempty paths without a backslash in which no component between slashes or ends is empty, a dot or two dots |
| Paths.ValidPathMeans | src/ezfa3fs_live_filesystem.cpp:64-71 | The same about the predicate that every other member uses for validity |
| Paths.RelabelValid | src/ezfa3fs_live_filesystem.cpp:1576-1576 | Replacing the head of a valid path by a valid path gives a valid path |
| Paths.InsideMeans | src/ezfa3fs_live_filesystem.cpp:1572-1579 | A path is below a directory if and only if it is the directory, a slash and a rest; renaming the directory puts the new one before the slash and the rest |
| Paths.RelabelParent | src/ezfa3fs_live_filesystem.cpp:1576-1576 | Relabelling commutes with taking the parent |
| Manifest.BuildManifest | src/ezfa3fs_live_filesystem.cpp:338-371 | The entry loop refuses exactly repeated names, over-long names and inconsistent packed or dedicated fields, and serializes the rest |
| Manifest.BuildSuperblock | src/ezfa3fs_live_filesystem.cpp:338-381 | Refuses exactly what commit refuses, and otherwise builds the specified superblock bytes |
| Manifest.ReadSlot | src/ezfa3fs_live_filesystem.cpp:224-288 | The slot loop of open accepts and returns exactly what the parse function does |
| Manifest.ReadEntries | src/ezfa3fs_live_filesystem.cpp:245-287 | So does the entry loop |
| ManifestProofs.CommitOpenRoundTrip | src/ezfa3fs_live_filesystem.cpp:216-385 | What commit writes passes open's checksum, and parses back to the same generation and entries exactly when every entry passes open's own checks |
| ManifestProofs.ParsedIsCommittable | src/ezfa3fs_live_filesystem.cpp:245-287 | Whatever open accepts, commit can publish again |
| CutSlots.CommitSeals | src/ezfa3fs_live_filesystem.cpp:338-381 | Every superblock that commit programs carries the checksum of its manifest, and nothing but blanks behind it |
| CutSlots.DirectSeals | src/ezfa3fs_live_filesystem.cpp:338-381 | So does every direct-boot superblock |
| CutSlots.CutHeaderRejected | src/ezfa3fs_live_filesystem.cpp:20-20 | A superblock of either layout cut anywhere within its 32-byte header is rejected, with no hypothesis about checksums |
| CutSlots.CutManifest | src/ezfa3fs_live_filesystem.cpp:236-240 | A superblock cut within its manifest is told from a whole one by the checksum alone |
| CutSlots.CutTailRejected | src/ezfa3fs_live_filesystem.cpp:236-240 | A cut that loses at most the last four manifest bytes is always rejected, or lost nothing |
| CutSlots.CutDecided | src/ezfa3fs_live_filesystem.cpp:236-240 | So only a cut in mid-manifest is left to the checksum; every other cut leaves the whole superblock or one that open rejects |
| Volume.ChooseNewest | src/ezfa3fs_live_filesystem.cpp:289-296 | Of the two transactional slots the one with the larger generation is chosen |
| Opening.Probe | src/ezfa3fs_live_filesystem.cpp:221-296 | The loop over the four candidates, blocks 0, 1, 510 and 511, with its early end at a valid block 1, finds exactly what the specification says; a failed read fails it |
| Opening.OpensSlots | src/ezfa3fs_live_filesystem.cpp:221-296 | Open finds a transactional volume if and only if block 1 is valid, or block 0 is and neither 510 nor 511 holds a direct-boot superblock of greater generation; it is the newer of the two slots |
| Opening.OpensDirect | src/ezfa3fs_live_filesystem.cpp:221-296 | Open finds a direct-boot volume if and only if block 1 is not valid and block 0 is not or is older than it; it is the newest of the last two blocks |
| Volume.DurableMounts | src/ezfa3fs_live_filesystem.cpp:216-309 | When one superblock holds the entries and the other is older or invalid, the slots give exactly these entries, generation and slot, and open finds them if and only if the last two blocks yield |
| Volume.Frame | src/ezfa3fs_live_filesystem.cpp:387-394 | Changing only unreferenced blocks changes no file, no directory and no invariant |
| Volume.FailedCommitRecovers | src/ezfa3fs_live_filesystem.cpp:338-385 | Whatever a failed commit left in the alternate slot, the slots hold the tree before or the tree after, and open finds it if the last two blocks yield |
| Volume.RecoversIfYields | src/ezfa3fs_live_filesystem.cpp:221-296 | Open finds what the slots hold if and only if the last two blocks yield |
| Volume.CutCommitRecovers | src/ezfa3fs_live_filesystem.cpp:338-385 | The same without any hypothesis, when the write of the superblock was cut anywhere but in mid-manifest |
| TreeSpec.BatchReadsBack | src/ezfa3fs_live_filesystem.cpp:716-1019 | After a batch each batch path holds its bytes and time, and every other path is unchanged |
| TreeSpec.ParentOkMeans | src/ezfa3fs_live_filesystem.cpp:326-329 | A path has a parent in the tree if and only if it has no slash, or is a directory of the tree, a slash and a name without one |
| TreeSpec.RenameRelabels | src/ezfa3fs_live_filesystem.cpp:1572-1579 | A rename relabels exactly the source and, for a directory, its subtree, without collisions, and keeps all contents |
| TreeSpec.RenameNamespace | src/ezfa3fs_live_filesystem.cpp:1572-1579 | Parents stay directories under rename if and only if the destination is not inside the renamed directory |
| TreeSpec.RenameIntoItselfOrphans | src/ezfa3fs_live_filesystem.cpp:1572-1579 | A concrete rename into the directory's own subtree that the code accepts and that orphans the entry |
| TreeSpec.ApplyKeepsNamespace | src/ezfa3fs_live_filesystem.cpp:326-329 | Every operation keeps the namespace invariant if and only if it is not a rename of a directory into itself |
| EntryOps.UpsertPublishable | src/ezfa3fs_live_filesystem.cpp:989-1011 | Replacing or appending an entry whose blocks are disjoint from all others keeps the allocation invariant and overwrites one path |
| EntryOps.RemovePublishable | src/ezfa3fs_live_filesystem.cpp:1564-1564 | Removing an entry keeps the allocation invariant and removes one path |
| EntryOps.RenameTreeOf | src/ezfa3fs_live_filesystem.cpp:1576-1577 | Renaming the entries of a subtree renames the tree |
| EditSteps.CreateSpec | src/ezfa3fs_live_filesystem.cpp:650-655 | createDirectory's guard is the guard of the tree operation, and its new list shows the new tree |
| EditSteps.RemoveFileSpec | src/ezfa3fs_live_filesystem.cpp:1548-1565 | The same for removeFile |
| EditSteps.RemoveDirectorySpec | src/ezfa3fs_live_filesystem.cpp:1566-1571 | The same for removeDirectory, whose emptiness test is the one over the tree |
| EditSteps.RenameStep | src/ezfa3fs_live_filesystem.cpp:1572-1579 | The same for rename; a list with colliding names is refused by commit |
| EditSteps.EmptyVolume | src/ezfa3fs_live_filesystem.cpp:191-196 | A blank chip with one empty superblock recovers to the empty tree, and its last two blocks yield |
| EditSteps.MountedTree | src/ezfa3fs_live_filesystem.cpp:296-308 | What is loaded from slots that hold a tree is a good volume that shows it |
| Placement.PackedReadsBack | src/ezfa3fs_live_filesystem.cpp:37-62 | A record of an encoded block is found again through the entry that locates it |
| Placement.ExtentReads | src/ezfa3fs_live_filesystem.cpp:1644-1677 | A file stored block by block with 0xFF padding reads back its bytes |
| Placement.BatchPlaceable | src/ezfa3fs_live_filesystem.cpp:917-1013 | The entries of a batch written to a free run read back, are pairwise compatible and compatible with every other entry |
| Steps.Published | src/ezfa3fs_live_filesystem.cpp:338-385 | A successful commit leaves the new list durable and the older slot behind it |
| Steps.UntouchedKeeps | src/ezfa3fs_live_filesystem.cpp:387-394 | Writes outside superblocks and referenced blocks keep the tree, the allocation invariant and durability |
| Steps.BatchEraseSafe | src/ezfa3fs_live_filesystem.cpp:1269-1301 | Erasing unreferenced blocks while both superblocks hold the list keeps every recorded erase safe |
| Relocation.BatchPublished | src/ezfa3fs_live_filesystem.cpp:969-1013 | The merged entry list satisfies the allocation invariant and shows exactly the written tree |
| Relocation.FileRelocation | src/ezfa3fs_live_filesystem.cpp:1497-1507 | Moving a dedicated file to a free run keeps the tree and the allocation invariant |
| Relocation.RelocationFrees | src/ezfa3fs_live_filesystem.cpp:1514-1536 | After the move no entry references the source blocks |
| Relocation.RelocationLowers | src/ezfa3fs_live_filesystem.cpp:1497-1507 | A move changes the sum of first blocks by destination minus source |
| Relocation.Repacked | src/ezfa3fs_live_filesystem.cpp:1410-1448 | Repacking all live packed records keeps the tree and the allocation invariant, frees every old packed block and leaves one packed block per bin |
| Planning.BatchIsStored | src/ezfa3fs_live_filesystem.cpp:969-1013 | After the merge every record is found packed and every dedicated file with the blocks it needs |
| Batches.BatchWrites | src/ezfa3fs_live_filesystem.cpp:840-886 | Carried neighbours plus incoming records and dedicated files together write exactly the batch over the tree |
| Capacity.AcceptedNames | src/ezfa3fs_live_filesystem.cpp:338-371 | Whether commit accepts an acceptable list depends on its set of names alone |
| Capacity.AdmittedFits | src/ezfa3fs_live_filesystem.cpp:734-765 | A batch that passes the size precheck produces a manifest that fits |
| Planning.NumberRecords | src/ezfa3fs_live_filesystem.cpp:875-886 | Incoming small files get consecutive ids, or the id space is exhausted |
| Planning.CountBlocks | src/ezfa3fs_live_filesystem.cpp:897-906 | Counts the dedicated blocks of a batch, or reports that they exceed the data area |
| Planning.JoinFiles | src/ezfa3fs_live_filesystem.cpp:939-945 | Concatenates the padded dedicated files |
| Planning.EncodeBins | src/ezfa3fs_live_filesystem.cpp:920-937 | Encodes every bin of a plan |
| Reading.ResolveRecord | src/ezfa3fs_live_filesystem.cpp:37-62 | The record loop finds the record with the entry's id and offset and rejects a mismatch of time, size or checksum |
| Reading.WholeRead | src/ezfa3fs_live_filesystem.cpp:1581-1587 | Reading a whole entry and checking its checksum is reading the file |
| Filesystem.Filesystem.Commit | src/ezfa3fs_live_filesystem.cpp:338-385 | Only the alternate slot changes; success advances generation and slot and leaves the specified bytes; a refused manifest touches nothing |
| Filesystem.Filesystem.Publish | src/ezfa3fs_live_filesystem.cpp:338-385 | Success publishes the list; failure after touching flash leaves slots that hold the old or the new tree |
| Filesystem.Filesystem.CommitEdit | src/ezfa3fs_live_filesystem.cpp:650-655 | Commit with rollback of the entry list |
| Filesystem.Filesystem.Format | src/ezfa3fs_live_filesystem.cpp:191-196 | Success leaves an image that opens to the empty tree with a blank data area |
| Filesystem.Filesystem.Open | src/ezfa3fs_live_filesystem.cpp:216-309 | Loads exactly what open finds, if that is a transactional volume, and reports the other layout otherwise; slots that hold a tree become a usable filesystem with that tree; the cursor is behind the last extent |
| Filesystem.Filesystem.NextOpen | src/ezfa3fs_live_filesystem.cpp:221-385 | After any operation, failed commits included, the next open finds the tree before or the tree after it, if no file written could be taken for a direct-boot superblock |
| Tame.PackedIsQuiet | src/ezfa3fs_live_filesystem.cpp:920-937 | No packed block, cut anywhere, is taken for a direct-boot superblock |
| Tame.QuietRelocation | src/ezfa3fs_live_filesystem.cpp:1497-1507 | A relocated file puts something in the last two blocks only from block 511 to block 510, and nothing that was not quiet there |
| Tame.QuietBatch | src/ezfa3fs_live_filesystem.cpp:917-945 | What a batch writes is quiet if its whole-block files are |
| Strays.FileHidesVolume | src/ezfa3fs_live_filesystem.cpp:221-296 | A volume whose file in block 510 is a direct-boot superblock of greater generation: once slot 1 is lost, the slots still hold the volume and open finds the one in the file |
| Strays.BaitedFlash | src/ezfa3fs_live_filesystem.cpp:221-296 | There is such a flash for every generation above two |
| Filesystem.Filesystem.CreateDirectory | src/ezfa3fs_live_filesystem.cpp:650-655 | Refines the map operation; on failure the tree is unchanged, and the reason is a refused manifest |
| Filesystem.Filesystem.RemoveFile | src/ezfa3fs_live_filesystem.cpp:1548-1565 | Refines removal of one file |
| Filesystem.Filesystem.RemoveDirectory | src/ezfa3fs_live_filesystem.cpp:1566-1571 | Refines removal of one empty directory |
| Filesystem.Filesystem.Rename | src/ezfa3fs_live_filesystem.cpp:1572-1579 | Refines relabelling of a subtree |
| Filesystem.Filesystem.FreeBlocks | src/ezfa3fs_live_filesystem.cpp:396-401 | Counts exactly the unreferenced blocks not set aside |
| Allocation.FreeCountIs | src/ezfa3fs_live_filesystem.cpp:396-401 | That count is the cardinality of the set of those blocks |
| Filesystem.Filesystem.Inspect | src/ezfa3fs_live_filesystem.cpp:442-482 | One scan returns the first blank unreferenced run of the length asked for, or there is none in the range; exactly the non-blank blocks it has seen are set aside |
| Filesystem.Filesystem.FindBlankExtent | src/ezfa3fs_live_filesystem.cpp:437-491 | Finds the first blank unreferenced run at or above the cursor; only if there is none, the first one below it; not found means that neither side holds one |
| Allocation.MissedAcross | src/ezfa3fs_live_filesystem.cpp:437-491 | Neither side holds one if and only if every run of that length lies across the cursor |
| Allocation.RunAcrossCursor | src/ezfa3fs_live_filesystem.cpp:437-491 | A concrete empty volume with a run of 510 blocks that both searches miss |
| Filesystem.Filesystem.FindBlankExtentBefore | src/ezfa3fs_live_filesystem.cpp:520-539 | The lowest suitable run below the limit, or there is none |
| Filesystem.Filesystem.ProgramPreparedExtent | src/ezfa3fs_live_filesystem.cpp:550-570 | Programs a free blank run legally; on failure exactly the possibly written blocks are set aside; the tree is untouched either way |
| Filesystem.Filesystem.FindGarbage | src/ezfa3fs_live_filesystem.cpp:1230-1262 | Lists exactly the unreferenced blocks that are not blank |
| Filesystem.Filesystem.CollectGarbage | src/ezfa3fs_live_filesystem.cpp:1219-1309 | Refines doing nothing on every outcome; every erase is safe in both slots; success leaves every unreferenced block blank and available, touches nothing referenced and reports the exact count; without garbage nothing is written and the generation stays |
| Allocation.GarbageCountIs | src/ezfa3fs_live_filesystem.cpp:1240-1262 | The reported count is the cardinality of the set of unreferenced blocks that are not blank |
| Filesystem.GcState.Start | src/ezfa3fs_live_filesystem.cpp:1109-1127 | Resynchronizing discards every stale decision and restarts the pass |
| Filesystem.Filesystem.CollectGarbageStep | src/ezfa3fs_live_filesystem.cpp:1097-1216 | The same for the cooperative form, given resynchronization on the first step after a mutation: one block per step, erase only with both slots equal; a completed pass leaves every unreferenced block blank and available except the blocks whose read failed, which are recorded exactly |
| Filesystem.Filesystem.ScanOne | src/ezfa3fs_live_filesystem.cpp:1132-1163 | One step of the pass adds the block to the candidates if and only if it is unreferenced and not blank, and keeps the record of the pass exact |
| Filesystem.Filesystem.CollectPass | src/ezfa3fs_live_filesystem.cpp:1097-1216 | A whole pass of such steps: when it ends, every unreferenced block is blank and available except those at which a step failed; none if no step failed |
| Allocation.SkippedBlock | src/ezfa3fs_live_filesystem.cpp:1132-1163 | A pass over an empty volume that is complete and has left the garbage in the block it could not read |
| Filesystem.Filesystem.ErasePending | src/ezfa3fs_live_filesystem.cpp:1165-1210 | The erase batch of the pass: one commit first unless the slots are synchronized already, then all candidates reclaimed |
| Filesystem.Filesystem.ReadPackedBlock | src/ezfa3fs_live_filesystem.cpp:1597-1625 | Returns the decoded block when its generation is the one asked for; on a fault-free device it fails only otherwise |
| Filesystem.Filesystem.ReadEntryRange | src/ezfa3fs_live_filesystem.cpp:1644-1677 | Returns exactly the part of the file asked for, clipped to its end |
| Filesystem.Filesystem.ReadFile | src/ezfa3fs_live_filesystem.cpp:1581-1587 | Returns the file's bytes as the tree has them; on a fault-free device it fails only for missing, directory or corrupt entries |
| Filesystem.Filesystem.ReadFileRange | src/ezfa3fs_live_filesystem.cpp:1589-1595 | The same for a range |
| Filesystem.Filesystem.Verify | src/ezfa3fs_live_filesystem.cpp:1679-1729 | Succeeds on a fault-free device exactly when every file is readable |
| Filesystem.Filesystem.CarryBlock | src/ezfa3fs_live_filesystem.cpp:840-873 | Carries every live record of one packed block that the batch does not replace, in the order of the entries, with contents, time and checksum: under its own id for a batch, under the next numbers for a compaction |
| Filesystem.Filesystem.CarryAll | src/ezfa3fs_live_filesystem.cpp:840-873 | The same over exactly the blocks to be rewritten, in ascending order, keeping record ids: the result is that one list |
| Filesystem.Filesystem.PlaceRecords | src/ezfa3fs_live_filesystem.cpp:970-994 | The loops over bins and locations merge exactly the planned entries |
| Filesystem.Filesystem.PlaceFiles | src/ezfa3fs_live_filesystem.cpp:996-1013 | The loop over dedicated files merges exactly their entries |
| Filesystem.Filesystem.SourceBlocks | src/ezfa3fs_live_filesystem.cpp:1327-1329 | The ascending set of packed blocks in use |
| Filesystem.Filesystem.GatherPacked | src/ezfa3fs_live_filesystem.cpp:1331-1379 | Gathers exactly the live packed records of the sources, block by block, numbered from one, in no more bins than blocks, and takes the generation after the latest one in use |
| Filesystem.Filesystem.SettleMove | src/ezfa3fs_live_filesystem.cpp:1450-1480 | Two commits, then the source blocks are erased; the tree is the same on every outcome; success leaves the sources blank and available, every other data block as it was and the cursor at the start; if the first commit is refused the entries go back and the destination is set aside |
| Filesystem.Filesystem.CompactPackedBlocks | src/ezfa3fs_live_filesystem.cpp:1319-1483 | Keeps the tree on every outcome. Read off the volume before the call: if first fit over the live packed records saves a block and a search from the cursor finds room for the bins, or saves none and a spare run lies below all packed blocks, then success puts every record into its first-fit bin there, vacates all old packed blocks and reports exactly these; otherwise success changes nothing and reports nothing |
| Filesystem.Filesystem.MovePacked | src/ezfa3fs_live_filesystem.cpp:1410-1476 | The move itself: program, merge, publish twice, erase; the new entries are exactly the planned ones, and no block that was in use or ready is lost |
| Filesystem.Filesystem.MovableFiles | src/ezfa3fs_live_filesystem.cpp:1488-1495 | Exactly the nonempty dedicated files, highest first block first |
| Filesystem.Filesystem.RelocateOne | src/ezfa3fs_live_filesystem.cpp:1497-1543 | Moves the highest dedicated file that has a spare run of its length below it to the lowest such run, which strictly lowers the sum of first blocks; or no file has one |
| Filesystem.Filesystem.RelocateFile | src/ezfa3fs_live_filesystem.cpp:1503-1541 | One relocation keeps the tree on every outcome; success moves exactly one entry down, leaves its source blank and loses no block that was in use or ready |
| Filesystem.Filesystem.CompactFiles | src/ezfa3fs_live_filesystem.cpp:1485-1546 | Terminates; keeps the tree on every outcome. Success is repacking, exactly if the volume before the call gives reason for it, then moves of whole-block files downwards until none has an available blank run of its length wholly below it; packed files stay in as many blocks as first fit needs, the old packed blocks hold none of them and are ready or in new use, and the report counts exactly the repacked files and their blocks plus the moves and theirs |
| Filesystem.Filesystem.Compact | src/ezfa3fs_live_filesystem.cpp:1312-1317 | Collection followed by compaction. Success leaves no garbage and reports its count; what is repacked and moved is told by the entries and the cursor before the call alone, every unreferenced block counting as room; the report counts exactly these moves |
| Filesystem.Filesystem.AllocateExtent | src/ezfa3fs_live_filesystem.cpp:493-518 | Returns the first free blank run at or above the cursor, else below it, with collection and compaction on the way keeping the tree. On a fault-free device with generations left: if there is such a run at once, nothing is written; if a run of unreferenced blocks of that length lies on one side of the cursor, blank or not, it succeeds without moving anything; it fails only with all garbage collected, no run left, and too few free blocks or no file that can move down |
| Filesystem.Filesystem.Classify | src/ezfa3fs_live_filesystem.cpp:737-774 | Accepts exactly the batches of distinct valid non-directory paths with parents whose manifest fits at every step; the blocks to rewrite are exactly those that hold an overwritten packed file |
| Filesystem.Filesystem.ChooseRepack | src/ezfa3fs_live_filesystem.cpp:779-816 | Picks the fullest packed block that can take the smallest incoming record, the first one in entry order among equals, if any can |
| Filesystem.Filesystem.MeasureBlocks | src/ezfa3fs_live_filesystem.cpp:788-803 | Measures the live bytes of every packed block in use, in the order of first use |
| Filesystem.Filesystem.NextIdentifiers | src/ezfa3fs_live_filesystem.cpp:824-838 | One more than the largest record id in use and a generation above all in use; refused if and only if the largest generation is in use |
| Filesystem.Filesystem.WriteExtent | src/ezfa3fs_live_filesystem.cpp:947-966 | Up to three allocations and programs; success stores the extent in a free run and sets the cursor behind it, failure keeps the tree; on a fault-free device it fails only as the allocation does |
| Filesystem.Filesystem.WriteBatch | src/ezfa3fs_live_filesystem.cpp:917-1018 | Writes and publishes a planned batch: afterwards the tree is the old one or the batch over it, as reported; on a fault-free device it fails only as the allocation does, or at the last generation |
| Verdicts.RewritesUnique | src/ezfa3fs_live_filesystem.cpp:767-816 | The blocks a batch rewrites are determined by the entries and the batch |
| Verdicts.ClashExactly | src/ezfa3fs_live_filesystem.cpp:840-895 | The plan over the carried and the new records is refused if and only if two of the carried files have one record id |
| IdentifierClash.ClashAcrossBlocks | src/ezfa3fs_live_filesystem.cpp:840-895 | Such files are always in two different blocks |
| IdentifierClash.AdmittedAndRefused | src/ezfa3fs_live_filesystem.cpp:716-895 | A concrete flash that opens as a volume, and a batch that every earlier check admits there and that is refused for clashing ids; half of the batch is not |
| Filesystem.Filesystem.StoreBatch | src/ezfa3fs_live_filesystem.cpp:818-1018 | The batch after admission. It ends at the first obstacle of four, each an exact condition on entries and batch: used-up generations, too few record ids, clashing ids, more blocks needed than the data area has; without one it is done or failed in writing, on a fault-free device only if the last generation is reached or there was no run of unreferenced blocks on either side of the cursor and everything has been tried |
| Filesystem.Filesystem.PutFiles | src/ezfa3fs_live_filesystem.cpp:716-1019 | Refines the batch update of the tree on every outcome; afterwards each file of up to 16 KiB is packed and every other one has the blocks it needs. Rejected if and only if not admissible; otherwise the rewritten blocks are the ones determined above and the end is the one of StoreBatch. On a fault-free device a failed write means the last generation, or that before the call no run of unreferenced blocks of the needed length lay on either side of the cursor and that now no garbage is left, no such run, and too few free blocks or no file that can move down |
| DirectManifest.BuildDirect | src/ezfa3fs_live_filesystem.cpp:338-381 | Builds the direct-boot superblock, or refuses exactly what commit refuses |
| DirectManifest.ReadDirectSlot | src/ezfa3fs_live_filesystem.cpp:224-288 | The slot loop of open for the direct-boot layout returns exactly what the parse function does |
| DirectManifest.DirectRoundTrip | src/ezfa3fs_live_filesystem.cpp:216-385 | Open takes back what commit wrote if and only if the slot is in range, every entry passes open's checks, and only the boot ROM starts below the end of the slot |
| DirectManifest.ParsedIsPlaced | src/ezfa3fs_live_filesystem.cpp:245-287 | Whatever open accepts keeps the slot to the ROM and can be committed again |
| DirectManifest.RomNameMeans | src/ezfa3fs_live_filesystem.cpp:75-82 | The name of a boot ROM is a valid one without a slash: something, a dot, and the letters g, b and a in either case |
| DirectBoot.RomInFront | src/ezfa3fs_live_filesystem.cpp:276-284 | Putting a ROM in front of an accepted list gives an accepted list if and only if no empty file starts below the end of the ROM |
| DirectBoot.GrownSlotHidesVolume | src/ezfa3fs_live_filesystem.cpp:276-284 | A concrete volume with an empty file behind a one-block slot: installing a two-block ROM commits a manifest that open rejects |
| DirectBoot.WithoutRom | src/ezfa3fs_live_filesystem.cpp:1551-1552 | Taking the ROM away never makes open reject the list |
| DirectBoot.DirectFilesystem.Commit | src/ezfa3fs_live_filesystem.cpp:338-385 | Only the metadata block that is not active changes; success leaves the specified bytes and advances generation and slot; a refused manifest touches nothing; a commit that failed on the device leaves the old block, the new one or one that open rejects |
| DirectBoot.DirectFilesystem.FormatEmpty | src/ezfa3fs_live_filesystem.cpp:198-206 | Success leaves a flash that opens as an empty volume with the slot asked for; on a fault-free device it fails only for a slot out of range |
| DirectBoot.DirectFilesystem.Open | src/ezfa3fs_live_filesystem.cpp:224-308 | Loads exactly what open finds, if that is a direct-boot volume, and reports the other layout otherwise; a ROM that is present fixes the slot; the cursor is the end of the last extent |
| DirectBoot.DirectFilesystem.ResizeSlot | src/ezfa3fs_live_filesystem.cpp:572-613 | Grows only over blocks no file occupies and leaves them blank; on failure slot and cursor are as before; on a fault-free device it fails exactly for a bad size or an occupied block |
| DirectBoot.DirectFilesystem.FindStale | src/ezfa3fs_live_filesystem.cpp:615-635 | Lists exactly block zero and the non-blank blocks of the ROM's extent |
| DirectBoot.DirectFilesystem.InstallRom | src/ezfa3fs_live_filesystem.cpp:674-690 | Writes the ROM into the slot without an illegal program, or restores the layout |
| DirectBoot.DirectFilesystem.PutRom | src/ezfa3fs_live_filesystem.cpp:657-697 | Installs the boot ROM: all programs legal, no listed file touched, ROM stored at offset zero. The next open finds it if and only if no empty file starts below its end, what is then in block 1 is no transactional superblock, and what is in block 0 is none or is older than the new volume; the same about the previous volume where an empty file is in the way; after a commit that failed on the device the last two blocks hold one of the two |
| DirectBoot.DirectFilesystem.RemoveRom | src/ezfa3fs_live_filesystem.cpp:1548-1563 | Unlists the ROM before erasing block zero; the next open finds the remaining list if and only if what the ROM left in block 1 is no transactional superblock; after a commit that failed on the device the last two blocks hold the list with the ROM, its blocks untouched, or the list without it |
| DirectBoot.DirectFilesystem.Published | src/ezfa3fs_live_filesystem.cpp:289-305 | What a commit leaves in the last two blocks, in both cases, and when the next open finds it |
| DirectBoot.LeftBehindMounts | src/ezfa3fs_live_filesystem.cpp:289-305 | After a failed commit the last two blocks hold the volume before it or the volume after it |
| Strays.RomHidesVolume | src/ezfa3fs_live_filesystem.cpp:657-697 | A trimmed dump of a transactional cartridge, installed as a ROM: it fits and no empty file is in its way, and the next open mounts the dump |
| DirectRuns.RunRoms | src/ezfa3fs_live_filesystem.cpp:657-697 | Over every sequence of ROM installations, removals, power cuts and reopenings, each request is a correct step that agrees with what it reported; every program is legal; no reopening strays if no ROM could be taken for a transactional superblock |
| DirectRuns.FormatAndRunRoms | src/ezfa3fs_live_filesystem.cpp:198-206 | The same starting from format |
| DirectRuns.OthersAreKept | src/ezfa3fs_live_filesystem.cpp:657-697 | Through such a run the files other than the ROM stay listed and no byte of them changes |
| DirectRuns.RomSurvives | src/ezfa3fs_live_filesystem.cpp:657-697 | A ROM that was reported installed, with no empty file in its way, is listed and stored at offset zero until a removal, through failures, power cuts and reopenings; on a fault-free device every reopening finds it, if all ROMs were plain |
| DirectRuns.ReopenDirect | src/ezfa3fs_live_filesystem.cpp:216-309 | A reopening finds what the last two blocks hold if and only if the first two yield, which they do after plain ROMs |
| CartridgeWriter.Bridge.Verify | src/ezfa3fs_cartridge_storage.cpp:1571-1608 | Success means that the block reads back as expected; failure comes only after three readbacks, and on a fault-free bridge only for a different block |
| CartridgeWriter.Bridge.EraseBlock | src/ezfa3fs_cartridge_storage.cpp:1609-1631 | Success means verified blank; only this block is touched; failure comes only after three erases or without a session |
| CartridgeWriter.Bridge.ProgramBlock | src/ezfa3fs_cartridge_storage.cpp:1671-1702 | Success means that the block reads back as the source; only this block is touched; a fault-free bridge succeeds |
| CartridgeWriter.Bridge.ProgramExtent | src/ezfa3fs_cartridge_storage.cpp:1765-1888 | Success means that the whole extent reads back as the source; a block accepted by verification is never erased or programmed again; over blank blocks a fault-free bridge is asked for one transfer and nothing else |
| CartridgeWriter.Bridge.SettleBlock | src/ezfa3fs_cartridge_storage.cpp:1839-1874 | One block is accepted as it is, or after erase, restart and program; on a fault-free bridge a block that is right is not touched |
| CartridgeWriter.Bridge.RecoverBlock | src/ezfa3fs_cartridge_storage.cpp:1859-1873 | The recovery touches only the failed block, and success means a restart and that it reads back as the source |
| CartridgeWriter.Bridge.ReplaceExtent | src/ezfa3fs_cartridge_storage.cpp:1890-1989 | Under arbitrary faults: completed is the length of a prefix that was verified to read back as the source and that no later attempt touches; success exactly when the request is valid and this prefix is the whole extent; invalid requests touch nothing; failure of a valid one comes only after three attempts; a fault-free bridge succeeds, in one attempt if all blocks are listed for erasing |
| CartridgeWriter.Bridge.ReplaceAttempt | src/ezfa3fs_cartridge_storage.cpp:1922-1980 | One attempt keeps the verified prefix and extends it as far as readback confirms |
| Backend.LiveMountBackend.Lookup | src/ezfa3fs_live_mount_backend.cpp:77-95 | Finds a path if and only if it is the root or in the overlay, and reports the overlay's kind, size and time |
| Backend.LiveMountBackend.List | src/ezfa3fs_live_mount_backend.cpp:97-144 | Lists each child once; with a well-formed overlay the children of a directory are exactly the names of the overlay's entries directly in it |
| Backend.ChildrenAreEntries | src/ezfa3fs_live_mount_backend.cpp:116-141 | In a well-formed namespace the first components of the paths below a directory are exactly its direct entries |
| Backend.LiveMountBackend.Read | src/ezfa3fs_live_mount_backend.cpp:146-153 | Reads staged bytes when there are any, else the file; always the overlay's bytes |
| Backend.LiveMountBackend.constructor | include/ezfa3fs/live_mount_backend.hpp:15-35 | A new mount shows exactly the filesystem, with nothing staged |
| Backend.LiveMountBackend.LoadVisible | include/ezfa3fs/live_mount_backend.hpp:26-35 | The visible nodes at the start are those of the filesystem |
| Backend.LiveMountBackend.CreateDirectory | src/ezfa3fs_live_mount_backend.cpp:154-166 | Adds the directory to the overlay; the visible nodes agree with the overlay afterwards if and only if no file of that name is staged; it fails only if the filesystem's tree does not take the directory or its manifest is refused |
| Backend.DirectoryOverStaged | src/ezfa3fs_live_mount_backend.cpp:154-166 | A concrete state in which a directory is created over a staged file and the visible nodes stop agreeing |
| Backend.LiveMountBackend.CreateFile | src/ezfa3fs_live_mount_backend.cpp:167-190 | Stages an empty file exactly when the path is new and valid and its parent is a directory |
| Backend.LiveMountBackend.Write | src/ezfa3fs_live_mount_backend.cpp:191-195 | Byte by byte: the data at its offset, the old bytes around it, zeros between the old end and the offset |
| Backend.LiveMountBackend.Truncate | src/ezfa3fs_live_mount_backend.cpp:196-196 | Byte by byte: the first bytes of the overlay's file up to the new length, and zeros behind the old end |
| Backend.LiveMountBackend.StageFile | src/ezfa3fs_live_mount_backend.cpp:339-346 | Finds a file's staged or committed bytes, on a fault-free device exactly when the overlay has such a file |
| Backend.LiveMountBackend.RemoveFile | src/ezfa3fs_live_mount_backend.cpp:197-235 | Removes the file from the overlay, or changes nothing |
| Backend.LiveMountBackend.RemoveDirectory | src/ezfa3fs_live_mount_backend.cpp:237-260 | Removes an empty directory; staged files count as contents; it fails only for what is no empty directory of the overlay, or at the last generation |
| Backend.LiveMountBackend.TakeBatch | src/ezfa3fs_live_mount_backend.cpp:386-407 | Moves out the bytes of exactly the staged, non-empty files asked for, and of no others |
| Backend.LiveMountBackend.RestoreStagedBytes | src/ezfa3fs_live_mount_backend.cpp:424-427 | Puts every taken byte back |
| Backend.LiveMountBackend.PersistPendingChanges | src/ezfa3fs_live_mount_backend.cpp:368-380 | Succeeds if and only if nothing is pending or the storage takes it, and clears the mark exactly then |
| Backend.LiveMountBackend.CommitSelected | src/ezfa3fs_live_mount_backend.cpp:382-451 | Commits exactly the staged, non-empty files asked for; on success, on filesystem failure and on persistence failure alike nothing the mount shows changes; on failure nothing staged is lost; it succeeds if and only if the filesystem stores the batch and what is pending persists; a cut leaves the old or the new tree; why the filesystem does not store it is as for a batch |
| Backend.LiveMountBackend.CommitFile | src/ezfa3fs_live_mount_backend.cpp:357-366 | The same for one file; on success it is on the filesystem and no longer staged |
| Backend.LiveMountBackend.Commit | src/ezfa3fs_live_mount_backend.cpp:453-462 | The same for all staged files; on success only empty placeholders remain staged |
| Session.AlwaysInvariant | src/ezfa3fs_mount_session.cpp:99-155 | In every interleaving: one backend commit at a time, every queued path still queued, in flight, handed to a backend commit that returned, or the session failed; a failure is the last thing the backend returned |
| Session.LeavesForTheBackend | src/ezfa3fs_mount_session.cpp:413-426 | Over every run: a path that was queued and no longer is left the queue at some step into a commit in flight that covers it, as long as nothing has failed |
| Session.FlightLands | src/ezfa3fs_mount_session.cpp:479-494 | Over every run: a path that was in flight and no longer is was covered by a backend commit that returned, unless the session had failed |
| Session.NoCommitAfterFailure | src/ezfa3fs_mount_session.cpp:384-391 | After the first failure no interleaving calls the backend again |
| Session.NothingIsLost | src/ezfa3fs_mount_session.cpp:393-443 | While nothing has failed, every path ever queued is queued, in flight or committed since |
| Session.DeferredIsKept | src/ezfa3fs_mount_session.cpp:393-411 | Over every run, told by its events: a deferred path is queued beside everything that waited before, and while no commit fails it is queued, on its way, or covered by a backend call that has returned successfully since |
| Session.RequestCovers | src/ezfa3fs_mount_session.cpp:428-477 | Told by the events: a flush covers the queue and its path and leaves the queue empty, a commit covers everything, the commit of one file covers that path alone and takes only it |
| Session.AskedIsCommitted | src/ezfa3fs_mount_session.cpp:428-494 | Told by the events: when the foreground is idle again after such a request and nothing has failed, every path it asked for is covered by a backend call that has returned successfully since |
| Session.WorkerTakesWhatItSaw | src/ezfa3fs_mount_session.cpp:112-145 | Over every run: when the worker takes the queue after its wait, it is the queue it saw when the wait began, and no event in between queued or took a path or counted as activity |
| Session.MountSession.DeferFileCommit | src/ezfa3fs_mount_session.cpp:393-411 | Adds the path to what is queued and wakes the worker, or reports the earlier failure and changes nothing |
| Session.MountSession.TakeDeferredCommitPaths | src/ezfa3fs_mount_session.cpp:413-426 | Empties the queue into its result, with the path given |
| Session.MountSession.BeginFlush | src/ezfa3fs_mount_session.cpp:428-443 | Passes on the whole queue and the path; nothing after a failure |
| Session.MountSession.BeginCommit | src/ezfa3fs_mount_session.cpp:454-464 | Empties the queue and begins a commit of everything; nothing after a failure |
| Session.MountSession.BeginCommitFile | src/ezfa3fs_mount_session.cpp:466-477 | Takes the one path out of the queue and begins its commit; nothing after a failure |
| Session.MountSession.FinishCommit | src/ezfa3fs_mount_session.cpp:479-494 | Ends the call, recording the first failure for good |
| Session.MountSession.NoteActivity | src/ezfa3fs_mount_session.cpp:88-96 | Counts as activity when something is queued, and leaves the queue alone |
| Session.MountSession.WorkerTake | src/ezfa3fs_mount_session.cpp:129-146 | Takes the whole queue if and only if nothing has happened since the worker looked and nothing is to stop or to wait for |
| Session.MountSession.WorkerFinish | src/ezfa3fs_mount_session.cpp:148-153 | The worker's commit, skipped after a failure; a failure is recorded |
| Runs.Execute | src/ezfa3fs_live_filesystem.cpp:650-1019 | Any command refines its map operation; an edit of the entry list is declined only if it does not apply, the result does not fit the manifest or collides, or the last generation is used; a batch ends as the volume before and after it accounts for |
| Runs.Reopen | src/ezfa3fs_live_filesystem.cpp:216-309 | Opening after power returns finds exactly the settled tree and generation if and only if the last two blocks yield, which they do after tame files; on a fault-free device it then succeeds |
| Runs.Perform | src/ezfa3fs_live_filesystem.cpp:216-309 | One request is a correct step that agrees with what it reports: succeeded means applied, declined means unchanged and why, interrupted means before or after and unmounted, skipped means unchanged; a collection that succeeded leaves no garbage, a compaction that succeeded is one of the entries before it |
| Runs.Run | src/ezfa3fs_live_filesystem.cpp:216-309 | Every sequence of operations, maintenance, power cuts at any byte and reopenings is a sequence of such steps from the first tree; what is mounted shows the last tree and generation, the slots hold them, and open finds them if no file written could be taken for a direct-boot superblock; no program is illegal and no erase unsafe |
| Runs.FormatAndRun | src/ezfa3fs_live_filesystem.cpp:191-196 | The same starting from format, from the empty tree and generation 1 |
| Trace.AcknowledgedSurvives | src/ezfa3fs_live_filesystem.cpp:216-309 | A command that reported success is in the slots from then on: through power cuts, reopenings, declined commands and maintenance, until another command takes effect; a mount that succeeds shows it, and with tame files every mount on a fault-free device does |
| Trace.RunIsCommands | src/ezfa3fs_live_filesystem.cpp:216-309 | The last tree of a run is the first one with whole commands applied in order: every one that reported success, each interrupted one or not, and no other |
| Trace.FaithfulRun | src/ezfa3fs_live_filesystem.cpp:216-309 | On a fault-free device these are exactly the commands that reported success |
| Trace.RoomSuffices | src/ezfa3fs_live_filesystem.cpp:493-518 | Over every run on a fault-free device: an admitted batch without an obstacle is stored if a run of unreferenced blocks of the length it needs lies on one side of the cursor, whatever garbage it holds, until generations run out |
| Trace.CreateStorable | src/ezfa3fs_live_filesystem.cpp:338-371 | What refuses the list of a new directory is the size of the manifest or the last generation |
| Trace.RenameStorable | src/ezfa3fs_live_filesystem.cpp:338-371 | For a rename it may also be that two paths would become one |
| Trace.NoCollision | src/ezfa3fs_live_filesystem.cpp:1572-1579 | In a well-formed namespace no rename makes two paths one |
| Trace.RunNamespace | src/ezfa3fs_live_filesystem.cpp:326-329 | Parents stay directories over whole runs without renames of a directory into itself |

## Left out

- Direct-boot volumes beyond their boot ROM: files, collection and compaction in that layout run the same code with other bounds, and are modelled for the transactional layout only, so that what is proved about programs in that layout is about ROM operations. A second ROM, and a removal where there is none, are not requests of the runs.
- Filesystem.Filesystem.Commit: the 64-bit generation does not wrap around; a commit at the largest generation is refused instead.
- Filesystem.Filesystem.Open: after a commit that was reported failed, nothing is claimed for further operations until the next open.
- Filesystem.Filesystem.FindBlankExtent: completeness is claimed only for runs that do not cross the cursor, because the code misses those that do.
- Filesystem.Filesystem.CollectGarbageStep: the caller must resynchronize on the first step after any mutation; the idle loop that is to do so is not modelled.
- Filesystem.Filesystem.PutFiles: that no batch is refused for clashing record ids or exhausted id or generation space is not claimed, because the code refuses such batches.
- Runs.Run: without the promise about files a mount may stray to a direct-boot volume, and nothing is claimed about what is then done with that one. What is in memory while a volume is mounted is part of the trace, so that batches and maintenance answer for themselves; between mounts only the slots count.
- DirectRuns.RunRoms: the same, for a ROM that could be taken for a transactional superblock.
- BlockCache.CachedBlockDevice.ExecuteAll: nothing is claimed about the answers after a metadata replacement has cleared bits of another block, where a stale slot may answer; the preparation calls that the cache forwards unchanged are left out.
- CartridgeWriter.Bridge.ReplaceExtent: a buffer whose length is not a whole number of blocks is not expressible, because extents are lists of blocks.
- Device.FaultyDevice.Program: the device works on whole blocks, as every call of the filesystem does; byte offsets inside blocks are modelled in NorFlash.
- Backend.LiveMountBackend.CreateDirectory: consistency is claimed only when no file of that name is staged.
- Rename at the mount level (src/ezfa3fs_live_mount_backend.cpp:262-337): empty placeholders below a renamed directory stay under their old names; the filesystem's own rename is modelled.
- `removeEmptyFiles`, `inspectSpace`, `formatIdentity`: easy members beside the operations above.
- The order of directory listings and of the batch within a commit; both are those of a sorted map.
- The session that coalesces metadata writes (src/ezfa3fs_live_cartridge_session.cpp): it keeps only the last pending block, so the two-slot claims do not carry through it.
- The idle-maintenance loop and its timing (src/ezfa3fs_mount_session.cpp:157-381).
- Time: deadlines of the commit queue are a choice of the environment; modification times are parameters.
- USB transfers, window selection, writer activation and save banks of the bridge; the batch erase and the metadata write with its transfer-size rule (src/ezfa3fs_cartridge_storage.cpp:1632-1670, 1703-1750), which repeat the retry pattern of the modelled loops.
- Error texts, progress and maintenance callbacks, logging, image files, the command line, FUSE callbacks and Finder metadata.
- Allocation failure of host memory and overflow of host sizes.
