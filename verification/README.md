# ext4 driver: a Dafny model of its core

This project models the hard core of a user-space ext4 driver and proves what it promises:
the positional file engine, the sidecar redo journal, linear directory blocks, the indirect
block map, bitmap search with free-count conservation, and the re-entrant mutex. Each part is
modelled in the form its source has (mutable objects are classes, byte buffers are arrays or
byte strings, loops are loops), against an abstract meaning that is stated independently.

| part | abstract meaning | modules |
|---|---|---|
| positional file engine | one byte string per file under splice, take and zero-extend | `Extents`, `ExtentTree`, `Volume`, `FileMath`, `Steps`, `ReadPath`, `GrowPath`, `EngineSpec`, `FarGrowth`, `FileEngine`, `FileRuns` |
| journal | the fold of whole transactions in number order | `JournalLog`, `JournalRecovery`, `WriteOrder`, `Overlay`, `Journal`, `JournalProtocol`, `JournalCrash`, `JournalExact` |
| directory | a map from names to inodes | `DirSlots`, `DirBlock`, `Directory` |
| indirect block map | the lookup of one logical block at a time | `BlockMap` |
| free counts | the number of clear bits in the bitmaps | `Bitmap`, `Descriptor`, `FreeCounts`, `Format` |
| re-entrant mutex | each thread's number of unmatched locks | `Mutex` |

`Bytes` holds the shared vocabulary: little-endian fields and in-place splices.

## Main results

- **Files.** Any sequence of `WriteAt` and `Truncate` on a handle, with block numbers below 2^32,
  follows a plain byte string, and a later `ReadAt` returns its slice (`FileRuns.RunThenRead`).
  After every single device write the volume is sound: every file's extent tree parses, every
  block it reaches is marked used, no block is shared, and every other file reads as before
  (`FileRuns.RunAll`). The used set changes by exactly the blocks gained and lost; only a failed
  operation can leave a block marked used that nobody owns. Every failure has its reason: a
  guard, a refused allocation, or leaves that would not fit one leaf block; without those every
  operation of the run succeeds (`FileRuns.RunSucceeds`).
- **Write past the 32-bit range.** `mapRangeLocked` truncates logical block numbers to 32 bits.
  `WriteAt` therefore succeeds only if the last block it touches is below 2^32. Otherwise it
  fails, and if it got as far as committing, the file's tree parses afterwards if and only if the
  truncated numbers of the holes are distinct and unmapped (`FileEngine.File.WriteAt`,
  `FarGrowth.GrownApart`); at every step every other file is as it was and sound.
- **Failed shrink.** A shrink that cannot commit has already zeroed the rest of the last block
  it meant to keep; the contract states exactly that content (`EngineSpec.ShrinkFailed`).
- **Malformed trees.** On every image, accepted or refused, the extent parser reads each index block
  at most once and none more than five entries below the root (`ExtentTree.ParseRootReadsOnce`).
- **Crash recovery.** For every byte at which the log can be torn and every prefix of block
  writes on the image, the outcome of the next open is stated exactly
  (`JournalRecovery.CrashRecovery`): a tear inside the 16-byte header or the 16-byte commit
  record switches the journal off without replay, a tear inside the payload makes the open fail
  after replaying, and everything else recovers. So, whatever was written, the promised image is
  reached if and only if the tear is not of the first kind or no write still missing from the
  image has any bytes (`WriteOrder.RecoveredExactly`). `JournalRecovery.TornHeaderLosesTransaction`
  is a concrete loss. Opening twice equals opening once, for every log and image.
- **Concurrent commits.** Over every interleaving, with log-write errors allowed: numbers are
  distinct, slots are disjoint, one commit applies at a time, no block is touched before its
  record is logged, and the image is the fold of the finished commits plus a prefix of the
  current one (`JournalProtocol.InvAlways`). A failed log write stops every commit with a larger
  number for the rest of the run (`JournalProtocol.StuckBehindFailure`).
- **Crash of concurrent commits.** Numbers and log slots are taken in separate steps, so slots can
  be inverted. In every reachable state reopening replays the complete leading slots in slot order
  (`JournalCrash.ReopenAnyOrder`), and with any number of log writes torn it replays the same ones
  unless the torn bytes pass for a record or blind the scan (`JournalCrash.ReopenTorn`). Whatever bytes the schedule writes, the result is the begun and
  replayed transactions whole and in number order if and only if every byte keeps its last writer
  (`JournalExact.ReopenExactly`). That holds when every begun commit lies in the leading slots and
  inverted ones share no byte (`JournalExact.OrderlyRecovers`), so always with slots in number
  order (`JournalCrash.ConcurrentCrash`). Two runs in which it fails are exhibited: finished data
  is reverted (`JournalExact.SwappedSlotsRevert`), and a half-applied transaction stays torn
  behind an unwritten slot (`JournalExact.UnwrittenSlotTears`).
- **Scanner agreement.** After an open, `applySeq == nextSeq` if and only if no accepted record
  has number 2^64 - 1, or the last one does (`JournalRecovery.ScannersAgree`);
  `JournalRecovery.ScannersPart` is a log for which they differ.
- **Directories.** The history invariant that makes deletion by name alone correct is that only
  the first slot carrying a name can be live; first-fit insertion keeps it because a stale slot
  always has room for its own name. An added name is listed exactly when it has 1 to 255 bytes:
  a longer one joins the listing under what its length byte lets through, beside an entry that
  already has that name, and disappears if that is nothing (`Directory.AddThenList`).
- **Free counts.** A freshly formatted volume and any sequence of allocations and frees of items
  in use is accepted by `CheckImage`, below the size at which the 32-bit group count wraps to
  zero (`Format.GroupsWrap`); exactly there the reader expects groups that were never laid out
  (`Format.CountsAgree`). The last group's metadata lies inside the volume exactly if the rest
  of the volume is long enough for it, which a volume of 32769 blocks is not
  (`Format.LastGroupTooShort`). Freeing an item that is not in use breaks consistency, always.

## Model

| member | source | states |
|---|---|---|
| `Extents.SearchLeaf` | writeat.go:203-206 | on any list the leaf found ends after the block and the one before it does not; with starts and ends in order and no overlap it is the first such leaf and decides the block |
| `Extents.SearchDecides` | writeat.go:203-209 | on such a list, empty leaves allowed, the found leaf covers the block exactly when the block is mapped |
| `Extents.EmptyLeafHides` | writeat.go:203-209 | an empty leaf inside another makes the search miss a mapped block |
| `Extents.ValidateExtents` | limits.go:142-150 | accepts if and only if all non-empty leaves are pairwise disjoint, logically and physically |
| `Extents.CheckRuns` | limits.go:152-183 | the one-pass fast path and the sort with adjacent check decide pairwise disjointness along one axis |
| `Extents.NonEmptyApart` | limits.go:157-160 | dropping zero-length leaves never changes the verdict |
| `Extents.CoalesceExtents` | writeat.go:433-450 | compacting the array over itself yields the sorted, merged list |
| `Extents.CoalesceProps` | writeat.go:433-450 | the merged list is sorted and disjoint, denotes the same logical-to-physical map and has no merged run over the limit at which merging stops |
| `Extents.MergeApart` | writeat.go:433-450 | coalescing any list neither creates nor hides an overlap |
| `Extents.BuildExtents` | write.go:942-962 | the leaves flatten back to the block list, number it without gaps and never exceed 0x7FFF blocks |
| `Extents.SortAscending` | open.go:166-168 | the sort at open leaves a list in order untouched |
| `ExtentTree.LeafRoundTrip` | inode.go:310-340 | a leaf entry decodes to what was encoded |
| `ExtentTree.BuildNode` | write.go:63-77 | the node buffer is the header and the entries in order, zero-padded |
| `ExtentTree.InlineRoundTrip` | inode.go:528-557 | parsing an inline root of up to 4 leaves returns them exactly if they are disjoint, and is refused otherwise |
| `ExtentTree.IndexRoundTrip` | write.go:105-127 | parsing the index root reads its leaf block and returns the leaves exactly if they are disjoint |
| `ExtentTree.ParseRootReadsOnce` | inode.go:233-350 | on any image, accepted or refused, the parse reads each index block at most once, only blocks of the volume, none more than five entries below the root, and accepts only disjoint leaves |
| `Volume.ParseFrame` | inode.go:233-350 | the outcome of a parse, accepted or refused, depends only on the root and the index blocks it read |
| `Volume.UndisturbedFile` | writeat.go:225-272 | a file whose inode and owned blocks are untouched reads back unchanged and stays sound |
| `Volume.VolumeStep` | writeat.go:359-401 | if all other files are kept and this one is sound, the whole volume is |
| `FileMath.WriteThrough` | writeat.go:104-120 | a device write through a run changes exactly those bytes of the file |
| `FileMath.GrownOk` | writeat.go:261-267 | the grown map is sound and maps the old blocks and the missing ones, nothing else |
| `FileMath.CutMaps` | writeat.go:315-331 | the cut map is the old one below the cut |
| `FileMath.CutBlocks` | writeat.go:315-331 | kept and freed blocks partition the file's blocks |
| `Steps.OwnWriteStep` | writeat.go:104-120 | writing inside a file's own run keeps the volume sound and other files unchanged |
| `Steps.UnownedWriteStep` | writeat.go:254-259 | writing a block nobody owns is invisible to every file |
| `Steps.InodeStep` | writeat.go:386-388 | storing a root for claimable blocks keeps the volume sound |
| `GrowPath.SlackWrite` | writeat.go:283-302 | after the slack write every byte the growth exposes reads as zero |
| `EngineSpec.RootParses` | write.go:19-128 | the root written for a sound map parses back to that map |
| `EngineSpec.CommitResult` | writeat.go:359-401 | a commit installs map and size, releases the stale leaf block and leaves only old or new content at every step |
| `EngineSpec.GrowResult` | writeat.go:225-273 | a growth zero-extends the content, conserves blocks and is safe at every step |
| `EngineSpec.WriteResult` | writeat.go:76-122 | growth then data writes amount to a splice, with conservation and safe steps |
| `EngineSpec.DroppedUnowned` | writeat.go:341-348 | once the shorter map is committed a dropped block belongs to no file |
| `EngineSpec.ShrinkResult` | writeat.go:311-350 | a cut takes the prefix, frees exactly the dropped blocks and is safe at every step |
| `FarGrowth.GrownApart` | writeat.go:261-267 | after a growth over any holes the leaves are disjoint exactly if the truncated numbers are distinct and unmapped |
| `FarGrowth.RootVerdict` | write.go:19-128 | the root written for any map of the right size parses back exactly if its leaves are disjoint |
| `FarGrowth.CommitStrays` | writeat.go:359-401 | committing any map over blocks no other file owns leaves every other file as it was, and sound, at every step |
| `FarGrowth.InsideAstray` | writeat.go:104-120 | data written through such a map leaves the file's own tree alone and every other file as it was, and sound, at every step |
| `FileEngine.Disk.AllocBlocks` | alloc.go:795-1218 | some n distinct blocks not in use become used, or nothing changes and the refusal is counted |
| `FileEngine.Disk.FreeBlock` | alloc.go:1924-1940 | one block leaves the used set; blocks before the first data block are left alone |
| `FileEngine.File.Open` | open.go:110-188 | a handle exists if and only if the tree parses, the size fits the filesystem and a non-empty file has a leaf; on a sound volume it is in sync |
| `FileEngine.File.WriteTree` | write.go:19-128 | inline root, or one fresh leaf block and an index root; a refusal changes nothing and comes exactly from a refused allocation or too many leaves |
| `FileEngine.File.CommitDevice` | writeat.go:359-397 | the device steps of a commit in order: tree, inode, release of the old leaf block |
| `FileEngine.File.Commit` | writeat.go:359-401 | a commit of a committable map achieves it; a failed one changes nothing and comes exactly from a refused allocation or too many leaves |
| `FileEngine.File.Locate` | writeat.go:200-214 | finds the image offset and the rest of the run exactly when the block is mapped |
| `FileEngine.File.ReadAt` | open.go:222-312 | fills the buffer with the slice of the file's bytes, with an error exactly when it is short, touching nothing beyond |
| `FileEngine.File.ReadChunk` | open.go:261-310 | one iteration fetches a non-empty piece of the file's bytes or finds the map out of range |
| `FileEngine.File.ZeroSlack` | writeat.go:283-302 | the bytes a growth would expose read as zero, nothing below the size changes |
| `FileEngine.File.ZeroBlocks` | writeat.go:253-259 | fresh blocks hold zeros and no file notices |
| `FileEngine.File.MissingBlocks` | writeat.go:229-235 | lists exactly the holes of the range in order |
| `FileEngine.File.MapRange` | writeat.go:225-273 | every block of the range is mapped and the size recorded, or the file is as before, for a refused allocation or possibly too many leaves |
| `FileEngine.File.WriteData` | writeat.go:102-121 | stores all bytes when the range is mapped; success implies 32-bit block numbers; in every case only blocks of the map change |
| `FileEngine.File.WriteAt` | writeat.go:76-122 | guards; splice, conservation and safe steps on success; on failure the reason, and in range unchanged content; past the range the exact condition under which the tree still parses; other files unchanged and sound at every step in every case |
| `FileEngine.File.CutExtents` | writeat.go:312-331 | splits the leaves into those kept and the blocks to free |
| `FileEngine.File.ZeroTail` | writeat.go:333-340 | zeroes exactly the rest of the last kept block |
| `FileEngine.File.Release` | writeat.go:344-348 | frees unowned blocks one by one without any file noticing |
| `FileEngine.File.Shrink` | writeat.go:311-350 | takes the prefix on success; on failure, exactly a refused allocation or too many leaves, only the slack behind the new end is zeroed |
| `FileEngine.File.Truncate` | writeat.go:138-160 | guards; cuts, or grows by a hole that reads as zero; fails exactly on a refused allocation or too many leaves |
| `ReadPath.ReadFileData` | inode.go:440-495 | succeeds exactly below the size ceiling on in-range maps with a leaf if non-empty, and materialises the file's bytes |
| `FileRuns.Perform` | writeat.go:76-160 | one operation follows the byte string, is harmless at every device state, leaks only on failure and fails only for a stated reason |
| `FileRuns.RunAll` | writeat.go:76-160 | the same over any sequence of operations, with a reason and the refused allocations for each |
| `FileRuns.RunThenRead` | open.go:222-312 | a read after any sequence of operations returns the slice of the byte string |
| `FileRuns.RunSucceeds` | writeat.go:76-160 | with offsets in place, leaves that fit and no refused allocation every operation of a run succeeds |
| `FileRuns.ReadBothWays` | inode.go:470-495 | the positional read returns the slice of what the block-by-block read materialises, which succeeds exactly below the ceiling and with a leaf if non-empty |
| `FileRuns.Reopen` | open.go:110-188 | a second open sees the same file, exactly when the size is 0 or a leaf exists and the size fits |
| `FileRuns.GrowMapsExactlyInRange` | writeat.go:263-266 | holes become mapped if and only if their numbers are below 2^32 |
| `FileRuns.FarWriteBreaksFile` | writeat.go:263-266 | after a write at block 2^32 alone the file's tree parses exactly if block 0 was a hole |
| `JournalLog.SameAcceptance` | journal.go:1359-1476 | both scanners accept the same records |
| `JournalLog.RecordAccepted` | journal.go:967-1023 | both scanners accept a complete record whatever follows it |
| `JournalLog.PayloadOnly` | journal.go:1290-1300 | a payload with a missing or foreign commit record ends both scans cleanly |
| `JournalLog.TornHeader` | journal.go:1239-1257 | cut inside the header, both scanners fail |
| `JournalLog.TornBody` | journal.go:1266-1289 | cut inside the payload, replay fails and the numbering scan stops |
| `JournalLog.TornTrailer` | journal.go:1438-1456 | cut inside the commit record, the numbering scan fails |
| `JournalRecovery.ReplayHeals` | journal.go:1326-1337 | replaying a list of writes over any prefix of it gives the list applied once |
| `JournalRecovery.OpenIdempotent` | journal.go:1227-1356 | opening again changes nothing, for every log and image |
| `JournalRecovery.ScannersAgree` | journal.go:184-186 | after an open applySeq equals nextSeq exactly if no record has the top number or the last one does |
| `JournalRecovery.ScannersPart` | journal.go:184-186 | a record with the top number and another behind it leave applySeq 0 and nextSeq 6 |
| `JournalRecovery.ScanLog` | journal.go:1236-1354 | both scanners read whole records in order and arrive at what follows them |
| `JournalRecovery.StopRecovery` | journal.go:1227-1356 | whole records followed by anything that stops the scanners recover exactly |
| `JournalRecovery.CrashRecovery` | journal.go:1227-1356 | the outcome of the open at every crash point, byte by byte |
| `JournalRecovery.SequentialRecovery` | journal.go:899-1120 | without overlapping commits every tear is recovered |
| `JournalRecovery.TornHeaderLosesTransaction` | journal.go:177-183 | a torn header behind a logged, unapplied transaction loses it |
| `JournalRecovery.CommitCrashPoints` | journal.go:1014-1081 | the states of a commit in progress are crash points of the session |
| `WriteOrder.OrderExact` | journal.go:1326-1337 | two orders of the same block writes leave the same image whatever the bytes exactly if every byte has the same last writer |
| `WriteOrder.RecoveredExactly` | journal.go:1227-1356 | a crash point is recovered whatever was written if and only if the tear does not blind the scan or no missing write has bytes |
| `Overlay.LookupUpsert` | journal.go:819-862 | after an upsert a block reads back and the others are as before |
| `Overlay.UpsertView` | journal.go:819-843 | storing a block in the transaction is writing it to the image it stands for |
| `Overlay.OverlayStep` | journal.go:727-760 | one overlay iteration is one byte-range write |
| `Journal.Transaction.AddBlock` | journal.go:819-843 | upserts, or refuses once committed |
| `Journal.Transaction.GetBlock` | journal.go:848-862 | the in-transaction copy of a block, if any |
| `Journal.Transaction.AddPiece` | journal.go:727-760 | merges bytes into one block, failing exactly if it is unreadable or the transaction is committed |
| `Journal.Transaction.AddRange` | journal.go:397-768 | overlays a byte range across block borders, failing exactly on negative, unreadable or late ranges |
| `Journal.Serialize` | journal.go:967-1011 | the record bytes: payload, then commit record with the checksum of the payload |
| `Journal.ReplayRound` | journal.go:1236-1325 | one round of the replay loop |
| `Journal.InitRound` | journal.go:1367-1474 | one round of the numbering loop |
| `Journal.Journal.InitNextSeq` | journal.go:1359-1484 | the next number, or an error, as the scan specification says |
| `Journal.Journal.ReplayOnOpen` | journal.go:1227-1356 | image, number and verdict of the replay, as the scan specification says |
| `Journal.Journal.ApplyEntries` | journal.go:1326-1337 | writes entries in order up to the first block outside the filesystem |
| `Journal.Journal.Open` | journal.go:146-191 | disabled on a scan error, refused on a replay error, else enabled with its counters |
| `Journal.Journal.ReserveAppend` | journal.go:1566-1583 | a fresh range at or behind the end of the log |
| `Journal.Journal.Commit` | journal.go:899-1120 | appends the record, applies all entries and records every device state in order; a second commit is refused |
| `Journal.CommitRanges` | journal.go:397-768 | any ranges overlaid on one transaction and committed leave the image of the direct writes in order |
| `Journal.ApplyOrJournalWrite` | journal.go:308-390 | the same image effect with the journal on or off |
| `Journal.StageBlocks` | journal.go:331-388 | the staged blocks stand for exactly the byte range |
| `Journal.CommitRecovers` | journal.go:1014-1081 | every device state of a commit recovers to the transactions before it, or with it |
| `Journal.RunSession` | journal.go:899-1120 | a session from an empty log folds its transactions, and each device state recovers a whole number of them |
| `Journal.TornCommitRecovers` | journal.go:1014-1023 | a torn log write in such a session is recovered too |
| `JournalProtocol.TurnsMean` | journal.go:927-927 | numbers are distinct and at most one commit is applying |
| `JournalProtocol.SlotsDisjoint` | journal.go:1566-1583 | two log slots never overlap |
| `JournalProtocol.InvNext` | journal.go:899-1120 | every step of every commit keeps the invariant |
| `JournalProtocol.InvAlways` | journal.go:899-1120 | the invariant holds in every state of every interleaving, log-write errors included |
| `JournalProtocol.LoggedBeforeApplied` | journal.go:1014-1070 | no block is touched before its record is in the log |
| `JournalProtocol.Progress` | journal.go:1027-1050 | without log-write errors some commit can step until all have finished |
| `JournalProtocol.StuckBehindFailure` | journal.go:1014-1023 | in every later state of the run a failed commit stands where it failed and none with a larger number has begun to apply |
| `JournalProtocol.StandstillExactly` | journal.go:1027-1050 | nobody can move exactly if every commit has finished, failed, or waits behind a smaller number |
| `JournalProtocol.StandstillCause` | journal.go:1014-1023 | a standstill before the end is always due to the failed commit whose turn it is |
| `JournalProtocol.EveryStepCounts` | journal.go:899-1120 | every step shortens the remaining work, whatever the schedule |
| `JournalCrash.ReopenTorn` | journal.go:1227-1356 | whatever bytes the incomplete slots hold, reopening stops at the first of them that neither scanner accepts, with the outcome for each way of stopping |
| `JournalCrash.ReopenAnyOrder` | journal.go:1227-1356 | in every reachable state between whole device writes reopening replays the complete leading slots in slot order |
| `JournalCrash.ConcurrentCrash` | journal.go:1227-1356 | with slots in number order that is exactly the gap-free logged transactions, all begun ones among them |
| `JournalExact.TwinRun` | journal.go:899-1120 | every schedule can be run with other bytes of the same shape |
| `JournalExact.ReopenExactly` | journal.go:1227-1356 | a crash at the end of any run is recovered whole and in number order, whatever its bytes, if and only if every byte keeps its last writer |
| `JournalExact.OrderlyRecovers` | journal.go:1227-1356 | so it is when every begun commit is in the leading slots and inverted ones share no byte |
| `JournalExact.SwappedSlotsRevert` | journal.go:927-1023 | a run of two finished commits whose crash brings back the older data |
| `JournalExact.UnwrittenSlotTears` | journal.go:927-1081 | a run whose crash leaves a half-applied transaction torn behind an unwritten slot |
| `DirSlots.NoStaleBefore` | dir.go:580-618 | no slot before the first fit carries the name, not even a freed one |
| `DirSlots.InsertKeeps` | dir.go:580-618 | first-fit insertion of an absent name adds exactly it and keeps the history invariant |
| `DirSlots.InsertListed` | dir.go:580-618 | a record put into any slot with room adds its entry to the listing, none if it has no name, and loses no other |
| `DirSlots.AppendKeeps` | dir.go:331-386 | a name in a new block does the same |
| `DirSlots.DeleteKeeps` | delete.go:91-109 | deletion by name alone removes exactly that name and keeps the invariant |
| `DirSlots.ListingIsFind` | dir.go:88-110 | the listing shows each live name once, as lookup finds it |
| `DirBlock.ParseDirBlock` | dir.go:56-85 | on any bytes all entries have a name of 1 to 255 bytes; on a tiled block it lists the live entries |
| `DirBlock.WriteDirEntry` | dir.go:623-630 | header and name, with the one-byte length |
| `DirBlock.WrittenRecord` | dir.go:623-630 | a record that fits its range reads back, its name cut to the length byte |
| `DirBlock.TilesSplice` | dir.go:600-617 | replacing a slot by others over the same range keeps the block tiled |
| `DirBlock.TryInsertDirEntry` | dir.go:580-620 | succeeds exactly if some slot has room and then fills the first such slot, keeping the tiling |
| `DirBlock.ZeroEntryInBlock` | delete.go:91-109 | on any bytes clears the inode of a record that spells the name, changes nothing or panics; on a tiled block never panics, and frees the first record carrying the name |
| `DirBlock.UpdateTail` | dir.go:634-659 | stamps the tail record with the checksum of everything before it and keeps the tiling |
| `Directory.Dir.ReadDir` | dir.go:88-110 | lists exactly the map, every name once; whatever the bytes, only names of 1 to 255 bytes |
| `Directory.Dir.Lookup` | dir.go:88-110 | finds exactly what the map holds |
| `Directory.Dir.Add` | dir.go:260-386 | adds an absent name of 1 to 255 bytes to the map; a name of any length that fits a block adds one entry to the listing, cut to its length byte, and loses none; fails exactly if no slot has room and no block is to be had, changing nothing |
| `Directory.Dir.AddBlock` | dir.go:331-386 | a fresh block with one record up to its tail holds the name |
| `Directory.Dir.Delete` | delete.go:65-88 | removes exactly the name, and does nothing if it is absent |
| `Directory.RunOps` | dir.go:260-386 | over any sequence of links of absent names and unlinks the listing is the map |
| `Directory.AddThenList` | dir.go:260-386 | after a successful add of any absent name it is listed exactly if it has 1 to 255 bytes; the listing is the one before plus the entry under the cut name, so an entry of that name stays |
| `Directory.LongNameVanishes` | dir.go:627-627 | a 256-byte name is stored with length 0 |
| `BlockMap.SubPairs` | blockmap.go:88-119 | the pairs under an indirect block are exactly what the lookup gives block by block |
| `BlockMap.SubAscends` | blockmap.go:88-119 | those pairs ascend within the span |
| `BlockMap.LevelsPairs` | blockmap.go:121-136 | the four spans partition the file and the whole walk agrees with the lookup |
| `BlockMap.CoalescedIs` | blockmap.go:61-79 | coalescing keeps exactly the pairs, in sorted maximal leaves |
| `BlockMap.Walker.Emit` | blockmap.go:54-79 | charges and records one data entry, failing exactly on budget or a 33-bit block number |
| `BlockMap.Walker.Enter` | blockmap.go:86-96 | charges and reads an indirect block, failing exactly on budget, reuse or an unreadable block |
| `BlockMap.Walker.Walk` | blockmap.go:85-119 | a subtree is walked completely, or refused exactly when it breaks a bound; either way no block is read twice or beyond the budget |
| `BlockMap.Walker.Run` | blockmap.go:121-136 | the same for the direct entries and the three levels |
| `BlockMap.BlockMapExtents` | blockmap.go:33-136 | fails exactly when a bound is broken; else tidy leaves that map each block below the size as the lookup does |
| `BlockMap.CopyLeaves` | blockmap.go:169-186 | fails exactly if a clipped run read leaves the image; else every mapped byte is at its offset and holes stay zero |
| `BlockMap.BlockMapData` | blockmap.go:141-156 | fails exactly on an oversized file, a broken bound or a byte outside the image; else the file's bytes, each through the lookup of its block |
| `Bitmap.SetBit` | alloc.go:2216-2218 | sets one bit and no other |
| `Bitmap.ClearBit` | alloc.go:2221-2223 | clears one bit and no other |
| `Bitmap.FindFreeBit` | alloc.go:2128-2136 | the lowest clear bit, or proof that there is none |
| `Bitmap.FindFreeRun` | alloc.go:2139-2193 | succeeds if and only if n bits are free; the leftmost contiguous stretch if one exists, else the n lowest free bits |
| `Bitmap.FindFreeRunForTx` | alloc.go:1744-1766 | terminates and succeeds if and only if n bits are free and not staged, returning n distinct such bits |
| `Bitmap.CountZeroBits` | fsck.go:115-123 | the number of clear bits |
| `Descriptor.Encode` | bgd.go:70-86 | writes the counters in place, in halves when wide |
| `Descriptor.EncodeRoundTrip` | bgd.go:39-86 | counters that fit read back and nothing else changes |
| `FreeCounts.PickCount` | alloc.go:938-944 | marking n distinct clear bits costs exactly n |
| `FreeCounts.Volume.CheckImage` | fsck.go:11-56 | accepts exactly the consistent volumes |
| `FreeCounts.Volume.RepairImage` | fsck.go:63-113 | reaches a consistent volume from any counts, changing no bitmap and nothing in a descriptor but its free counts |
| `FreeCounts.Volume.Recount` | commit_dispatch.go:525-630 | one descriptor takes the counts of its bitmaps and keeps the rest; other groups are untouched |
| `FreeCounts.Volume.DispatchBlocks` | commit_dispatch.go:525-643 | writes a block bitmap and its recounted descriptor; the other groups stay clean |
| `FreeCounts.Volume.DispatchInodes` | commit_dispatch.go:525-643 | the same for an inode bitmap |
| `FreeCounts.Volume.AllocBlocks` | alloc.go:795-1218 | succeeds exactly if some group has n free blocks, marks n of them and stays consistent |
| `FreeCounts.Volume.FreeBlock` | alloc.go:1924-2124 | clears one bit; consistent afterwards exactly if the block was in use |
| `FreeCounts.Volume.AllocInode` | alloc.go:354-608 | succeeds exactly if some group has a free inode, marks it and stays consistent |
| `FreeCounts.Volume.FreeInode` | delete.go:141-178 | clears one bit; consistent afterwards exactly if the inode was in use |
| `FreeCounts.RunThenCheck` | fsck.go:11-56 | any sequence of allocations and frees of items in use is accepted by the check |
| `Format.GroupIsSparseBackup` | superblock.go:207-224 | true exactly for groups 0 and 1 and the powers of 3, 5 and 7 |
| `Format.GroupsCover` | format.go:103-108 | below the rounding limit the groups cover the volume exactly |
| `Format.GroupsWrap` | format.go:103-108 | at the limit the 32-bit sum wraps and no group is laid out |
| `Format.CountsAgree` | superblock.go:180-182 | the reader's 64-bit count equals format's exactly below the limit; beyond it the reader expects 131072 groups and format has laid out none |
| `Format.MetaFits` | format.go:139-146 | every group but the last holds its metadata; all metadata lies inside the volume exactly if the blocks left for the last group are enough for its own |
| `Format.LastGroupTooShort` | format.go:205-296 | a volume of 32769 blocks has a last group of 1 block and 20 blocks of metadata |
| `Format.LayGroup` | format.go:205-296 | a group's bitmaps and descriptor agree on its free blocks and inodes |
| `Format.FormatVolume` | format.go:69-302 | accepts exactly the aligned sizes in range and below the limit yields a consistent volume |
| `Format.FormatThenRun` | format.go:69-302 | formatting and any sequence of allocations and frees passes the check |
| `Mutex.InvStep` | locks.go:45-112 | every atomic step of every thread keeps the invariant |
| `Mutex.InvAlways` | locks.go:45-112 | the invariant holds after every schedule |
| `Mutex.Exclusion` | locks.go:45-112 | at most one token is inside and the recursion word is its number of unmatched locks |
| `Mutex.ReleasedAtLastUnlock` | locks.go:83-112 | the inner mutex is released exactly at the last matching unlock |
| `Mutex.PanicIffNotHeld` | locks.go:84-89 | an unlock panics if and only if the thread holds nothing |
| `Mutex.NobodyStuck` | locks.go:55-62 | a waiter enters when nobody holds the mutex; otherwise the holder can step |

## Left out

- The journal under the positional engine: `FileEngine` issues its device writes directly; replay of a stale whole-block snapshot over a later direct data write is not modelled.
- FileEngine.Disk.AllocBlocks: does not fix which free blocks are chosen, because the group cursor and lock retries decide; `Bitmap` and `FreeCounts` model the search itself.
- FileEngine.Disk.FreeBlock: bitmap, descriptor and superblock writes of one allocation or release count as one device step.
- FileEngine.File.WriteAt: a single write of 2^32 or more missing blocks, whose count would be truncated, is not modelled; device errors other than a stop between writes are not either.
- FileEngine.File.Open: inline-data and block-map inodes, which come back read-only, are not handled here.
- Extents.SearchLeaf: for lists whose ends are out of order only what any search guarantees is stated; which lookups then fail depends on the probes.
- Extent trees of a foreign shape: a handle is assumed over a tree of the depth this driver writes, one handle per inode, with leaves of at least one block.
- Sorting: `sort.Slice` is modelled as a stable sort; the order of leaves with equal starts matters only for maps that validation refuses or for empty leaves.
- i_blocks, timestamps, flags and checksum values: not part of any modelled state; the journal checksum is an arbitrary function of the bytes.
- JournalCrash.ReopenAnyOrder: log writes are whole here; torn ones, also in a middle slot with a later slot written, are in `JournalCrash.ReopenTorn`.
- JournalCrash.ReopenTorn: what happens if torn bytes pass for a whole record is not stated, because the checksum is an arbitrary function.
- JournalCrash.ConcurrentCrash: slots in number order and whole log writes; any slot order is in `JournalExact.ReopenExactly`, torn log writes in `JournalCrash.ReopenTorn`.
- Journal.Journal.Commit: one commit at a time and without I/O errors; `JournalProtocol` has the interleavings and the log-write errors.
- JournalProtocol.InvAlways: sequence numbers do not wrap at 2^64; an error of an image write, after which the commit gives up its turn half applied, is not modelled.
- Journal.ApplyOrJournalWrite: the image starts at the partition, so the partition offset is 0; the inode-table and data-block locks, and their retries, are not modelled.
- Journal.RunSession: one session from an empty log; records appended behind a torn tail are not modelled.
- Directory.Dir.Add: a name longer than a block less 20 bytes, which may run into the checksum tail, hash-indexed directories, the extent update of the directory inode and the transaction handling around the block write are not modelled.
- BlockMap.BlockMapExtents: the budget is a parameter; how it is derived from the superblock and the device size is not modelled.
- FreeCounts.Volume.AllocInode: the used-directories count of a new directory is not modelled.
- FreeCounts.Volume.FreeBlock: the group and bit are arguments; blocks before the first data block are in `FileEngine.Disk.FreeBlock`.
- FreeCounts.Volume.AllocBlocks: one operation at a time with the dispatcher drained, so reservations, lock retries and the locked second pass never matter; the transactional allocator is not modelled.
- Format.GroupIsSparseBackup: in unbounded integers; the 32-bit loop agrees for every group of a formatted volume, of which there are at most 131072.
- Format.FormatVolume: superblock bytes, backup copies, the root directory and the reopening are not modelled; bitmaps and descriptors are held per group.
- Whole-file overwrite, resize, rename, symbolic links, permissions, partition detection and reservation bookkeeping: not modelled.
