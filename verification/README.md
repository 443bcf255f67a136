# Verification of storage, stream, path, timer and FAT logic

This project models the parts of the repository whose correctness is hardest to see from the code,
and proves what they are for.

* **The Limine BIOS installer** (`Bytes`, `BlockCache`, `UndoLog`, `CalmDevice`, `Retries`,
  `RollbackLimits`, `UndoFile`, `LimineDevice`, `PartitionTables`, `BiosInstall`, `ConfigEnroll`). A one-block
  write-back cache lies over a device whose block transfers may fail; every write first saves what it
  overwrites; a failed install is rolled back and a finished one can be undone later from a file. The
  cache is proved to refine a flat byte array, the rollback to restore the original disk, the file
  format to round-trip, the GPT to MBR conversion to be all or nothing, and the install to accept
  exactly the disks that a stated condition on the given disk describes.
* **Streams** (`ReadableStreams`, `ByteStreams`, `WritableStreams`). Each stream is a class whose
  methods are the atomic steps of the source, promise callbacks being later steps in any order the
  code allows. Default streams refine a reference model in which read k gets chunk k; byte streams
  conserve every byte; the sink of a writable stream sees only sequential traces. Pulls never overlap
  and demand is never lost.
* **Paths and time** (`Utf8Segment`, `PathNormalize`, `Ticks`, `EventTimers`). The UTF-8 recogniser
  accepts exactly the encodings of allowed texts, the in-place normaliser computes a split, resolve
  and join definition and is idempotent, ticks are least covers, timers stay on their grid.
* **The FAT32 ownership check** (`FatChecker`). Whatever the FAT contains the walk ends, and it succeeds
  if and only if the volume is tidy, which is defined without any walk: a directory tree of disjoint
  chains accounts for every cluster.

## How to read the models

* A device is a byte sequence and a fault oracle that decides, for each block transfer in turn, whether
  it works. A failing block write stores any subset of its bytes; a failing block read overwrites a
  prefix of the buffer with anything. The oracle is universally quantified in every theorem, so that
  existence statements (`RollbackLimits`) and statements about devices that stop failing (`CalmDevice`)
  can be made as well.
* A write that spans several blocks drops its undo record when it fails after its first block
  (limine.c:498-507). Such a write may not be undone. `RollbackLimits.UndoneIffHarmless` gives the
  exact condition, `SpanningWriteCanBeLost` a concrete case, and the class records the event in the
  ghost flag `torn`. On a device that never fails it cannot happen.
* The ghost flag `failed` says that a device operation of the install failed, by a fault or by running
  past the complete blocks of the disk. An install that stops without it was refused, and then the
  condition `Accepted` on the given disk does not hold. On a device without faults success is equivalent
  to `Accepted` and `Ample`, which lists the transfers that have to fit.
* The install is modelled for boot images of more than 512 and at most 63 * 512 bytes. The one in
  limine-bios-hdd.h has 22301 bytes.
* The undo file holds the host's integers; the model is that of a little-endian host. Disks are at most
  2^63 bytes long, which is what a 64-bit file offset can address.
* Chunk sizes of default and writable streams are real numbers. In the floating point of the source
  `queueTotalSize` can drift from the sum (0.1 + 0.2 - 0.1 is not 0.2), so that the sum property does not
  carry over to sizes that are not exact there. The size strategy does not re-enter the
  stream, and a pull algorithm that calls back into the stream does so in later steps.
* Byte streams are modelled for `Uint8Array` views. Their shape and pull discipline hold for every use;
  conservation is claimed for orderly use (one kind of reader, one outstanding view), recorded by ghost
  flags instead of preconditions.
* A view that takes the last bytes of a closing byte stream leaves the stream readable, as in the source,
  where `readInto` never closes. It then stays readable whatever is read, until cancel, error or a failing
  pull, and a default read made on it waits for good. `ByteStreams.StrandedIff` gives the exact condition,
  on the queue and the view before the call: the view holds all unread bytes, and those before the last
  queued entry do not reach its minimum. `LastByteByView` is the shortest case; the WHATWG Streams Standard
  would close the stream.
* A writable stream that is errored while its close is in flight becomes closed if the close succeeds,
  as in the source.
* The path limits 1023, 260, 767 and 255 are those of abi_generated.h. In the normaliser the check for
  room in the buffer and the two corrections after popping to the root can never take effect; that is
  proved, not assumed. In the FAT check the refusal of a live file that owns a free cluster can never
  happen, since walking a chain already excludes it.
* `EventTimers.Wait` runs over the finite list of rounds that its environment grants: what a poll finds,
  the clock at the poll and after it, whether the application closes, and the result of the sleep.

## Model

| member | source | states |
|---|---|---|
| `BlockCache.SentinelIsNoBlock` | Platform/SDK/r4os/storage_tools/limine/limine.c:224-312 | the reserved block number is never the number of a real block, for every byte position and block size |
| `BlockCache.FlushKeepsView` | Platform/SDK/r4os/storage_tools/limine/limine.c:266-285 | a flush, failing or torn, never changes the flat disk "disk overlaid by the dirty block"; a successful one makes the disk equal to it; a torn one leaves a byte-wise mixture |
| `BlockCache.CacheBlockKeepsView` | Platform/SDK/r4os/storage_tools/limine/limine.c:287-312 | bringing a block in, with its implied flush, keeps the flat disk and, if it succeeds, caches that block truthfully |
| `BlockCache.ReadRefinesFlatDisk` | Platform/SDK/r4os/storage_tools/limine/limine.c:445-465 | every read leaves the flat disk alone, whatever fails; a successful one returns exactly the flat disk's bytes and stays on the disk |
| `BlockCache.WriteRefinesFlatDisk` | Platform/SDK/r4os/storage_tools/limine/limine.c:489-519 | a write patches the flat disk with exactly the prefix it got through, and what reached the disk is byte by byte old, pending or being written |
| `BlockCache.FaultsBite` | Platform/SDK/r4os/storage_tools/limine/limine.c:266-312 | a failing write of the dirty block leaves the new bytes just where they landed, and a failing read keeps the tag but overwrites the buffer |
| `BlockCache.AnyMixtureCanLand` | Platform/SDK/r4os/storage_tools/limine/limine.c:266-285 | every mixture of old and new bytes in a block is what some failing write leaves, so that no torn write is left out |
| `UndoLog.RestoreRecordPatches` | Platform/SDK/r4os/storage_tools/limine/limine.c:530-552 | a record restored at the first or at the second try patches the flat disk with its bytes, whatever the failed first try left behind |
| `UndoLog.RestoreAllReplays` | Platform/SDK/r4os/storage_tools/limine/limine.c:530-553 | the restoring loop without a final failure is the in-order replay of the records on the flat disk |
| `UndoLog.UninstallReplays` | Platform/SDK/r4os/storage_tools/limine/limine.c:524-574 | retry soundness: whenever uninstall reports success the disk is the in-order replay of all records over the disk it started from, for every pattern of failed and retried transfers |
| `UndoLog.ReverseAt` | Platform/SDK/r4os/storage_tools/limine/limine.c:328-334 | a reversed log has its records in the opposite order |
| `UndoLog.ReplayAt` | Platform/SDK/r4os/storage_tools/limine/limine.c:534-553 | later records win: a replay leaves at each byte what the last record covering it holds |
| `UndoLog.ReplayReversed` | Platform/SDK/r4os/storage_tools/limine/limine.c:328-334 | replaying the reversed log leaves at each byte what the earliest record covering it saved, or the byte itself |
| `UndoLog.UndoableIffRestored` | Platform/SDK/r4os/storage_tools/limine/limine.c:328-334 | replaying the reversed log restores the original disk if and only if first-saved bytes are original and uncovered bytes unchanged |
| `UndoLog.LoggedWriteStaysRecoverable` | Platform/SDK/r4os/storage_tools/limine/limine.c:467-522 | a logged write keeps the log able to undo everything, on the disk and on the flat disk; a failed one leaves the log alone and lands only a prefix |
| `UndoLog.RunStaysRecoverable` | Platform/SDK/r4os/storage_tools/limine/limine.c:467-522 | the recovery invariant over every run of reads, writes and flushes, with the state in which a failing operation leaves it |
| `UndoLog.RollbackRestores` | Platform/SDK/r4os/storage_tools/limine/limine.c:1205-1210 | rollback: after any run stopped by a failing operation that had not changed its first block, a rollback that reports success gives every byte of the original disk back |
| `UndoLog.InstallThenUninstall` | Platform/SDK/r4os/storage_tools/limine/limine.c:743-758 | a later uninstall with the reversed log, on a device with other faults, undoes a completed install |
| `UndoLog.RunRefinesFlatDisk` | Platform/SDK/r4os/storage_tools/limine/limine.c:445-522 | cache refinement over every successful run: writes update exactly a flat array, and a final flush makes the disk equal to it |
| `UndoLog.RunReadsFlatDisk` | Platform/SDK/r4os/storage_tools/limine/limine.c:445-465 | cache refinement over every successful run: all reads return what the flat array would return at that moment |
| `CalmDevice.CalmLoggedWrite` | Platform/SDK/r4os/storage_tools/limine/limine.c:467-522 | on a device that does not fail a logged write succeeds if and only if the log has room and the range lies in complete blocks; otherwise it changed nothing |
| `CalmDevice.ReadInReach` | Platform/SDK/r4os/storage_tools/limine/limine.c:445-465 | whatever fails, a read that succeeds lies within the complete blocks of the disk |
| `CalmDevice.CalmUninstall` | Platform/SDK/r4os/storage_tools/limine/limine.c:524-574 | if no transfer fails any more, uninstalling records within reach reports success |
| `CalmDevice.RollbackSucceeds` | Platform/SDK/r4os/storage_tools/limine/limine.c:1205-1210 | whatever failed during the install, if nothing fails afterwards the rollback reports success and, unless a write was torn, the original disk is back |
| `CalmDevice.RefusalLeavesNoTrace` | Platform/SDK/r4os/storage_tools/limine/limine.c:1205-1210 | on a device that never fails, an install that gives up after any operations, also by overrunning the disk or the log, is rolled back completely |
| `Retries.QuietWrite` | Platform/SDK/r4os/storage_tools/limine/limine.c:489-519 | a write within the complete blocks fails only if a transfer failed during it |
| `Retries.RetryRestores` | Platform/SDK/r4os/storage_tools/limine/limine.c:536-552 | the retry works: if the first try of a record fails and nothing fails afterwards, no failure is reported and the record is on the flat disk |
| `Retries.OneFaultIsRetried` | Platform/SDK/r4os/storage_tools/limine/limine.c:534-553 | with at most one failing transfer, in whichever record's first try, all records are restored without a reported failure |
| `Retries.UninstallSurvivesOneFault` | Platform/SDK/r4os/storage_tools/limine/limine.c:524-574 | an uninstall survives any single failing transfer but its final flush: it reports success and the disk is the in-order replay |
| `Retries.LaterRecordsAreRestored` | Platform/SDK/r4os/storage_tools/limine/limine.c:534-553 | records after one that failed twice are still written back, whatever failed before and whatever the buffer held, and success is reported exactly if none failed for good |
| `RollbackLimits.FailureAtBlockEdge` | Platform/SDK/r4os/storage_tools/limine/limine.c:489-519 | a write that fails after some progress has stopped exactly at a block edge |
| `RollbackLimits.HarmlessIsUndone` | Platform/SDK/r4os/storage_tools/limine/limine.c:498-507 | a failed write is undone if the part before its last block agrees with the disk wherever no record covers it |
| `RollbackLimits.UndoneIffHarmless` | Platform/SDK/r4os/storage_tools/limine/limine.c:467-522 | the exact limit of the rollback: a write is undone under all faults if and only if its bytes before its last block equal the flat disk's where no record covers them |
| `RollbackLimits.SpanningWriteCanBeLost` | Platform/SDK/r4os/storage_tools/limine/limine.c:498-507 | a concrete two-block write whose failure no rollback undoes, because its record is dropped |
| `UndoFile.StoreSucceedsIff` | Platform/SDK/r4os/storage_tools/limine/limine.c:342-380 | storing succeeds if and only if no record is empty, since writing zero bytes counts as a failure |
| `UndoFile.StoredLayout` | Platform/SDK/r4os/storage_tools/limine/limine.c:353-367 | the file holds the number of records, then for each its location, its length and its bytes, numbers in eight bytes |
| `UndoFile.LoadsWhatWasStored` | Platform/SDK/r4os/storage_tools/limine/limine.c:382-443 | the record loader reads back what was stored, with anything behind it |
| `UndoFile.LoadedWasStored` | Platform/SDK/r4os/storage_tools/limine/limine.c:382-443 | what the record loader accepts is the stored form of what it returns |
| `UndoFile.LoadInvertsStore` | Platform/SDK/r4os/storage_tools/limine/limine.c:342-443 | a file loads as a log if and only if the log has at most 256 storable records and the file begins with its stored form |
| `UndoFile.RunKeepsStorable` | Platform/SDK/r4os/storage_tools/limine/limine.c:467-522 | every run of non-empty writes produces a log that fits the file |
| `UndoFile.StoredUninstallIsIdentity` | Platform/SDK/r4os/storage_tools/limine/limine.c:342-443 | install, reverse, store, load and uninstall compose to the identity on the disk |
| `LimineDevice.Device.constructor` | Platform/SDK/r4os/storage_tools/limine/limine.c:233-264 | device_init leaves a clean cache of block 0 and an empty log, from which everything can be undone |
| `LimineDevice.Device.Flush` | Platform/SDK/r4os/storage_tools/limine/limine.c:266-285 | computes the flush of the cache model on the fields, for every fault |
| `LimineDevice.Device.CacheBlock` | Platform/SDK/r4os/storage_tools/limine/limine.c:287-312 | computes the block change of the cache model on the fields and the buffer array |
| `LimineDevice.Device.ReadPiece` | Platform/SDK/r4os/storage_tools/limine/limine.c:448-463 | one round of the read loop is one step of the recursive read |
| `LimineDevice.Device.Read` | Platform/SDK/r4os/storage_tools/limine/limine.c:445-465 | the chunked loop computes exactly the recursive read, including positions that wrap at 64 bits |
| `LimineDevice.Device.Copy` | Platform/SDK/r4os/storage_tools/limine/limine.c:489-519 | the chunked copying loop computes exactly the recursive write and its progress |
| `LimineDevice.Device.Write` | Platform/SDK/r4os/storage_tools/limine/limine.c:467-522 | logs while installing and only then; new device state, log and result are those of the model |
| `LimineDevice.Device.TryRead` | Platform/SDK/r4os/storage_tools/limine/limine.c:576-580 | an install's read returns the flat disk's bytes; a successful one lies within the complete blocks of the disk; a failed one leaves a state that can be rolled back, and on a device without faults means that it does not |
| `LimineDevice.Device.TryWrite` | Platform/SDK/r4os/storage_tools/limine/limine.c:582-586 | an install's write patches the flat disk and adds one record; a failed one leaves a state that can be rolled back unless torn, and without faults means an overrun or a full log |
| `LimineDevice.Device.TryFlush` | Platform/SDK/r4os/storage_tools/limine/limine.c:1192-1193 | after the final flush the disk is the flat disk |
| `LimineDevice.Device.Rollback` | Platform/SDK/r4os/storage_tools/limine/limine.c:1205-1210 | a rollback that reports success restores the original disk unless a write was torn, and it reports success when nothing fails any more |
| `LimineDevice.Device.ReverseUninstallData` | Platform/SDK/r4os/storage_tools/limine/limine.c:328-334 | the two-index loop over the two arrays reverses the log in place |
| `LimineDevice.Device.RestoreOne` | Platform/SDK/r4os/storage_tools/limine/limine.c:530-552 | one record with its single retry, as the model computes it |
| `LimineDevice.Device.Uninstall` | Platform/SDK/r4os/storage_tools/limine/limine.c:524-574 | drops the cache, restores all records and flushes; result and state are those of the model |
| `LimineDevice.Device.StoreUninstallData` | Platform/SDK/r4os/storage_tools/limine/limine.c:342-380 | writes exactly the bytes of the file format, also when it stops early |
| `LimineDevice.Device.LoadUninstallData` | Platform/SDK/r4os/storage_tools/limine/limine.c:382-443 | accepts exactly the files the format function accepts and fills the log with the same records |
| `PartitionTables.ChsSaturates` | Platform/SDK/r4os/storage_tools/limine/limine.c:151-172 | the three CHS bytes decode to min(LBA, 1024*255*63 - 1) |
| `PartitionTables.ChsBytes` | Platform/SDK/r4os/storage_tools/limine/limine.c:164-171 | the bytes of a CHS address are the head, the high cylinder bits with the sector, and the low cylinder bits |
| `PartitionTables.EntryLayout` | Platform/SDK/r4os/storage_tools/limine/limine.c:112-123 | a GPT entry written in its on-disk order is read as its first and last block and its type, and is used exactly if its unique GUID is not zero |
| `PartitionTables.TypeOf` | Platform/SDK/r4os/storage_tools/limine/limine.c:135-149 | exactly the three type GUIDs, as sixteen bytes each, have an MBR type |
| `PartitionTables.ConvertibleIff` | Platform/SDK/r4os/storage_tools/limine/limine.c:849-886 | in the integers: addresses and length fit 32 bits and the type is known |
| `PartitionTables.TableLayout` | Platform/SDK/r4os/storage_tools/limine/limine.c:918-929 | entry i of the new table is at byte 16 i, and unused entries are zero |
| `PartitionTables.GatheredAre` | Platform/SDK/r4os/storage_tools/limine/limine.c:827-886 | exactly the used entries are gathered, in their order |
| `PartitionTables.ConvertibleCount` | Platform/SDK/r4os/storage_tools/limine/limine.c:868-873 | a partition that passes the 64-bit tests has its sector count in the integers, not only modulo 2^64 |
| `PartitionTables.MbrEntryDecodes` | Platform/SDK/r4os/storage_tools/limine/limine.c:919-928 | an entry made from a convertible partition decodes to the same start, sector count and type, and to saturated CHS addresses |
| `PartitionTables.GatheredGrows` | Platform/SDK/r4os/storage_tools/limine/limine.c:827-886 | reading more GPT entries only appends partitions |
| `BiosInstall.Probe` | Platform/SDK/r4os/storage_tools/limine/limine.c:761-795 | finds a GPT exactly when one of the two block sizes shows its signature, takes the fields of the first, and refuses exactly a GPT without a valid backup |
| `BiosInstall.Gather` | Platform/SDK/r4os/storage_tools/limine/limine.c:814-886 | reads all entries and decides exactly whether all used ones can be converted; the partitions are those of the disk, in order |
| `BiosInstall.Clear` | Platform/SDK/r4os/storage_tools/limine/limine.c:895-906 | clears exactly the given logical blocks, one undo record each |
| `BiosInstall.WriteEntry` | Platform/SDK/r4os/storage_tools/limine/limine.c:919-928 | the five small writes of an entry make the 16-byte MBR entry |
| `BiosInstall.WriteMbr` | Platform/SDK/r4os/storage_tools/limine/limine.c:911-929 | disk identifier and entries make exactly the 70 bytes at 440, in 4 + 5n records |
| `BiosInstall.Convert` | Platform/SDK/r4os/storage_tools/limine/limine.c:801-933 | all or nothing: converts if and only if the image is an ISO whose GPT fits an MBR, otherwise writes nothing; the converted disk is described byte for byte and costs at most 91 records |
| `BiosInstall.TestSign` | Platform/SDK/r4os/storage_tools/limine/limine.c:615-622 | one signature test: matches exactly the bytes on the disk and, when forced, overwrites a match with zeros |
| `BiosInstall.ValidateOrForce` | Platform/SDK/r4os/storage_tools/limine/limine.c:611-669 | accepts exactly the volumes without a recognised file system; when forced it wipes every signature found |
| `BiosInstall.WipeAllClears` | Platform/SDK/r4os/storage_tools/limine/limine.c:615-662 | after a forced validation nothing is recognised any more, and only signature bytes have changed |
| `BiosInstall.CheckStatus` | Platform/SDK/r4os/storage_tools/limine/limine.c:947-956 | judges the status byte of an entry exactly and repairs it only when forced |
| `BiosInstall.CheckEntry` | Platform/SDK/r4os/storage_tools/limine/limine.c:947-964 | one MBR entry: refuses exactly a used partition below sector 63, repairs a status byte only when forced |
| `BiosInstall.CheckEntries` | Platform/SDK/r4os/storage_tools/limine/limine.c:947-1018 | the four entries in turn: only status bytes change, all four are judged on the disk as it was, and the active flag is exact |
| `BiosInstall.CheckMbr` | Platform/SDK/r4os/storage_tools/limine/limine.c:938-1042 | accepts exactly the good MBRs, touches only status and signature bytes, and leaves some partition active |
| `BiosInstall.ReadGptEntry` | Platform/SDK/r4os/storage_tools/limine/limine.c:1076-1081 | reads entry k, or refuses because its offset passes 64 bits, and then no later entry exists either |
| `BiosInstall.ChooseNumbered` | Platform/SDK/r4os/storage_tools/limine/limine.c:1065-1094 | chooses the numbered entry if it exists, is used and, unless forced, is of BIOS boot type; refuses exactly otherwise |
| `BiosInstall.Autodetected` | Platform/SDK/r4os/storage_tools/limine/limine.c:1095-1115 | chooses the first entry of BIOS boot type and refuses exactly when there is none |
| `BiosInstall.Stage2Fits` | Platform/SDK/r4os/storage_tools/limine/limine.c:1118-1142 | the 64-bit size tests guarantee 32 KiB inside the partition, in the integers |
| `BiosInstall.Locate` | Platform/SDK/r4os/storage_tools/limine/limine.c:1056-1159 | finds the partition for stage 2 if and only if an acceptable one exists, and changes nothing there unless forced |
| `BiosInstall.Signatures` | Platform/SDK/r4os/storage_tools/limine/limine.c:615-662 | the signatures are the texts and the magic number that the source compares with |
| `BiosInstall.HeaderLayout` | Platform/SDK/r4os/storage_tools/limine/limine.c:88-110 | a GPT header written in its on-disk order is recognised by its text and read as backup block and block, number and size of the entries |
| `BiosInstall.GptMeans` | Platform/SDK/r4os/storage_tools/limine/limine.c:761-778 | a header at 512 wins over one at 4096 |
| `BiosInstall.MbrEntryLayout` | Platform/SDK/r4os/storage_tools/limine/limine.c:947-964 | an MBR entry written in its on-disk order passes exactly from sector 63 on, or unused, with status 0 or 0x80 |
| `BiosInstall.GoodMbrMeans` | Platform/SDK/r4os/storage_tools/limine/limine.c:938-1042 | a good MBR: four entries that do not start low and, unless forced, sane status bytes and no file system |
| `BiosInstall.StageBelowPartitions` | Platform/SDK/r4os/storage_tools/limine/limine.c:1052-1053 | no used partition of a good MBR begins before the end of an image of 63 sectors |
| `BiosInstall.FilesystemSigns` | Platform/SDK/r4os/storage_tools/limine/limine.c:615-662 | a file system is recognised exactly by NTFS, FAT, FAT32 and the ext magic at their offsets |
| `BiosInstall.WipeAllZeroes` | Platform/SDK/r4os/storage_tools/limine/limine.c:615-662 | a forced validation zeroes four bytes of NTFS, five of any FAT and two of ext |
| `BiosInstall.ClearedBytes` | Platform/SDK/r4os/storage_tools/limine/limine.c:895-906 | clearing sets exactly the bytes of the blocks to zero |
| `BiosInstall.WithoutGptBytes` | Platform/SDK/r4os/storage_tools/limine/limine.c:888-907 | the first 34 blocks and the 33 blocks up to the backup header become zero and nothing else |
| `BiosInstall.ConvertedLayout` | Platform/SDK/r4os/storage_tools/limine/limine.c:911-929 | the identifier is at 440, the table at 446, and nothing else changes once the GPTs are gone |
| `BiosInstall.WantedMeans` | Platform/SDK/r4os/storage_tools/limine/limine.c:801-886 | what is converted: an ISO image all of whose used entries, at most four, can be converted |
| `BiosInstall.RoomyIff` | Platform/SDK/r4os/storage_tools/limine/limine.c:1119-1142 | the room for stage 2 in the integers: 32 KiB and nothing beyond 64 bits |
| `BiosInstall.ChosenMeans` | Platform/SDK/r4os/storage_tools/limine/limine.c:1065-1115 | which entry is taken, on the bytes of the disk |
| `BiosInstall.AcceptableMeans` | Platform/SDK/r4os/storage_tools/limine/limine.c:1118-1159 | an acceptable entry is chosen, has room and, unless forced, holds no file system |
| `BiosInstall.AcceptedMeans` | Platform/SDK/r4os/storage_tools/limine/limine.c:797-1050 | which disks are judged as what: by the MBR without a GPT or after a wanted conversion, by the partitions otherwise |
| `BiosInstall.TableSurvives` | Platform/SDK/r4os/storage_tools/limine/limine.c:1170-1190 | time stamp, disk identifier and partition table keep their values wherever stage 2 goes |
| `BiosInstall.InstallFrame` | Platform/SDK/r4os/storage_tools/limine/limine.c:1170-1190 | with stage 2 outside sector 0 every byte of the disk after the final writes is given: only boot code and stage 2 change |
| `BiosInstall.WriteStages` | Platform/SDK/r4os/storage_tools/limine/limine.c:1170-1193 | the final reads, writes and flush produce exactly that disk and five records |
| `BiosInstall.PutStages` | Platform/SDK/r4os/storage_tools/limine/limine.c:1176-1190 | the five final writes in order; without faults they fail only beyond the complete blocks |
| `BiosInstall.Prepare` | Platform/SDK/r4os/storage_tools/limine/limine.c:761-1159 | without a failing operation, everything before the final writes succeeds if and only if the given disk is accepted; on a device without faults it fails only for a disk that is not accepted or too short; stage 2 lies below every MBR partition or inside its own |
| `BiosInstall.Install` | Platform/SDK/r4os/storage_tools/limine/limine.c:671-1215 | on a device without faults it succeeds if and only if the given disk is accepted and long enough for the transfers it takes, and otherwise leaves the disk as it was; no run uses more than 106 records; after success the disk is the prepared one plus boot code, and the log can be stored, lies within reach and replays to the original; after failure a successful rollback gives the original |
| `BiosInstall.LandsInRoom` | Platform/SDK/r4os/storage_tools/limine/limine.c:1170-1193 | once prepared, the disk is long enough if and only if stage 2 ends within its complete blocks |
| `BiosInstall.GoodMbrSuffices` | Platform/SDK/r4os/storage_tools/limine/limine.c:938-1042 | without a GPT, every good MBR on 63 sectors or more is accepted and long enough |
| `BiosInstall.InstallAndUninstall` | Platform/SDK/r4os/storage_tools/limine/limine.c:743-758 | install, store, load in a later run and uninstall: storing and loading never fail, a reported success gives the original disk back, and without faults it is reported |
| `BiosInstall.ReversedLogRestores` | Platform/SDK/r4os/storage_tools/limine/limine.c:1205-1212 | the log of a finished install, reversed, replays to the original disk, can be stored and lies within reach |
| `ConfigEnroll.Search` | Platform/SDK/r4os/storage_tools/limine/limine.c:1311-1330 | the backtracking loop terminates and finds the first occurrence that ends in the window, for every signature of that length |
| `ConfigEnroll.FirstOccurrence` | Platform/SDK/r4os/storage_tools/limine/limine.c:1311-1330 | there is a slot exactly when the signature occurs in the window |
| `ConfigEnroll.EnrollInPlace` | Platform/SDK/r4os/storage_tools/limine/limine.c:1293-1338 | the overwrite stays in the image and the new image is the specified one, or the image is untouched |
| `ConfigEnroll.EnrollMeans` | Platform/SDK/r4os/storage_tools/limine/limine.c:1311-1338 | behind the first signature text that ends in the window the 128 bytes appear, and nothing else changes |
| `ConfigEnroll.EnrollRefuses` | Platform/SDK/r4os/storage_tools/limine/limine.c:1292-1335 | refused exactly below 154 bytes or without a signature that ends in the window |
| `ConfigEnroll.SlotStays` | Platform/SDK/r4os/storage_tools/limine/limine.c:1332-1338 | overwriting a slot does not create an earlier one and leaves the slot in place |
| `ConfigEnroll.SecondEnrolmentWins` | Platform/SDK/r4os/storage_tools/limine/limine.c:1311-1338 | enrolling twice equals the second enrolment alone |
| `ReadableStreams.SettledForGood` | Platform/SDK/r4os/web_streams.js:150-212 | over every run a settled read never changes, so each read settles exactly once |
| `ReadableStreams.EndIsAbsorbing` | Platform/SDK/r4os/web_streams.js:107-132 | over every run closed and errored are final: nothing is accepted and the end does not change |
| `ReadableStreams.RunAppend` | Platform/SDK/r4os/web_streams.js:150-212 | runs of the reference model compose step by step |
| `ReadableStreams.TraceRuns` | Platform/SDK/r4os/web_streams.js:133-212 | a trace is a run of the model over the events taken, in which no chunk offered is missing |
| `ReadableStreams.ChunksAreOffered` | Platform/SDK/r4os/web_streams.js:150-212 | over every run the chunks kept are the first ones offered, and all of them while the stream is open |
| `ReadableStreams.GentleRun` | Platform/SDK/r4os/web_streams.js:189-243 | closing loses nothing: over every run without error, cancellation and bad sizes the chunks are exactly those offered before the first close, and reads beyond them are done after it and wait without it |
| `ReadableStreams.EndDecides` | Platform/SDK/r4os/web_streams.js:118-188 | an error or a cancellation decides every read that has not been given a chunk, also those whose chunk was queued |
| `ReadableStreams.ExactlyOnePull` | Platform/SDK/r4os/web_streams.js:133-149 | in every valid state with demand exactly one pull is in flight, and never more than one |
| `ReadableStreams.Stream.constructor` | Platform/SDK/r4os/web_streams.js:439-446 | a new stream is the empty model, without a pull |
| `ReadableStreams.Stream.CallPull` | Platform/SDK/r4os/web_streams.js:133-145 | starts a pull exactly when there is demand and none is in flight |
| `ReadableStreams.Stream.RequestPull` | Platform/SDK/r4os/web_streams.js:146-149 | afterwards a pull is in flight if one was or there is demand |
| `ReadableStreams.Stream.Enqueue` | Platform/SDK/r4os/web_streams.js:150-180 | one step of the model: the chunk goes to the next read, or the stream fails on a bad size; throws exactly when nothing was accepted |
| `ReadableStreams.Stream.Read` | Platform/SDK/r4os/web_streams.js:189-212 | one step of the model: read k gets chunk k, or waits, or shares the stream's end; a drained closing stream closes |
| `ReadableStreams.Stream.Close` | Platform/SDK/r4os/web_streams.js:237-242 | one step of the model; throws exactly when the end was already decided |
| `ReadableStreams.Stream.Error` | Platform/SDK/r4os/web_streams.js:118-127 | one step of the model: queued chunks are dropped, waiting reads rejected |
| `ReadableStreams.Stream.Cancel` | Platform/SDK/r4os/web_streams.js:181-188 | one step of the model: queued chunks are dropped, waiting reads are done |
| `ReadableStreams.Stream.Started` | Platform/SDK/r4os/web_streams.js:451 | starting keeps the model and begins the first pull exactly when there is demand |
| `ReadableStreams.Stream.StartFailed` | Platform/SDK/r4os/web_streams.js:448-451 | a failing start fails the stream as an error does |
| `ReadableStreams.Stream.PullDone` | Platform/SDK/r4os/web_streams.js:136-142 | after a completed pull the next one is in flight if and only if there is demand |
| `ReadableStreams.Stream.PullFailed` | Platform/SDK/r4os/web_streams.js:143 | a failed pull fails the stream and no pull is in flight |
| `ReadableStreams.Drive` | Platform/SDK/r4os/web_streams.js:133-212 | every interleaving of events: all are taken in order, except completions of a pull that is not in flight; the stream is the run of the reference model, the k-th read that gets a chunk gets the k-th chunk offered, and in runs that only close every read is given: the k-th chunk offered before close, done, or still waiting |
| `ByteStreams.UnreadAppend` | Platform/SDK/r4os/web_streams.js:163-166 | queuing a chunk appends its unread bytes to the unread bytes |
| `ByteStreams.ConsumeHead` | Platform/SDK/r4os/web_streams.js:87-93 | advancing or removing the entry at the head consumes exactly its next bytes |
| `ByteStreams.CollectedSettle` | Platform/SDK/r4os/web_streams.js:72-76 | giving bytes to the next read in order appends them to the bytes delivered |
| `ByteStreams.CollectedSilent` | Platform/SDK/r4os/web_streams.js:118-127 | settling a read without bytes delivers nothing |
| `ByteStreams.EndAllSettles` | Platform/SDK/r4os/web_streams.js:107-127 | closing or failing settles every waiting read in its own way and no other |
| `ByteStreams.EndAllMeans` | Platform/SDK/r4os/web_streams.js:107-127 | closing resolves a waiting default read as done and a view with what it holds, done only if that is nothing; failing rejects both |
| `ByteStreams.AfterDraining` | Platform/SDK/r4os/web_streams.js:86-94 | conservation decides which bytes a drained view was given |
| `ByteStreams.ByteStream.FillPullInto` | Platform/SDK/r4os/web_streams.js:77-85 | copies what fits into the view and finishes it exactly when it has its minimum |
| `ByteStreams.ByteStream.DrainOne` | Platform/SDK/r4os/web_streams.js:87-93 | one round of draining moves the next unread bytes, in order, into the view |
| `ByteStreams.ByteStream.Drain` | Platform/SDK/r4os/web_streams.js:86-94 | leaves exactly the queue that whole entries up to the minimum, cut at the capacity, leave; the view is finished with those bytes or takes all there is and waits; every byte is conserved |
| `ByteStreams.ByteStream.CloseReadable` | Platform/SDK/r4os/web_streams.js:107-117 | closing settles all waiting reads, a partly filled view with what it holds, and delivers those bytes |
| `ByteStreams.ByteStream.ErrorReadable` | Platform/SDK/r4os/web_streams.js:118-127 | an error rejects all waiting reads and drops what is held |
| `ByteStreams.ByteStream.Enqueue` | Platform/SDK/r4os/web_streams.js:150-180 | refuses exactly empty chunks and closing streams; otherwise the bytes are supplied and conserved |
| `ByteStreams.ByteStream.ReadInto` | Platform/SDK/r4os/web_streams.js:214-232 | rejects exactly bad views and errored streams; otherwise the view is served, to the byte, whole entries until its minimum cut at its capacity, ends early if closing, or waits; it never changes the state of the stream |
| `ByteStreams.ByteStream.Respond` | Platform/SDK/r4os/web_streams.js:254-263 | refuses exactly without a view, without bytes or beyond the view; otherwise the bytes are supplied and conserved |
| `ByteStreams.ByteStream.Read` | Platform/SDK/r4os/web_streams.js:189-212 | a default read takes the first entry's bytes, or waits, or shares the stream's end; it closes the stream exactly if it takes the last entry of a closing one |
| `ByteStreams.ByteStream.Close` | Platform/SDK/r4os/web_streams.js:289-294 | closes at once exactly when nothing is queued; waiting default reads are done, and a view is resolved with its bytes, done only without any |
| `ByteStreams.ByteStream.Error` | Platform/SDK/r4os/web_streams.js:118-127 | only a readable stream fails, and all its waiting reads are rejected |
| `ByteStreams.ByteStream.Cancel` | Platform/SDK/r4os/web_streams.js:181-188 | only a readable stream is closed; the queue is dropped, a view keeps its bytes |
| `ByteStreams.ByteStream.Started` | Platform/SDK/r4os/web_streams.js:451 | starting begins a pull exactly when there is demand |
| `ByteStreams.ByteStream.PullDone` | Platform/SDK/r4os/web_streams.js:136-142 | after a completed pull the next one is in flight if and only if there is demand |
| `ByteStreams.ByteStream.PullFailed` | Platform/SDK/r4os/web_streams.js:143 | a failed pull fails the stream and no pull is in flight |
| `ByteStreams.AmountIsTaken` | Platform/SDK/r4os/web_streams.js:77-94 | a view takes the first unread bytes, at least its minimum if there is so much and else all, and leaves the rest |
| `ByteStreams.NothingLeftIff` | Platform/SDK/r4os/web_streams.js:86-94 | a view empties the queue if and only if all unread bytes fit and those before the last entry are fewer than its minimum |
| `ByteStreams.ExactlyOnePull` | Platform/SDK/r4os/web_streams.js:133-149 | in every valid state with demand exactly one pull is in flight, and never more than one |
| `ByteStreams.TraceSupplies` | Platform/SDK/r4os/web_streams.js:150-180 | over every run the bytes supplied are those of the steps not refused, in order |
| `ByteStreams.StrandedIff` | Platform/SDK/r4os/web_streams.js:228-230 | a closing stream is left readable with nothing queued exactly by a valid view, made while no read waits, whose capacity holds all unread bytes and whose minimum exceeds those before the last entry; exactly cancel, error and a failing pull end that |
| `ByteStreams.StrandedForGood` | Platform/SDK/r4os/web_streams.js:189-232 | over every run such a stream stays readable until it is ended, and default reads made on it wait for good |
| `ByteStreams.LastByteByView` | Platform/SDK/r4os/web_streams.js:214-232 | the shortest case: enqueue one byte, close, read it into a view; the stream is still readable |
| `ByteStreams.Drive` | Platform/SDK/r4os/web_streams.js:72-263 | over every run the bytes supplied are those of the enqueue and respond steps that were not refused, in order; without views a read is done exactly if it got no bytes; with one kind of reader and one view at a time they are, in order, delivered, dropped, in the view and unread, with queueTotalSize the unread count |
| `WritableStreams.TracesAreSequential` | Platform/SDK/r4os/web_streams.js:613-655 | in every trace of the sink calls alternate with their ends and nothing begins after a failure |
| `WritableStreams.TraceKept` | Platform/SDK/r4os/web_streams.js:613-640 | accepting another write does not change what the sink has seen |
| `WritableStreams.AcceptedAreOffered` | Platform/SDK/r4os/web_streams.js:613-655 | over every run the accepted writes are the first ones offered, all of them while the stream takes writes, and it never takes writes again |
| `WritableStreams.Stream.constructor` | Platform/SDK/r4os/web_streams.js:743-746 | a new stream has called start and nothing else |
| `WritableStreams.Stream.Write` | Platform/SDK/r4os/web_streams.js:613-640 | takes a chunk exactly while writable, not closing and with a good size; it becomes the last link |
| `WritableStreams.Stream.Close` | Platform/SDK/r4os/web_streams.js:641-655 | queues the close exactly once and exactly while writable |
| `WritableStreams.Stream.Error` | Platform/SDK/r4os/web_streams.js:600-612 | fails exactly a writable stream and leaves chain and trace alone |
| `WritableStreams.Stream.StartSettled` | Platform/SDK/r4os/web_streams.js:743-746 | the chain goes on, or is rejected and the stream errored |
| `WritableStreams.Stream.Begin` | Platform/SDK/r4os/web_streams.js:626-629 | the sink is called if and only if the stream is not errored and the link before was fulfilled |
| `WritableStreams.Stream.SinkSettled` | Platform/SDK/r4os/web_streams.js:626-638 | the sink's answer ends exactly the call that began last |
| `WritableStreams.Stream.WriteFulfilled` | Platform/SDK/r4os/web_streams.js:630-633 | a finished write leaves queueTotalSize the total size of the unsettled writes |
| `WritableStreams.Stream.LinkRejected` | Platform/SDK/r4os/web_streams.js:634-638 | a rejection errors a writable stream and is passed to the next link |
| `WritableStreams.Stream.CloseFulfilled` | Platform/SDK/r4os/web_streams.js:649-652 | a successful close closes the stream even if it was errored meanwhile |
| `WritableStreams.Stream.Settle` | Platform/SDK/r4os/web_streams.js:630-653 | the second handler of a link: only a successful close leaves the errored state |
| `WritableStreams.TraceOfValid` | Platform/SDK/r4os/web_streams.js:613-655 | in every reachable state the trace is sequential and close has begun only if every accepted write succeeded |
| `WritableStreams.Drive` | Platform/SDK/r4os/web_streams.js:600-655 | every interleaving ends exactly where the steps lead; the accepted writes are the first ones offered, all of them while writable, and the sink sees start, a prefix of them in order, then perhaps close, never two at once |
| `Utf8Segment.HeadIsUnique` | Platform/SDK/Shared/C/include/r4os/path_timeout.h:74-106 | no encoded character is a proper beginning of another |
| `Utf8Segment.DecodingIsUnique` | Platform/SDK/Shared/C/include/r4os/path_timeout.h:74-106 | a byte string is the encoding of at most one text |
| `Utf8Segment.StuckIsUnique` | Platform/SDK/Shared/C/include/r4os/path_timeout.h:74-106 | the first place where no allowed character follows is unique |
| `Utf8Segment.EncodingBits` | Platform/SDK/Shared/C/include/r4os/path_timeout.h:74-106 | the byte sequences of section 3 of RFC 3629, from which the code point can be read back |
| `Utf8Segment.AllowedCharacters` | Platform/SDK/Shared/C/include/r4os/path_timeout.h:62-66 | printable ASCII without seven reserved characters is allowed |
| `Utf8Segment.AllowedBeyondAscii` | Platform/SDK/Shared/C/include/r4os/path_timeout.h:86-104 | beyond ASCII everything up to U+FFFF but the surrogates is allowed |
| `Utf8Segment.SegmentValid` | Platform/SDK/Shared/C/include/r4os/path_timeout.h:62-109 | accepts exactly the UTF-8 encodings of texts of allowed BMP characters without surrogates, reports their length, and otherwise the error of the first bad place |
| `PathNormalize.SplitJoin` | Platform/SDK/Shared/C/include/r4os/path_timeout.h:121-126 | splitting undoes joining |
| `PathNormalize.NormalizedIsNoLonger` | Platform/SDK/Shared/C/include/r4os/path_timeout.h:111-158 | a normalised path is no longer than its input |
| `PathNormalize.NormalizeIsIdempotent` | Platform/SDK/Shared/C/include/r4os/path_timeout.h:111-158 | normalising a result succeeds for every suitable kind and returns it unchanged |
| `PathNormalize.SlashesAreBackslashes` | Platform/SDK/Shared/C/include/r4os/path_timeout.h:59 | slashes and backslashes mean the same |
| `PathNormalize.NormalizedHasNoSlash` | Platform/SDK/Shared/C/include/r4os/path_timeout.h:111-158 | no normalised path contains a slash |
| `PathNormalize.DriveMeans` | Platform/SDK/Shared/C/include/r4os/path_timeout.h:114-120 | a letter, a colon and a separator make a path absolute, and its normal form begins with the capital letter, a colon and a backslash |
| `PathNormalize.DotsMean` | Platform/SDK/Shared/C/include/r4os/path_timeout.h:127-136 | a dot changes nothing, two dots take back the segment before them and cannot leave the root |
| `PathNormalize.TextMeans` | Platform/SDK/Shared/C/include/r4os/path_timeout.h:143-155 | segments are joined by single backslashes, and an empty relative path is a dot |
| `PathNormalize.CountsCharacters` | Platform/SDK/Shared/C/include/r4os/path_timeout.h:140-151 | the characters counted are those of the text, separators included |
| `PathNormalize.RefusalsMean` | Platform/SDK/Shared/C/include/r4os/path_timeout.h:112-116 | what is refused before any segment is looked at |
| `PathNormalize.SegmentRefusals` | Platform/SDK/Shared/C/include/r4os/path_timeout.h:137-150 | why a segment is refused |
| `PathNormalize.LimitsMean` | Platform/SDK/Shared/C/include/r4os/path_timeout.h:137-150 | a valid segment is taken exactly within 767 bytes, 255 characters, 160 segments and 260 characters in all |
| `PathNormalize.CheckSegment` | Platform/SDK/Shared/C/include/r4os/path_timeout.h:138-140 | accepts exactly the good segments with their character count, and reports the reference error otherwise |
| `PathNormalize.Builder.Pop` | Platform/SDK/Shared/C/include/r4os/path_timeout.h:129-135 | popping restores text and counters of the shorter stack |
| `PathNormalize.Builder.Push` | Platform/SDK/Shared/C/include/r4os/path_timeout.h:141-152 | pushing appends separator and segment in range, or refuses exactly for depth or characters |
| `PathNormalize.Builder.Take` | Platform/SDK/Shared/C/include/r4os/path_timeout.h:127-153 | one segment is handled as the reference step says |
| `PathNormalize.ResolveInto` | Platform/SDK/Shared/C/include/r4os/path_timeout.h:121-153 | the loop over the input resolves its segments as the reference definition does |
| `PathNormalize.NormalizeInto` | Platform/SDK/Shared/C/include/r4os/path_timeout.h:111-158 | the in-place normaliser returns the reference result or the reference error and terminates the text; every write is in range |
| `Ticks.TicksAreLeast` | Platform/SDK/Shared/C/include/r4os/path_timeout.h:200-207 | the ticks are the least number covering the duration, or saturate |
| `Ticks.TicksAreMonotone` | Platform/SDK/Shared/C/include/r4os/path_timeout.h:200-207 | monotone in the duration and in the clock rate |
| `Ticks.RemainingIsLeast` | Platform/SDK/Shared/C/include/r4os/path_timeout.h:240-243 | the remaining ticks are the least sleep that reaches the deadline, and none once it has passed |
| `Ticks.ResolutionIsLeast` | Platform/SDK/Shared/C/include/r4os/path_timeout.h:245-247 | the resolution is the length of a tick rounded up, and zero without a clock |
| `Ticks.DeadlineSaturates` | Platform/SDK/Shared/C/include/r4os/path_timeout.h:230-238 | a deadline is the sum of now and the duration, at most 64 bits |
| `Ticks.SleepReachesDeadline` | Platform/SDK/Shared/C/include/r4os/path_timeout.h:240-247 | sleeping the remaining ticks does not end before the deadline, in exact time and with the rounded-up resolution |
| `Ticks.TimeoutIsNeverEarly` | Platform/SDK/Shared/C/include/r4os/path_timeout.h:230-247 | a timeout whose deadline did not saturate never ends early, asked at any later time |
| `EventTimers.RearmIsTheNextGridPoint` | Platform/SDK/Shared/C/include/r4os/app_gui.h:193 | re-arming gives the grid point in (now, now + interval] or saturates exactly when that does not fit 64 bits |
| `EventTimers.NextGridPointIsUnique` | Platform/SDK/Shared/C/include/r4os/app_gui.h:193 | there is only one such grid point |
| `EventTimers.FiringsFollowTheGrid` | Platform/SDK/Shared/C/include/r4os/app_gui.h:189-195 | over every run on a monotone clock a timer stays on the grid of its first deadline or saturates, and fires in ever later periods, never twice in one |
| `EventTimers.PollTimers` | Platform/SDK/Shared/C/include/r4os/app_gui.h:189-195 | fires exactly the first due timer, or nothing is due and nothing changes |
| `EventTimers.PollRun` | Platform/SDK/Shared/C/include/r4os/app_gui.h:189-195 | repeated polls: in each exactly the first due timer fires, and nothing else changes |
| `EventTimers.TimerLives` | Platform/SDK/Shared/C/include/r4os/app_gui.h:189-195 | in any run of polls every timer lives its own life, reached unless an earlier timer fires |
| `EventTimers.RepeatingTimerKeepsItsGrid` | Platform/SDK/Shared/C/include/r4os/app_gui.h:127-132 | a repeating timer started with any ticks stays active and on the grid started + ticks + k max(ticks, 1) or saturates over any run of polls on a monotone clock, never fires before started + ticks and at most once a period |
| `EventTimers.SingleTimerFiresOnce` | Platform/SDK/Shared/C/include/r4os/app_gui.h:127-132 | a timer started without repetition fires at most once over any run of polls, never before started + ticks, and is inactive exactly afterwards |
| `EventTimers.TimerDelay` | Platform/SDK/Shared/C/include/r4os/app_gui.h:200-204 | the exact distance to the nearest active timer, zero if one is due |
| `EventTimers.BudgetIs` | Platform/SDK/Shared/C/include/r4os/path_timeout.h:221-228 | the budget is nothing for a poll, everything forever, and the least number of ticks covering a finite timeout |
| `EventTimers.DecisionMeans` | Platform/SDK/Shared/C/include/r4os/app_gui.h:211-218 | what a round decides, case by case |
| `EventTimers.UndecidedRoundSleeps` | Platform/SDK/Shared/C/include/r4os/app_gui.h:212-218 | a round that decides nothing sleeps, unless a timer has become due since its poll |
| `EventTimers.SleepsFit` | Platform/SDK/Shared/C/include/r4os/app_gui.h:213-216 | every sleep lasts at least one tick, within the budget and not past any active timer |
| `EventTimers.WaitRounds` | Platform/SDK/Shared/C/include/r4os/app_gui.h:211-219 | the loop: outcome of the first deciding round, one sleep of the least of budget and nearest timer for each round that comes to it |
| `EventTimers.Wait` | Platform/SDK/Shared/C/include/r4os/app_gui.h:206-219 | the outcome is that of the first deciding round and the sleeps are exactly those of the rounds up to it; each fits both the remaining budget and every active timer; a finite timeout is reported only once its nanoseconds have passed, and no sleep lasts a tick longer than they take |
| `FatChecker.ChainIsAllocated` | Tools/Download-FatFaults.cs:115-122 | all clusters of a chain are allocated |
| `FatChecker.ChainIsUnique` | Tools/Download-FatFaults.cs:115-122 | a first cluster has at most one chain |
| `FatChecker.Entries` | Tools/Download-FatFaults.cs:48-66 | the loop computes exactly the entries that EntriesAre describes |
| `FatChecker.EntriesAre` | Tools/Download-FatFaults.cs:50-63 | exactly the slots before the end mark that are neither deleted nor parts of long names are entries, in their order |
| `FatChecker.SlotsInChainOrder` | Tools/Download-FatFaults.cs:37-47 | slots come in the order of the chain |
| `FatChecker.AttributeBits` | Tools/Download-FatFaults.cs:131-134 | bit 3 and a leading dot are ignored, bit 4 marks a directory, and files of no size without a cluster have no chain |
| `FatChecker.SoundLength` | Tools/Download-FatFaults.cs:136 | a file has exactly the clusters it takes to hold its size |
| `FatChecker.NextIsLow28Bits` | Tools/Download-FatFaults.cs:119 | the FAT value is the low 28 bits of an entry |
| `FatChecker.Limits` | Tools/Download-FatFaults.cs:39-40 | chains end from 0x0FFFFFF8 on, clusters count from 2, and 4096 slots are the limit |
| `FatChecker.Slots` | Tools/Download-FatFaults.cs:37-47 | the slots along the chain; the walk ends, and refuses only repeating, broken or oversized chains |
| `FatChecker.Inspection.Chain` | Tools/Download-FatFaults.cs:115-122 | on any FAT the walk halts; it owns exactly a whole chain disjoint from all others, and refuses exactly when there is none |
| `FatChecker.Inspection.Own` | Tools/Download-FatFaults.cs:128-136 | a chain named at a new place joins the tree if it is sound; otherwise no account of the volume exists |
| `FatChecker.Inspection.Visit` | Tools/Download-FatFaults.cs:130-136 | one entry: a directory is claimed and waits, a file's chain is owned and has the length its size needs, or the volume is not tidy |
| `FatChecker.Inspection.VisitDirectory` | Tools/Download-FatFaults.cs:127-137 | one directory: its chain is owned and all its wanted entries are claimed, with the measure that ends the walk, or the volume is not tidy |
| `FatChecker.Inspection.Census` | Tools/Download-FatFaults.cs:139-144 | counts the free clusters and refuses exactly when allocated and owned differ |
| `FatChecker.TreeGrows` | Tools/Download-FatFaults.cs:128-136 | adding a sound chain of unowned clusters, named at a new place, keeps the tree |
| `FatChecker.Embedding` | Tools/Download-FatFaults.cs:126-138 | every partial walk lies inside every full account of the volume, chain by chain and place by place |
| `FatChecker.EmbeddingIsInjective` | Tools/Download-FatFaults.cs:126-138 | different chains of the walk are different chains of the account |
| `FatChecker.BlockedIsUntidy` | Tools/Download-FatFaults.cs:118 | a chain named at a new place that cannot avoid owned clusters, is broken or has the wrong length refutes every account |
| `FatChecker.LongIsUntidy` | Tools/Download-FatFaults.cs:40 | a directory with too many slots refutes every account |
| `FatChecker.SameOwners` | Tools/Download-FatFaults.cs:139-144 | a walk that has reached every entry owns exactly the clusters of the account |
| `FatChecker.UnbalancedIsUntidy` | Tools/Download-FatFaults.cs:139-146 | a finished walk whose clusters or summary do not balance refutes every account |
| `FatChecker.TidyMeans` | Tools/Download-FatFaults.cs:123-148 | a tidy volume has equal FATs and an account that starts at the root directory |
| `FatChecker.AccountChains` | Tools/Download-FatFaults.cs:115-122 | the chains of an account are whole, do not repeat and do not share a cluster |
| `FatChecker.AccountClusters` | Tools/Download-FatFaults.cs:139-146 | a cluster is allocated exactly if it lies in a chain of the account, and free and owned make up all |
| `FatChecker.AccountEntries` | Tools/Download-FatFaults.cs:129-137 | every wanted entry of a live directory has a chain of its own |
| `FatChecker.Inspect` | Tools/Download-FatFaults.cs:123-148 | halts on every volume and returns if and only if the volume is tidy: some directory tree of sound, pairwise disjoint chains, one for every wanted entry, owns exactly the allocated clusters, and free + owned = all |

## Left out

- Command line, messages, allocation failures, seeking and stdio buffering of limine.c; the disk identifier is a parameter instead of a random number.
- The guesses of device_init: the model starts with the block size that worked and block 0 in the cache.
- Big-endian hosts: integers on disk and in the undo file are little-endian.
- LimineDevice.Device.Rollback: does not promise the original disk after a torn multi-block write, because the source drops its record; the exact condition is RollbackLimits.UndoneIffHarmless.
- BiosInstall.Install: the content of status and signature bytes repaired under force in an MBR install is bounded (only those bytes change) rather than given byte for byte.
- UndoFile.StoredUninstallIsIdentity: concerns runs of non-empty writes, because the format cannot hold empty records, as StoreSucceedsIff states; an install makes no empty write, as InstallAndUninstall shows.
- ByteStreams.Drive: conservation is not claimed for several outstanding views or mixed reader kinds, where the source can reorder bytes or miscount the queue; auto-allocated views and multi-byte typed arrays are not modelled.
- WritableStreams.Stream.Error: the abort algorithm of the sink, abort signals and the ready promise are not modelled.
- Transform streams, tee, pipes, async iteration, strategies as objects, locking and property set-up of web_streams.js.
- PathNormalize.NormalizeInto: null pointers and the optional out-parameters are not modelled; the length is the value in the result.
- Registry paths, case-insensitive comparison and the path facades of path_timeout.h, which would only add easy members.
- EventTimers.Wait: unknown timeout kinds, missing function tables and the translation of window events are not modelled; an endless wait is one with ever longer lists of rounds.
- FatChecker.Slots: reads the FAT from the table, where the source reads the same bytes from the disk; the two agree for the chains that Inspect has walked before.
- FatChecker.Inspect: geometry is a parameter (clusters have at least one byte, and their numbers lie below the end mark, as in the fixture); long names are skipped, since the check does not use them, and slots are given by their fields rather than by their 32 bytes.
- Apply and its fixtures, the other test clients, scripts, build files and thin ABI facades.
