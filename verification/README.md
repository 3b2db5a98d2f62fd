# Crash safety of the FRAM storage stack, in Dafny

A model of the storage stack of `esp-idf-fram` and proofs of what it keeps over every run and every power cut. The
stack stores bytes on a flat byte array. From the bottom up:

- **HAL and device** (`Device.dfy`). The mock HAL, from whose `failAfter`-th operation on every operation fails, and
  the device layer that cuts transfers into chunks. A failing write of the mock changes nothing; the field `tear`
  lets any proper prefix of it reach the medium, which is the power-cut model. A one-byte write is therefore atomic.
- **Partitions** (`Partition.dfy`). Acceptance of a partition table, access that stays inside one partition, erase.
- **Ring log** (`RingLog.dfy`, `RingRuns.dfy`, `RingTheorems.dfy`, class in `Ring.dfy`). A circular log of fixed
  slots whose indices are rebuilt from the medium alone.
- **Versioned slots** (`VSlotRuns.dfy`, class in `VSlot.dfy`). Two or three slots, the highest version is current.
- **Key-value store** (`KvsLog.dfy`, `KvsRuns.dfy`, `KvsTheorems.dfy`, class in `Kvs.dfy`). A log of records read as a
  map with tombstones.
- **A/B superblock** (`SuperblockRuns.dfy`, methods in `Superblock.dfy`). Two copies written in turn.

`Bytes.dfy`, `Crc.dfy`, `Crash.dfy`, `Slots.dfy`, `SlotTable.dfy`, `Newest.dfy`, `SlotIo.dfy` and `ScriptIo.dfy` hold
what several layers share. The ring and the versioned slots have the same slot layout but for the width of the length
field, and their C functions for validating and writing a slot are line by line the same; they are modelled once.

## How it fits together

An operation is a *script* of writes (`Crash.dfy`). `LandAll` is the medium after the script, `Torn` the medium after a
script stopped by a `Cut`: some writes done, and a proper prefix of the next. Every class method that writes is proved
to leave either `LandAll` and the new fields, or `Torn` and the old fields (`AppendOutcome`, `SaveOutcome`, `Outcome`,
`Written`). These are the steps of a machine over bytes and fields (`RingRuns`, `VSlotRuns`, `KvsRuns`,
`SuperblockRuns`); a reboot is the step that recomputes the fields from the bytes. The run theorems quantify over all
sequences of such steps and relate the machine to a small reference: a bounded FIFO, a single cell, a finite map.

The checksum is a fold of an arbitrary byte step, and every theorem holds for every step. Only the superblock needs to
assume that the checksum detects something (`TornDetected`); `UndetectedTornIsRead` shows why. The laws on damaged
bytes (`OneByteLost`, `DamageEndsLog`, `OneByteInvalid`) hold for every step that loses no difference
(`Crc.Injective`).

What a method promises if no operation fails, it promises of every call after which the operation counter has not
reached the failure budget (`Partition.Pm.Healthy`), whether failures are armed or not.

Sequence numbers and versions are 32-bit with explicit wrap-around. Where wrap-around breaks a promise, a lemma says
exactly when (`AppendSurvivesRebootIff`, `SaveSurvivesRebootIff`), and the run theorems ask that the counter has not
reached its end; `LongRunsPossible` bounds how many steps that leaves. From a blank partition the store's counter
cannot wrap, by the size of its records; elsewhere it may, and the map does not depend on it.

Where the code and its documentation differ, the code is followed: `fram_superblock.h` says the checksum leaves out
its own field, while the code also leaves out the commit byte and the padding; it says `write` takes the older or
invalid copy, while on two valid copies with equal numbers it takes the one `read` returns
(`TargetSparesCurrentIff`); and unlike the other layers it does not clear the commit byte before it overwrites a copy.

## Model

| member | source | states |
|---|---|---|
| `Device.Hal.Read` | src/fram_hal_mock.c:37-73 | counts the operation; fails from the configured operation on, else returns exactly the bytes asked for; out of bounds it neither counts nor reads |
| `Device.Hal.Write` | src/fram_hal_mock.c:75-94 | as for reads; the medium is the old one with the bytes that landed spliced in, all of them on success, a proper prefix on failure |
| `Device.Dev.Read` | src/fram_dev.c:78-117 | for every maximum transfer, a successful chunked read equals one copy of the range; it succeeds if and only if the operation budget outlasts its transfers |
| `Device.Dev.Write` | src/fram_dev.c:119-158 | for every maximum transfer, a successful chunked write equals one copy, and it succeeds if and only if the operation budget outlasts its transfers; a failed one leaves exactly the chunks before the failing operation, and what that operation let through, and no other byte changed |
| `Partition.OverlapIsSharing` | src/fram_partition.c:9-11 | for nonempty ranges the overlap test holds if and only if the ranges share a byte |
| `Partition.Pm.Init` | src/fram_partition.c:13-60 | accepts a table if and only if its count, names and sizes are legal, all ranges lie in the device and they are pairwise disjoint; the first illegal entry decides the error; a refused table leaves no table |
| `Partition.AcceptableExactly` | src/fram_partition.c:18-55 | a legal table, in numbers: 1 to 16 entries, each legal on its own, of any two one ends before the other starts |
| `Partition.PartErrorExactly` | src/fram_partition.c:30-40 | which error an entry causes: size 0 and a range beyond the device a size error, a name that is empty or fills its 16 bytes an argument error |
| `Partition.Pm.AllApart` | src/fram_partition.c:45-55 | the nested loops decide pairwise disjointness |
| `Partition.AcceptedFits` | src/fram_partition.c:30-55 | the sizes of an accepted table add up to at most the device size |
| `Partition.Isolation` | src/fram_partition.c:120-135 | bytes changed inside one partition of a table leave every other partition as it was |
| `Partition.Pm.Find` | src/fram_partition.c:70-80 | the first entry whose name field `strncmp` finds equal, none if there is none; for a C string, that field holds the string and then a NUL |
| `Partition.NameMatches` | src/fram_partition.c:75-77 | on a legal name field the comparison of up to 16 characters decides whether the field holds exactly the string |
| `Partition.Pm.Read` | src/fram_partition.c:106-118 | only ranges inside the partition are read, and as the partition's bytes |
| `Partition.Pm.Write` | src/fram_partition.c:120-135 | with bit 0 of the flags set, or without a table, an error of state and no byte changed; else a range beyond the partition a size error, and otherwise the result is that of the medium; inside, the bytes that landed are spliced in, outside nothing changes |
| `Partition.Pm.Erase` | src/fram_partition.c:137-163 | the chunked erase, stopped anywhere, has set exactly a prefix of the partition to 0xFF; on a partition with bit 0 of the flags set it is refused and changes nothing |
| `Crc.Crc32Concat` | src/fram_kvs.c:91-103 | a checksum taken piece by piece is the checksum of the whole |
| `Crc.OneByteDetected` | src/fram_kvs.c:91-106 | a checksum whose step loses no difference detects every change of one byte |
| `SlotTable.SlotsApart` | src/fram_ring.c:14-26 | slots never overlap |
| `SlotTable.SlotAtIsProduct` | src/fram_ring.c:14-16 | slot i starts at i times 25 plus the payload area |
| `SlotTable.CapacityIsQuotient` | src/fram_ring.c:112-113 | the number of slots that fit is the quotient of the sizes |
| `Slots.ViewExactly` | src/fram_ring.c:39-80 | which bytes are a record, and which: commit byte 0xA5 at its end, the magic, a legal length, and the checksum of its first 20 bytes and its payload |
| `Slots.OneByteLost` | src/fram_ring.c:62-73 | for every checksum step that loses no difference, one byte changed in a record, outside its length field, leaves the slot without one |
| `SlotTable.OneByteLostInTable` | src/fram_ring.c:62-73 | on the medium, that record is lost and no other |
| `Slots.ScriptDone` | src/fram_ring.c:206-235 | whatever a slot held, after a finished append or save it parses as exactly the record written, its reserved bytes are 0 and the rest of its payload area is as it was |
| `Slots.ScriptTorn` | src/fram_ring.c:206-240 | cut at any byte, the slot is untouched or un-committed; no torn record is ever valid, whatever the checksum |
| `Slots.ErasedPrefix` | src/fram_partition.c:148-162 | with a magic other than 0xFFFFFFFF, erasing any prefix of a valid slot leaves it bit-identical or invalid |
| `Slots.ErasedTame` | src/fram_partition.c:148-162 | the same holds for erases interrupted again and again, and for invalid slots, unless all such a slot lacks to be a record are the first 0xFF bytes of the magic number |
| `Slots.TameExactly` | src/fram_partition.c:148-162 | that test on the bytes of a slot is exact: it passes if and only if every interrupted erase leaves the slot bit-identical or invalid |
| `Slots.SleeperRevives` | src/fram_partition.c:148-162 | for every magic whose low byte is 0xFF, an invalid slot that one erased byte makes a record |
| `Slots.EraseHarmlessIff` | src/fram_partition.c:148-162 | over all slots, interrupted erases leave each bit-identical or invalid if and only if the low byte of the magic is not 0xFF |
| `SlotTable.TableDone` | src/fram_ring.c:206-235 | a finished append or save changes one slot's record and no other |
| `SlotTable.TableTorn` | src/fram_ring.c:206-240 | a cut one changes no byte or empties that slot only |
| `SlotTable.TableErased` | src/fram_partition.c:148-162 | an erase stopped at any byte, though its chunks straddle slots, leaves each slot its record or none: on every medium if the low byte of the magic is not 0xFF, else on those whose slots pass the test |
| `SlotTable.EraseSafeIff` | src/fram_partition.c:148-162 | on any medium, that condition is exact |
| `SlotTable.EraseHarmlessOnAllIff` | src/fram_partition.c:148-162 | over all media, interrupted erases leave each slot its record or none if and only if the low byte of the magic is not 0xFF |
| `SlotIo.ValidateSlot` | src/fram_ring.c:39-80 | byte by byte: if no operation fails, not found without commit byte 0xA5 or magic, a size error for an illegal length, a checksum error exactly if only the checksum is wrong, and else the header's fields; a medium that fails at once reads as an absent slot, and one that fails later returns its error |
| `SlotIo.WriteSlot` | src/fram_ring.c:206-240 | the partition then holds the whole script, or the script cut at the write that failed |
| `SlotIo.FindNewest` | src/fram_ring.c:127-142 | if no operation fails, the first slot with the largest valid number |
| `RingLog.RecoverExactly` | src/fram_ring.c:127-177 | on any medium, recovery yields indices if and only if they name the first slot with the largest valid number and the longest run of consecutive numbers that ends there |
| `RingLog.RecoveredUnique` | src/fram_ring.c:127-177 | that description determines the indices |
| `RingLog.HoleReboots` | src/fram_ring.c:206-240 | a full log whose oldest slot was un-committed reboots to the log without its oldest record, of capacity one to the empty log |
| `RingLog.AppendDone` | src/fram_ring.c:242-248 | a finished append pushes its record, dropping the oldest only if the log was full, and RAM then is what recovery would compute |
| `RingLog.AppendTorn` | src/fram_ring.c:206-240 | an append that fails later keeps the invariant and costs a full log its oldest record, any other log nothing |
| `RingLog.LogNumbers` | src/fram_ring.c:153-174 | the recovered log lies on the medium and is numbered without a gap |
| `RingLog.SegmentSurvives` | src/fram_ring.c:379-402 | if records vanish and none appears, the log left is one contiguous piece of the log before |
| `RingRuns.OutcomeIsStep` | src/fram_ring.c:188-252 | what the append method may leave is a step of the machine the run theorems speak of |
| `RingRuns.InitGood` | src/fram_ring.c:98-178 | recovery on any medium establishes the invariant unless a stored number has reached 2^32 - 1 |
| `RingRuns.StepRefinesFifo` | src/fram_ring.c:188-252 | every append, failure, reboot and clear keeps the invariant and is the step of the bounded FIFO |
| `RingRuns.StepKeepsTame` | src/fram_ring.c:379-402 | no step creates a slot that an interrupted erase could turn into a record |
| `RingRuns.RunKeepsGood` | src/fram_ring.c:188-252 | the invariant holds after every run, interrupted clears included |
| `RingRuns.RunRefinesFifo` | src/fram_ring.c:188-252 | after every run without an interrupted clear the log and the next number are those of the bounded FIFO |
| `RingRuns.LongRunsPossible` | src/fram_ring.c:242 | the numbering cannot wrap within the steps it has left, whatever they are |
| `RingTheorems.CrashAtomic` | src/fram_ring.c:188-252 | after a power cut at any byte of an append the log is the one after it, or the one before it, short of its oldest record if it was full |
| `RingTheorems.RebootIsIdentity` | src/fram_ring.c:127-177 | after every run without a failed append, recovery recomputes exactly the indices in RAM |
| `RingTheorems.RebootAfterFailure` | src/fram_ring.c:206-240 | after a failed append it does too, unless the log was full: then the head stays and the count drops by one, and a log of capacity one starts over |
| `RingTheorems.RetryAsIfFirst` | src/fram_ring.c:199-252 | any number of failed appends and then a successful one leave the records and indices of that one alone |
| `RingTheorems.NothingInvented` | src/fram_ring.c:188-252 | over every run each record on the medium was valid at the start or was stored by a successful append, unaltered |
| `RingTheorems.LogIsConsecutive` | src/fram_ring.c:157-174 | the log recovered from any medium consists of its valid records, numbered without a gap |
| `RingTheorems.InterruptedClearLeavesSegment` | src/fram_ring.c:379-402 | a clear stopped at any byte after any run from a blank partition leaves one contiguous piece of the log |
| `RingTheorems.FifoKeepsLast` | src/fram_ring.c:242-248 | a row of appends leaves the last records that fit, with consecutive numbers |
| `RingTheorems.AppendsFromBlank` | src/fram_ring.c:188-252 | after any row of appends to a blank partition the log is the last records up to the capacity, numbered from 0 |
| `RingTheorems.AppendSurvivesRebootIff` | src/fram_ring.c:132-142 | the record just appended is the newest after a reboot if and only if the counter has not wrapped to 0 |
| `Ring.FramRing.Init` | src/fram_ring.c:98-178 | opens the first partition of that name and refuses, with the exact error, what the C code refuses; the capacity is the size divided by 25 plus the payload area; if no operation fails the indices are those of recovery |
| `Ring.FramRing.WalkBack` | src/fram_ring.c:153-169 | the walk back, on wrapping 32-bit numbers, finds the length of the run that ends at the newest record |
| `Ring.WalkStep` | src/fram_ring.c:160-168 | one turn of the walk extends the run exactly if the slot holds the expected number, and otherwise ends it at its length |
| `Ring.ExpectedExactly` | src/fram_ring.c:160-167 | wrap-around of the expected number below 0 matches no record |
| `Ring.FramRing.Append` | src/fram_ring.c:188-252 | the whole script and the indices moved on, or the script cut at the failing write and the indices unchanged; nothing outside the partition changes, nothing at all on a read-only one; the result is an error of state on a read-only partition and else that of the medium |
| `Ring.FramRing.ReadSlotPayload` | src/fram_ring.c:254-285 | a record as stored; if no operation fails, exactly the error the C code gives otherwise, with the needed length if there is too little room |
| `Ring.FramRing.PeekOldest` | src/fram_ring.c:287-303 | the record at the tail; if no operation fails, it succeeds exactly if that slot holds a record that fits, and else the error is exact and too little room yields the needed length |
| `Ring.FramRing.PeekNewest` | src/fram_ring.c:305-322 | the same for the slot behind the head |
| `Ring.PeeksAreEnds` | src/fram_ring.c:287-322 | with RAM in step with the medium the slots the two peeks read hold the first and the last record of the log |
| `Ring.PeeksAtHole` | src/fram_ring.c:287-322 | after a failed append un-committed the oldest slot of a full log, the peek at the oldest finds no record; the peek at the newest still finds the last one unless the capacity is one |
| `Ring.FramRing.Iterate` | src/fram_ring.c:338-377 | if no operation fails, the visits and the result are those of the reference tour: oldest first, until a slot holds no record or the callback declines; the error is that of the callback, or the reason why the slot after the last visited is refused; if an operation fails midway the visits are the first of those |
| `Ring.TourIsLog` | src/fram_ring.c:338-377 | with an accepting callback and RAM in step with the medium, an iteration visits exactly the log |
| `Ring.TourStopsAtHole` | src/fram_ring.c:338-377 | after a failed append un-committed the oldest slot of a full log, an iteration visits nothing and returns why that slot is refused |
| `Ring.TourAfterFailure` | src/fram_ring.c:206-240 | the slot a failed append un-committed is refused as not found, and if the log was full the next iteration returns that |
| `Ring.TourError` | src/fram_ring.c:360-373 | a tour that ends with an error ends with that of the callback, or with the reason why the slot after its visits is refused |
| `Ring.FramRing.Clear` | src/fram_ring.c:379-402 | erased and empty, or a prefix erased and the indices unchanged; on a read-only partition no byte changes |
| `VSlotRuns.RecoverExactly` | src/fram_vslot.c:129-152 | recovery yields exactly the first slot with the largest valid version |
| `VSlotRuns.SaveDone` | src/fram_vslot.c:218-254 | a finished save is the unique newest record, and RAM then is what recovery would find |
| `VSlotRuns.SaveTorn` | src/fram_vslot.c:218-247 | a save never touches the active slot, so a cut one changes neither RAM nor what recovery finds |
| `VSlotRuns.SaveSurvivesRebootIff` | src/fram_vslot.c:137 | a finished save is what a reboot loads if and only if the version has not just wrapped to 0 |
| `VSlotRuns.OutcomeIsStep` | src/fram_vslot.c:205-258 | what the save method may leave is a step of the machine |
| `VSlotRuns.StepRefinesCell` | src/fram_vslot.c:205-258 | every save, failure, reboot and clear keeps the invariant and is the step of a single cell; an interrupted clear leaves no record or one valid before it |
| `VSlotRuns.SaveAllOrNothing` | src/fram_vslot.c:205-258 | a save cut at any byte leaves the current record and version, a finished one makes its own record current with the version one higher |
| `VSlotRuns.RebootIsIdentity` | src/fram_vslot.c:129-152 | in every reachable state, after failed saves too, recovery finds the fields already in RAM |
| `VSlotRuns.RunKeepsGood` | src/fram_vslot.c:129-152 | the invariant holds after every run, interrupted clears included, and a reboot changes nothing |
| `VSlotRuns.RunRefinesCell` | src/fram_vslot.c:205-258 | after every run without an interrupted clear the record loaded is that of the last finished save |
| `VSlotRuns.VersionNeverDecreases` | src/fram_vslot.c:218 | without a clear the version never decreases and data is never lost |
| `VSlot.FramVSlot.Init` | src/fram_vslot.c:97-155 | opens the first partition of that name and refuses, with the exact error, what the C code refuses; if no operation fails the fields are those of recovery |
| `VSlot.FramVSlot.Load` | src/fram_vslot.c:165-203 | the current record, or its length without room or buffer for it; if no operation fails every result code is exact, also when the active slot no longer holds a record |
| `VSlot.FramVSlot.Save` | src/fram_vslot.c:205-258 | the whole script, the slot after the active one active and the version one higher, or the script cut at the failing write and the fields unchanged; the result is an error of state on a read-only partition and else that of the medium |
| `VSlot.FramVSlot.Clear` | src/fram_vslot.c:291-310 | erased and without data, or a prefix erased and the fields unchanged; on a read-only partition no byte changes |
| `KvsLog.ParseImage` | src/fram_kvs.c:111-164 | a printed record is parsed back as that record |
| `KvsLog.ParseAtExactly` | src/fram_kvs.c:123-152 | which bytes are a record, and which: the magic, legal lengths, commit byte 0xA5 where they end, and the checksum of the first 16 bytes, the key and the value |
| `KvsLog.OneByteStops` | src/fram_kvs.c:147-150 | for every checksum step that loses no difference, one byte changed in a record, outside its length fields, leaves none there |
| `KvsLog.ParseThrough` | src/fram_kvs.c:111-164 | changing bytes from the end on keeps every record before it |
| `KvsLog.PutDone` | src/fram_kvs.c:333-366 | after a finished set or delete the record's printed image stands at the write offset, its reserved bytes 0, and parses as the record; other bytes are unchanged |
| `KvsRuns.BlankStops` | src/fram_kvs.c:129-144 | the scan stops at a blank tail, whatever the checksum |
| `KvsRuns.QuietStops` | src/fram_kvs.c:129-144 | on any bytes, the scan stops at what a cut leaves, whatever the checksum, if the half-written header is illegal or what it takes for its commit byte is not one |
| `KvsRuns.LateCutQuiet` | src/fram_kvs.c:350-357 | once both length fields are written this is so on any bytes and for any lengths, because the commit byte they point at is already 0 |
| `KvsRuns.LateCutChangesNothing` | src/fram_kvs.c:350-371 | a set or delete of any lengths, cut past its length fields, leaves the records and the end as they were, on any bytes |
| `KvsRuns.CutQuietly` | src/fram_kvs.c:350-371 | so does one cut at any byte that leaves a quiet header |
| `KvsRuns.TailQuiet` | src/fram_kvs.c:350-357 | over a blank tail every cut leaves a quiet header, and over what failed attempts left every cut of an attempt with the same key length and the same high byte of the value length |
| `KvsRuns.TailTorn` | src/fram_kvs.c:350-371 | and leaves a tail of that kind again |
| `KvsRuns.PutOnAnyBytes` | src/fram_kvs.c:307-375 | on any bytes, after a finished set or delete the scan meets the old records, the new one, and then whatever starts at the new end |
| `KvsRuns.CutOnAnyBytes` | src/fram_kvs.c:350-371 | on any bytes, a set or delete cut at any byte keeps every record before the write offset |
| `KvsRuns.EndIsTotalSize` | src/fram_kvs.c:179-228 | the end is the sum of the record sizes, each at least 22 bytes |
| `KvsRuns.RebootIsIdentity` | src/fram_kvs.c:179-228 | after every run from a blank partition a reboot restores the write offset as the sum of the record sizes and the next number as the record count |
| `KvsRuns.StepRefinesStore` | src/fram_kvs.c:307-432 | from any bytes, every set or delete where no record starts at its new end, every failure that leaves a quiet header, every refusal for lack of room and every reboot keeps RAM in step with the medium and is the step of the finite map |
| `KvsRuns.RunRefinesStore` | src/fram_kvs.c:307-432 | after every run of such steps from any medium `init` accepts, with retries of any lengths, the scan sees exactly the finite map, last writer winning, and a reboot changes nothing |
| `KvsRuns.PutGoodIff` | src/fram_kvs.c:328-371 | a finished set or delete keeps RAM in step with the medium if and only if no record starts at its new end |
| `KvsRuns.StepPut` | src/fram_kvs.c:333-371 | an admitted set or delete adds exactly the record with the next number, its flags 1 for a tombstone and else 0 |
| `KvsRuns.CarefulRunsPossible` | src/fram_kvs.c:307-432 | from a blank tail all those steps are possible in every run in which a write after failed ones ends no earlier than they would have, and a failed one after failed ones has the same key length and high byte of the value length or is cut past its length fields |
| `KvsRuns.NextSeqAboveIff` | src/fram_kvs.c:214-216 | on any records, the number `find_end` returns is above all in use if and only if none of them is 2^32 - 1 |
| `KvsTheorems.CrashAtomic` | src/fram_kvs.c:350-371 | from a blank tail, or one of failed attempts this one follows up, a power cut at any byte, even inside the header, leaves the map before; finished, the map after |
| `KvsTheorems.OtherKeysUntouched` | src/fram_kvs.c:155-161 | a key a run does not write keeps its value |
| `KvsTheorems.DamageEndsLog` | src/fram_kvs.c:147-152 | for such a checksum, one byte changed in a record of the log ends the log before it, so lookups answer from the earlier records only |
| `KvsTheorems.PutExactIff` | src/fram_kvs.c:163 | on any bytes, a set or delete adds its record and nothing else if and only if a scan from the new end would meet no record |
| `KvsTheorems.CutQuietExactly` | src/fram_kvs.c:129-152 | on any bytes, once its first write has landed, a cut leaves a quiet header if and only if there is no checksum for which the scan then meets a record there |
| `KvsTheorems.AttemptQuietIff` | src/fram_kvs.c:350-366 | all cuts of one attempt leave quiet headers if and only if the twelve headers it goes through before its lengths are complete are quiet |
| `KvsTheorems.EarlyCutCanResurface` | src/fram_kvs.c:350-371 | after a failed set on a blank partition, another one cut inside its length fields leaves a header that is not quiet, and some checksum for which a record appears |
| `KvsTheorems.EarlyCutResurfaces` | src/fram_kvs.c:350-371 | with a constant checksum those two failed sets do leave a record |
| `KvsTheorems.ShorterRetryCanResurface` | src/fram_kvs.c:350-371 | a failed set retried with a shorter value can leave a key in the map that was never set |
| `KvsTheorems.PutAfterFailedInit` | src/fram_kvs.c:245-251 | a set or delete after an `init` that failed overwrites the log: only records that a scan from the new record's end meets are left |
| `Kvs.LatestIsLookup` | src/fram_kvs.c:155-161 | the last record of a key, unless it is a tombstone, is the lookup in the map |
| `Kvs.FramKvs.ComputeCrc` | src/fram_kvs.c:76-109 | the checksum over 64-byte reads equals the one over prefix, key and whole value |
| `Kvs.FramKvs.ReadRecord` | src/fram_kvs.c:123-152 | one turn of the scan finds a record if and only if its bytes have the magic, legal lengths, the commit byte and the right checksum |
| `Kvs.FramKvs.Scan` | src/fram_kvs.c:111-177 | the last record of the key, where it starts and whether it is a tombstone |
| `Kvs.FramKvs.FindEnd` | src/fram_kvs.c:179-228 | where the scan stops, and the number `NextSeqAboveIff` describes |
| `Kvs.FramKvs.Init` | src/fram_kvs.c:230-255 | opens the first partition of that name and recovers both fields from its bytes alone, which establishes the invariant of the runs; if no operation fails the error is exact; failed after creating the mutex, it leaves the store open with both fields 0 |
| `Kvs.FramKvs.Get` | src/fram_kvs.c:265-305 | any value returned is the map's; if no operation fails, each result code is returned exactly in its case |
| `Kvs.FramKvs.Exists` | src/fram_kvs.c:434-452 | if no operation fails, true exactly for the keys of the map |
| `Kvs.FramKvs.GetLen` | src/fram_kvs.c:454-480 | if no operation fails, the length of the map's value, or not found exactly when there is none |
| `Kvs.FramKvs.Set` | src/fram_kvs.c:307-375 | with a legal key and value: refused without any change exactly if the record does not fit, else a step of the machine, finished or cut; the result is an error of state on a read-only partition and else that of the medium |
| `Kvs.FramKvs.Delete` | src/fram_kvs.c:377-432 | the same with a tombstone |
| `Kvs.FramKvs.WriteRecord` | src/fram_kvs.c:350-366 | the whole script, or the script cut at the write that failed |
| `SuperblockRuns.PreparedValid` | src/fram_superblock.c:117-131 | once committed, the block `write` prepares passes the validity test and carries its number |
| `SuperblockRuns.ValidExactly` | src/fram_superblock.c:18-36 | the validity test, byte by byte |
| `SuperblockRuns.ChoiceExactly` | src/fram_superblock.c:58-115 | the copy read, the copy overwritten and the next number, from the numbers of the valid copies |
| `SuperblockRuns.OneByteInvalid` | src/fram_superblock.c:34-35 | for every checksum step that loses no difference, a valid block with one byte changed is never returned |
| `SuperblockRuns.TargetSparesCurrentIff` | src/fram_superblock.c:96-115 | the copy written is the copy `read` returns if and only if both are valid with the same number |
| `SuperblockRuns.WriteDone` | src/fram_superblock.c:96-131 | a finished write is what `read` returns next, numbered one above the block before, or 1 |
| `SuperblockRuns.UncommittedTornDetected` | src/fram_superblock.c:25-27 | a half-written copy over an uncommitted one is invalid, whatever the checksum |
| `SuperblockRuns.WriteTorn` | src/fram_superblock.c:125-131 | if the checksum detects half-written copies, a cut write leaves `read` with the block before or the new one |
| `SuperblockRuns.WriteTornIff` | src/fram_superblock.c:125-131 | the assumption is exact for every checksum: once the number is written, `read` then returns the block before or the new one if and only if the half-written copy does not pass for a third one |
| `SuperblockRuns.UndetectedTornIsRead` | src/fram_superblock.c:125-131 | with a checksum that detects nothing, every cut between changed bytes makes `read` return a block never written |
| `SuperblockRuns.RunSparesCurrent` | src/fram_superblock.c:71-132 | after every run of finished and cut writes two valid copies are numbered one apart, and the next write spares the current one |
| `Superblock.Read` | src/fram_superblock.c:38-69 | for every base, a copy off the device counting as none: returns only blocks from the medium whose four fields, commit byte and checksum are right; if no operation fails, not found exactly if no copy passes those tests, and else exactly the current copy |
| `Superblock.Choose` | src/fram_superblock.c:96-115 | the copy to overwrite and its number, when both copies were read or found off the device |
| `Superblock.Write` | src/fram_superblock.c:71-132 | for every base: an argument error exactly if one of four fields is wrong; if the budget outlasts both reads, and always if the write succeeds, the target copy is the new block, or the new block cut at the failing write; finished, its bytes are the caller's, the next number, the checksum, 0xA5 and zeros; no byte outside one copy changes in any case |
| `Superblock.WrittenIsStep` | src/fram_superblock.c:117-131 | what the write leaves is a step of the machine the run theorem speaks of |

## Left out

- Ring.FramRing.Init: if a read fails during recovery only the bounds of the indices are stated, because the C code then treats slots as absent and promises nothing.
- VSlot.FramVSlot.Init: the same; and after a refused configuration the fields are only known to be not ready.
- Kvs.FramKvs.Get: if a read fails during the scan it is only stated that no wrong value is returned.
- Superblock.Write: if the medium fails before both copies are read, only the frame is stated, and that the mock then writes nothing; the C code counts an unread copy as invalid and would overwrite the newer one.
- SuperblockRuns.WriteTorn: assumes that a half-written copy over a committed one fails its checksum; nothing about the strength of CRC-32 is claimed.
- KvsRuns.RunRefinesStore: runs leave out the finished writes for which the promise is false (`KvsRuns.PutGoodIff`, with the input of `KvsTheorems.ShorterRetryCanResurface`) and the cuts inside the first 12 bytes of a header after which only the checksum can stop the scan (`KvsTheorems.CutQuietExactly`, with the input of `KvsTheorems.EarlyCutCanResurface`).
- RingRuns.RunKeepsGood: a clear that fails is followed by a reboot; with a magic whose low byte is 0xFF it is interrupted only where the slots pass the test of `Slots.Tame`, because elsewhere the promise is false (`SlotTable.EraseSafeIff`, with the medium of `SlotTable.SleeperMedium`); every medium reached from a blank one passes (`RingRuns.StepKeepsTame`).
- The SPI back end (`src/fram_hal_spi.c`): bus transactions and chip probing are driver calls; the mock stands for the HAL.
- The body of the ROM checksum routine is not part of this model; a fold of any byte step with the seed passed through stands for it.
- Mutexes and time-outs: every operation is atomic.
- Time stamps are parameters; build options are parameters within the ranges `Kconfig` allows.
- Null-pointer checks, device statistics and health, typed integer accessors, string and `u32` wrappers of the store, length-only wrappers of the peeks, `deinit`.
- Injected read errors of the mock and bit corruption in general, and the wrap-around of the mock's operation counter.
- Buffers are values: a read returns its bytes instead of filling the caller's buffer, so aliasing of buffers is not modelled.
- The device belongs to the partition manager from its construction on, instead of being stored by `init`.
- The partition entries inside a superblock are kept as raw bytes, as `read` and `write` treat them.
- Kvs.FramKvs.Init: partitions so close to 4 GiB that the largest record, at most 4132 bytes, would wrap a 32-bit offset sum.
