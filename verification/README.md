# embedkv in Dafny

A Dafny model of embedkv, a key-value store on a fixed array of blocks with copy-on-write updates,
power-loss recovery and replica fan-out, and proofs of what its design promises. It follows the Rust
implementation. `dafny verify dfyconfig.toml` checks everything.

The model has three layers.

- **Bytes.** `Crc`, `Utf8`, `Blocks` and `Marshal` hold the checksum, the string form of keys, and the block
  formats. `Blocks.View` says what a block of bytes tells the reader: it is free, unreadable, a storage header,
  a descriptor or a value chunk. Each has an independent reference: `Polynomial` is division over the two-element
  field by the generator of IEEE 802.3, with `Words` for the bits of a word; `Unicode` is UTF-8 as chapter 3 of the
  Unicode standard defines it; `OnDisk` is the format of docs/ARCH.md in literal offsets and constants.
- **Disks.** A disk is a sequence of decoded blocks. `Records.Complete` states the completeness criteria of the
  format as one predicate, and `Records.Meaning` is what a disk stores: for each key, the complete record of
  highest generation, lowest block on ties. `Layout`, `Changes`, `Recovery`, `Engine` and `Operations` give the
  device calls of each operation and what they do to the meaning. `Crash` is a device with a durable image and
  unflushed writes; a power loss may leave each unflushed block old, new or unreadable. `Cluster`, `Runs`,
  `Refinement` and `Replicas` are the store over several replicas and its whole runs; one replica is the case of
  a list of length one.
- **Methods.** `Device.MemDevice`, `Formatting`, `Reader`, `ReplicaEngine.Replica` and `KvStore.Store` are the code
  in its own form, with loops and updates in place. `Raw` and `Fanout` say in bytes what each operation does on any
  contents and any index, one replica after the other; the methods are proved against them, new bytes, new index,
  outcome and device calls. `AnyBytes` says what that amounts to on damaged contents, without those definitions.
  `PowerLoss` cuts the calls short in bytes. Each device records its calls, and all devices of a store record in one
  journal whose turn it was, so the order of calls across devices is proved too. `Raw.InsertAnchored`,
  `Raw.EraseAnchored`, `Fanout.PutFollows` and `PowerLoss.StoreCrashDecodes` connect the bytes to the second layer.
  `Mirror` is about replicas with the same bytes.

A replica is *anchored* when block 0 is a storage header and every index entry leads to a complete record of its own
key: the state of every store that was opened and indexed, as long as no power is lost. It is *indexed* when its index
equals what a rescan would build, the state after `build_index`. It is *ready* when it is also clean, that is, every
data block is free or part of a best record: the state after `recover` and `build_index`, and after formatting free
blocks.

## Assumptions

These are explicit preconditions, because the Rust code relies on them.

- The block size is at least 36 for every operation but `format` and `open`, which check 32 (rust/src/store.rs:46 and
  :120); rust/src/store.rs:197 and rust/src/record.rs:45 subtract 36.
- A key that passes the length check has fewer than 2^16 bytes, a value fewer than 2^32, and user flags fit 32 bits.
  `Blocks.KeyReadsBackIff` shows that the first is needed.
- The highest stored generation of a key is below 2^32 - 1 before a put.
- The fill byte is 0x00 or 0xFF.
- `replica_id` and `format_seq` fit 32 bits, the sum `replica_id + i` (rust/src/store.rs:57) included.
- Device calls with indexes in range do not fail.
- A torn block fails its CRC or starts with a free byte.

## Where code and documentation disagree

The model follows the code.

- docs/ARCH.md:183 puts the key at offset 36; the code and the layout table put it at 32.
- docs/ARCH.md:183-184 compares keys byte by byte; the Rust index compares their lossy UTF-8 strings.
  `Utf8.LossyIdentityIff` says exactly when the two agree, and all results are about the string form (`Key.id`).
- docs/ARCH.md:339 compares the sum of payload sizes with `total_size`; the code compares it modulo 2^32 for
  multi-block records. `Reader.SizeTestExact` shows where that makes no difference.
- docs/ARCH.md:426-427 wants headers of an unsupported `version_major` rejected; `open` never looks at the field
  (rust/src/store.rs:118-147), and `Formatting.FormatThenOpen` holds for every version.

## Findings

Properties that turned out false of the code, each with its exact condition.

- A delete cut off by a power loss between replicas that hold different versions brings the older value back
  (`Replicas.DeleteNotAtomicExample`), and an interrupted put is enough to create that situation
  (`Replicas.InterruptedPutUnsafe`). `Replicas.DeleteAtomicIff` is the condition a caller can check.
- A put that reports `StorageFull` on a later replica has taken effect on the earlier ones and is visible to `get`
  (`Replicas.FailedPutExample`); the store is as it was if and only if the first replica was the full one
  (`Replicas.FailedPut`). On replicas in step it always is (`Replicas.Lockstep`, `Mirror.AllOrNone`).
- After a delete on a store that was never recovered the running store answers `KeyNotFound`
  (`Refinement.UnrecoveredRefinesMap`), but the next `build_index` may bring an older value back
  (`Replicas.StaleVersionExample`); `Recovery.EraseRemovesKeyIff` says exactly when.
- A put over a damaged replica may report success and lose its value: if the descriptor block that the index names has
  come to look free, the put may take that very block and then erase it as the old record (`AnyBytes.LostPut`,
  `AnyBytes.LostPutExample`).
  `AnyBytes.InsertMeans` says exactly when the new value is found again.
- Keys that are not well-formed UTF-8 may overwrite each other (`Utf8.IllFormedKeysCollide`), and each of them shares
  its index entry with a well-formed key (`Utf8.OwnEntryIff`, `Utf8.LossyIdentityIff`).
- A key of 2^16 bytes or more, possible with blocks above 65571 bytes, does not read back (`Blocks.KeyReadsBackIff`);
  its descriptor decodes to the key cut at its length modulo 2^16, with the payload taken from there on
  (`Blocks.DescDecodes`).

## Model

| member | source | states |
|---|---|---|
| Refinement.RunRefinesMap | rust/src/store.rs:170-239 | Crash safety over whole runs, any number of replicas: after any sequence of finished operations and power losses (each at any device call, any unflushed block old, new or torn, recovery itself cut off any number of times) every replica is ready again and `get` answers from the start map with each finished operation applied and each interrupted one applied wholly or not at all. Interrupted deletes are under the condition of `DeleteAtomicIff` |
| Refinement.OneReplicaRefinesMap | rust/src/store.rs:398-435 | The same for one replica, with no condition beyond a ready start |
| Refinement.UnrecoveredRefinesMap | rust/src/store.rs:170-239 | A store that was indexed and never recovered, whatever garbage and old versions its disks hold: through any operations without a power loss `get` answers from the start map with each operation applied, save those that the first replica refuses |
| Refinement.DoneRefines | rust/src/store.rs:170-239 | The same for one operation, the index entries staying on complete records of their keys |
| Refinement.IndexedStart | rust/src/store.rs:151-156 | `build_index` on any disks with a header is such a start |
| Refinement.EventRefines | rust/src/store.rs:195-239 | One finished or interrupted operation moves the answered map by the whole operation or not at all; a finished one takes effect unless its first replica refuses it |
| Refinement.ReadyAlways | rust/src/store.rs:298-326 | After every event no replica holds garbage and every index equals what a full rescan would build |
| Refinement.OtherKeysUndisturbed | rust/src/store.rs:170-239 | No operation on one key, finished or cut off, changes the answer for another |
| Refinement.PutSettles | rust/src/store.rs:195-217 | A put over replicas of any generations is visible as soon as one replica holds the new record, and otherwise `get` answers exactly as before |
| Refinement.OutcomesMean | rust/src/store.rs:195-239 | On anchored replicas `delete` succeeds exactly when `get` would, and otherwise reports `KeyNotFound`; `put` reports `KeyTooLong` exactly when key, header and CRC exceed a block, and otherwise `StorageFull` exactly when some replica has fewer free blocks than needed; a success leaves every replica with the new value under the same generation |
| Refinement.DeleteSettles | rust/src/store.rs:221-239 | A finished delete removes the key; an interrupted one removes it or leaves the answer, under `DeleteSafe` |
| Refinement.OneReplicaDeleteSafe | rust/src/store.rs:221-239 | With one replica `DeleteSafe` always holds |
| Refinement.ContentsRepresented | rust/src/store.rs:170-185 | Every store answers from a finite map |
| Refinement.FreshReady | rust/src/store.rs:40-67 | Any number of formatted replicas whose data blocks are free are ready and answer from the empty map |
| Runs.ReplicaCrash | rust/src/store.rs:398-435 | A power loss at any call leaves each replica meaning what it meant before the operation or what it would mean after it, and exactly the latter once its last flush is done |
| Runs.RebuiltReady | rust/src/store.rs:298-380 | `recover` and `build_index`, after any number of interrupted recoveries, give a ready replica that means what the crash left |
| Runs.AfterReady | rust/src/store.rs:398-435 | Every finished put, refused put and delete keeps the replica clean and its index equal to a rescan |
| Runs.AfterAnchored | rust/src/store.rs:195-239 | A finished operation keeps every index entry on a complete record of its key, moves what a replica finds for the operation's key, and leaves every other answer |
| Replicas.DeleteAtomicIff | rust/src/store.rs:221-239 | Over several replicas a delete is crash-atomic if and only if every replica whose generation no later replica exceeds holds the value `get` returns |
| Replicas.DeleteNotAtomicExample | rust/src/store.rs:221-239 | Two ready one-record replicas of 38-byte blocks with generations 2 and 1 on which an interrupted delete brings the older value back |
| Replicas.InterruptedPutUnsafe | rust/src/store.rs:209-217 | From any identical replicas, a power loss after the first replica of a put leaves replicas on which a delete is not crash-atomic |
| Replicas.AgreeingDeleteSafe | rust/src/store.rs:221-239 | Replicas that hold the same value, whatever their generations, delete atomically |
| Replicas.FailedPut | rust/src/store.rs:213-217 | A put that reports `StorageFull` has left the store as it was if and only if the first replica lacked the free blocks; otherwise `get` returns the refused value |
| Replicas.FailedPutExample | rust/src/store.rs:213-217 | A two-replica store whose second replica is full: the put reports `StorageFull` and `get` returns its value |
| Replicas.StaleVersionExample | rust/src/store.rs:535-571 | A disk with two versions of a key on which erasing the newer brings the older back |
| Replicas.Lockstep | rust/src/store.rs:195-239 | Replicas in the same decoded state stay so, and then a put that fails has changed none of them |
| Replicas.LockstepAlways | rust/src/store.rs:195-239 | The same through every sequence of operations |
| Mirror.MirroredAlways | rust/src/store.rs:195-239 | Anchored replicas, recovered or not, that start with the same bytes in every data block, whatever identifies them in block 0, keep the same bytes and the same index through every sequence of operations, successful or not |
| Mirror.MirroredStore | rust/src/store.rs:195-239 | What the contracts of `PutFlagged` and `Delete` promise keeps the replicas of a store mirrored |
| Mirror.FannedIs | rust/src/store.rs:195-239 | The bytes that those contracts promise are the ones the run of `MirroredAlways` goes on with |
| Mirror.MirroredStep | rust/src/store.rs:195-239 | One operation, successful or refused, keeps data blocks and indexes the same |
| Mirror.SameEffect | rust/src/store.rs:398-435 | On two replicas with the same data blocks a put, a delete or a recovery makes the same device calls, reports the same and leaves the same bytes |
| Mirror.AllOrNone | rust/src/store.rs:209-217 | On replicas with the same data blocks either every replica does its part, or the first refuses and none has changed |
| Replicas.DamageHidesOrKeeps | rust/src/store.rs:384-396 | Blocks made unreadable behind the index make a replica find what it found before or nothing |
| Replicas.GetSurvivesDamage | rust/src/store.rs:170-185 | With replicas that agree, damage that spares one of them does not change what `get` returns |
| Cluster.GetIsHighest | rust/src/store.rs:170-185 | `get` returns the value of the first replica with the highest generation that verifies, and fails exactly when none does |
| Cluster.MaxGeneration | rust/src/store.rs:201-210 | The generation scan returns an attained upper bound over the replicas' indexes, or 0 |
| Crash.PutCrash | rust/src/store.rs:398-435 | A power loss anywhere in a put leaves the old meaning or the new one, on any disk whose index is what a rescan gives, recovered or not |
| Crash.PutCrashLate | rust/src/store.rs:421-433 | After the first flush the new record is there, whatever happens to the old one, under the same condition |
| Crash.DeleteCrash | rust/src/store.rs:226-234 | A power loss anywhere in a delete leaves the meaning or removes exactly the key |
| Crash.RecoverApplied | rust/src/store.rs:362-380 | The erasures of `recover` produce the recovered disk, and there are none exactly when nothing changes |
| Crash.RecoverCrash | rust/src/store.rs:362-380 | A power loss anywhere in `recover` only makes garbage blocks unreadable |
| Crash.SecondRecoveryIdle | rust/src/store.rs:362-380 | A second `recover` makes no device call |
| Crash.NoZombieFromPut | rust/src/store.rs:437-533 | On any disk, whichever blocks the eraser then frees, a power loss in a put completes no record but the new one |
| Crash.NoZombieFromDelete | rust/src/store.rs:535-571 | On any disk, whichever blocks the eraser frees, a power loss in a delete completes no record |
| Crash.NoZombieFromRecover | rust/src/store.rs:362-380 | On any disk, a power loss in a recovery completes no record |
| Raw.InsertNoZombie | rust/src/store.rs:398-435 | On any bytes with any index, a power loss at any of the calls that a put makes there completes no record but the new one |
| Raw.EraseNoZombie | rust/src/store.rs:221-239 | On any bytes with any index, a power loss at any of the calls that a delete makes there completes no record |
| PowerLoss.RunNoZombie | rust/src/store.rs:151-239 | Whole runs of a replica, with or without `recover`, on any bytes and with any index after each step, every job finished or cut off at any call: each record that is complete at the end was complete at the start or was written by a put of the run |
| PowerLoss.CrashDecodes | docs/ARCH.md:83-91 | The bytes a power loss may leave, each block old, newly encoded, or torn with a bad CRC or a free first byte, decode to an image of the decoded crash model |
| PowerLoss.StoreCrashDecodes | rust/src/store.rs:195-239 | The same for the whole store: bytes left by a power loss during the calls that the store makes decode to the images from which the run theorems go on |
| PowerLoss.InsertCrash | rust/src/store.rs:398-435 | A power loss in a put leaves bytes with the old meaning or the new one |
| PowerLoss.EraseCrash | rust/src/store.rs:225-234 | A power loss in a delete leaves bytes with the old meaning or without the key |
| PowerLoss.SweepCrash | rust/src/store.rs:328-380 | A power loss in a recovery of any bytes leaves bytes with the same meaning |
| PowerLoss.JobDurable | rust/src/store.rs:398-435 | On any bytes, a power loss after the last call of a put, delete or recovery, whatever it reports, leaves exactly what it wrote |
| Raw.LooseOnComplete | rust/src/store.rs:535-571 | On a complete record that walk passes its CRC test and frees exactly the record's blocks in chain order |
| AnyBytes.LooseEraseIff | rust/src/store.rs:535-571 | On any bytes, without the definition of the walk: the erased blocks are the descriptor and then the longest walk along the links at offset 16, from the link at offset 20, over distinct blocks in range with a good CRC, taken after the descriptor is gone |
| AnyBytes.InsertMeans | rust/src/store.rs:398-435 | A put on any bytes and any index: `StorageFull` with nothing done exactly for want of room; otherwise the new record is indexed, also when the old descriptor block turns out broken and `CrcMismatch` is reported, and is found again if and only if none of its blocks is among those erased for the old one |
| AnyBytes.LostPut | rust/src/store.rs:398-435 | If the block that the index names has come to look free and is taken for the new record, the put reports success and the value is lost |
| AnyBytes.LostPutExample | rust/src/store.rs:398-435 | A one-record replica of 37-byte blocks whose data block has been zeroed: the next put of the key reports success and is lost |
| Raw.RewriteViews | rust/src/store.rs:458-533 | The bytes after any calls whose blocks read back decode to what the calls do to the decoded disk |
| Raw.InsertAnchored | rust/src/store.rs:398-435 | On bytes whose index entries all lead to complete records of their keys, a put makes exactly the calls of the decoded model and leaves bytes that decode to its new state |
| Raw.EraseAnchored | rust/src/store.rs:225-234 | The same for a delete |
| Fanout.PutFollows | rust/src/store.rs:195-217 | The fan-out of a put over the replicas' bytes reports, calls and leaves on every replica what the decoded model says |
| Fanout.DeleteFollows | rust/src/store.rs:221-239 | The same for a delete |
| Fanout.PutMeans | rust/src/store.rs:211-216 | On any bytes: a put stops at the first replica without room or with a broken old descriptor, reports `StorageFull` or `CrcMismatch` accordingly, leaves every later replica alone, and has indexed the new record on every earlier one |
| Fanout.DeleteMeans | rust/src/store.rs:225-238 | On any bytes: a delete stops at the first replica whose indexed descriptor block fails its CRC, reports `CrcMismatch`, leaves that replica, its index and every later one alone, and has removed the key from every earlier one; otherwise it removes the key everywhere |
| Operations.PutCorrect | rust/src/store.rs:398-435 | A put on a ready replica maps its key to the new record, changes no other key, and leaves the replica ready |
| Operations.PutIndexed | rust/src/store.rs:398-435 | On a disk that was never recovered a put keeps the index equal to a rescan, maps its key to the new record and changes no other key |
| Operations.PutAnchored | rust/src/store.rs:398-435 | If every index entry leads to a complete record of its key, a put keeps that so, and the entries of other keys keep their records |
| Operations.DeleteAnchored | rust/src/store.rs:225-234 | The same for a delete |
| Operations.DeleteDisk | rust/src/store.rs:225-234 | A delete frees exactly the blocks of the record that the index names |
| Operations.DeleteCorrect | rust/src/store.rs:221-239 | A delete on a ready replica removes exactly its key, frees exactly that record's blocks, and leaves the replica ready |
| Operations.SpacePartition | rust/src/store.rs:298-326 | Every data block of a ready replica is free or belongs to exactly one indexed record |
| Operations.PutSpace | rust/src/store.rs:398-456 | A put changes the free count by the replaced record's blocks minus the needed ones, garbage or not |
| Operations.DeleteSpace | rust/src/store.rs:535-571 | A delete gives back exactly its record's blocks |
| Operations.WriteThenRead | rust/src/store.rs:458-533 | Writing a draft to any list of distinct in-range blocks and reading it back gives the same key, value, generation, user flags and chunk list |
| Recovery.RecoveryCorrect | rust/src/store.rs:328-380 | On arbitrary contents `recover` keeps the meaning and every block of the best records, leaves exactly one complete record per key, frees every other data block, and has nothing left to do |
| Recovery.PartialRecoveryKeepsMeaning | rust/src/store.rs:362-380 | Any subset of the erasures, persisted or torn, leaves the meaning unchanged |
| Recovery.RecoveriesConverge | rust/src/store.rs:328-380 | Every chain of interrupted recoveries converges to the same key map |
| Recovery.CleanRecords | rust/src/store.rs:332-351 | On a clean disk every complete record is the best of its key |
| Recovery.ErasingIsAtomic | rust/src/store.rs:535-571 | Losing any blocks of a clean disk's record changes nothing or removes exactly its key |
| Recovery.EraseRemovesKeyIff | rust/src/store.rs:535-571 | On any disk, erasing a key's best record removes the key if and only if no other complete record of the key is left |
| Changes.WritingIsAtomic | rust/src/store.rs:458-533 | Any part of a record written to free blocks, perhaps torn, changes the meaning by the whole record or not at all |
| Changes.WritingAdds | rust/src/store.rs:437-533 | The only record that writing to free blocks can complete is the new one, and only once every block of it is there |
| Changes.WritingKeeps | rust/src/store.rs:437-456 | Writing to free blocks keeps every complete record complete |
| Changes.LossesAddNothing | rust/src/record.rs:97-143 | Making blocks unreadable never completes a record |
| Changes.SurvivesLosses | rust/src/record.rs:97-143 | A complete record survives losses exactly when none of its blocks changed |
| Records.RecordsDisjoint | rust/src/record.rs:97-143 | On any contents, complete records with different descriptors share no block and hold no free block |
| Records.RecordUnique | rust/src/record.rs:25-146 | A descriptor block heads at most one record |
| Records.ChunksDistinct | rust/src/record.rs:101-124 | A complete chain visits no block twice, by its chunk indexes alone |
| Records.CompleteFrame | rust/src/record.rs:25-146 | Completeness depends on nothing but the record's own blocks |
| Records.Best | rust/src/store.rs:302-324 | The ascending scan finds, for each key, the record with the highest generation and the lowest block on ties |
| Records.MeaningSandwich | rust/src/store.rs:298-326 | A disk that keeps every best record of another and adds no record means the same |
| Layout.RoundTrip | rust/src/store.rs:458-533 | The blocks of a draft, once on the disk, are a complete record with the draft's contents |
| Layout.NeededExhausts | rust/src/record.rs:149-159 | The needed blocks hold the whole value and one block fewer would not |
| Layout.NeededIsMinimal | rust/src/record.rs:149-159 | No complete record with the same key length and value length occupies fewer blocks |
| Reader.VerifyAndReadRecord | rust/src/record.rs:25-146 | Terminates on any contents and returns a record if and only if the completeness criteria hold, namely that record |
| Reader.WalkChain | rust/src/record.rs:91-145 | The chain walk decides completeness from any descriptor that links to a chunk |
| Reader.OpenDescriptor | rust/src/record.rs:32-59 | The checks on a descriptor block by itself accept exactly the blocks that decode to a descriptor |
| Reader.OpenChunk | rust/src/record.rs:106-131 | The checks on a chunk block by itself accept exactly the blocks that decode to a chunk |
| Reader.SizeTestExact | rust/src/record.rs:138-143 | On a device of fewer than 2^32 bytes the truncated size comparison is exact: payloads add up to the stored size |
| ReplicaEngine.Replica.BuildIndex | rust/src/store.rs:298-326 | The index becomes the index of the disk's meaning |
| ReplicaEngine.Replica.CollectBest | rust/src/store.rs:333-351 | Collects exactly the disk's meaning |
| ReplicaEngine.Replica.EraseOthers | rust/src/store.rs:362-375 | Frees exactly the occupied data blocks outside the valid set, in ascending order, keeps the bytes of all others, and says whether there were any |
| ReplicaEngine.Replica.Recover | rust/src/store.rs:328-380 | The disk becomes the recovered disk, bytes and device calls are those of the crash model, and best records keep their bytes |
| ReplicaEngine.Replica.GetWithGeneration | rust/src/store.rs:384-396 | Absent key, unreadable record, or the indexed generation with the value read, each in terms of index and reader |
| ReplicaEngine.Replica.Put | rust/src/store.rs:398-435 | On any bytes and any index: the outcome (`StorageFull` with nothing changed, `CrcMismatch` after the first flush, or success), the new bytes, the new index and the device calls; on an anchored replica these are the state and the calls of the crash model |
| ReplicaEngine.Replica.WriteNew | rust/src/store.rs:409-421 | Allocation, record and first flush, or nothing at all |
| ReplicaEngine.Replica.FindFreeBlocks | rust/src/store.rs:437-456 | The first `n` free data blocks, or nothing exactly when there are fewer |
| ReplicaEngine.Replica.WriteRecord | rust/src/store.rs:458-533 | Writes the bytes of the draft's blocks in chain order and nothing else |
| ReplicaEngine.Replica.WriteChunks | rust/src/store.rs:504-531 | Cuts the rest of the value into the chunk blocks |
| ReplicaEngine.Replica.WriteChunk | rust/src/store.rs:505-530 | One chunk block: the next full piece of the value, or what is left |
| ReplicaEngine.Replica.FreeRecord | rust/src/store.rs:535-571 | Fails exactly on a bad descriptor CRC, with nothing changed; otherwise the bytes and calls of freeing the blocks that the loose walk meets (`Raw.LooseErase`) in order, which on a complete record are exactly its blocks |
| ReplicaEngine.Replica.WalkAndErase | rust/src/store.rs:549-569 | The loop of `free_record` frees exactly the blocks of the loose walk, although it reads the device while it changes it |
| ReplicaEngine.Replica.FreeAndFlush | rust/src/store.rs:429-432 | `free_record` and, only if it succeeds, a flush |
| ReplicaEngine.Replica.Remove | rust/src/store.rs:225-234 | The body of `delete`'s loop on any bytes and any index: outcome, bytes, index and device calls; on an anchored replica the state and the calls of the crash model |
| KvStore.Store.Get | rust/src/store.rs:170-185 | Returns what `GetIsHighest` describes |
| KvStore.Store.HighestGeneration | rust/src/store.rs:202-209 | The highest indexed generation of the key |
| KvStore.Store.PutFlagged | rust/src/store.rs:195-217 | On any replicas: `KeyTooLong` with nothing changed, or every replica's bytes, index and device calls up to the first that refuses, whose error is reported, one device after the other in order; what that means is stated as in `Fanout.PutMeans`. On anchored replicas outcome, states and calls are those of the run model |
| KvStore.Store.PutAll | rust/src/store.rs:211-216 | The loop over the replicas, in order, up to the first that refuses, with the meaning of `Fanout.PutMeans` |
| KvStore.Store.Delete | rust/src/store.rs:221-239 | On any replicas: every replica's bytes, index and device calls up to the first that fails, in order; what that means is stated as in `Fanout.DeleteMeans`. On anchored replicas outcome, states and calls are those of the run model |
| KvStore.Store.Recover | rust/src/store.rs:160-166 | Every replica's disk becomes its recovered disk by the device calls of the crash model, one device after the other in order, and no index changes |
| KvStore.Store.BuildIndex | rust/src/store.rs:151-156 | Every replica's index becomes the index of its disk's meaning, and no device is written |
| KvStore.Store.Reopen | README.md:115-122 | Recover and then build the index: every replica is ready, means what it meant, and is in the state from which the runs go on after a power loss |
| KvStore.Open | rust/src/store.rs:93-115 | A store with empty indexes exactly when there is a device and every device has a sound header and the block size and block count of the first; otherwise the error of the first device that fails: that of its header, or `ReplicaMismatch` if the header is sound |
| KvStore.CheckDevice | rust/src/store.rs:100-107 | Takes a device exactly when its header is sound and its block size and block count are those of the first, with the error otherwise |
| Device.MemDevice.constructor | rust/src/device.rs:28-34 | A new device is all free blocks |
| Device.MemDevice.ReadBlock | rust/src/device.rs:64-72 | Returns the block, and fails exactly on an index out of range |
| Device.MemDevice.WriteBlock | rust/src/device.rs:74-82 | Replaces exactly one block of the flat array and records the call, and fails exactly on an index out of range |
| Device.MemDevice.Flush | rust/src/device.rs:12-13 | A flush is recorded as a barrier and changes no contents |
| Device.ViewsCapacity | rust/src/block.rs:184-192 | Every decoded block of a device respects the capacities of the format |
| Formatting.FormatDevice | rust/src/store.rs:44-64 | The header block goes to block 0 and is flushed, its bytes given in literals with `replica_id` at 16 and `format_seq` at 20, nothing else changes, and `open` will accept it; blocks below 32 bytes and a device without blocks are errors that change nothing |
| Formatting.FormatAll | rust/src/store.rs:40-67 | The devices in turn, device `i` under the identifier `replica_id + i`, up to the first error, which is that device's; every device reached is acceptable to `open`, and no other block changes |
| Formatting.OpenHeader | rust/src/store.rs:118-147 | Accepts a device exactly when its blocks have 32 bytes at least and block 0 starts with 01 45 4B 56, has a good CRC and holds the device's own block size at 8 and block count at 12 |
| Formatting.HeaderOfIs | rust/src/store.rs:118-147 | Which error is given for which bytes, in the order of the checks |
| Formatting.FreshBytes | rust/src/store.rs:50-61 | Every byte of the block that `format` writes |
| Formatting.FormatThenOpen | rust/src/store.rs:118-147 | A written header block decodes as a header, and is accepted with the same fields if and only if its geometry is the device's and there is at least one block |
| Formatting.AcceptedIsHead | rust/src/store.rs:118-147 | Whatever `open` accepts decodes as a storage header |
| Formatting.HeaderRoundTrip | rust/src/block.rs:21-48 | Unmarshalling undoes marshalling of a storage header |
| Formatting.MarshalHeader | rust/src/block.rs:21-33 | Fills exactly the first 28 bytes of the buffer with the header |
| Marshal.MarshalDescriptor | rust/src/block.rs:69-80 | Fills exactly the first 32 bytes of the buffer with the header |
| Marshal.MarshalChunk | rust/src/block.rs:113-121 | Fills exactly the first 20 bytes of the buffer with the header |
| Marshal.BuildDescriptor | rust/src/store.rs:481-501 | Header, key, payload, zero padding and CRC |
| Marshal.BuildChunk | rust/src/store.rs:514-528 | Header, payload, zero padding and CRC |
| Blocks.DescRoundTrip | rust/src/block.rs:69-96 | Unmarshalling undoes marshalling of a descriptor header, the key size up to its cast to u16 |
| Blocks.ChunkRoundTrip | rust/src/block.rs:113-134 | Unmarshalling undoes marshalling of a chunk header |
| Blocks.ViewOfDesc | rust/src/store.rs:481-501 | A built descriptor block decodes to its header, key and payload |
| Blocks.DescDecodes | rust/src/store.rs:481-501 | For a key of any length: a built descriptor block decodes to the key cut at its length modulo 2^16, with the payload taken from the bytes that follow |
| Blocks.ViewOfChunk | rust/src/store.rs:514-528 | A built chunk block decodes to its header and payload |
| Blocks.ViewOfFree | rust/src/block.rs:194-197 | A filled block decodes as free for both fill bytes |
| Blocks.KeyReadsBackIff | rust/src/store.rs:486-486 | A descriptor reads back with its key if and only if the key has fewer than 2^16 bytes |
| Blocks.ClassifyAgrees | rust/src/block.rs:145-180 | The allocator takes exactly the free blocks, and every readable block is classified valid |
| Blocks.ViewCapacity | rust/src/record.rs:42-54 | Decoded blocks fit their block, and a stored key has fewer than 2^16 bytes |
| Blocks.TornUnreadable | docs/ARCH.md:83-91 | A block that fails its CRC or starts with a free byte is no part of any record |
| OnDisk.DescIff | rust/src/record.rs:32-54 | In literal offsets: a block reads as a descriptor with given header, key and payload if and only if it starts with 02 20, has key size at 2, generation at 4, total size at 8, first payload size at 12, chunk count at 16, next chunk at 20, flags at 24 and user flags at 28, all little-endian, key and payload from 32 on, room for the CRC, and a good CRC |
| OnDisk.ChunkIff | rust/src/record.rs:106-131 | The same for a value chunk: 03 14, flags at 2, owner at 4, index at 8, payload size at 12, next chunk at 16, payload from 20 on |
| OnDisk.OthersIff | docs/ARCH.md:78-91 | A block is free by a first byte of 00 or FF alone, and a storage header by 01 and a good CRC |
| OnDisk.ClassifyIff | rust/src/block.rs:145-175 | The three classes of a block of any size in literals |
| OnDisk.RecordIff | rust/src/record.rs:25-146 | A record is complete on the decoded disk if and only if the criteria hold of the device's bytes, spelled out in literal offsets, with FFFFFFFF as the end link and the size test of the code |
| OnDisk.ReadIff | rust/src/record.rs:25-146 | What the reader returns for a block is the record its bytes spell out in that sense, if they do |
| OnDisk.MarshalledDescriptor | rust/src/block.rs:69-80 | The 32 bytes of a marshalled descriptor header in literals |
| OnDisk.MarshalledChunk | rust/src/block.rs:113-121 | The 20 bytes of a marshalled chunk header in literals |
| OnDisk.DescriptorBytes | rust/src/store.rs:472-501 | Every byte of the descriptor block that a put writes: full to its capacity, flags zero, zero padding, good CRC |
| OnDisk.ChunkBytesAre | rust/src/store.rs:504-531 | Every byte of each chunk block that a put writes, the end link FFFFFFFF in the last |
| OnDisk.NeededIs | rust/src/record.rs:149-159 | A put needs at most n blocks if and only if the value fits a descriptor block and n - 1 chunk blocks, in literal capacities |
| OnDisk.ErasedBytes | rust/src/block.rs:194-197 | An erased block holds nothing but the fill byte |
| OnDisk.LowestTaken | rust/src/store.rs:437-456 | A put takes the lowest free data blocks |
| Utf8.LossyIdentityIff | rust/src/store.rs:201-201 | The index keeps a key byte for byte if and only if it is well-formed UTF-8 |
| Utf8.WellFormedKeysDistinct | rust/src/store.rs:310-310 | Well-formed keys share an index entry only if they are equal |
| Utf8.OwnEntryIff | rust/src/store.rs:310-310 | A key shares its index entry with no other well-formed key if and only if it is well-formed itself |
| Unicode.WellFormedIff | rust/src/store.rs:201-201 | A key counts as well-formed if and only if it is a concatenation of encodings of Unicode scalar values, the encoding given by the bit distribution of the standard |
| Unicode.WidthIff | rust/src/store.rs:201-201 | The front of a key is kept exactly when the encoding of a scalar value stands there, and by its length |
| Unicode.LossyIs | rust/src/store.rs:201-201 | The lossy string in terms of encodings alone: a scalar value in front is kept, and otherwise the longest truncated encoding there, or one byte, becomes U+FFFD |
| Unicode.BadWidthIs | rust/src/store.rs:201-201 | The bytes replaced together are the longest truncated encoding in front, or one byte |
| Utf8.IllFormedKeysCollide | rust/src/store.rs:310-310 | The keys FE and FF share an index entry |
| Crc.TableStep | rust/src/crc.rs:24-31 | The table-driven update by a byte is eight steps of bit-by-bit reflected division |
| Crc.CrcTable | rust/src/crc.rs:5-22 | Every table entry is eight division steps on its index |
| Crc.EightSteps | rust/src/crc.rs:10-17 | The inner loop performs eight division steps |
| Crc.Crc32Update | rust/src/crc.rs:24-31 | For every input and starting state the result is bit-by-bit division |
| Crc.DivideConcat | rust/src/crc.rs:35-41 | Splitting the input across update calls does not change the result |
| Crc.ComputeBlockCrc32 | rust/src/crc.rs:35-41 | The CRC of the whole block with the four bytes at the offset read as zero |
| Crc.WriteBlockCrc | rust/src/crc.rs:51-55 | Changes exactly the trailing four bytes, and the block then verifies |
| Crc.VerifyBlockCrc | rust/src/crc.rs:58-62 | Accepts exactly the blocks whose trailing field is their CRC |
| Crc.StampedOk | rust/src/crc.rs:51-62 | A stamped block always verifies |
| Crc.DivideInjective | rust/src/crc.rs:24-31 | Different states stay different under the same input |
| Crc.FourBytesInjective | rust/src/crc.rs:24-31 | From one state, different groups of four bytes lead to different states |
| Crc.BurstDetected | rust/src/crc.rs:58-62 | Any change confined to four consecutive bytes before the CRC field makes verification fail |
| Polynomial.CrcOkIff | rust/src/crc.rs:35-62 | A block verifies if and only if the complement of its trailing four bytes, lowest byte and lowest bit first, is the remainder of the block, with those bytes read as zero, from a state of all ones, by the generator x^32+x^26+x^23+x^22+x^16+x^12+x^11+x^10+x^8+x^7+x^5+x^4+x^2+x+1; the remainder is defined by polynomial products alone and is unique |
| Polynomial.DivideIsRemainder | rust/src/crc.rs:24-31 | From every state and for every message the update gives the remainder of polynomial division by that generator |
| Polynomial.BlockCrcIsRemainder | rust/src/crc.rs:35-41 | The checksum with the four bytes at any offset read as zero is the complement of that remainder |
| Polynomial.PolyIsGenerator | rust/src/crc.rs:7-7 | Bit 31-k of the code's constant is set exactly when k is an exponent of the generator |
| Polynomial.RemainderUnique | rust/src/crc.rs:24-31 | There is one remainder of degree below 32 |
| Polynomial.Residue | rust/src/crc.rs:24-31 | A message followed by its complemented state, lowest byte first, always ends in the state DEBB20E3 |

## Left out

- `FileDevice`: operating-system files; the block array with a flush barrier stands in for it.
- `keys`, `iterate`, `close`, `into_devices`, `header`, `replica_count`, error display: plumbing.
- The Go implementation: the same algorithms under a mutex.
- The one-time caching of the CRC table, and capacity pre-sizing of vectors: no effect on results.
- Input and output errors in the middle of an operation.
- Values of 2^32 bytes and more, whose length the code truncates.
- Reading a block into a caller's buffer: `ReadBlock` returns a copy of the block instead.
- Crash images without a later `recover`: a store that is reopened without it is covered by `PowerLoss.RunNoZombie`,
  `Refinement.UnrecoveredRefinesMap`, `Crash.PutCrash` and `Recovery.EraseRemovesKeyIff`, not by `RunRefinesMap`.
- Engine.PutSteps: these are the code's calls on an anchored replica only; `Raw.InsertEffect` has them on any other.
- Engine.DeleteSteps: these are the code's calls on an anchored replica only; `Raw.EraseEffect` has them on any other.
- Refinement.RunRefinesMap: interrupted deletes over several replicas are assumed to meet `DeleteSafe`, because
  without it the property is false (`Replicas.DeleteAtomicIff`).
