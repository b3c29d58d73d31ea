# A verified model of the log-structured key/value store

The store in `submission/kv_store/` keeps key/value pairs in a file used as a
circular log of fixed-size blocks. In memory it has a directory (key to newest
block), a byte-packed bitmap of allocated blocks, a cursor called the append
point, and a sequence counter. A set or delete never overwrites: it takes a
fresh sequence number, asks the cursor for a free block, writes the new version
there (a delete writes a zero-length tombstone), repoints the directory, frees
the replaced block and marks the new one. Opening an existing file replays it in
physical order, which says nothing about age, and must rebuild all of the memory.

## What is here

The project has two layers.

*The objects* have the form of the program: classes whose methods change fields
and arrays in place. `BlockAllocator` works on bytes with shifts and masks,
`BlockArray` on the bytes of a file at computed offsets, `KvBlock` on a block
variable filled in place and turned into bytes by `Codec`; `Directory`,
`AppendPoint` and `Store` are the rest. Each method is proved to compute a
function of the state before it. `Store.Store.WriteVersion`, the part that
`kv_set` and `kv_del` share, is tied after every single effect to the small
steps of `Crash`.

*The model* is the same store as a value (`StoreModel.State`), with the
operations as functions. On it are proved

- the coupled invariant over disk, directory, bitmap, cursor and counter
  (`StoreModel.Inv`, kept by `StoreInvariant.AppendInv` and `Replay.ReopenInv`);
- that the replay recovers the newest block of every key from any file, in any
  physical order, and exactly what the running store had (`Replay`);
- crash atomicity, for a crash after any number of steps of a call (`Crash`);
- that whole runs of sets, deletes, gets, failed disk writes, restarts and
  crashes answer like a plain map that also remembers which keys were ever
  written (`Runs`);
- that restarts and failed calls can never be noticed, not even by the choice of
  the block for any later write, and that a crash is the whole call or nothing
  (`Bisimulation`);
- what all of this means in bytes and numbers: where each part of a block lies
  in the file, which blocks count, what a get returns from the bytes of any file,
  and every return code of every call (`Format`);
- space, order and lifetime properties of whole runs: exact capacity, no
  resurrection, dense file, growing sequence numbers, round-robin reuse
  (`History`).

| file | what it models |
|---|---|
| `Types.dfy` | integers, return codes, the block record, `memcpy` |
| `Placement.dfy` | the circular search as a function of a set of blocks |
| `StoreModel.dfy`, `LogFacts.dfy`, `StoreInvariant.dfy` | the store as a value, the invariant, what a write keeps |
| `Replay.dfy`, `Crash.dfy`, `Runs.dfy`, `Bisimulation.dfy`, `History.dfy` | replay, crashes, whole runs |
| `Wrap.dfy` | the 64-bit sequence counter and where it runs out |
| `Format.dfy` | the file format and the limits in plain numbers |
| `Codec.dfy`, `BlockArray.dfy`, `BlockAllocator.dfy`, `AppendPoint.dfy`, `Directory.dfy`, `KvBlock.dfy`, `Store.dfy`, `Lifecycle.dfy` | the objects |

The number of blocks is a parameter `n` with `0 < n < UINT32_MAX`; the value the
program uses is `Types.NUMBER_OF_BLOCKS`, 200001. Every operation that writes takes
`writeOk`, what the disk answers, and `junk`, what the uninitialised stack
variable for the block held before: padding and the bytes after the value keep
that junk all the way into the file. A block write is done entirely or not at all.

The sequence number of a block is unbounded in the model. The objects have 64
bits and wrap as the program does. `Wrap` shows when the two differ: exactly from
the last value of the counter on, where the program's own assertion begins to
fail, and `History.CounterBound` that no run of fewer than 2^63 operations on a
created store comes there. A bitmap is created with a byte count computed in 32
bits, so the objects take `n + 7 < 2^32`.

Where the code and its documentation differ, the model follows the code:
`kv_store.h` calls `MAXKEYS` the maximum number of pairs, but nothing checks it
and the limit is the number of blocks (`History.ExactCapacity`); `kv_block_array.h`
promises negative error codes where the code returns `errno` itself, which the
model does not distinguish (`EIO`); after a replay the comment on the counter says
one ahead of the highest sequence, and the next write uses the number after that.

## Model

| member | source | states |
|---|---|---|
| `Placement.NextFreeExact` | submission/kv_store/kv_block_allocator.c:75-112 | the two-loop search answers r if and only if r is the free block nearest to the start going forward with wrap-around, or UINT32_MAX with all n blocks allocated |
| `Placement.NextFreeIdempotent` | submission/kv_store/kv_append_point.c:42-53 | searching again from a found block finds the same block, and a failed search fails from every start |
| `Placement.NextFreeDense` | submission/kv_store/kv_block_allocator.c:88-110 | when everything from `len` on is free, a search from at or below `len` never goes past `len` |
| `Placement.NextFreeFull` | submission/kv_store/kv_block_allocator.c:111-111 | the search fails if and only if n distinct blocks are allocated |
| `BlockAllocator.SetBit` | submission/kv_store/kv_block_allocator.c:64-67 | or-ing a mask into a byte sets its own bit and no other of the eight |
| `BlockAllocator.ClearBit` | submission/kv_store/kv_block_allocator.c:69-72 | and-ing with the complement clears its own bit and no other |
| `BlockAllocator.BitIsShift` | submission/kv_store/kv_block_allocator.c:59-62 | the tested bit of a byte is the one with weight 2^i |
| `BlockAllocator.BlockAllocator.constructor` | submission/kv_store/kv_block_allocator.c:21-35 | a new bitmap has room for its n blocks if and only if n + 7 does not wrap in 32 bits, and then it is the empty set of blocks |
| `BlockAllocator.BlockAllocator.MarkBlockAsAllocated` | submission/kv_store/kv_block_allocator.c:121-126 | adds exactly one block to the set, for every n the bitmap has room for, also not divisible by 8 |
| `BlockAllocator.BlockAllocator.FreeBlock` | submission/kv_store/kv_block_allocator.c:114-119 | removes exactly one block from the set |
| `BlockAllocator.BlockAllocator.FindNextFreeBlock` | submission/kv_store/kv_block_allocator.c:75-112 | returns the first clear block in circular order from the start, UINT32_MAX exactly when none is clear |
| `AppendPoint.AppendPoint.GetAppendPoint` | submission/kv_store/kv_append_point.c:42-53 | moves the cursor to the next free block after the one handed out last, starting at 0 after a full log |
| `AppendPoint.AppendPoint.UpdateAppendPoint` | submission/kv_store/kv_append_point.c:55-66 | the cursor follows the greatest sequence number scanned, the later block on a tie, and nothing else moves it |
| `Directory.Directory.StoreKey` | submission/kv_store/kv_directory.c:102-148 | only the given key changes; its sequence becomes the greater of the two; reports whether the new version won and which block lost its place |
| `Directory.Directory.LookupKey` | submission/kv_store/kv_directory.c:150-161 | finds the entry of a key, ENOENT exactly when there is none |
| `Types.NewBlock` | submission/kv_store/kv_block.c:43-51 | a built block carries the signature 0xB1423CB4C5BCBC4A, key, sequence and size, its value area starts with exactly the value, and padding and the rest of the area are what was there before |
| `KvBlock.KvBlock.InitEmpty` | submission/kv_store/kv_block.c:38-41 | clears the header and leaves a block that does not validate; padding and value area keep their contents |
| `KvBlock.KvBlock.Init` | submission/kv_store/kv_block.c:43-51 | fills header and value in place, the header alone when there is no value data; bytes past the value keep what they held |
| `KvBlock.KvBlock.Validate` | submission/kv_store/kv_block.c:58-61 | true exactly for the signature 0xB1423CB4C5BCBC4A |
| `KvBlock.KvBlock.Load` | submission/kv_store/kv_block_array.c:97-105 | a block variable filled from file bytes is the block those bytes encode, and encodes to them again |
| `Codec.DecodeEncode` | submission/kv_store/kv_block.h:13-34 | a block with a 64-bit sequence number survives being written and read, and its parts are at bytes 0, 8, 16, 24, 26, 28 and 32 of 4128 |
| `Codec.EncodeDecode` | submission/kv_store/kv_block.h:13-34 | every 4128 bytes are the encoding of the block they decode to, whose parts are read from those same places |
| `Format.SignatureBytes` | submission/kv_store/kv_block.c:7-34 | 4128 bytes are a block of the log if and only if they start with 4A BC BC C5 B4 3C 42 B1 |
| `Format.WrittenLayout` | submission/kv_store/kv_block.c:18-51 | the bytes of a write: signature, key, number and size at bytes 0, 8, 16 and 24, the value from byte 32 on, and what was in memory before in the padding and after the value |
| `Format.FileLayout` | submission/kv_store/kv_block_array.c:85-108 | block i of a file is read from byte 4128 * i on, each part at its place |
| `Format.OpenedFileIsRead` | submission/kv_store/kv_store_replay.c:6-69 | opening any file and getting a key answers with the value bytes of the signed block that carries the key and the greatest number, by the bytes of the file alone, ENOENT for a size of 0 and EINVAL for a short buffer |
| `Format.AbsentFromFile` | submission/kv_store/kv_store_replay.c:19-54 | a key that no signed block of the file carries is not found |
| `BlockArray.WriteBlockBytes` | submission/kv_store/kv_block_array.c:110-133 | bytes written at block d are read back exactly, every other block keeps its bytes, and the block count becomes max(old count, d + 1), holes included |
| `BlockArray.DiskOfWrite` | submission/kv_store/kv_block_array.c:110-133 | writing bytes to the file refines writing a block to the sequence of blocks |
| `BlockArray.BlockArray.GetFileBlockCount` | submission/kv_store/kv_block_array.c:66-82 | the number of whole blocks in the file, cut down to 32 bits |
| `BlockArray.BlockArray.ReadBlock` | submission/kv_store/kv_block_array.c:85-108 | the bytes of a block of the file, EIO exactly when the file ends before the block does |
| `BlockArray.BlockArray.WriteBlock` | submission/kv_store/kv_block_array.c:110-133 | replaces the bytes at the block's offset, or changes nothing when the disk refuses |
| `StoreInvariant.BitmapAgreement` | submission/kv_store/kv_store.c:166-178 | in every state satisfying the invariant the set bits are exactly the blocks of the directory, no two keys share one, and there are as many bits as keys |
| `StoreInvariant.DestOk` | submission/kv_store/kv_append_point.c:42-53 | a write goes to a free block at most one past the end of the file; there is none if and only if n keys have blocks |
| `StoreInvariant.NewVersionWins` | submission/kv_store/kv_store.c:177-177 | the assertion that a new version becomes its key's current one never fails |
| `StoreInvariant.WrapBreaksNewVersions` | submission/kv_store/kv_store.c:147-177 | with the 64-bit counter the assertion that the new version becomes current holds if and only if the key is not stored yet or the counter is below its last value |
| `Wrap.WrapIsReachable` | submission/kv_store/kv_store.c:147-177 | a concrete file of one block from which the store opens in good order with its counter at the last value, so that the next set of the stored key fails the assertion, or, with the assertion compiled out, reports success and keeps the old value |
| `Wrap.WrapBreaksInvariant` | submission/kv_store/kv_store.c:147-147 | once something was written with a number other than 0, a write keeps the invariant if and only if the counter is below its last value |
| `Wrap.Scan64Recovers` | submission/kv_store/kv_store_replay.c:60-64 | with the 64-bit counter the replay of any file still recovers directory, bitmap and cursor; the counter is all that can differ |
| `Wrap.Reopen64Exact` | submission/kv_store/kv_store_replay.c:60-64 | the counter too comes out as an unbounded one if and only if no block carries the last sequence number |
| `StoreInvariant.AppendEffect` | submission/kv_store/kv_store.c:164-178 | after a successful write only one key has moved, to a block that was free, and freeing the old and marking the new block makes the bitmap the blocks of the new directory |
| `StoreInvariant.AppendInv` | submission/kv_store/kv_store.c:147-180 | every write keeps the coupled invariant, whether it succeeds, finds no space or fails on disk |
| `StoreInvariant.AppendIsHead` | submission/kv_store/kv_store.c:147-162 | the block just written has a sequence number above all others on disk and is where a replay would put the cursor |
| `StoreInvariant.AppendFailedInv` | submission/kv_store/kv_store.c:152-162 | a failed write changes counter and cursor only, and the next write still goes to the same block |
| `StoreInvariant.LiveDataSurvives` | submission/kv_store/kv_store.c:152-178 | no write touches the block of any current version, the replaced one included |
| `StoreInvariant.OverwrittenIsStale` | submission/kv_store/kv_store.c:158-158 | a signed block that gets overwritten is strictly older than its key's current version |
| `Replay.ScanRecovers` | submission/kv_store/kv_store_replay.c:19-66 | at every loop head, on every disk, the directory maps exactly the keys scanned to a block with the greatest sequence for the key, the bitmap is the directory's blocks, the cursor is the block with the greatest sequence of all, and the counter is one above it |
| `Replay.ScanBitmap` | submission/kv_store/kv_store_replay.c:36-54 | at every loop head no two keys share a block and the bitmap has one bit per entry |
| `Replay.DirUnique` | submission/kv_store/kv_directory.c:107-129 | with distinct sequence numbers per key only one directory is newest-wins for a disk |
| `Replay.ReopenInv` | submission/kv_store/kv_store_replay.c:6-69 | replaying any file that fits, whose signed blocks keep the size limit and have distinct sequence numbers, gives a state satisfying the invariant |
| `Replay.ReopenMatches` | submission/kv_store/kv_store_replay.c:6-69 | replaying the file of a running store gives its directory, its bitmap and the same next block |
| `Replay.ReopenKeepsContents` | submission/kv_store/kv_store.c:82-85 | closing and opening again keeps the contents of every key |
| `Replay.ReplayIgnoresOrder` | submission/kv_store/kv_store_replay.c:19-54 | any permutation of the blocks in the file recovers, for every key, the very same block and contents |
| `Crash.StepsComplete` | submission/kv_store/kv_store.c:147-180 | the steps of a call in program order add up to the whole operation with its return code |
| `Crash.DiskAfterSteps` | submission/kv_store/kv_store.c:158-162 | the disk changes exactly once, at the third step of a call whose write succeeds |
| `Crash.CrashAtomicity` | submission/kv_store/kv_store.c:147-180 | a crash after any number of steps recovers the state before the call or the state after it, with the contents of every key, and the invariant again |
| `Runs.GetReads` | submission/kv_store/kv_store.c:101-138 | a get answers from the contents alone: ENOENT for absent or deleted keys, EINVAL for a short buffer, else the value; EIO and EFAULT never happen |
| `Format.AcceptedSizes` | submission/kv_store/kv_store.c:142-145 | a set returns EINVAL if and only if the value is empty or longer than 4096 bytes |
| `Format.SetCodes` | submission/kv_store/kv_store.c:140-181 | every return code of a set, when it is given, and that exactly a set that returns 0 changes the contents |
| `Format.DelCodes` | submission/kv_store/kv_store.c:183-233 | the same for a delete, with ENOENT if and only if the key has no value |
| `Format.GetCodes` | submission/kv_store/kv_store.c:101-138 | the same for a get, whose value is the first bytes of the value area of the key's block |
| `Runs.AppendRefines` | submission/kv_store/kv_store.c:147-180 | a write changes the contents of one key, or reports ENOSPC exactly when n keys were ever written, or EIO when the disk refuses |
| `Runs.StepRefines` | submission/kv_store/kv_store.c:101-233 | each operation, restart and crash replies and changes the contents exactly as the reference map does |
| `Runs.RunRefines` | submission/kv_store/kv_store.c:101-233 | so does every run, from every state satisfying the invariant, which it keeps |
| `Runs.StoreIsAMap` | kv_stress/kv_checker.c:84-175 | a created store answers every run as an empty reference map does |
| `Bisimulation.ReopenSimilar` | submission/kv_store/kv_store_replay.c:19-66 | a replayed store is indistinguishable from the one that was running |
| `Bisimulation.AppendSimilar` | submission/kv_store/kv_store.c:147-180 | stores equal up to an order-preserving relabelling of sequence numbers stay so after a write and return the same code |
| `Bisimulation.RunSimilar` | submission/kv_store/kv_store.c:101-233 | indistinguishable stores give the same replies and choose the same blocks in every run |
| `Bisimulation.TransparentReopen` | submission/kv_store/kv_store.c:63-98 | a run with restarts anywhere gives the replies and block choices of the run without them |
| `Bisimulation.RestartsAreInvisible` | submission/kv_store/kv_store.c:63-98 | the same for every run of a created store |
| `Bisimulation.CrashInSimilar` | submission/kv_store/kv_store.c:147-180 | a crash after any number of steps leaves a store indistinguishable from the one before the call, or from the one after all of it |
| `Bisimulation.TransparentCrashes` | submission/kv_store/kv_store.c:140-233 | a run with restarts and crashes anywhere gives the replies and block choices of the run in which restarts are left out and every crashed call is either made in full or left out |
| `Bisimulation.CrashesAreCallsOrNothing` | submission/kv_store/kv_store.c:140-233 | the same for every run of a created store |
| `Bisimulation.CleanFailure` | submission/kv_store/kv_store.c:152-162 | after a call that reports an error every later run gives the replies and block choices it would have given without the call |
| `History.StepShape` | submission/kv_store/kv_store.c:152-178 | any operation, restart or crash leaves the disk alone or writes one free block with the newest version of the key it names |
| `History.DenseFile` | submission/kv_store/kv_append_point.c:42-53 | from a created store on the file never has holes, holds only signed blocks, never shrinks and never exceeds n blocks |
| `History.NewestVersionStays` | submission/kv_store/kv_store_replay.c:50-54 | the newest version of a key, tombstones included, stays on disk, in the directory and allocated until a newer version of the key is written, through refused, failed and crashed calls that name the key as well |
| `History.NoResurrection` | submission/kv_store/kv_store.c:183-233 | after a delete the key stays unreadable until a set of it reaches the disk |
| `History.LatestSetWins` | submission/kv_store/kv_store.c:101-181 | after a successful set every get returns its bytes until a newer version of the key is written, through refused, failed and crashed calls that name the key as well |
| `History.DirectoryIsEverWritten` | submission/kv_store/kv_directory.c:131-147 | the directory holds exactly the keys ever written, across restarts and crashes |
| `History.ExactCapacity` | submission/kv_store/kv_store.c:152-156 | a valid set, or a delete of a present key, returns ENOSPC if and only if n distinct keys were ever written |
| `History.FullIsAbsorbing` | submission/kv_store/kv_append_point.c:44-52 | once full, no run changes disk, directory, bitmap or contents |
| `History.NeverFull` | submission/kv_store/kv_store.c:29-32 | with fewer distinct keys than blocks no call of any run of a created store returns ENOSPC, for every number of blocks |
| `History.RoomForAllKeys` | submission/kv_store/kv_store.c:29-32 | in a store of 200001 blocks, 200000 distinct keys always fit, however many overwrites and deletes |
| `Format.ProgramCapacity` | submission/kv_store/kv_store.c:29-32 | in a store of 200001 blocks an accepted set, or a delete of a present key, returns ENOSPC if and only if 200001 distinct keys were ever written |
| `History.SequencesOnlyGrow` | submission/kv_store/kv_store_replay.c:60-64 | the sequence numbers written in a run strictly grow, across restarts and crashes, and the last one written is at the head of the disk |
| `History.CounterBound` | submission/kv_store/kv_store.c:147-147 | an operation, restart or crash moves the counter by at most two, so no run of fewer than 2^63 operations comes near the end of 64 bits |
| `History.RoundRobin` | submission/kv_store/kv_append_point.c:42-53 | between two writes to one block every other block is written, or is allocated at a moment when the cursor passes over it |
| `Store.Store.constructor` | submission/kv_store/kv_store.c:19-61 | a new store has counter 0, cursor 0, an empty directory and a clear bitmap |
| `Store.Store.VersionBytes` | submission/kv_store/kv_store.c:148-150 | the bytes handed to the disk: signature, key, number, size and value at their places, decoding to the new version of the key |
| `Store.Store.PlaceVersion` | submission/kv_store/kv_store.c:147-152 | the counter, wrapping at 64 bits, and the cursor end as after the first two small steps, with the block's bytes ready |
| `Store.Store.WritePlaced` | submission/kv_store/kv_store.c:158-162 | the disk write is the third small step and puts the bytes at 4128 * destination |
| `Store.Store.IndexVersion` | submission/kv_store/kv_store.c:164-178 | directory, release and mark are the last three small steps, in that order |
| `Store.Store.WriteVersion` | submission/kv_store/kv_store.c:147-180 | the shared part of set and delete computes `AppendAs` on the model with the next 64-bit number, whenever the program's own assertion holds |
| `Store.Store.Set` | submission/kv_store/kv_store.c:140-181 | kv_set returns EINVAL exactly for 0 or more than 4096 bytes, ENOSPC exactly when all blocks belong to keys, EIO when the disk refuses; it changes the contents only with 0, and below the last counter value keeps the store valid and computes `SetStep` on the model |
| `Store.Store.Del` | submission/kv_store/kv_store.c:183-233 | kv_del returns ENOENT exactly for keys without a value and ENOSPC exactly when a key has one and all blocks belong to keys; it changes the contents only with 0, and below the last counter value keeps the store valid and computes `DelStep` on the model |
| `Store.AssertionExact` | submission/kv_store/kv_store.c:177-177 | the calls that Set and Del take are exactly those in which the assertion on the new version is not reached or holds |
| `Store.Store.Get` | submission/kv_store/kv_store.c:101-138 | kv_get fills the buffer with the first bytes of the value area of the key's block, which are the key's contents, and sets its size; ENOENT exactly without a value, EINVAL exactly for a short buffer; the rest of the buffer, all of it on an error, and the store stay unchanged |
| `Store.Store.Load` | submission/kv_store/kv_block_array.c:85-108 | reading a block from the file yields that block of the disk, EIO exactly past the end |
| `Store.Store.ReplayBlock` | submission/kv_store/kv_store_replay.c:31-64 | the body of the scan loop computes `ScanBlock64` on the model |
| `Store.Store.ScanBlocks` | submission/kv_store/kv_store_replay.c:19-66 | the loop over all blocks computes `Reopen64`, and no assertion or index in it fails |
| `Store.Store.ReplayLog` | submission/kv_store/kv_store_replay.c:6-69 | replaying the file of a new store computes `Reopen64` |
| `Store.Open` | submission/kv_store/kv_store.c:63-88 | creating gives the empty store; opening gives the replayed one, which without the last sequence number on disk is `Reopen` and is valid whenever the file meets `StoreModel.LogOk` |
| `Lifecycle.KvOpen` | submission/kv_store/kv_store.c:19-88 | kv_open as the program calls it makes a store of 200001 blocks, empty when creating, and otherwise one that answers gets from the bytes of the file |
| `Lifecycle.CloseAndOpen` | submission/kv_store/kv_store.c:63-98 | closing a store object and opening its file gives the same directory, bitmap, next block and contents, and, without the last sequence number on disk, a valid store object that is indistinguishable from the closed one |

## Left out

- System calls, file names, `errno` values, `argv` and file descriptors: a file is its bytes, and a write either happens or fails with nothing changed. Torn writes are not modelled.
- `malloc` failures, cleanup functions and `kv_close`: closing is dropping the objects and keeping the file's bytes.
- The C library's search tree: the directory is a finite map from key id to entry; `kv_directory__remove_key` is not called by this store.
- `kv_block__is_allocated` and `directory_entry__is_allocated`, which this store does not use on any path.
- Store.Store.Set: at the last value of the 64-bit counter a call that would reach the program's assertion with a stored key is excluded, as the assertion excludes it, and the store is not promised to be valid afterwards; `Wrap.WrapIsReachable` and `Wrap.WrapBreaksInvariant` say why.
- Store.Store.Del: the same, for a present key.
- Store.Store.ReplayLog: requires what the assertions of the program require of the file: it fits the bitmap, and no key has two blocks with one sequence number.
- Lifecycle.KvOpen: the same requirement when an existing file is opened.
- Store.Open: the same requirement when an existing file is opened, and a number of blocks that the bitmap has room for (n + 7 < 2^32; see `BlockAllocator.BlockAllocator.constructor`).
- Codec.DecodeEncode: fixes little-endian byte order and no padding beyond the two declared pad fields.
- Types.MemCopy: overlapping buffers are excluded.
- Crashes in the middle of a replay, which writes nothing; concurrent use, which the program does not support.
- The variants in `kv_pp/` and `kv_store/`, the test harnesses and the vendored test framework.
