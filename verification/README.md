# Noir: verified models of its core algorithms

A model, in Dafny, of the parts of the Noir node whose correctness spans whole runs or whole encodings: the address
manager, the stack of unspent-output caches, the queue of script checks, partial Merkle trees, the block index and the
active chain, 256-bit arithmetic and compact targets, Base58, the rolling Bloom filter, InstantSend voting, compact
blocks, the noirnode's side of a mixing session, and the codecs of stored records.

Each component has a value-level file, which says what every step does and proves what holds of it, and, where the
program updates things in place, a file with a class or methods over arrays that are proved to take exactly those steps.

| component | files |
|---|---|
| address manager | `AddrTables` (state, invariant, elementary steps), `AddrOperations` (operations, runs), `AddrMan` (the class), `AddrCheck` (its check of itself), `AddrFile`, `AddrLoaded`, `AddrRoundTrip`, `AddrManFile` (the stored form) |
| unspent outputs | `Coins`, `CoinsView` (one cache), `CoinsStack` (stacks and runs), `CoinsCache` (the classes), `CoinsCodec`, `ScriptCompressor`, `AmountCodec`, `VarInts` (the stored form) |
| script checks | `CheckQueue` (the protocol), `CheckQueueObject` (the critical sections) |
| partial Merkle trees | `MerkleTree`, `PartialMerkleTree` |
| chain | `Chain` |
| 256-bit numbers | `Limbs`, `Arith256`, `ArithShift`, `ArithDivision`, `CompactTarget`, `BlockProof` |
| Base58 | `Radix`, `Base58Codec`, `Base58` |
| rolling Bloom filter | `RollingBloom`, `RollingBloomFilter` |
| InstantSend | `InstantSend`, `InstantSendObject` |
| compact blocks | `CompactBlocks`, `PartiallyDownloadedBlock`, `DifferentialIndexes` |
| mixing | `MixingSession`, `MixingPool` |
| shared | `Arithmetic`, `Sets`, `Wrappers` |

What the program gets from outside is a parameter: keyed hashes and the Merkle hash are functions of which nothing is
assumed, random draws and clocks are arguments, signature and collateral checks are booleans, the memory of a record is
a function, and the operations on public keys are two functions of which only point compression is assumed. Integers
are unbounded unless a width is written out.

The project is checked with `dafny verify dfyconfig.toml`.

## Findings

Properties that one would expect and that the code does not have, with the members that show it and say when they hold.

- A coin record with a negative version or height, which the types admit, is not read back: `WriteVarInt` writes only
  the low seven bits of a negative number (`src/serialize.h:381-395`). `VarInts.MinusOne`,
  `CoinsCodec.NegativeVersionExample`; exact condition in `VarInts.ReadVarIntBack` and `CoinsCodec.RoundTrip`.
- A script over 10000 bytes is read back as a lone `OP_RETURN` (`src/compressor.h:88-92`); such outputs are dropped
  before, so records of transactions do not have them. `ScriptCompressor.ReadScriptBack`, `CoinsCodec.FromTxRoundTrip`.
- A number multiplied by itself in place becomes zero, since the product is computed in the operand that is being read
  (`src/arith_uint256.cpp:68-81`). `Arith256.MulAssign`.
- The first entry of a mixing session is compared with no denomination (`src/darksend.cpp:2030-2040`), so a session
  can be filled with entries of another denomination than it was started for.
  `MixingSession.SessionDenomNotCompared`; exact condition in `MixingSession.RunMatches`.
- Reading differential indexes lets the offset wrap after index 65535 (`src/blockencodings.h:56-62`), so a list that is
  not increasing can be read. `DifferentialIndexes.WrapsAround`; exact condition in
  `DifferentialIndexes.DecodedIncreasing`.
- Short ids are bound to slots by sixteen-bit numbers (`src/blockencodings.cpp:82-87`) although a message may have more
  than 65536 slots. `CompactBlocks.TooManySlots`; exact condition in `CompactBlocks.NarrowCount`.
- The search for the slot of a short id counts the taken slots in sixteen bits (`src/blockencodings.cpp:83-86`). When
  65536 transactions are prefilled the count comes back to zero and the search does not end.
  `CompactBlocks.SearchDoesNotEnd`; exact condition in `CompactBlocks.SearchEnds`.
- A second signature for an input of a mixing transaction replaces the first in the merged transaction before it is
  refused (`src/darksend.cpp:1028-1048`). `MixingSession.SecondSignature`; exact condition in
  `MixingSession.AddScriptSigAgrees`.
- `ModifyNewCoins` without the coinbase flag over a transaction that the parent still has unspent lets the parent's
  record show through again (`src/coins.cpp:125-134`). `CoinsView.WrongNewResurrects`; exact condition in
  `CoinsView.ModifyNewOk`.
- `ModifyNewCoins` over a cached entry with storage makes the memory account too high by that storage
  (`src/coins.cpp:133`). `CoinsStack.StorageForgotten`; exact condition over runs in `CoinsStack.RunExact`.
- A cache that never learned its best block overwrites that of a parent cache when it is flushed
  (`src/coins.cpp:210`). `CoinsView.FlushForgetsBest`; exact condition in `CoinsView.FlushBest`.
- A success reported with time zero, or an attempt with a negative time, breaks the time stamps that the address
  manager's check looks at (`src/addrman.cpp:197-247`, `src/addrman.cpp:317-337`). `AddrOperations.BadTimes`; exact
  conditions in `AddrOperations.GoodTimes` and `AddrOperations.AttemptTimes`.
- A stored address file with one address twice can give a manager whose index does not list one of its entries
  (`src/addrman.h:371-389`), and one with a negative number of entries a manager whose counter is negative
  (`src/addrman.h:355-370`). `AddrLoaded.AddressTwice`, `AddrLoaded.NegativeCount`; exact condition in
  `AddrLoaded.LoadedValid`.
- The address manager's check finds entry zero in the address index even when it is not listed there, because looking
  up a missing address inserts zero (`src/addrman.cpp:411`). `AddrCheck.UnlistedZero`; exact condition in
  `AddrCheck.CheckMeans`.
- The documented bound of 2*N-1 on the bits of a partial tree with N hashes (`src/merkleblock.h:47`) does not hold,
  since odd widths make nodes with one child. `MerkleTree.MoreBits`; exact condition in `MerkleTree.TreeBits`. The
  bounds on N itself hold (`MerkleTree.TreeSize`).
- The quit flag of the check queue is never set by the program (`src/checkqueue.h:63`), so the queue's threads leave
  their loop only by interruption; the model has no such step.

## Model

| member | source | states |
|---|---|---|
| `AddrTables.SwapConsistent` | src/addrman.cpp:100-118 | swapping two places of the random vector meets its assertions and keeps every index consistent, also in the middle of another operation |
| `AddrTables.DeleteConsistent` | src/addrman.cpp:120-132 | deleting an untried entry without references meets its assertions and keeps all indexes and counters consistent |
| `AddrTables.ClearConsistent` | src/addrman.cpp:134-147 | clearing a new slot meets its assertions, takes one reference from the occupant and deletes it with its last one; all indexes stay consistent |
| `AddrTables.EvictEffect` | src/addrman.cpp:168-189 | evicting a tried entry frees its slot, gives it exactly one reference in the new slot of its own source, and changes no other entry but the one that had that slot |
| `AddrTables.MakeTriedValid` | src/addrman.cpp:149-195 | moving an entry to tried meets every assertion on the way and restores the whole invariant |
| `AddrOperations.MakeTriedEffect` | src/addrman.cpp:149-195 | the entry takes its own tried slot and leaves all new slots; whoever had that slot gets one new reference; nobody else changes but the entry displaced from it |
| `AddrOperations.TakeSlotValid` | src/addrman.cpp:293-312 | an entry that takes the new slot picked by the source leaves a valid state, whoever had the slot before |
| `AddrOperations.SelectOneMore` | src/addrman.cpp:464-483 | one round of the selection: the drawn entry comes to its place, and its address is taken unless it is terrible |
| `AddrOperations.SelectedDistinct` | src/addrman.cpp:464-483 | the selected addresses are those of known entries that are not terrible, and no address comes twice |
| `AddrOperations.GoodTimes` | src/addrman.cpp:197-247 | reporting a success keeps the time stamps that the check looks at if and only if its time is positive or the address is not known |
| `AddrOperations.AttemptTimes` | src/addrman.cpp:317-337 | reporting an attempt keeps them if and only if its time is not negative or the address is not known |
| `AddrOperations.BadTimes` | src/addrman.cpp:197-337 | a success at time zero, or an attempt at time -1, for the first address added: the times fail the check |
| `AddrOperations.TriedSurvives` | src/addrman.cpp:88-315 | no single operation forgets a tried address |
| `AddrOperations.RunKeepsCheck` | src/addrman.cpp:88-521 | every run of Add, Good, Attempt, Connected, SetServices and GetAddr from an empty manager keeps the invariant: reference counts are numbers of slots (1 to 8), a tried entry has exactly its own slot, indexes are inverse to each other, counters agree, times are in order |
| `AddrMan.AddrManager.constructor` | src/addrman.h:453-472 | a manager as constructed is the empty state |
| `AddrMan.AddrManager.SwapRandom` | src/addrman.cpp:100-118 | the fields after the swap are those of the swapped state |
| `AddrMan.AddrManager.Delete` | src/addrman.cpp:120-132 | the fields after a deletion are those of the state without the entry |
| `AddrMan.AddrManager.ClearNew` | src/addrman.cpp:134-147 | the fields after clearing a slot are those of the cleared state |
| `AddrMan.AddrManager.MakeTried` | src/addrman.cpp:149-195 | the loops over buckets do to the arrays and maps what moving the entry does to the state |
| `AddrMan.AddrManager.Good` | src/addrman.cpp:197-247 | takes the Good step, whatever bucket the search starts from, and stays valid |
| `AddrMan.AddrManager.Create` | src/addrman.cpp:88-98 | a new entry with the next id, in the address index and at the end of the random vector |
| `AddrMan.AddrManager.PassesDraw` | src/addrman.cpp:280-285 | the loop computes a power of two: with a reference count of N one draw in 2^N passes |
| `AddrMan.AddrManager.Offer` | src/addrman.cpp:293-313 | takes the step that offers the entry its slot, and stays valid |
| `AddrMan.AddrManager.Add` | src/addrman.cpp:249-315 | takes the Add step, tells whether the address was new, and stays valid |
| `AddrMan.AddrManager.Attempt` | src/addrman.cpp:317-337 | takes the Attempt step and stays valid |
| `AddrMan.AddrManager.Connected` | src/addrman.cpp:485-503 | takes the Connected step and stays valid |
| `AddrMan.AddrManager.SetServices` | src/addrman.cpp:505-521 | takes the SetServices step and stays valid |
| `AddrMan.AddrManager.GetAddr` | src/addrman.cpp:464-483 | shuffles the front of the random vector and returns the good addresses of the shuffled part: at most 23 percent and at most 2500, and it stops early only when it has that many |
| `AddrCheck.Check` | src/addrman.cpp:387-461 | returns zero if and only if the state satisfies all that the check tests; looking up an address that is not listed lists it as zero, so nothing is changed in a valid manager |
| `AddrCheck.CheckEntries` | src/addrman.cpp:395-419 | the loop over entries passes exactly when every entry passes, and collects the tried ids and the reference counts |
| `AddrCheck.CheckTables` | src/addrman.cpp:427-458 | the two loops over the tables, with their bookkeeping of what was not seen, pass exactly when both tables are right and the key is not null |
| `AddrCheck.TablesMean` | src/addrman.cpp:427-455 | nothing is left over from the tried scan if and only if every tried entry sits in exactly its own slot; nothing from the new scan if and only if all reference counts are the numbers of slots |
| `AddrCheck.CheckTried` | src/addrman.cpp:427-440 | the scan of the tried table with its three error codes |
| `AddrCheck.CheckNew` | src/addrman.cpp:442-453 | the scan of the new table, counting references down |
| `AddrCheck.RandomFull` | src/addrman.cpp:392-414 | a vector as long as there are entries, in which every entry finds itself, lists nothing else |
| `AddrCheck.CheckMeans` | src/addrman.cpp:387-461 | for states that list only addresses of entries and give ids in order: the check passes and entry zero is listed if and only if the state is valid, its times are right and its key is not null |
| `AddrCheck.UnlistedZero` | src/addrman.cpp:411-412 | a state that passes the check and is not valid: entry zero is not listed |
| `AddrCheck.RunPassesCheck` | src/addrman.cpp:387-461 | every run from an empty manager with a key passes the check, given well-timed reports |
| `AddrLoaded.LoadedValid` | src/addrman.h:343-446 | whatever file is accepted, the loaded manager is valid if and only if neither counter is negative and, before pruning, every entry that shares its address with another is in no table |
| `AddrLoaded.DistinctValid` | src/addrman.h:343-446 | in particular for every file without negative counters in which no address occurs twice |
| `AddrLoaded.PruneEffect` | src/addrman.h:428-438 | pruning drops exactly the entries in no table, and with each the listing of its address, whoever it lists |
| `AddrLoaded.NegativeCount` | src/addrman.h:355-370 | a file with the number -1 of new entries is accepted and fails the first test of the check |
| `AddrLoaded.SharedAddress` | src/addrman.h:343-446 | a state in which two entries share an address is never valid |
| `AddrLoaded.AddressTwice` | src/addrman.h:371-389 | two new entries with one address and slots of their own both stay, and the index lists the second only |
| `AddrRoundTrip.RoundTrip` | src/addrman.h:293-446 | a valid manager written and read into a fresh one is accepted and valid, has the same entries up to renumbering, with the memory-only times at zero, and the same addresses in the same slots of both tables; nothing is lost |
| `AddrRoundTrip.NewFits` | src/addrman.h:363-365 | a valid manager never has more new entries than the reader accepts |
| `AddrRoundTrip.TriedFits` | src/addrman.h:367-369 | nor more tried entries |
| `AddrManFile.Write` | src/addrman.h:293-341 | the loops over entries and buckets write the stored form of the state |
| `AddrManFile.Read` | src/addrman.h:343-446 | the loops read any file as the loading function does; the manager is valid if and only if the exact condition holds |
| `AddrManFile.RoundTripPasses` | src/addrman.h:293-446 | a manager that passes the check passes it after it was written and read back |
| `AddrManFile.Transfer` | src/addrman.h:293-446 | writing one manager and reading it into another gives the same manager, valid, and passing the check if the first did |
| `Coins.TrimMeaning` | src/coins.h:113-119 | dropping null outputs at the end changes no availability; a trimmed record is pruned exactly when it has no outputs |
| `Coins.Cleanup` | src/coins.h:113-119 | the popping loop computes the trimmed record |
| `Coins.Spend` | src/coins.cpp:36-43 | succeeds exactly for an available output, makes just that output unavailable, and trims |
| `CoinsView.FetchOk` | src/coins.cpp:73-89 | fetching keeps the flags right in every cache it fills |
| `CoinsView.HaveCoinsMeaning` | src/coins.cpp:145-152 | having a non-empty list of outputs is the same as having an unspent one |
| `CoinsView.ModifyOk` | src/coins.cpp:100-123 | beginning a modification changes no view and keeps the flags right |
| `CoinsView.ModifyNewOk` | src/coins.cpp:125-134 | creating a record hides the old one; the flags stay right if and only if it is a coinbase or the parent has nothing unspent |
| `CoinsView.WrongNewResurrects` | src/coins.cpp:125-134 | otherwise a record that is created and spent again lets the parent's old record show through |
| `CoinsView.ReleaseOk` | src/coins.cpp:291-303 | ending a modification changes no view, also when it drops the entry |
| `CoinsView.UncacheOk` | src/coins.cpp:221-228 | dropping an unflagged entry changes no view |
| `CoinsView.BatchWriteOk` | src/coins.cpp:169-212 | after writing back, the parent shows for every transaction what the cache showed, and the parent's own flags are right |
| `CoinsView.FlushOk` | src/coins.cpp:214-219 | flushing leaves the base view equal to the cache's view beforehand, and the cache's view as it was |
| `CoinsView.FlushBest` | src/coins.cpp:169-219 | the best block reaches the parent if and only if the cache knows one, the parent is the database, or the parent had nothing to lose |
| `CoinsView.FlushForgetsBest` | src/coins.cpp:207-219 | the failing case at an input: a cache that never learned its best block makes its parent fall back from block 2 to block 1 |
| `CoinsView.ModifyNewDrift` | src/coins.cpp:125-134 | the memory account goes off by exactly the storage of the entry that is replaced |
| `CoinsView.FlushDrift` | src/coins.cpp:169-219 | flushing empties the account of the cache and keeps that of its parent |
| `CoinsStack.StepRefines` | src/coins.cpp:73-228 | every step on a stack of caches does to a stack of plain maps what it should, and keeps the flags right |
| `CoinsStack.RunRefines` | src/coins.cpp:73-228 | over every run of reads, drops, flushes, modifications, pushes and pops, at any depth, the stack of caches is the stack of plain maps |
| `CoinsStack.StepExact` | src/coins.cpp:73-228 | a step keeps all memory accounts exact if and only if it is not a ModifyNewCoins over an entry with storage |
| `CoinsStack.RunExact` | src/coins.cpp:73-228 | throughout a run every cache counts its memory exactly if and only if no ModifyNewCoins of the run replaced an entry that held storage |
| `CoinsStack.StorageForgotten` | src/coins.cpp:125-134 | a run that creates a record with storage twice does not stay exact |
| `CoinsCache.CoinsDb.BatchWrite` | src/txdb.cpp:54-75 | the database keeps dirty records that are not pruned, erases pruned ones, and a null best block leaves the old one |
| `CoinsCache.CoinsViewCache.FetchCoins` | src/coins.cpp:73-89 | the object takes the fetching step and returns what the view has |
| `CoinsCache.CoinsViewCache.HaveCoins` | src/coins.cpp:145-152 | true exactly when the view has an unspent output |
| `CoinsCache.CoinsViewCache.GetBestBlock` | src/coins.cpp:159-163 | the best block of the first view that knows one |
| `CoinsCache.CoinsViewCache.ModifyCoins` | src/coins.cpp:100-123 | takes the modifying step |
| `CoinsCache.CoinsViewCache.ModifyNewCoins` | src/coins.cpp:125-134 | takes the creating step |
| `CoinsCache.CoinsViewCache.ReleaseModifier` | src/coins.cpp:291-303 | takes the releasing step, with the usage counted |
| `CoinsCache.CoinsViewCache.UncacheCoins` | src/coins.cpp:221-228 | takes the dropping step |
| `CoinsCache.CoinsViewCache.BatchWrite` | src/coins.cpp:169-212 | the loop over a child's entries merges them all and counts the usage that remains |
| `CoinsCache.CoinsViewCache.FlushCache` | src/coins.cpp:214-219 | takes the flushing step, through however many caches |
| `VarInts.ReadVarIntBack` | src/serialize.h:381-409 | reading takes writing back if and only if the number is not negative; a negative one comes back as its low seven bits |
| `VarInts.MinusOne` | src/serialize.h:381-409 | -1 is written as one byte and comes back as 127 |
| `VarInts.WriteVarInt` | src/serialize.h:381-395 | the loop writes the encoding of any number of its width and never leaves its buffer |
| `VarInts.ReadNumber` | src/serialize.h:397-409 | the loop of an unsigned type of any width reads the number reduced to that width, and fails at the end of the stream |
| `ScriptCompressor.ReadScriptBack` | src/compressor.h:67-97 | every script, in whichever of the six short forms or the plain one, is read back if and only if it is within the size limit, and what follows it is left |
| `ScriptCompressor.LongKeyBack` | src/compressor.cpp:33-76 | an uncompressed key that is a point is restored from its first coordinate and a parity bit |
| `AmountCodec.DecompressCompress` | src/compressor.cpp:142-185 | every amount comes back |
| `AmountCodec.CompressDecompress` | src/compressor.cpp:142-185 | and every code is the code of an amount: compression is a bijection on the naturals |
| `AmountCodec.CompressFits` | src/compressor.cpp:142-160 | no amount of money overflows 64 bits |
| `AmountCodec.CompressAmount` | src/compressor.cpp:142-160 | for every 64-bit amount the code reduced to 64 bits, which is the code for an amount of money |
| `AmountCodec.DecompressAmount` | src/compressor.cpp:162-185 | for every 64-bit code the amount reduced to 64 bits |
| `CoinsCodec.RoundTrip` | src/coins.h:179-240 | every trimmed record that is not pruned is read back, followed by what followed it; it is the record that was written if and only if its version and height are not negative and its scripts are within the limit |
| `CoinsCodec.FromTxRoundTrip` | src/coins.h:90-127 | for the record made from a transaction that pays money: if and only if version and height are not negative |
| `CoinsCodec.NegativeVersionLost` | src/coins.h:187-188 | a negative version is replaced by its low seven bits |
| `CoinsCodec.NegativeVersionExample` | src/coins.h:187-188 | such a record, with version -1 becoming 127 |
| `CoinsCodec.CodeParts` | src/coins.h:186-216 | the header code, which counts N or N-1 non-zero mask bytes, gives back its flags and the count |
| `CoinsCodec.ReadMaskBack` | src/coins.h:192-232 | a mask without trailing zero bytes is read back by counting its non-zero bytes only |
| `CoinsCodec.MaskCovers` | src/coins.cpp:18-34 | the mask of a trimmed record reaches its last output and ends in a non-zero byte |
| `CoinsCodec.CalcMaskSize` | src/coins.cpp:18-34 | the loops count the bytes of the mask and those that are not zero |
| `CoinsCodec.ReadMaskBytes` | src/coins.h:221-232 | the loop reads what the mask decoder does, or fails at the end of the stream |
| `CheckQueue.NextKeeps` | src/checkqueue.h:69-168 | every critical section of every thread keeps the books: open work is queued plus in flight, and the answer so far is right |
| `CheckQueue.Protocol` | src/checkqueue.h:69-168 | over every interleaving of a master and any number of workers: nTodo is queued plus in-flight checks, Wait returns true exactly when all checks added since the last Wait are true, a master asleep without a signal has a worker with a batch in flight, and the queue is idle after Wait until the next Add |
| `CheckQueue.WaitProgresses` | src/checkqueue.h:69-130 | while the master waits some step is due, and every due step lets it return or leaves fewer checks, or as many and fewer signals |
| `CheckQueue.OtherKeeps` | src/checkqueue.h:69-130 | workers that come in and threads that wake without a signal do not raise the measure |
| `CheckQueue.WaitEnds` | src/checkqueue.h:69-144 | Wait ends: under every schedule it lasts at most as many due steps as the measure at its beginning, and as long as it lasts one is due |
| `CheckQueueObject.CheckQueueFields.Add` | src/checkqueue.h:146-158 | appends the checks and counts them |
| `CheckQueueObject.CheckQueueFields.TakeBatch` | src/checkqueue.h:113-119 | moves a batch from the end of the queue, in the order of taking |
| `CheckQueueObject.CheckQueueFields.Continue` | src/checkqueue.h:91-121 | the loop around the wait decides as the state machine does |
| `CheckQueueObject.CheckQueueFields.EnterSection` | src/checkqueue.h:78-121 | the section on entering |
| `CheckQueueObject.CheckQueueFields.FinishSection` | src/checkqueue.h:78-121 | the section after a batch, and when the master is notified |
| `CheckQueueObject.CheckQueueFields.WakeSection` | src/checkqueue.h:91-121 | the section after waking up |
| `CheckQueueObject.Execute` | src/checkqueue.h:123-127 | nothing is evaluated after a failure, and the result is the conjunction |
| `MerkleTree.WidthFormula` | src/merkleblock.h:66-68 | the closed formula for the width of a level is halving the level below, rounded up |
| `MerkleTree.CalcHashOfShape` | src/merkleblock.cpp:63-78 | the hash by height and position is the hash of that node's subtree |
| `MerkleTree.SameHashCollides` | src/merkleblock.cpp:98-134 | two nodes of a level with one hash, over distinct leaves, exhibit a collision among what is hashed below them |
| `MerkleTree.ExtractSound` | src/merkleblock.cpp:98-134 | for any bits and hashes: an extraction that arrives at a node's true hash reports only ids that are really there, or one of the inputs it hashed collides with one of the true subtree's |
| `MerkleTree.Authentic` | src/merkleblock.cpp:152-183 | an extraction with the true root reports only true ids at their true indexes, or two different inputs, one hashed by the extraction and one by the list's own tree, have one hash |
| `MerkleTree.ExtractBuilt` | src/merkleblock.cpp:80-134 | extracting what was built consumes exactly it and gives the matched ids in order |
| `MerkleTree.TreeSize` | src/merkleblock.h:40-50 | the stored hashes are at most the transactions, at most 1 + matched * height, and never more than the bits |
| `MerkleTree.TreeBits` | src/merkleblock.h:47 | the exact number of bits is 2 * hashes - 1 plus the one-child nodes above a match, so the documented bound holds if and only if there are none |
| `MerkleTree.MoreBits` | src/merkleblock.h:47 | three transactions with the last one matched: four bits and two hashes |
| `MerkleTree.RoundTrip` | src/merkleblock.cpp:80-183 | build, pad to bytes and extract gives the root and exactly the matched ids, or two inputs hashed for the root collide |
| `PartialMerkleTree.PartialTree.constructor` | src/merkleblock.cpp:136-148 | the traversal stores the bits and hashes of the built tree |
| `PartialMerkleTree.PartialTree.TraverseAndBuild` | src/merkleblock.cpp:80-96 | appends the bits and hashes of the node's subtree |
| `PartialMerkleTree.PartialTree.TraverseAndExtract` | src/merkleblock.cpp:98-134 | computes the extraction and flags bad data |
| `PartialMerkleTree.PartialTree.ExtractAll` | src/merkleblock.cpp:152-183 | the root and matches, or the null hash for any of the failing tests |
| `PartialMerkleTree.Pack` | src/merkleblock.h:99-104 | eight bits to a byte, lowest first, the last byte padded with zeroes |
| `PartialMerkleTree.Unpack` | src/merkleblock.h:92-98 | the bits of the bytes |
| `PartialMerkleTree.Transmit` | src/merkleblock.h:87-105 | a tree sent as bytes and extracted on the other side gives the root and exactly the matched ids, or two inputs hashed for the root collide |
| `Chain.LowestOneInverted` | src/chain.cpp:64-66 | turning off the lowest set bit, stated by factoring out its power of two |
| `Chain.GetSkipHeight` | src/chain.cpp:68-76 | the height to jump to is always lower |
| `Chain.BlockIndex.GetAncestor` | src/chain.cpp:78-102 | the skip pointers lead to the same block as walking parent pointers, or null outside the range |
| `Chain.BlockIndex.BuildSkip` | src/chain.cpp:109-113 | sets the pointer to the ancestor at the skip height and keeps all pointers right |
| `Chain.ActiveChain.SetTip` | src/chain.cpp:13-23 | despite stopping at the first agreeing block, the vector is exactly the tip's path |
| `Chain.ActiveChain.FindFork` | src/chain.cpp:53-62 | the highest block that a branch and the chain have in common, or null |
| `Chain.ActiveChain.Next` | src/chain.h:554-559 | the successor in the chain, null exactly for the tip and for blocks of other branches |
| `Chain.LocatorDescends` | src/chain.cpp:25-51 | a locator's heights start at its block, strictly descend and end at genesis |
| `Chain.ActiveChain.GetLocator` | src/chain.cpp:25-51 | the hashes at those heights, found by the vector or the skip pointers alike |
| `Arith256.AddAssign` | src/arith_uint256.h:135-145 | addition modulo 2^(32 n) |
| `Arith256.SubAssign` | src/arith_uint256.h:147-151 | subtraction modulo 2^(32 n) |
| `Arith256.Complement` | src/arith_uint256.h:69-75 | the complement is 2^(32 n) - 1 - x |
| `Arith256.Negate` | src/arith_uint256.h:77-84 | negation modulo 2^(32 n) |
| `Arith256.Increment` | src/arith_uint256.h:173-180 | the carry loop adds one, with wrap-around |
| `Arith256.Decrement` | src/arith_uint256.h:190-197 | the borrow loop subtracts one, with wrap-around |
| `Arith256.MulWordAssign` | src/arith_uint256.cpp:56-65 | multiplication by a word modulo 2^(32 n) |
| `Arith256.MulAssign` | src/arith_uint256.cpp:68-81 | the double loop multiplies modulo 2^(32 n); a number multiplied by itself in place comes out as zero |
| `ArithShift.ShiftLeftAssign` | src/arith_uint256.cpp:22-36 | multiplication by a power of two modulo 2^(32 n), for every shift |
| `ArithShift.ShiftRightAssign` | src/arith_uint256.cpp:39-53 | the floor of the division by a power of two, for every shift |
| `ArithDivision.CompareTo` | src/arith_uint256.cpp:110-119 | the order of the numbers |
| `ArithDivision.Bits` | src/arith_uint256.cpp:172-184 | the length in bits |
| `ArithDivision.DivAssign` | src/arith_uint256.cpp:84-107 | the exact floor quotient, with the remainder in num; division by zero is refused with the quotient zeroed |
| `CompactTarget.CompactGreatest` | src/arith_uint256.cpp:204-245 | of all values that compact forms denote, the form of a number has the greatest one not above it |
| `CompactTarget.CompactIdempotent` | src/arith_uint256.cpp:204-245 | compacting the value of a compact form changes nothing |
| `CompactTarget.CompactMonotone` | src/arith_uint256.cpp:224-245 | compact forms are ordered like the numbers |
| `CompactTarget.OverflowExact` | src/arith_uint256.cpp:204-222 | the overflow test holds exactly when the denoted value does not fit in 256 bits |
| `CompactTarget.TargetNotMax` | src/chain.cpp:122-135 | a target that does not overflow is never the largest number, so adding one to it does not wrap |
| `BlockProof.SetCompact` | src/arith_uint256.cpp:204-222 | the value modulo 2^256, with the sign and overflow flags meaning what they say |
| `BlockProof.GetCompact` | src/arith_uint256.cpp:224-245 | the compact form of the number; both assertions hold |
| `BlockProof.GetBlockProof` | src/chain.cpp:122-135 | floor(2^256 / (target + 1)) for every accepted target and zero for others, without representing 2^256 |
| `Base58Codec.DecodeEncode` | src/base58.cpp:21-105 | decoding takes back encoding for every byte vector |
| `Base58Codec.EncodeDecode` | src/base58.cpp:21-105 | encoding what a string decodes to gives the string without the white space around it |
| `Base58Codec.CheckRoundTrip` | src/base58.cpp:117-141 | the strings that pass the checksum for a vector are exactly its encoding, with any white space around it |
| `Base58.EncodeRoom` | src/base58.cpp:78-79 | 138/100 digits per byte and one more always suffice |
| `Base58.DecodeRoom` | src/base58.cpp:33-34 | 733/1000 bytes per digit and one more always suffice |
| `Base58.MulAdd256` | src/base58.cpp:80-94 | the inner loop with its length limit multiplies and adds, and its carry assertion holds |
| `Base58.MulAdd58` | src/base58.cpp:40-48 | the inner loop multiplies and adds, and its carry assertion holds |
| `Base58.EncodeBase58` | src/base58.cpp:67-105 | the in-place conversion computes the encoding |
| `Base58.DecodeBase58` | src/base58.cpp:21-65 | the in-place conversion computes the decoding, refusing what is no word of the alphabet |
| `RollingBloom.RecentContained` | src/bloom.cpp:251-299 | every key of the two last full generations and the current one is contained |
| `RollingBloom.LastElementsContained` | src/bloom.cpp:219-315 | a filter made for so many elements contains at least so many of the last ones, whatever later keys overwrote |
| `RollingBloomFilter.CRollingBloomFilter.constructor` | src/bloom.cpp:219-248 | the sizes, and an empty history |
| `RollingBloomFilter.CRollingBloomFilter.Insert` | src/bloom.cpp:251-279 | the word-wise wiping and two-bit marking of the array keep it a filter of the keys inserted |
| `RollingBloomFilter.CRollingBloomFilter.Contains` | src/bloom.cpp:287-299 | true exactly when all positions of the key are marked; true for each of the last elements |
| `RollingBloomFilter.CRollingBloomFilter.Reset` | src/bloom.cpp:307-315 | the filter of no keys |
| `RollingBloomFilter.Wipe` | src/bloom.cpp:259-268 | the masks on a pair of words wipe exactly the positions that hold the generation's number |
| `InstantSend.Exclusive` | src/instantx.cpp:252-361 | no two candidates can both have six votes for one outpoint |
| `InstantSend.ReadyHasNoConflict` | src/instantx.cpp:490-497 | a candidate with enough votes is never kept from locking by a completed lock |
| `InstantSend.RunExclusive` | src/instantx.cpp:73-464 | in every run between expiries no two candidates that spend an outpoint both get enough votes for it |
| `InstantSend.RunAllOrNothing` | src/instantx.cpp:449-464 | a transaction with one locked outpoint has all of them locked |
| `InstantSend.LockStays` | src/instantx.cpp:449-464 | a completed lock stays through the rest of a run |
| `InstantSend.TwoEquivocators` | src/instantx.cpp:252-464 | conflicting completed locks on two nodes take at least two noirnodes that voted both ways |
| `InstantSendObject.VoteIsRun` | src/instantx.cpp:252-361 | a vote that arrives is a run of steps |
| `InstantSendObject.RequestIsRun` | src/instantx.cpp:73-124 | and so is a request, with the votes that were put aside |
| `InstantSendObject.CInstantSend.CreateTxLockCandidate` | src/instantx.cpp:126-150 | a valid request becomes a candidate with a lock for each input, once |
| `InstantSendObject.CInstantSend.Vote` | src/instantx.cpp:152-249 | this node votes for the outpoints it is ranked for and has not voted for |
| `InstantSendObject.CInstantSend.ProcessTxLockVote` | src/instantx.cpp:252-361 | counts a vote exactly when it is signed, ranked, new and not for a second transaction, and finalizes |
| `InstantSendObject.CInstantSend.TryToFinalizeLockCandidate` | src/instantx.cpp:407-420 | locks exactly a ready candidate without conflicts |
| `InstantSendObject.CInstantSend.LockTransactionInputs` | src/instantx.cpp:449-464 | inserts a lock for each outpoint and leaves those that are there |
| `InstantSendObject.CInstantSend.IsLockedInstantSendTransaction` | src/instantx.cpp:707-730 | true exactly when every outpoint of the candidate is locked to it |
| `InstantSendObject.CInstantSend.ProcessTxLockRequest` | src/instantx.cpp:73-124 | refused exactly when it is not valid or an input is locked; otherwise a candidate, voted for and finalized |
| `CompactBlocks.BaseFree` | src/blockencodings.cpp:56-78 | prefilling an accepted message leaves exactly one empty slot for each short id |
| `CompactBlocks.BindSize` | src/blockencodings.cpp:84-107 | the number of bound ids tells whether they are distinct |
| `CompactBlocks.BindSlots` | src/blockencodings.cpp:82-87 | the k-th short id is bound to the k-th empty slot |
| `CompactBlocks.NarrowCount` | src/blockencodings.cpp:82-87 | the binding kept in sixteen bits is the one that is meant if and only if there are at most 65536 slots |
| `CompactBlocks.TooManySlots` | src/blockencodings.cpp:82-87 | a message where it is not: 65537 different short ids |
| `CompactBlocks.SearchEnds` | src/blockencodings.cpp:83-86 | an accepted message prefills at most 65536 transactions, and the search for an empty slot can end if and only if it prefills fewer |
| `CompactBlocks.SearchDoesNotEnd` | src/blockencodings.cpp:83-86 | a message on which it does not end: one short id and 65536 prefilled transactions |
| `CompactBlocks.SearchInitialises` | src/blockencodings.cpp:109-137 | a slot holds the pool transaction of its id exactly when one transaction matches |
| `CompactBlocks.Rebuilds` | src/blockencodings.cpp:20-161 | a block sent this way is put together again from exactly the transactions whose slots are empty |
| `PartiallyDownloadedBlock.PartialBlock.TakePrefilled` | src/blockencodings.cpp:60-78 | accepts exactly the messages whose prefilled positions increase in range, and fills those slots |
| `PartiallyDownloadedBlock.PartialBlock.SkipTaken` | src/blockencodings.cpp:85-86 | the search stops at the next empty slot, or comes back to where it began |
| `PartiallyDownloadedBlock.PartialBlock.BindIds` | src/blockencodings.cpp:83-107 | binds the ids in order without running off the slots; fails exactly on a repeated id or an uneven spread; does not end exactly when all slots of sixteen-bit number are taken |
| `PartiallyDownloadedBlock.PartialBlock.InitData` | src/blockencodings.cpp:50-137 | for every message: exactly when it is invalid, fails or does not end, and what the slots hold after it was accepted |
| `PartiallyDownloadedBlock.PartialBlock.FillBlock` | src/blockencodings.cpp:145-176 | fills the slots in order, needs exactly as many transactions as there are empty ones, and says which status a failed block check gives |
| `DifferentialIndexes.RoundTrip` | src/blockencodings.h:36-68 | every increasing list of indexes is read back |
| `DifferentialIndexes.EncodeDecode` | src/blockencodings.h:36-68 | nothing but its encoding is read as an increasing list |
| `DifferentialIndexes.DecodedIncreasing` | src/blockencodings.h:56-62 | a list is read and increasing if and only if the differences and gaps add up to a 16-bit index |
| `DifferentialIndexes.WrapsAround` | src/blockencodings.h:56-62 | the offset wraps around, so a list that is not increasing can be read |
| `DifferentialIndexes.WriteIndexes` | src/blockencodings.h:63-68 | the loop writes the differences |
| `DifferentialIndexes.ReadIndexes` | src/blockencodings.h:42-62 | the loops read what the decoder does, or fail |
| `MixingSession.MaskMeaning` | src/darksend.cpp:2184-2214 | the denomination mask is zero exactly for no outputs and for an amount that is no denomination |
| `MixingSession.RunKeeps` | src/darksend.cpp:461-1058 | in every run of messages and timeouts: never the error or success state, idle exactly without a session and with all data empty, entries only with a full set of collaterals, no shared input, one non-zero mask for all, and in signing the merged transaction is a sorted permutation of all entries' inputs and outputs |
| `MixingSession.SubmitMatches` | src/darksend.cpp:2030-2040 | taking an entry keeps all masks equal to the session's if and only if a first entry pays what the session was started for |
| `MixingSession.RunMatches` | src/darksend.cpp:2030-2040 | throughout a run all entries pay what their session was started for if and only if every first entry does |
| `MixingSession.FirstDecides` | src/darksend.cpp:2030-2040 | at any point of a run the first entry decides for all |
| `MixingSession.SessionDenomNotCompared` | src/darksend.cpp:2030-2040 | with any number of participants an entry of another denomination can be taken first |
| `MixingSession.AddScriptSigAgrees` | src/darksend.cpp:1010-1048 | a signature keeps the merged inputs in agreement with the signed entries if and only if its script is there already or its input is not signed yet |
| `MixingSession.Overwritten` | src/darksend.cpp:1028-1048 | a second signature of an input is refused by the entries after it has replaced the one in the merged transaction |
| `MixingSession.SecondSignature` | src/darksend.cpp:1010-1048 | a run in which that happens |
| `MixingSession.MergedAgrees` | src/darksend.cpp:596-622 | merging unsigned entries starts in agreement |
| `MixingPool.CDarksendPool.SetNull` | src/darksend.cpp:461-478 | an empty session |
| `MixingPool.CDarksendPool.CheckPool` | src/darksend.cpp:569-594 | merges full entries, or ends a session that is signed |
| `MixingPool.CDarksendPool.CreateFinalTransaction` | src/darksend.cpp:596-622 | the merged inputs and outputs, sorted |
| `MixingPool.CDarksendPool.CheckTimeout` | src/darksend.cpp:789-839 | takes the timeout step |
| `MixingPool.CDarksendPool.CheckForCompleteQueue` | src/darksend.cpp:842-853 | takes the step to accepting entries |
| `MixingPool.CDarksendPool.AddEntry` | src/darksend.cpp:961-1008 | adds exactly an entry with collateral, room, no null input and no input that is there |
| `MixingPool.CDarksendPool.AddScriptSig` | src/darksend.cpp:1010-1048 | signs the first matching input of the first entry that takes it, and the merged transaction |
| `MixingPool.CDarksendPool.IsSignaturesComplete` | src/darksend.cpp:1051-1063 | true exactly when all inputs of all entries are signed |
| `MixingPool.CDarksendPool.IsOutputsCompatibleWithSessionDenom` | src/darksend.cpp:2030-2040 | true exactly for a non-zero mask that is the mask of every entry |
| `MixingPool.CDarksendPool.CreateNewSession` | src/darksend.cpp:2063-2099 | starts a session exactly from the idle state with acceptable denominations and collateral |
| `MixingPool.CDarksendPool.AddUserToExistingSession` | src/darksend.cpp:2101-2132 | joins exactly a queue with room for the same denominations |
| `MixingPool.CDarksendPool.GetDenominations` | src/darksend.cpp:2184-2214 | the loops compute the mask |
| `MixingPool.CDarksendPool.GetDenominationsBits` | src/darksend.cpp:2219-2236 | the set bits of a legitimate mask |
| `MixingPool.CDarksendPool.ProcessVin` | src/darksend.cpp:166-276 | takes the submitting step and stays valid |
| `MixingPool.CDarksendPool.ProcessSignFinal` | src/darksend.cpp:327-358 | takes the signing step and stays valid |
| `MixingPool.CDarksendPool.ProcessAccept` | src/darksend.cpp:37-90 | takes the joining step and stays valid; the first user is refused while the last queue is too recent |
| `MixingPool.CDarksendPool.SetState` | src/darksend.cpp:2472-2480 | a noirnode does not go to the error and success states |

## Left out

- Select and GetChance of the address manager: floating-point chances and a loop that ends only with probability one.
- Clear of the address manager on a manager in use: it does not empty the entries and the address index, so the stored
  form is read into a manager as constructed.
- The byte layout of the address file: the stored form is a value, and one that ends early is refused as a whole.
- Key renewal and `AddrCheck.Check` in the middle of an operation: the check is made between operations.
- CoinsCache.CoinsViewCache.ModifyCoins: one modification at a time and no reading back of a cache that another cache
  is changing; the program asserts as much.
- The database below the caches and its failures: it is a map, and writing to it succeeds.
- CoinsCodec.ReadTailBack and the other readers of records: read numbers without reducing them to their widths, which
  only streams that no writer of records produces would reach.
- ScriptCompressor.ReadScriptBack: assumes that a public key that is a point is restored from its compressed form; the
  curve arithmetic is not modelled.
- CoinsCodec.RoundTrip: is about outputs that are null or pay an amount of money, which is what transactions have.
- Interruption of the check queue's threads, and `fQuit`, which is never set.
- The numbers of bits and hash functions of a rolling Bloom filter, and its rate of false positives: floating point.
- The ordinary Bloom filter: it would only add easy members.
- InstantSend between expiries only: removing expired candidates and votes, and what conflict resolution does to the
  memory pool and the chain.
- InstantSendObject.CInstantSend.ProcessTxLockVote: a vote without a candidate is put aside; the bookkeeping of such
  votes and the limit on their rate are not modelled, and processing the request again is a request of its own.
- PartiallyDownloadedBlock.PartialBlock.InitData: for more than 65536 slots only the outcome is promised, not what the
  slots hold.
- The check for uneven hash buckets in compact blocks is an outside answer, and short ids are a function.
- The client's side of mixing, fees, relaying, and the choice of inputs and outputs from the wallet.
- MixingPool.CDarksendPool.ProcessVin: the checks of inputs, fees and scripts of an entry are one outside answer.
- Conversion of 256-bit numbers to text and floating point, and `GetBlockProofEquivalentTime`.
- Base58 addresses with version bytes: they would only add easy members.
- Networking, wallet, RPC, consensus rules, mining and the database.
