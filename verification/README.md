# A model of diskhash

diskhash is an extendible hash table that lives in two memory-mapped files: a *catalogue*, the directory
that maps the leading bits of a hash to a bucket id, and a *container*, a list of fixed-size buckets holding
packed records, with overflow chains and a free list. On top of it sit an iterator, a typed wrapper, a
sharded map with one reader/writer lock per shard, and an HTTP server that carries keys as base64url. This
project models those parts and proves what they are for.

The layers, from the bytes up:

| file | what it models |
|---|---|
| `Bits.dfy`, `Bytes.dfy`, `Prefixes.dfy` | masks, shifts and byte copies; the leading bits of a hash |
| `Vbe.dfy`, `Records.dfy`, `Packing.dfy` | the length codec, packed records, scanning and rewriting one bucket |
| `Buckets.dfy`, `Contents.dfy`, `Store.dfy` | linked bucket ids as chains and a free list; the records of a chain |
| `Tightness.dfy`, `Splitting.dfy`, `Container.dfy` | chains without slack; the in-place split of a chain, step by step; the container class |
| `Catalogue.dfy`, `Directory.dfy`, `HashMap.dfy` | the directory class, the extendible-hashing invariant, the map class |
| `Iteration.dfy`, `Runs.dfy`, `Reachable.dfy` | the iterator, whole runs, what holds in every reachable state |
| `WrappedHashMap.dfy` | values handed out as references and overwritten in place |
| `Shards.dfy`, `ShardedMap.dfy` | one shard over a hash map; threads, locks and interleavings |
| `Base64Url.dfy`, `Query.dfy` | how a key travels in a request |

The main results:

- **The map is a finite map.** `Runs.Run`: in every sequence of get, find and remove on a fresh map, with
  whatever bucket splits and directory doublings they cause, all answers and the contents are those of a
  finite map from (hash, key) to value, up to the first get that would insert a record larger than a bucket,
  or would have to double a directory that already has 2^32 entries.
- **get returns if and only if the key is there or the new record fits a bucket.** `HashMapModule.HashMap.Get`
  is one half; `ContainerModule.Container.WalkFor` and `HashMapModule.HashMap.GetFor` are the other: with a
  larger record the walk for room is still running after n steps, for every n, and has grown its chain
  beyond n buckets.
- **Splitting a chain in place is a stable partition.** `ContainerModule.Container.Split`: the kept half is
  written over the buckets still being read. `Splitting.Move`, `Splitting.Grow` and `Splitting.Advance` show
  that no writer passes the reader, that the branch allocating a bucket for the kept half is dead code, and
  that neither chain ends up longer than the original. Neither has slack: a bucket is used only when the
  record did not fit behind the one before, and what the kept half does not need is on the free list.
- **Inserting is first fit, and splits exactly when it should.** `ContainerModule.Container.CreateRecord`:
  the record goes into the first bucket of the chain with room, and a bucket is added only if none has.
  `HashMapModule.HashMap.MakeRoom` says, in terms of the chain and its records, exactly when the directory
  doubles, when the chain is split, and that otherwise nothing changes.
- **The answers mean what they should**, told without the finite map: `Runs.AnswerLaw` over the list of
  operations and `ShardedMap.ReturnLaw` over the calls and effects of a concurrent run say that get gives
  the value last stored and not removed since.
- **Buckets are conserved.** `Reachable.Conservation`: in every reachable state each bucket is on exactly one
  chain or on the free list.
- **Iteration meets every record exactly once** (`IterationModule.Collect`), because the directory entries
  of a chain form one aligned block (`IterationModule.AlignedBlock`).
- **The sharded map is linearizable** in every interleaving (`ShardedMap.Linearizable`), and `keys()`, which
  locks one shard at a time, never repeats or invents a key nor loses one that stays
  (`ShardedMap.KeysResult`). It cannot deadlock (`ShardedMap.NoDeadlock`) unless a set of a record larger than
  a bucket blocks its shard, which is then for ever (`ShardedMap.StuckForever`).
- **Keys survive transport** although the codec's accumulator overflows (`Query.Transport`).

Two conventions. A class whose fields the source updates in place is a class here, with a ghost field for
its abstract value (`model` of the map; `shape` and `recs` of the container) that every method keeps up to
date. And some invariants are written `forall k :: UnfoldX(k) ==> ...` with a trivially true `UnfoldX`: a
proof that only passes the invariant on never looks inside, one that needs it says `assert UnfoldX(0)`.

Where the code differs from what one might expect, the model follows the code:

- The length codec shifts an `int`, so a `size_t` comes back exactly if and only if it is below 2^31
  (`Vbe.RoundTrip`, `Vbe.NarrowExact`); 32-bit unsigned numbers always do. Record lengths are far smaller.
- Nothing between the server and the container limits the size of a value, and storing a record larger than a
  bucket never ends (`Records.FitsBySize` says which those are, `Runs.OversizedGet` gives one).
- A kept record is moved down with `std::copy` although source and destination may overlap or, at the start
  of a chain, coincide; the standard library excludes a destination inside the source range.
  `Packing.CopyForward` shows that copying byte by byte in ascending order is right here.
- The server rejects an empty key parameter, so the empty key cannot be transported; `Query.Transport`
  states that the parameter is empty exactly then.
- Percent-decoding reads the two characters with a stream extraction, which accepts a sign, white space or a
  single digit; `Query.ExtractHex` says what that gives.

## Model

| member | source | states |
|---|---|---|
| `Vbe.Write` | src/vbe.h:13-27 | writes exactly the unsigned LEB128 encoding at the pointer, nothing else, and returns its end |
| `Vbe.Read` | src/vbe.h:29-44 | stops behind the first byte without the mark and returns the number the bytes stand for, cut to 32 bits and sign-extended as the `int` shift does |
| `Vbe.NarrowExact` | src/vbe.h:37-41 | the shift in `int` is harmless for all 32-bit unsigned values, and for `size_t` below 2^31; it corrupts every larger `size_t` of up to five groups |
| `Vbe.EncodeRun` | src/vbe.h:18-24 | encoded numbers are self-delimiting whatever bytes follow, and stand for themselves |
| `Vbe.EncodeByte` | src/vbe.h:18-24 | byte i holds bits 7i to 7i + 6 of the number, and the mark unless it is the last |
| `Vbe.EncodeLength` | src/vbe.h:18-24 | n bytes suffice exactly for the values below 2^(7n) |
| `Vbe.LengthIsWritten` | src/vbe.h:46-53 | the bit-width formula is the number of bytes written, for every value |
| `Vbe.RoundTrip` | src/vbe.h:13-53 | reading what was written ends at the same place, `length` bytes on, and gives the value back if and only if it is unsigned 32-bit or below 2^31 |
| `Records.WriteRecord` | src/container.cpp:80-92 | writes hash, lengths, key and value as one encoded record; the cursor ends where the value begins |
| `Records.ReadHeader` | src/container.cpp:111-113 | from the bytes of any stored record: its hash, both lengths, and where key and value lie |
| `Records.Measure` | src/container.cpp:212-221 | the length computed from the two cursors is the encoded size, as the source asserts |
| `Records.EncodeSize` | src/container.cpp:59-60 | the space computed beforehand is the size of the encoding |
| `Records.FitsBySize` | src/container.cpp:59-62 | which records fit an empty bucket: all with at most 4064 bytes of key and value, none with more than 4066 |
| `Records.RecordPrefixFree` | src/container.cpp:80-88 | records are self-delimiting: equal bytes begin with equal records |
| `Records.EncodeAllInjective` | src/container.cpp:104-124 | the bytes of a bucket determine its list of records |
| `Records.RecordAt` | src/container.cpp:104-124 | stepping over a record lands exactly on the next one |
| `Packing.HeldEnd` | src/container.cpp:106-124 | a scan meets `bytes_used` exactly at the end of the records, so the `!=` loops terminate |
| `Packing.Scan` | src/container.cpp:104-124 | finds the first record of a bucket with this hash and key, and where its value lies, or that there is none |
| `Packing.AppendHolds` | src/container.cpp:83-90 | writing behind the used bytes appends the record to the bucket's list |
| `Packing.CopyForward` | src/container.cpp:283 | copying byte by byte in ascending order, also within one bucket onto an overlapping or equal stretch that is not past the source, gives what the source held before |
| `Packing.RemoveHolds` | src/container.cpp:164-167 | the left shift leaves bytes that parse to the list without that record |
| `Packing.OverwriteHolds` | src/wrapped_hash_map.h:35-40 | a value of the same size written in place changes that record's value and no other byte's meaning |
| `Buckets.ExtendShaped` | src/container.cpp:27-38 | a bucket past the end of the file becomes a chain of its own; chains and free list still partition the ids and match the links |
| `Buckets.PopShaped` | src/container.cpp:39-48 | so does one taken off the free list |
| `Buckets.JoinShaped` | src/container.cpp:66-68 | hanging a new bucket onto the end of a chain keeps the partition and the links |
| `Buckets.CutShaped` | src/container.cpp:291-306 | so does cutting a chain and pushing the rest onto the free list |
| `ContainerModule.Container.constructor` | src/container.cpp:6-20 | a fresh file has no buckets and an empty free list |
| `ContainerModule.Container.CreateBucket` | src/container.cpp:23-51 | the new chain is one empty bucket with the given prefix length, off the top of the free list or, when that is empty, past the end of the file; all other chains, buckets and records stay; the mapping is extended, by a tenth more than needed, only when the bucket does not fit it |
| `ContainerModule.Container.ExtendChain` | src/container.cpp:66-71 | one more empty bucket at the end of a chain, nothing else changes |
| `ContainerModule.Container.FindRecord` | src/container.cpp:96-136 | a view of the first record with this key on the whole chain, or none if there is none |
| `ContainerModule.Container.ReadView` | src/container.cpp:117 | the returned view denotes exactly the bytes of the stored value |
| `ContainerModule.Container.WalkStep` | src/container.cpp:64-77 | one step of the walk: the next bucket of the chain, added if there is none, and nothing else changes |
| `ContainerModule.Container.FirstFit` | src/container.cpp:62-78 | for a record that fits an empty bucket the walk ends at the first bucket of the chain with room, every bucket before it having none; it adds a bucket if and only if no bucket has room, and otherwise changes nothing |
| `ContainerModule.Container.WalkFor` | src/container.cpp:62-78 | the walk for a record of any size: once there have been as many steps as the chain had buckets it is still running if and only if the record is larger than a bucket, and then it runs and grows the chain for ever |
| `ContainerModule.Container.CreateRecord` | src/container.cpp:54-93 | for a record that fits: first fit as above; exactly that record is added, at the end of that bucket, and the stored value's bytes are returned |
| `ContainerModule.Container.RemoveRecord` | src/container.cpp:139-181 | removes exactly the record with this key from its bucket, if there is one, and says whether; no other bucket changes |
| `ContainerModule.Container.Overwrite` | src/wrapped_hash_map.h:35-40 | writing through a view replaces one value on one chain, which the view then shows, and touches no other bucket |
| `ContainerModule.Container.ReadRecord` | src/container.cpp:312-335 | the record at an offset and the offset of the next, or that the bucket ends there |
| `ContainerModule.Container.SplitWhenLong` | src/container.h:87-95 | a chain is to be split exactly if it has three buckets or more, or two whose encoded records exceed one and a half buckets |
| `Splitting.Begin` | src/container.cpp:186-199 | raising the prefix length and creating the new head establishes the split invariant |
| `Splitting.Enter` | src/container.cpp:204-208 | entering a bucket empties it but keeps its bytes unread; neither writer is past the reader |
| `Splitting.Move` | src/container.cpp:283-286 | copying the next record to where it belongs keeps the invariant, even onto the bucket being read: the writer is not past the reader, so no unread byte changes |
| `Splitting.Grow` | src/container.cpp:225-244 | when the new chain needs a bucket it is still shorter than what has been read |
| `Splitting.PackedGrow` | src/container.cpp:225-244 | and so does that of moved ones |
| `Splitting.Advance` | src/container.cpp:253-281 | when the kept half needs a bucket, the next one of the chain exists, has been read and is empty, so lines 262-277 are never reached |
| `Splitting.PackedAdvance` | src/container.cpp:253-281 | the writer of kept records leaves a bucket only for a record that does not fit behind its records |
| `Splitting.DividedEnd` | src/container.cpp:201-289 | at the end the two chains hold the records without and with the new bit, each in the original order |
| `Splitting.EndingIsSplit` | src/container.cpp:291-306 | freeing the tail frees only empty buckets and leaves the store sound, every chain uniform in its prefix length, other chains untouched |
| `Splitting.EndingNoSlack` | src/container.cpp:291-306 | after the cut both chains are without slack: every bucket but the first has a record that did not fit behind the one before |
| `Splitting.EndingRecycled` | src/container.cpp:291-306 | the new chain has used the free list before growing the file, and the buckets behind the kept ones are on it, in the order they were pushed |
| `Splitting.NotPast` | src/container.cpp:283-286 | a writer in the bucket being read stands at or before the reader |
| `ContainerModule.Container.RoomInKept` | src/container.cpp:253-281 | finds room for a kept record without allocating |
| `ContainerModule.Container.RoomInNew` | src/container.cpp:225-244 | finds room for a moved record, recomputing both put pointers |
| `ContainerModule.Container.MoveRecord` | src/container.cpp:212-287 | one record read, measured and moved keeps the split on track |
| `ContainerModule.Container.MoveBucket` | src/container.cpp:210-288 | the inner loop moves all records of a bucket and stops exactly at its old end |
| `ContainerModule.Container.MoveChain` | src/container.cpp:201-289 | the outer loop reads every bucket of the chain and leaves no slack on either chain |
| `ContainerModule.Container.FreeTail` | src/container.cpp:291-306 | every bucket behind the writer goes onto the free list, in order, and no other link changes |
| `ContainerModule.Container.Split` | src/container.cpp:184-309 | `IsSplit`: the kept chain is the original filtered to a clear bit, the new one that filtered to a set bit, both stable and without slack; the kept chain is a prefix of the original's buckets and the rest are on the free list; the new one is no longer than the original and uses free buckets before the file grows; both carry the new prefix length; other chains unchanged |
| `CatalogueModule.Catalogue.constructor` | src/catalogue.cpp:3-28 | a directory of 2^prefix_bits entries, all invalid, with a matching mask and shift |
| `CatalogueModule.Catalogue.Slot` | src/catalogue.h:23-31 | mask and shift give the leading bits of the hash, an index in bounds |
| `CatalogueModule.Catalogue.Set` | src/catalogue.cpp:30-41 | stays in bounds and changes what `find` gives exactly for the hashes sharing the leading `offset` bits, all of them when `offset` is 0 |
| `CatalogueModule.Spread` | src/catalogue.cpp:55-62 | back to front, no entry is overwritten before it is read: new[i] == old[i/2] |
| `CatalogueModule.Catalogue.Split` | src/catalogue.cpp:43-63 | doubles the directory, keeps mask and shift consistent, and `find` gives the same for every 32-bit hash |
| `Directory.InsertRepresents` | src/hash_map.h:61 | a new record on its chain stands for the map with that key added |
| `Directory.RemoveRepresents` | src/hash_map.h:69-72 | a record taken off its chain stands for the map without its key |
| `Directory.ReplaceRepresents` | src/wrapped_hash_map.h:35-40 | a value replaced on its chain stands for the map with that value |
| `Directory.DeeperRepresents` | src/hash_map.h:35-39 | doubling the directory changes neither the invariant nor the map |
| `Directory.SplitRepresents` | src/hash_map.h:41-58 | splitting a chain and redirecting the half with the new bit keeps the extendible-hashing invariant and the map |
| `HashMapModule.HashMap.constructor` | src/hash_map.h:13-22 | a fresh map is valid and empty, with two buckets |
| `HashMapModule.HashMap.Find` | src/hash_map.h:64-67 | finds a key exactly when the finite map has it, at the stored value |
| `HashMapModule.HashMap.Remove` | src/hash_map.h:69-72 | deletes exactly that key, from one bucket, and says whether it was there |
| `HashMapModule.HashMap.Get` | src/hash_map.h:24-62 | inserts the default only when the key is absent, and otherwise gives the old value and changes nothing; says when inserting doubles the directory and raises the depth of the chain; every invariant survives |
| `HashMapModule.HashMap.Insert` | src/hash_map.h:61 | the record is put on the chain its hash is routed to by first fit; no depth changes |
| `HashMapModule.HashMap.GetFor` | src/hash_map.h:24-62 | getting a missing key whose record is larger than a bucket: after n steps of the walk it has not returned, for every n, and the map is as it was |
| `HashMapModule.HashMap.MakeRoom` | src/hash_map.h:33-59 | the directory doubles if and only if the chain is long, as deep as the directory, and there are more buckets than entries; the chain is split if and only if it is long and less deep than the directory then is; otherwise nothing changes; the map stays, and the target is what `find` gives afterwards (the final assertion) |
| `HashMapModule.HashMap.DoubleDirectory` | src/hash_map.h:35-39 | the doubled directory routes every hash as before, and still has fewer than twice as many entries as buckets |
| `HashMapModule.HashMap.SplitChain` | src/hash_map.h:41-58 | after split and redirection the map is unchanged and `find(hash)` is the chosen chain |
| `HashMapModule.MarkBit` | src/hash_map.h:48-52 | setting the new bit gives the prefix of the new half; testing it tells the halves apart |
| `HashMapModule.NotYetFullDepth` | src/hash_map.h:35-36 | a directory that is doubled has not reached 32 bits, unless it has 2^32 entries and there are more buckets |
| `HashMapModule.HashMap.Overwrite` | src/wrapped_hash_map.h:35-40 | a same-size overwrite through a view changes that key's value alone and keeps every invariant |
| `IterationModule.AlignedBlock` | src/hash_map.h:33-59 | in every valid state a chain of local depth d is named by exactly one aligned block of 2^(D-d) entries, 1 <= d <= D |
| `IterationModule.EntriesContiguous` | src/hash_map.h:164-170 | equal directory entries lie next to each other, so skipping equal neighbours skips all repetitions |
| `IterationModule.WalkExactlyOnce` | src/hash_map.h:184-192 | walking the directory meets every stored record once and nothing else |
| `IterationModule.ConstIterator.Begin` | src/hash_map.h:89-101 | stands on the first record, or at the end, with the whole walk ahead |
| `IterationModule.ConstIterator.Deref` | src/hash_map.h:103-109 | gives the first of the records still to come |
| `IterationModule.ConstIterator.Next` | src/hash_map.h:111-119 | drops exactly that record |
| `IterationModule.ConstIterator.FindNextRecord` | src/hash_map.h:144-181 | terminates, past empty buckets, chain ends and repeated entries, without losing a record |
| `IterationModule.SkipRepeats` | src/hash_map.h:164-170 | goes to the next entry that differs from its predecessor |
| `IterationModule.Collect` | src/hash_map.h:83-192 | begin to end over an unmodified map yields every stored record exactly once |
| `Runs.Execute` | src/hash_map.h:24-72 | one operation answers and acts like the finite map |
| `Runs.FindValue` | src/hash_map.h:64-67 | the bytes seen through the view of `find` are the map's value |
| `Runs.GetValue` | src/hash_map.h:24-62 | so are those of `get` |
| `Runs.RunSnoc` | src/hash_map.h:24-72 | replies and final map of a longer run extend those of the shorter |
| `Runs.OriginLaw` | src/hash_map.h:24-72 | a key is there exactly if it has been got since it was last removed, with the value of the first such get |
| `Runs.AnswerLaw` | src/hash_map.h:24-72 | so find gives that value or nothing, get that value or its own default, and remove says whether there is one |
| `Runs.Run` | src/hash_map.h:24-72 | every run from a fresh map, of any operations, answers like a finite map and has its contents, up to the first insertion that does not fit a bucket or needs more than 32 directory bits |
| `Runs.OversizedGet` | src/hash_map.h:61 | an input on which get does not return: a missing empty key with a value of 4067 bytes |
| `Reachable.Conservation` | src/container.cpp:23-51 | every bucket is on exactly one chain or the free list; lists are acyclic, disjoint and end at INVALID; free buckets are empty |
| `Reachable.HeadIsEntry` | src/hash_map.h:41-58 | every chain is reachable from the directory |
| `Reachable.ChainDepth` | src/container.cpp:279 | every bucket of a chain, with records or without, carries its head's prefix length, which is between 1 and the directory's |
| `Reachable.ChainPrefix` | src/hash_map.h:41-58 | every record on a chain has the prefix the chain answers for |
| `Reachable.SpaceBounds` | src/container.cpp:27-38 | fewer than twice as many directory entries as buckets, all buckets inside the mapping, and at most a tenth of it in reserve |
| `WrappedHashMapModule.WrappedHashMap.constructor` | src/wrapped_hash_map.h:29-33 | a fresh wrapper is empty |
| `WrappedHashMapModule.WrappedHashMap.Index` | src/wrapped_hash_map.h:35-40 | a reference to the key's value, which is inserted only if missing, and then is all zeros |
| `WrappedHashMapModule.WrappedHashMap.Value` | src/wrapped_hash_map.h:35-40 | reading through the reference gives the value of the key, zeros for a missing one |
| `WrappedHashMapModule.WrappedHashMap.Assign` | src/wrapped_hash_map.h:35-40 | assignment through the reference sets exactly that key |
| `WrappedHashMapModule.WrappedHashMap.WriteThrough` | src/wrapped_hash_map.h:39 | writing the reference's bytes changes that key alone |
| `WrappedHashMapModule.WrappedHashMap.Remove` | src/wrapped_hash_map.h:42-46 | removes exactly that key and says whether it was there |
| `Shards.Shard.constructor` | src/server/sharded_hash_map.h:83-88 | a fresh shard is empty |
| `Shards.Shard.Get` | src/server/sharded_hash_map.h:30-35 | what the hash map under a shard finds is the answer of the finite map that the shard is in the system |
| `Shards.Shard.Set` | src/server/sharded_hash_map.h:42-50 | looking the key up and inserting it if missing answers and acts like the finite map, for a record that fits; after a success the hash map holds the given value under the key's hash and the key |
| `Shards.Shard.SetFor` | src/server/sharded_hash_map.h:42-50 | with a larger one set has not returned after n steps, for every n, and the shard is as it was |
| `Shards.Shard.Remove` | src/server/sharded_hash_map.h:57-58 | so does removing |
| `Shards.Shard.Keys` | src/server/sharded_hash_map.h:66-69 | iterating over a shard lists every key of the finite map once |
| `ShardedMap.StepInv` | src/server/sharded_hash_map.h:26-73 | every step of every thread keeps: locks agree with holders, writers exclude, shards together are the sequential map |
| `ShardedMap.RunInv` | src/server/sharded_hash_map.h:26-73 | so every state of every run satisfies it |
| `ShardedMap.Linearizable` | src/server/sharded_hash_map.h:26-59 | in every interleaving each operation takes effect at most once, after its call and before its return, returns at most once, to its caller, with the answer one sequential map gives in that order, and the order respects real time |
| `ShardedMap.AnswerLaw` | src/server/sharded_hash_map.h:26-59 | in a legal history get gives the value of the last successful set of its key that no successful remove followed, or nothing; set succeeds exactly if there is no such set, remove exactly if there is one |
| `ShardedMap.ReturnLaw` | src/server/sharded_hash_map.h:26-59 | so does every operation that returns in any run |
| `ShardedMap.LockRule` | src/server/sharded_hash_map.h:26-59 | in every run a get can take its lock unless a thread holds it alone, a set or remove unless any thread holds it |
| `ShardedMap.SameShard` | src/server/sharded_hash_map.h:93-99 | two keys share a shard exactly when the number of shards divides the difference of their hashes |
| `ShardedMap.Progress` | src/server/sharded_hash_map.h:26-73 | in every reachable state a thread in the middle of an operation can move, or is stuck storing an oversized record, or waits for a holder of its lock that can move or is stuck |
| `ShardedMap.NoDeadlock` | src/server/sharded_hash_map.h:26-73 | so as long as no thread is stuck, some thread in the middle of an operation can move |
| `ShardedMap.Solo` | src/server/sharded_hash_map.h:26-59 | from every reachable state an idle thread whose lock is free can run any operation to its end, with the sequential map's answer |
| `ShardedMap.StuckForever` | src/server/sharded_hash_map.h:38-51 | a thread stuck storing an oversized record stays so for the rest of the run, and no thread gets its shard's lock again |
| `ShardedMap.Balance` | src/server/sharded_hash_map.h:38-59 | for each key, successful sets minus successful removes is 1 while it is present and 0 otherwise |
| `ShardedMap.BalanceInRuns` | src/server/sharded_hash_map.h:38-59 | and presence is presence in the key's own shard, in every state of every run |
| `ShardedMap.CollectInv` | src/server/sharded_hash_map.h:61-73 | what a running `keys()` has collected so far, whatever other threads do |
| `ShardedMap.KeysResult` | src/server/sharded_hash_map.h:61-73 | what keys() returns has no duplicate, has every key present throughout the call, and only keys present at some moment of it |
| `Base64Url.MakeDecodeTable` | src/server/http_server.cpp:288-300 | the table is the inverse of the alphabet and -1 elsewhere |
| `Base64Url.AlphabetAt` | src/server/http_server.cpp:288-289 | character v of the 64 written out stands for v |
| `Base64Url.DigitOfAlphabet` | src/server/http_server.cpp:291-300 | a character has the value v exactly if it is that one |
| `Base64Url.Push` | src/server/http_server.cpp:334 | shifting bits into the wrapped accumulator keeps the pending ones exact |
| `Base64Url.SarLow` | src/server/http_server.cpp:339 | the arithmetic shift of a possibly negative accumulator gives the right low bits |
| `Base64Url.AddByte` | src/server/http_server.cpp:333-341 | one byte more, and every digit that is complete, written out |
| `Base64Url.Encode` | src/server/http_server.cpp:326-351 | digit k is the six bits of its three-byte group that section 5 of RFC 4648 asks for, without padding |
| `Base64Url.AddDigit` | src/server/http_server.cpp:314-320 | one digit more, and a byte when it is complete |
| `Base64Url.Decode` | src/server/http_server.cpp:302-324 | the bytes that the digits before the first padding character make up, other characters skipped |
| `Base64Url.DigitsSkip` | src/server/http_server.cpp:312 | a character outside the alphabet, other than padding, makes no difference wherever it stands |
| `Base64Url.RoundTrip` | src/server/http_server.cpp:302-351 | decoding an encoding gives the bytes back, also when padding and anything behind it follow |
| `Query.UrlDecode` | src/server/http_server.cpp:263-285 | percent-decoding with every branch: escape, failed escape, plus, short tail |
| `Query.UrlPlain` | src/server/http_server.cpp:274-281 | strings without plus signs and without anything like an escape pass unchanged, also with a percent sign near the end |
| `Query.PercentRoundTrip` | src/server/http_server.cpp:268-281 | any bytes come back, however each is written: as it is, as an escape with digits of either case, or a space as a plus sign |
| `Query.OddEscapes` | src/server/http_server.cpp:270-276 | a single digit counts, also behind white space or a sign; a zero before an x, or a first character that is none of these, does not |
| `Query.ExtractQueryParam` | src/server/http_server.cpp:353-380 | the value of the first piece that begins with the name and an equals sign, or nothing |
| `Query.FirstValueAfter` | src/server/http_server.cpp:371-373 | of several values of a parameter the first counts |
| `Query.NoValue` | src/server/http_server.cpp:379 | a parameter that does not occur has no value |
| `Query.EveryTarget` | src/server/http_server.cpp:353-380 | every request target has the form that ExtractQueryParam is specified for |
| `Query.EncodedIsPlain` | src/server/http_server.cpp:326-351 | an encoded key has no character that means something in a query |
| `Query.Transport` | src/server/http_server.cpp:263-380 | a key encoded by the client, wherever it stands among other parameters, comes out as the same key; the parameter is empty exactly for the empty key |

## Left out

- Files, the operating system and errors: `file_map`, signatures, read-only opening and reopening a file are not modelled; every map starts fresh, and a mapping is a list or array that keeps its contents when it grows.
- Pointers: buckets are values in a list field of the container and pointers are indices and offsets, so aliasing of pointers and their recomputation after a resize are not captured. The put pointers of a split are offsets.
- Bucket ids: INVALID is -1 here and `size_t(-1)` in the source; 64-bit overflow of counts and sizes is not modelled.
- Byte order: the four hash bytes are little-endian, one fixed invertible encoding.
- ContainerModule.Container.CreateRecord: a method that returns, so it requires that the record fits an empty bucket, as do FirstFit and HashMapModule.HashMap.Get; the calls that do not return are ContainerModule.Container.WalkFor and HashMapModule.HashMap.GetFor.
- HashMapModule.HashMap.Get: when it inserts, a directory that has all 2^32 entries must not have more buckets than entries, because the source would double it beyond the bits of the hash, a shift it leaves undefined.
- CatalogueModule.Catalogue.constructor: depth 32 at construction is excluded, because the source's 32-bit shift is undefined there; the map always starts with 1.
- Vbe.RoundTrip: for `size_t` it covers values of at most five groups; beyond, the source shifts an `int` by more than its width.
- Iteration while the map is modified: the repository promises nothing for it.
- The shards in the system of threads are finite maps; `Shards.Shard` shows that a hash map acts like one. There the size of a record limits a set, but the number of buckets does not. `keys()` lists the keys of a locked shard one step at a time in any order, as `Shards.Shard.Keys` justifies.
- The hash function fnv1a is an arbitrary function of the key.
- `container::get`, `close`, `bytes_allocated`, iterator equality: one-line combinations of modelled operations.
- HTTP sessions, request routing, threads, signals, the command line, the Python client and bindings: I/O plumbing.
