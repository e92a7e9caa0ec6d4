# Linear-hashing set, modelled in Dafny

`ADS_set<Key, N>` (ADS_set.h) is a set container built on linear hashing.
- **Directory and buckets.** A directory `table` holds `2^d + nts` live entries. Each entry is a chain made of a primary bucket with `N` slots plus overflow buckets linked behind it.
- **Addressing.** A key lives in the chain at `find_idx(key)`. That is `hash % 2^d`, or `hash % 2^(d+1)` once the entry with that d-bit index has been split.
- **Growth.** An insertion into a full bucket triggers `split`, which redistributes the chain at `nts` over entries `nts` and `2^d + nts`. When `nts` reaches `2^d`, a new round starts: `d` grows by one and `nts` restarts at 0.
- **Iterator.** The iterator walks entries, then buckets in link order, then slots.

The model has six modules.

- `Addressing` (addressing.dfy): `h`, `h1` and `find_idx` as functions. Lemmas state how the addresses change when `nts` advances and when a round completes.
- `Buckets` (buckets.dfy): the bucket as a value. It holds a sequence of `N` slots and the fill count `current`. `bucket::erase` and `bucket::find` are methods with loops.
- `Chains` (chains.dfy): a chain is a sequence of buckets in link order. This module holds the appends of `insert_`, `allocate_overflow` and `insert_overflow`. It also holds the chain walks of `find_` and `search_bucket`, and the lemmas the rehash loop needs.
- `Directory` (directory.dfy): the directory as a sequence of chains.
  - `DirInv` is the linear-hashing invariant. Every live chain is well formed and every key sits in the chain its address names.
  - `Stored` is the multiset of stored keys.
  - Lemmas show that inserting, erasing, splitting and completing a round keep the invariant and change the stored keys exactly as intended.
- `Iteration` (iterator.dfy): the iterator as a class with cursor fields `idx`, `b`, `i` and `p`.
  - `skip` is the nested loop `Scan`.
  - Each position has a rank: the number of keys the traversal passes before it. The iterator's contracts are stated over this rank and over `Elements`, the directory's keys in traversal order.
- `LinearHashing` (linear_hash_set.dfy): the container as a class.
  - The fields are `table` (an array of chains), `currSize` (`curr_size`), `tableSize` (`table_size`), `nts` and `d`. The bucket capacity `N` and the hash are constants.
  - `Contents()` is the multiset of stored keys.
  - `Valid()` holds the directory invariant, `nts < 2^d`, `curr_size == |Contents()|`, and `Roomy`. `Roomy` says `table_size` and the allocated length keep every array write of `split` in bounds.

The hash is a function `K -> nat` fixed when a set is constructed. Key equality is Dafny's `==`.

Behaviour of the code the model keeps:
- `insert_overflow` appends the key to the first overflow bucket when that bucket has a free slot. Otherwise it links a new bucket, holding only the key, directly behind the primary bucket.
- `insert_` splits in two cases. It splits before storing when the primary bucket is full and has no overflow bucket. It splits after storing when the bucket its `help` walk stopped at is full.
- `split` advances `nts` before the rehash, so the rehashed keys are addressed with the new `nts`.
- `bucket::erase` tests `i != current--`, which compares `i` with the count before the decrement. The compaction therefore runs for every hit.
- The iterator can yield a key more than once (see Findings).

The branch of `insert_` at ADS_set.h:367-371 is reached after a split when the key's primary bucket is full and already has an overflow bucket. In that branch nothing is stored, yet `curr_size` still grows. The model proves the branch unreachable.
- `insert_` splits first only when the key's chain is a single bucket.
- `Split` preserves `AloneAt(key)`, so the key's chain is still a single bucket afterwards.
- `StoreAlone` then either appends to the primary bucket or calls `allocate_overflow`.

The doubling of `table_size` by `rehash_round` while it allocates `2^(d+1) + 1` entries (ADS_set.h:459-461) is covered by `Roomy`. `Valid` includes `Roomy`, and every operation of the model except the as-written `SwapAsWritten` and `ClearAsWritten` keeps `Valid`, so no split ever writes outside the array. As written, `swap` can leave a set that is not `Roomy`, and a later split can then write past the array (Findings, row 3).

## Model

| member | source | states |
|---|---|---|
| Addressing.Pow2 | ADS_set.h:126 | 2^d, the source's `1<<d`, is at least 1 |
| Addressing.H | ADS_set.h:125-127 | the d-bit address of a hash is below 2^d |
| Addressing.H1 | ADS_set.h:129-131 | the (d+1)-bit address of a hash is below 2^(d+1) |
| Addressing.FindIdx | ADS_set.h:117-123 | with nts <= 2^d the address is below 2^d + nts; it is h, or h + 2^d when h < nts |
| Addressing.H1Cases | ADS_set.h:125-131 | h1 is either h or h + 2^d |
| Addressing.SplitReaddress | ADS_set.h:117-123 | advancing nts past o re-addresses only the keys with h == o, each to o or 2^d + o; every other key keeps its address |
| Addressing.RolloverReaddress | ADS_set.h:450-453 | the round change (d+1, nts 0) leaves every key's address unchanged, and the live count 2^(d+1) equals 2^d + 2^d |
| Buckets.Empty | ADS_set.h:37-38 | a new bucket is well formed and holds no key |
| Buckets.Append | ADS_set.h:337-339 | writing the key at slot current and incrementing current keeps the bucket well formed and appends exactly that key |
| Buckets.Single | ADS_set.h:409-412 | a new bucket that received one key is well formed and holds exactly that key |
| Buckets.KeysOfWellFormed | ADS_set.h:32-35 | in a well-formed bucket the keys are those of slots 0 .. current-1, in slot order |
| Buckets.SwapRemoveMultiset | ADS_set.h:50-54 | moving the last key into the hole removes exactly one occurrence of the erased key and shortens the sequence by one |
| Buckets.Erase | ADS_set.h:47-59 | an absent key gives 0 and an unchanged bucket; a present key gives 1, current one less and the last key moved into the hole; in both cases the keys lose exactly one occurrence of the key, if any, and the bucket stays well formed |
| Buckets.EraseKeys | ADS_set.h:50-54 | the compaction at the first slot holding the key keeps the bucket well formed and removes that key only |
| Buckets.FindSlot | ADS_set.h:61-74 | a slot is returned exactly when the key is in the bucket; it is a used slot holding the key, and no earlier slot holds it |
| Chains.ChainKeysMember | ADS_set.h:32-35 | a key is in a chain exactly when some bucket of the chain holds it |
| Chains.AppendPrimary | ADS_set.h:336-340 | appending to a primary bucket with room adds exactly the key to the chain, keeps it well formed and leaves the overflow buckets unchanged; the key goes after the primary bucket's keys |
| Chains.AttachOverflow | ADS_set.h:407-413 | allocate_overflow on a one-bucket chain links a bucket holding just the key and keeps the primary bucket |
| Chains.PushOverflow | ADS_set.h:416-431 | insert_overflow keeps the primary bucket; if the first overflow bucket has room, the key goes after that bucket's keys and every later bucket is unchanged; otherwise a new bucket holding only the key is linked behind the primary, followed by the old overflow buckets; either way the chain gains exactly the key |
| Chains.LinkBehindPrimary | ADS_set.h:424-429 | linking a one-key bucket behind the primary keeps the chain well formed, shifts the old overflow buckets one on and adds exactly the key |
| Chains.EraseInChain | ADS_set.h:228 | replacing a bucket by its erased version removes one occurrence of the key from the chain |
| Chains.SearchChain | ADS_set.h:556-562 | a bucket is returned exactly when the chain holds the key; it is the first bucket holding it, and it is not empty |
| Chains.ScanChain | ADS_set.h:534-544 | a position is returned exactly when the chain holds the key; it names a used slot holding the key, no earlier bucket in link order holds the key, and no earlier slot of its bucket does |
| Chains.DetachedBucket | ADS_set.h:475-482 | visiting one more bucket of the detached chain adds its keys, which are new and all belong to the chain |
| Directory.StoredLookup | ADS_set.h:527-545 | under the invariant a key is stored exactly when it is in the chain find_idx names |
| Directory.InsertIntoChain | ADS_set.h:326-376 | storing a new key in the chain its address names keeps the invariant and adds exactly that key |
| Directory.EraseFromChain | ADS_set.h:220-231 | removing a stored key from its chain keeps the invariant and removes exactly that key |
| Directory.SplitOpen | ADS_set.h:470-474 | with nts advanced, replacing entry o by an empty chain and adding an empty entry 2^d + o keeps the invariant; the detached keys are exactly the ones gone, and each is addressed to o or 2^d + o |
| Directory.Rollover | ADS_set.h:450-467 | when nts reaches 2^d, d+1 with nts 0 over the same first 2^(d+1) entries keeps the invariant and the stored keys |
| Directory.FreshDirectory | ADS_set.h:134-141 | two empty buckets with d = 1 and nts = 0 meet the invariant and store nothing |
| Directory.SplitKeepsSingle | ADS_set.h:470-515 | splitting entry o keeps a key's single-bucket chain single |
| Directory.RolloverKeepsSingle | ADS_set.h:450-453 | completing a round keeps a key's single-bucket chain single |
| Directory.CoversStep | ADS_set.h:519-523 | making sure the next key is present extends "holds the old keys and the keys so far" by that key |
| Iteration.KeyAt | ADS_set.h:616-622 | a slot below current is used, and its rank indexes the traversal order at its key |
| Iteration.RankOrder | ADS_set.h:611-633 | a slot earlier in (entry, bucket, slot) order has a smaller rank: the traversal is index-major, then link order, then slot order |
| Iteration.BeginRank | ADS_set.h:260-262 | the start of the traversal has rank 0 |
| Iteration.EndRank | ADS_set.h:611-633 | the end of the live entries has rank \|Elements\| |
| Iteration.Scan | ADS_set.h:611-633 | the nested skip loops stop at a used slot or at the end; from a null p the rank is unchanged, and from p one past a bucket's fill the rank grows by one |
| Iteration.Iterator.constructor | ADS_set.h:636-638 | begin's iterator is at rest at rank 0 over the given directory |
| Iteration.Iterator.End | ADS_set.h:641-642 | end's iterator has a null slot pointer |
| Iteration.Iterator.Skip | ADS_set.h:587-634 | skip from a null p parks on the next key without changing the rank; from p one past the fill it parks one key on; from p inside the bucket it changes nothing |
| Iteration.Iterator.Next | ADS_set.h:650-655 | the increment, with the slot index moving with the pointer, moves to the next key: rank + 1 |
| Iteration.Iterator.NextAsWritten | ADS_set.h:650-655 | the increment as written moves p within the bucket while i stays behind; only at the bucket's end does it move one rank on |
| Iteration.Iterator.Deref | ADS_set.h:644-646 | with p on slot i, the key is the traversal's key at the iterator's rank |
| Iteration.Iterator.Equals | ADS_set.h:661-663 | equality is reflexive, and an iterator at a slot never equals one with a null pointer such as end() |
| Iteration.EqualsIffSameRank | ADS_set.h:661-663 | two iterators at rest over the same directory are equal exactly when they have the same rank |
| Iteration.AtEndIffPassedAll | ADS_set.h:661-663 | an iterator at rest equals end() exactly when it has passed every key |
| Iteration.WalkAt | ADS_set.h:644-646 | before the end, dereferencing yields key number rank of the traversal |
| Iteration.Iterator.Advance | ADS_set.h:650-655 | an increment before the end keeps the walk's invariant and advances the rank by one |
| Iteration.Traverse | ADS_set.h:312-316 | a range-for from begin() to end() yields exactly the traversal's keys, in order |
| Iteration.AsWrittenRepeats | ADS_set.h:650-655 | on one bucket holding 0 and 2 (N = 2), the increment as written yields 0, 2, 2 |
| LinearHashing.LinearHashSet.constructor | ADS_set.h:134-141 | d = 1, nts = 0, two empty buckets, table_size 2, no keys, and the set is valid |
| LinearHashing.LinearHashSet.Size | ADS_set.h:188-190 | size is the number of stored keys |
| LinearHashing.LinearHashSet.IsEmpty | ADS_set.h:192-194 | empty holds exactly when no key is stored |
| LinearHashing.LinearHashSet.Find | ADS_set.h:527-545 | a position is found exactly when the key is stored; it lies in the chain the key's address names, at a used slot holding the key, and it is the first such slot in link order, then slot order |
| LinearHashing.LinearHashSet.FindAsWritten | ADS_set.h:527-545 | find_ as written finds the key exactly when it is stored and its primary bucket is not empty |
| LinearHashing.LinearHashSet.SearchBucket | ADS_set.h:548-563 | a bucket is returned exactly when the key is stored; it is a non-empty bucket of the key's chain holding the key |
| LinearHashing.LinearHashSet.Count | ADS_set.h:237-239 | count is 0 or 1 and equals the key's multiplicity |
| LinearHashing.LinearHashSet.AllocateOverflow | ADS_set.h:407-413 | a one-bucket chain gets a second bucket holding just the key; the set gains exactly the key and nothing else changes |
| LinearHashing.LinearHashSet.InsertOverflow | ADS_set.h:416-431 | with a full primary bucket, the primary is unchanged; if the first overflow bucket has room, the key goes after its keys and the buckets behind it are unchanged; otherwise a new bucket holding only the key is linked behind the primary, in front of the old overflow buckets; the set gains exactly the key and no other chain changes |
| LinearHashing.LinearHashSet.InsertPrimary | ADS_set.h:336-340 | a primary bucket with room takes the key after its own keys, and the overflow buckets and every other chain are unchanged; the set gains exactly the key |
| LinearHashing.LinearHashSet.InsertNoSplit | ADS_set.h:380-404 | insert_nosplit stores an absent key without splitting and changes only the key's chain |
| LinearHashing.LinearHashSet.Redistribute | ADS_set.h:475-482 | re-inserting every used slot of the detached chain puts back exactly its keys, touches only entries o and 2^d + o, and keeps a one-bucket chain's halves single |
| LinearHashing.LinearHashSet.RedistributeBucket | ADS_set.h:475-481 | one detached bucket's keys are added to the set, only entries o and 2^d + o change, and the first bucket, which finds both halves empty, leaves each a single bucket |
| LinearHashing.LinearHashSet.RedistributeSlots | ADS_set.h:476-480 | the used slots of one bucket are re-inserted, adding exactly its keys |
| LinearHashing.LinearHashSet.RedistributeSlot | ADS_set.h:477-479 | a used slot's key is re-inserted; an unused slot changes nothing |
| LinearHashing.LinearHashSet.Rehome | ADS_set.h:478 | a key addressed to o or 2^d + o is stored there; while both halves are single buckets with room they stay single |
| LinearHashing.LinearHashSet.RehashInPlace | ADS_set.h:470-484 | rehash_p keeps the invariant and the stored keys and changes only entries o and 2^d + o |
| LinearHashing.LinearHashSet.CopyForSplit | ADS_set.h:489-499 | the new array copies every live entry except o, which becomes an empty chain |
| LinearHashing.LinearHashSet.RehashGrow | ADS_set.h:488-515 | rehash_split grows table_size and the array by one entry, keeps the invariant and the stored keys, and changes only entries o and 2^d + o |
| LinearHashing.LinearHashSet.GrowOpen | ADS_set.h:488-501 | the grown array holds empty chains at o and 2^d + o; the detached chain's keys are exactly those no longer stored |
| LinearHashing.LinearHashSet.CopyPrefix | ADS_set.h:461-464 | the new array starts with the old live entries |
| LinearHashing.LinearHashSet.RehashRound | ADS_set.h:458-467 | table_size doubles, the array has 2^(d+1) + 1 entries, and the invariant and stored keys are kept under the new round |
| LinearHashing.LinearHashSet.Split | ADS_set.h:437-455 | split keeps the invariant and the stored keys; nts grows by one, or d grows by one and nts restarts at 0 when the round is complete |
| LinearHashing.LinearHashSet.SplitChain | ADS_set.h:438-448 | the chain at nts is split, and nts grows by one, with the stored keys unchanged |
| LinearHashing.LinearHashSet.SplitNext | ADS_set.h:439-448 | the in-place or growing rehash, chosen by table_size > 2^d + nts, changes only the split entries |
| LinearHashing.LinearHashSet.NextRound | ADS_set.h:450-454 | at nts == 2^d, d grows, nts restarts at 0 and the stored keys are unchanged |
| LinearHashing.LinearHashSet.AdvanceRound | ADS_set.h:451-453 | the round change keeps the first 2^d entries of the directory |
| LinearHashing.LinearHashSet.InsertNew | ADS_set.h:326-376 | insert_ of an absent key adds exactly that key, counts it, and keeps the set valid |
| LinearHashing.LinearHashSet.Store | ADS_set.h:326-374 | each of insert_'s three cases stores the absent key exactly once |
| LinearHashing.LinearHashSet.InsertThroughOverflow | ADS_set.h:341-358 | with a full primary bucket and overflow buckets, the key is stored and a split may follow |
| LinearHashing.LinearHashSet.InsertAfterSplit | ADS_set.h:359-372 | with a full primary bucket and no overflow bucket, split first and then store the key |
| LinearHashing.LinearHashSet.StoreAlone | ADS_set.h:362-371 | after the split the key's chain is one bucket, so the key is always stored |
| LinearHashing.LinearHashSet.Erase | ADS_set.h:220-235 | erase returns the key's former multiplicity (0 or 1), removes the key and keeps the set valid; d, nts and table_size are unchanged, an absent key leaves the directory untouched, and only the key's chain changes, keeping its length (no bucket is unlinked) |
| LinearHashing.LinearHashSet.EraseAt | ADS_set.h:227-230 | erasing a stored key removes it and decrements curr_size; d, nts and table_size are unchanged, and only the key's chain changes, keeping its length |
| LinearHashing.LinearHashSet.RemoveFromBucket | ADS_set.h:228 | bucket::erase on the bucket holding the key removes its single occurrence; only the key's chain changes, keeping its length |
| LinearHashing.LinearHashSet.Insert | ADS_set.h:200-210 | the second result is true exactly when the key was absent; then exactly the key is added; otherwise the directory, d, nts and table_size are unchanged; the position names the key's slot |
| LinearHashing.LinearHashSet.InsertKey | ADS_set.h:519-523 | the key is present afterwards, and it was added exactly when it was absent; a present key leaves the directory, d, nts and table_size unchanged |
| LinearHashing.LinearHashSet.InsertAll | ADS_set.h:518-524 | the range insert leaves exactly the old keys and the keys of the range |
| LinearHashing.LinearHashSet.InsertNth | ADS_set.h:519-523 | one round of the range insert extends the set to the next key |
| LinearHashing.LinearHashSet.Swap | ADS_set.h:250-258 | the two sets exchange directories, sizes, round state and table_size, each taking the other's old values, and both stay valid |
| LinearHashing.LinearHashSet.SwapAsWritten | ADS_set.h:250-258 | swap as written exchanges directories, sizes and round state in both directions, while each set keeps its own table_size; both directories keep the invariant |
| LinearHashing.LinearHashSet.SwapShared | ADS_set.h:253-256 | the directories, sizes and round state change places |
| LinearHashing.LinearHashSet.Clear | ADS_set.h:215-218 | clear leaves a valid empty set with a fresh two-entry directory |
| LinearHashing.LinearHashSet.ClearAsWritten | ADS_set.h:215-218 | clear over swap as written keeps the old table_size: once it exceeds 2 the set is no longer Roomy, and once it exceeds 3 the next split writes one past the end of the array |
| LinearHashing.LinearHashSet.Begin | ADS_set.h:260-262 | begin's iterator starts at rank 0 over the 2^d + nts live entries, whose keys are exactly the set's keys |
| LinearHashing.LinearHashSet.KeysOf | ADS_set.h:312-316 | the keys a range-for over a set visits are exactly its stored keys |
| LinearHashing.LinearHashSet.Equal | ADS_set.h:307-319 | == holds exactly when the two sets store the same keys |
| LinearHashing.LinearHashSet.Copy | ADS_set.h:152-161 | the copy is valid and stores exactly the other set's keys |
| LinearHashing.LinearHashSet.InsertEach | ADS_set.h:153-155 | insert_ of each of a sequence of distinct keys into an empty set stores exactly those keys |
| LinearHashing.LinearHashSet.CopyNth | ADS_set.h:154 | one round of the copy loop stores the next key |
| LinearHashing.LinearHashSet.Assign | ADS_set.h:173-181 | assignment leaves a valid set with the other set's keys |
| LinearHashing.LinearHashSet.FromSeq | ADS_set.h:143-150 | the list and range constructors store exactly the keys of the sequence |
| LinearHashing.LinearHashSet.AssignSeq | ADS_set.h:182-186 | assignment from a list leaves exactly the list's keys |
| LinearHashing.StrandedOverflow | ADS_set.h:530-532 | a directory meets the invariant and stores 4 behind an empty primary bucket, which find_ as written does not look past; it is the directory a hand trace of insert 0, insert 4, erase 0 gives with N = 1 and the identity hash |

## Left out

- `dump` (ADS_set.h:268-305) writes to an output stream. It is not modelled.
- Memory management is not modelled: `new`/`delete`, the destructors, the bucket move constructor and `bucket::operator=` (ADS_set.h:41-45, 87-97, 163-171). Buckets and chains are values, and a fresh array stands for each `new bucket*[...]`.
- `bucket::append` (ADS_set.h:76-78) is never called. The append idiom the insertion paths write out is modelled as `Buckets.Append`.
- The two unused slot tags `free` and `freeagain` are collapsed into one, because no lookup distinguishes them.
- Null directory entries (`table[idx] == nullptr`, ADS_set.h:328-333, 383-388, 552-553) are not modelled. Every live entry always holds a primary bucket.
- `allocate_overflow` when `help` becomes null (ADS_set.h:347-349) is not modelled. The walk stops at the last bucket, so `help` is never null.
- `std::hash` is modelled as a function `K -> nat` that each set is given.
- Addressing.Pow2 is an unbounded power of two. In the source, `1<<d` shifts the `int` literal 1, so the shift is an `int`. With a 32-bit `int` it overflows once d >= 31, long before `size_type` would (ADS_set.h:126, 130, 438, 460-461, 474, 501). Before C++20 that overflow is undefined behaviour. The model does not capture it.
- `operator!=` is not modelled, because it negates `==` (ADS_set.h:320-322). The same goes for the post-increment and `operator->` of the iterator (ADS_set.h:647-649, 656-660).
- LinearHashing.LinearHashSet.Count uses the corrected `Find`, not `find_` as written (Findings, row 1). As written, `count` of a key stranded behind an empty primary bucket is 0.
- LinearHashing.LinearHashSet.Insert and LinearHashing.LinearHashSet.InsertKey use the corrected `Find` (Findings, row 1). As written, `insert` of a stranded key stores it a second time and `curr_size` counts it twice.
- LinearHashing.LinearHashSet.InsertAll and LinearHashing.LinearHashSet.InsertNth use the corrected `Find` in the range insert's test (ADS_set.h:520, Findings, row 1). As written, a stranded key in the range is stored a second time.
- `insert_nosplit` keeps `find_` as written: its key is always absent, so both versions give the same answer. `FromSeq` and `AssignSeq` range-insert into a fresh set that has seen no erase, where no key is stranded, so both versions agree there too.
- LinearHashing.LinearHashSet.Equal uses the corrected `Find` for `count` (ADS_set.h:313, Findings, row 1) and iterates with the corrected increment (Findings, row 2). As written, a set holding a stranded key is not `==` to itself.
- LinearHashing.LinearHashSet.KeysOf and LinearHashing.LinearHashSet.Copy iterate with the corrected increment (Findings, row 2).
  - As written, a range-for over a set can visit a key twice.
  - The copy constructor's `insert_` has no duplicate check, so it would then store that key twice.
- LinearHashing.LinearHashSet.Assign builds its copy with `Copy` (ADS_set.h:177), so it inherits the corrected increment (Findings, row 2), and it uses the corrected `Swap` (Findings, row 3).
- LinearHashing.LinearHashSet.AssignSeq and LinearHashing.LinearHashSet.Clear use the corrected `Swap` (Findings, row 3).
- LinearHashing.LinearHashSet.Insert and LinearHashing.LinearHashSet.Find return the key's slot position only. The iterator that `insert` and the public `find` (ADS_set.h:241-248) build from it with the positional constructor (ADS_set.h:639-640, slot index 0, bucket pointer null) is not modelled, nor are increments from that iterator.
- LinearHashing.LinearHashSet.constructor requires N >= 1. With N = 0 every block has length 0, and the insertion paths write its slot 0 (for example ADS_set.h:409-412), which is undefined behaviour.
- Iteration.Iterator.Skip is specified for the states that begin() and the increments reach, where `p` is null or lies within the current bucket. The branch for an unused slot below `current` (ADS_set.h:618-619) never runs there, because those slots are all used.

## Findings

| source | as written | input that shows it | evidently intended | confidence | as-written member | corrected member |
|---|---|---|---|---|---|---|
| ADS_set.h:530-532 | `find_` returns null as soon as the primary bucket of the key's chain is empty, without looking at its overflow buckets; `erase` can empty a primary bucket while an overflow bucket still holds keys | N = 1, identity hash: insert 0, insert 4 (entry 0 splits, then 4 goes to an overflow bucket), erase 0; afterwards `count(4)` is 0 and `find(4)` is `end()` although 4 is stored, and `insert(4)` (or a range insert holding 4) stores 4 a second time, so `size()` counts it twice | walk every bucket of the chain | not executed | LinearHashing.LinearHashSet.FindAsWritten, LinearHashing.StrandedOverflow | LinearHashing.LinearHashSet.Find |
| ADS_set.h:650-655 | `operator++` advances `p` but not the slot index `i`; once `p` leaves the bucket, `skip` resumes at slot `i + 1` of the same bucket | N = 2, entry 0 one bucket holding 0 and 2, entry 1 empty: the iteration yields 0, 2, 2 | `i` moves with `p`, so each key is yielded once | not executed | Iteration.Iterator.NextAsWritten, Iteration.AsWrittenRepeats | Iteration.Iterator.Next |
| ADS_set.h:250-258 | `swap` exchanges `table`, `curr_size`, `d` and `nts` but not `table_size`, so `clear` and assignment leave the old `table_size` next to a new directory | N = 1, identity hash: insert 0, 1, 2, 3 (`table_size` becomes 8), `clear()`, insert 0, insert 2: the split takes the in-place branch and writes entry 2 of a two-entry array | exchange `table_size` too | not executed | LinearHashing.LinearHashSet.SwapAsWritten, LinearHashing.LinearHashSet.ClearAsWritten | LinearHashing.LinearHashSet.Swap |
