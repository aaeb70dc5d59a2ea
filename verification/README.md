# Verification of svmx's hash tables, register cache and slot indices

This project models the data-structure core of the svmx hypervisor driver and proves what that core
is for:

- **The intrusive chained hash table** (`svmx/mphashtable.c`). Bucket heads come from the caller,
  entries are chained through their own `Next` words, and every chain ends in a tagged pointer to its
  table. `Nodes` has the links and the words behind them, `LinkedChains` the pointer updates on
  families of chains in the heap, `MpHashTable` the two classes with their methods. Each method is
  proved against a specification function on a value, `Chains.TableState`: the packed word and the
  entries of each bucket. `Chains`, `Searching`, `Traversal` and `TableRuns` prove what those
  functions mean: a search is exact, a rehash reverses every search and loses nothing, a traversal
  returns every entry once whatever is removed on the way, and every run of operations refines one
  plain list of entries. `KeyRemoval` compares removal by key as written with what it is meant to do,
  `RunOrder` says in which order searches answer after any run, and `HeapRuns` runs whole sequences of
  calls, and whole traversals, on the linked table itself.
- **Its arithmetic**: the packed count/flags word and the bucket index (`BucketWord`), the rounding
  loops (`Rounding`), the byte hash as a polynomial modulo 2^64 (`ByteHash`).
- **The multiplicative hash** of `svmx/hash.h` and `svmx/hashtable.h` (`MultHash`).
- **The lazy guest-register cache** of `svmx/kvm_cache_regs.h` with the VMX refill (`RegCache`).
- **The large-page indices** of `svmx/mmu.h` and the code that sizes, marks and reads the tables they
  index (`SlotIndex`).

Two pieces of code beside those headers are modelled because the headers' properties rest on them:
the VMX refill and the choice of the guest-owned bits (`svmx/vmx.c:2039-2079` and
`svmx/vmx.c:3575-3623`, with `ept_save_pdptrs` at `svmx/vmx.c:3810-3825` and the initial sets of
`svmx/x86.c:424-429`), and the marking of partially covered huge frames (`svmx/x86.c:861-874`,
`SlotIndex.MarkPartialFrames` with `SlotIndex.InsideIff`: the two alignment tests mark exactly the
frames that reach out of the slot).

Machine words are natural numbers below their width, and C's bitwise operators are defined on them
bit by bit in `Bits`, so the masks and shifts of the source appear as written and are then proved to
be remainders, quotients and sums.

## Deviations of the code from its intent

The code is modelled as written where it does something else than it is meant to, and the intended
property is proved for the smallest repair.

- `svmx/mphashtable.c:124` indexes by the old bucket count. `ChangeTableAsWritten` keeps that line;
  `RehashedByOldCount` says where every entry ends up, `FoundAfterOldCountIff` which entries can still
  be found, and `OldCountRightIff` when the table is right all the same: when no entry changes its
  bucket and the entries have buckets. A table that shrinks can be indexed past its new heads, which
  the method returns as `None`; `WithinIffUpperEmpty` says when it is not. `OldCountLosesAnEntry` is a
  table of one entry that a rehash from one bucket to two makes unfindable, `OldCountPassesTheHeads`
  one that cannot be shrunk from two buckets to one. `ChangeTable` indexes by the new count. The one caller (`svmx/mmu.c:1925-1933`) changes
  the array of an empty table.
- `svmx/mphashtable.c:204` compares the key of the node before the entry it unlinks, for the bucket
  head the word stored after it, and line 209 returns the link after the removed entry.
  `RemoveKeyAsWritten` keeps both lines, with that word as an argument. `AsWrittenRightIff` says when
  the whole operation is right: exactly when it has nothing to do, so whenever there is an entry to
  remove it is wrong. `FirstKeyedRightIff` says when line 204 alone picks the right entry, and
  `AsWrittenRemovesTheWrongEntry` is a table of two entries where it takes the other one. `RemoveKey`
  has both lines repaired and does what `Intended` says.
- `svmx/mphashtable.c:8-9` tests a pointer the loop never moves. `UpcaseAsWrittenEndsIffEmpty` is about
  the loop as written, `HashUStringUpcase` tests the pointer that moves.
- `svmx/mphashtable.c:192` trusts a 32-bit `ItemCount`, which reads zero again after 2^32 insertions;
  the count is modelled with its wrap-around. `ZeroCountExitRightIff` says when that exit is right:
  the number of entries is no multiple of 2^32, or none has the key. `WrappedCountGivesUp` is a table
  of 2^32 entries where it is not.
- `svmx/mphashtable.c:57-60` rounds up when told not to, and twice when told to
  (`RoundedUpToNextDoubles`), so that with `roundUpToNext` the result is the least power of two only
  for powers of two (`RoundedUpToNextRightIff`); beyond 2^31 (respectively from 2^30) the shift is
  undefined, which `Rounded` returns as `None`.
- `svmx/x86.c:864` does not clear the array whose elements it marks; `MarkPartialFrames` therefore
  says what is marked and that the rest is left as allocated. The elements are set exactly for the
  partial frames if and only if the allocation was zero at every frame inside the slot
  (`MarksPartialIff`); `LeftoverCountsAsPartial` is a slot of one whole frame where it is not.

## Model

| member | source | states |
|---|---|---|
| MpHashTable.HashTable.Initialize | svmx/mphashtable.c:24-41 | the word decodes to the rounded, clamped count and to the flags; the first `count` heads end in this table's sentinel and no other head is touched; the empty table satisfies the full invariant whenever the array holds the rounded count |
| MpHashTable.HashTable.Insert | svmx/mphashtable.c:89-99 | keeps the full invariant; exactly the bucket of the masked key grows, at the front; the count returned is the stored one, modulo 2^32 |
| MpHashTable.HashTable.FindNext | svmx/mphashtable.c:136-163 | from NULL or from any linked entry, returns the next entry ahead with the same masked key, NULL exactly when there is none; needs only the linkage, not the placement |
| MpHashTable.HashTable.RemoveKey | svmx/mphashtable.c:191-215 | repaired: result and table are what `Intended` says: it unlinks the entry a fresh search returns first, marks its word, decrements the count by one and keeps the invariant; NULL and no change when none matches or the count reads zero |
| MpHashTable.HashTable.RemoveKeyAsWritten | svmx/mphashtable.c:191-215 | as written, for any word after the bucket head: result and table are what `AsWritten` says, the table without the position the scan picks; the link returned is the one the removed entry had, which its marked word still holds; linkage, placement and count are kept |
| MpHashTable.HashTable.Relink | svmx/mphashtable.c:105-134 | for any index count: every entry moves to the new heads as `Rehashed` says, the links stay separate, acyclic and ended by this table, the count is unchanged, the old heads are left empty; `None` exactly when an entry is indexed past the new heads; needs only the linkage |
| MpHashTable.HashTable.ChangeTable | svmx/mphashtable.c:105-134 | repaired: keeps the full invariant, has the count `NewCount` characterises, and returns the old array |
| MpHashTable.HashTable.ChangeTableAsWritten | svmx/mphashtable.c:105-134 | as written, growing or shrinking, on any linked table: the linkage is kept, the placement is that of the old count; `None` exactly when an old index passes the new heads, in a valid table when a bucket past them is not empty |
| MpHashTable.HashTable.GetTable | svmx/mphashtable.c:165-185 | for any entry of a linked table, well placed or not, the sentinel at the end of its chain decodes to that table; the search loop stops at the entry exactly when a search for its own hash value goes through it, as in every valid table, and at NULL otherwise |
| MpHashTable.HashTable.SearchFor | svmx/mphashtable.c:178-182 | the loop that feeds each result back ends, at the entry exactly when the entry is among the results of its own hash value, at NULL otherwise |
| MpHashTable.HashTable.Unlink | svmx/mphashtable.c:206-208 | taking out any position keeps the linkage of all chains, lowers the count by one modulo 2^32, marks the entry and leaves it in no chain |
| MpHashTable.HashTableIterator.IterInit | svmx/mphashtable.c:217-222 | the iterator stands before the first entry |
| MpHashTable.HashTableIterator.GetNext | svmx/mphashtable.c:224-251 | moves as `Traversal.NextOf` says and returns its entry, NULL exactly for none |
| MpHashTable.HashTableIterator.IterRemove | svmx/mphashtable.c:253-270 | removes the entry the iterator stands on, steps back to the node before it, keeps the table invariant; NULL and no change on a bucket head |
| LinkedChains.PushEntryList | svmx/mphashtable.c:95 | head insertion makes the entry first and keeps the rest of the chain and its sentinel |
| LinkedChains.UnlinkEntry | svmx/mphashtable.c:206-208 | the chain loses exactly that position, keeps its sentinel, and the entry's word is marked |
| LinkedChains.MoveFirst | svmx/mphashtable.c:121-125 | one round of the rehash moves the first entry of an old bucket to the front of its new one and disturbs no other chain, old or new |
| LinkedChains.DrainAll | svmx/mphashtable.c:118-127 | the two loops of the rehash distribute all entries in order and leave every old head at the sentinel, exactly when no entry is indexed past the prepared heads |
| Nodes.LastLinkTestsBitZero | svmx/mphashtable.c:101-103 | bit 0 of the stored word is set exactly for a sentinel, also after a removal mark; the word of a link to an entry is its address |
| Nodes.SentinelDecodes | svmx/mphashtable.c:176 | clearing bit 0 of a sentinel gives back the table's address |
| Nodes.RemovalIsRecognisable | svmx/mphashtable.c:208 | bit 1 tells removed entries from linked ones; in the upper half of the address space clearing it restores the word |
| Nodes.RemovedWordIsHigh | svmx/mphashtable.c:208 | the word of a removed entry has its top bit set |
| Chains.LookupExact | svmx/mphashtable.c:136-163 | a search goes through exactly the table's entries with the masked key, each once |
| Chains.InsertedGood | svmx/mphashtable.c:89-99 | insertion keeps placement and distinctness |
| Chains.InsertedLookup | svmx/mphashtable.c:89-99 | the new entry comes first among those with its key, every other search is unchanged |
| Chains.ErasedGood | svmx/mphashtable.c:253-270 | erasing keeps placement and distinctness and loses exactly that entry |
| Chains.ErasedLookup | svmx/mphashtable.c:253-270 | erasing takes the entry out of its own search and changes no other |
| Chains.KeyRemovedLookup | svmx/mphashtable.c:191-215 | repaired removal takes the first result out of the searches for that key, changes no other search and loses no other entry |
| KeyRemoval.AsWrittenRightIff | svmx/mphashtable.c:191-215 | the whole operation as written returns and leaves what it is meant to exactly when it has nothing to do: the count reads zero, or no entry matches and the word after the head of a non-empty bucket does not match either |
| KeyRemoval.ChainRemovalRightIff | svmx/mphashtable.c:202-212 | the same for one chain of distinct entries, lines 204 and 209 together |
| KeyRemoval.FirstKeyedRightIff | svmx/mphashtable.c:202-207 | the scan as written picks the right position exactly when the word after the head and the first entry both have the key, or nothing it looks at has |
| KeyRemoval.ReturnedLinkFollows | svmx/mphashtable.c:206-209 | as written, the link returned leads to the entry behind the one removed, or is the sentinel when that was the last |
| KeyRemoval.IntendedIsFirstResult | svmx/mphashtable.c:191-215 | the intended removal returns what a fresh search returns first and leaves the table without it |
| KeyRemoval.AsWrittenRemovesTheWrongEntry | svmx/mphashtable.c:202-212 | a table of two entries where removal as written takes out the second and returns the sentinel, instead of the first |
| Chains.RehashedGood | svmx/mphashtable.c:105-134 | repaired: the new table is placed by the new count and holds the same entries |
| Chains.RehashedLookup | svmx/mphashtable.c:105-134 | repaired: every search returns the same entries as before, in reverse order |
| Chains.RehashedByOldCount | svmx/mphashtable.c:117-125 | as written, growing or shrinking: old chain j reversed is new chain j, every further chain is empty |
| Chains.FoundAfterOldCountIff | svmx/mphashtable.c:117-125 | as written: an entry can still be found exactly when its old and new bucket agree |
| Chains.OldCountRightIff | svmx/mphashtable.c:117-125 | as written, growing or shrinking: no index passes the new heads and the table is right, exactly when no entry changes its bucket and the entries have buckets |
| Chains.WithinIffUpperEmpty | svmx/mphashtable.c:117-125 | as written: no index passes the new heads exactly when the buckets the new array does not have are empty |
| Chains.OldCountPassesTheHeads | svmx/mphashtable.c:117-125 | as written: one entry in the second of two buckets is indexed past the one head of the new array |
| Chains.OldCountLosesAnEntry | svmx/mphashtable.c:117-125 | as written: one entry in one bucket, rehashed into two, is still linked and no longer found |
| Searching.SearchEnumeratesLookup | svmx/mphashtable.c:136-163 | from NULL, feeding each result back, the search returns the matching entries in order, each once, and then NULL |
| Traversal.NextStep | svmx/mphashtable.c:224-251 | a step returns the first remaining entry; NULL exactly when none remains, and then nothing changes |
| Traversal.RemoveStep | svmx/mphashtable.c:253-270 | a removal takes out the entry last passed and leaves what remains untouched |
| Traversal.RunReturnsInOrder | svmx/mphashtable.c:217-270 | for every interleaving of steps and removals, what was returned followed by what remains is what was there, in order: each entry once, none skipped |
| Traversal.RunConservesEntries | svmx/mphashtable.c:217-270 | for every interleaving, the table loses exactly the entries the removals returned |
| Traversal.RunTerminates | svmx/mphashtable.c:217-270 | after as many steps as there were entries all have been returned, and from then on the result is NULL |
| Traversal.WalkKeepsTheRest | svmx/mphashtable.c:217-270 | removing after any subset of the results removes exactly that subset and keeps the others in order |
| TableRuns.StepRefines | svmx/mphashtable.c:24-270 | insert, remove by key, iterator-remove and rehash do to every search what cons, delete-first, delete and reverse do to one list |
| TableRuns.RemovalIsErasure | svmx/mphashtable.c:253-270 | removing through an iterator is erasing the entry it stands on, in whatever bucket and position |
| TableRuns.RunFromEmpty | svmx/mphashtable.c:24-270 | every run from an initialised table keeps the invariant, holds the list model's entries and answers every search from it |
| RunOrder.NewestComeFirst | svmx/mphashtable.c:24-270 | from any valid table through any run without a rehash, whatever it removes: a search returns entries the run inserted, newest first, and then entries it returned before the run, in the order it had |
| RunOrder.OnlyInserted | svmx/mphashtable.c:89-99 | from any valid table through insertions alone: a search returns all matching insertions, newest first, and then exactly what it returned before |
| RunOrder.RunKeepsOrder | svmx/mphashtable.c:24-270 | the same for the list model: a run without a rehash leaves a subsequence of its insertions, newest first, followed by the list it started from |
| RunOrder.RefinesItsEntries | svmx/mphashtable.c:136-163 | every valid table refines the list of its own entries, so the run theorems hold from any table and not only from an empty one |
| TableRuns.LastInsertedComesFirst | svmx/mphashtable.c:89-99 | the list model under insertions alone, exactly: the most recent entries with a key come first, then the earlier ones |
| TableRuns.ZeroCountExitRightIff | svmx/mphashtable.c:192-193 | giving up on a zero count is right exactly when the number of entries is no multiple of 2^32 or the search finds nothing |
| TableRuns.WrappedCountGivesUp | svmx/mphashtable.c:192-193 | with 2^32 entries of the key the removal changes nothing although a search finds them |
| HeapRuns.Execute | svmx/mphashtable.c:89-270 | any feasible sequence of calls on a linked table (insert, remove by key, step an iterator to an entry and remove it, change the array) keeps linkage, sentinels, count and placement, ends in the state of the same run of operations on the value, and takes out the entries that run names |
| HeapRuns.Session | svmx/mphashtable.c:24-270 | from `HashTableInitialize` through any feasible sequence of calls to a search fed back until NULL: the search returns exactly what the plain list model holds under that key, in its order |
| HeapRuns.SearchAll | svmx/mphashtable.c:136-163 | on the linked table, feeding each result back until NULL collects the matching entries in order |
| HeapRuns.Erase | svmx/mphashtable.c:217-270 | an iterator stepped to a linked entry reaches it, and removing there is erasing that entry |
| HeapRuns.Traverse | svmx/mphashtable.c:217-270 | any interleaving of steps and removals through an iterator on a linked table: the iterator stays ready, and its place, the entries returned and the entries removed are those of the cursor's run, so the traversal theorems hold of it |
| BucketWord.NewCount | svmx/mphashtable.c:26-28 | the count is the least power of two not below the request up to 2^26 and 2^26 beyond that, zero only for a request of zero, and defined exactly up to 2^31 |
| BucketWord.CountStored | svmx/mphashtable.c:131 | storing a count keeps the flags, and both decode |
| BucketWord.FlagsStored | svmx/mphashtable.c:32 | storing flags keeps the count, and both decode |
| BucketWord.DecodedFields | svmx/mphashtable.c:117 | the count is the word divided by 32, the flags are the remainder |
| BucketWord.MaskedClears | svmx/mphashtable.c:92 | the masked key is the hash value with its low `flags` bits cleared |
| BucketWord.SameKeyIff | svmx/mphashtable.c:92 | two hash values have the same masked key exactly when they agree above the flag bits |
| BucketWord.IndexIsRemainder | svmx/mphashtable.c:85-87 | for a power of two the index is the hash modulo the count, so in range; for a count of zero it is the low word of the hash |
| BucketWord.OneByteSeparatedIff256 | svmx/mphashtable.c:80-87 | 64-bit keys that agree above and below one byte and differ never share a bucket if and only if there are at least 256 buckets |
| ByteHash.HashBytesGeneric | svmx/mphashtable.c:63-70 | the loop computes the polynomial fold modulo 2^64 |
| ByteHash.HashClosedForm | svmx/mphashtable.c:63-70 | that fold is c^n times the seed plus the weighted sum of the bytes, modulo 2^64 |
| ByteHash.HashConcat | svmx/mphashtable.c:63-74 | hashing a concatenation is hashing the second part seeded with the hash of the first |
| ByteHash.SeedInjectiveIffOdd | svmx/mphashtable.c:63-70 | on non-empty input the hash determines its seed if and only if the coefficient is odd |
| ByteHash.UlongPtrNeverWraps | svmx/mphashtable.c:80-83 | hashing an eight-byte key never wraps |
| ByteHash.NineBytesAlwaysExceed | svmx/mphashtable.c:72-78 | from nine bytes on the integer polynomial always exceeds 64 bits |
| ByteHash.OneByteSeparates | svmx/mphashtable.c:72-83 | words that agree above and below one byte and differ have hashes that differ modulo every 2^k with k at least 8 |
| ByteHash.OneByteGap | svmx/mphashtable.c:80-83 | their hashes are exactly 37 to the power of the bytes that follow, times the distance of the byte, apart |
| ByteHash.WordOfBytes | svmx/mphashtable.c:80-83 | the bytes hashed for a word stand for that word, so no part of it is left out |
| ByteHash.ByteAt | svmx/mphashtable.c:80-83 | byte i hashed for a word is its bits 8i to 8i+7 |
| ByteHash.OneByteApartIff | svmx/mphashtable.c:80-83 | words that agree above and below byte p and differ are those whose bytes differ at p and nowhere else |
| ByteHash.HashBytesSteps | svmx/mphashtable.c:72-78 | the hash starts at 314159 and each byte multiplies it by 37 and is added, modulo 2^64 |
| ByteHash.TwoBytesCollide | svmx/mphashtable.c:80-83 | two different keys, two bytes apart, have the same 64-bit hash |
| ByteHash.HashUStringUpcase | svmx/mphashtable.c:4-13 | repaired: the result is the byte hash of the upcased characters, little-endian; the seed for an empty or negative length |
| ByteHash.UpcasedAt | svmx/mphashtable.c:9-10 | character i contributes the low byte of its upper case as byte 2i and the high byte as byte 2i+1 |
| ByteHash.SameUpperCaseIff | svmx/mphashtable.c:4-13 | strings give the same bytes to hash, and so the same hash, exactly when they have the same upper case |
| ByteHash.UpcaseAsWrittenEndsIffEmpty | svmx/mphashtable.c:4-13 | as written the loop ends if and only if the length is not positive |
| Rounding.GetHighestBitIndex | svmx/mphashtable.c:15-22 | the loop computes the bit length |
| Rounding.BitLengthUnique | svmx/mphashtable.c:15-22 | the bit length of a positive v is the one n with 2^(n-1) <= v < 2^n |
| Rounding.PowerOfTwoTrick | svmx/mphashtable.c:44-46 | the bit trick holds exactly for the powers of two |
| Rounding.RoundToPowerOfTwo | svmx/mphashtable.c:48-61 | computes `Rounded`, undefined shifts included |
| Rounding.RoundedIsLeast | svmx/mphashtable.c:48-61 | without rounding up to the next, the result is the least power of two not below v, and is defined exactly up to 2^31 |
| Rounding.RoundedUpToNextDoubles | svmx/mphashtable.c:57-60 | with it, the result is twice that for every v that is no power of two |
| Rounding.RoundedUpToNextRightIff | svmx/mphashtable.c:48-61 | with it, for positive v the result is the least power of two not below v exactly when v is a power of two |
| Rounding.Ilog2 | svmx/hashtable.h:12-17 | the loop finds the least exponent whose power is not below v |
| Rounding.RoundedIsShiftedIlog2 | svmx/mphashtable.c:48-61 | rounding a count is shifting 1 by its `ilog2` |
| MultHash.Hash32Balanced | svmx/hash.h:12-21 | every bucket has exactly 2^(32-bits) of the 32-bit keys |
| MultHash.Hash64Balanced | svmx/hash.h:26-30 | up to 32 bits every bucket has exactly 2^(64-bits) of the 64-bit keys |
| MultHash.HashMinBalanced | svmx/hashtable.h:25-29 | both balance results of `hash_min`, which picks by the size of the key |
| MultHash.NarrowKeysMultiply | svmx/hash.h:12-21 | at full width `hash_min` of a narrow key is additive modulo 2^32 and sends 1 to 0x61C88647; at a smaller width it keeps the top bits |
| MultHash.WideKeysMultiply | svmx/hash.h:26-30 | the product behind `hash_min` of a wide key is additive modulo 2^64 and sends 1 to 0x61C8864680B583EB; `hash_min` keeps its top bits |
| MultHash.HeadIndex | svmx/hashtable.h:20-47 | the head picked for a key is the hash with the recovered width, and lies in the array for every power-of-two size |
| MultHash.DeclaredBits | svmx/hashtable.h:9-20 | for 2^bits heads the width recovered is `bits` |
| MultHash.InRangeIffPowerOfTwo | svmx/hashtable.h:9-29 | the index `hash_min` gives is in range for every narrow key, and for every wide key, if and only if the number of heads is a power of two |
| RegCache.SetIsInsertion | svmx/kvm_cache_regs.h:88-105 | setting a bit inserts its register into the set the word stands for |
| RegCache.Vcpu.TestsAreMembership | svmx/kvm_cache_regs.h:21-25 | both tests of a register's bit are membership in the set the word stands for |
| RegCache.ReadRightIffOwnedPossible | svmx/kvm_cache_regs.h:32-52 | the lazy CR0/CR4 read is right for every state and mask if and only if the guest-owned bits are possible guest bits |
| RegCache.MasksCombine | svmx/kvm_cache_regs.h:32-52 | reading two masks in turn, refills included, gives the parts of reading their union |
| RegCache.MarkAvailableHarmlessIff | svmx/kvm_cache_regs.h:88-91 | marking CR0 or CR4 available without loading changes its logical value exactly when the copies differ on the guest-owned bits |
| RegCache.OwnershipStaysPossible | svmx/kvm_cache_regs.h:5-8 | `vmx_l1_guest_owned_cr0_bits` and `set_cr4_guest_host_mask` (`svmx/vmx.c:3575-3623`), which choose the guest-owned bits, stay within the possible bits the cited macros define |
| RegCache.L1OwnedCr0Iff | svmx/kvm_cache_regs.h:5 | `vmx_l1_guest_owned_cr0_bits` (`svmx/vmx.c:3575-3590`): the guest owns bit 3, and bit 16 (WP) with EPT only, and no other |
| RegCache.OwnedCr4Iff | svmx/kvm_cache_regs.h:6-12 | `set_cr4_guest_host_mask` (`svmx/vmx.c:3606-3623`): the guest owns exactly those of the bits 1, 2, 3, 7, 8, 9, 10 and 16 that are not reserved and not in a nested hypervisor's mask, bit 7 (PGE) with EPT only |
| RegCache.AsksIff | svmx/kvm_cache_regs.h:33-34 | the read looks at the VMCS exactly when some bit asked for may be, and is, guest-owned |
| RegCache.Vcpu.Create | svmx/kvm_cache_regs.h:5-12 | a new vcpu (`svmx/x86.c:424-429` with `svmx/vmx.c:3575-3623`) has every register available and dirty and owns the bits the two functions choose |
| RegCache.Vcpu.GuestSees | svmx/kvm_cache_regs.h:14-30 | where each register is, in the numbers of `enum kvm_reg`: CR0 and CR4 bit by bit, CR3 by its exiting control, RSP and RIP, and the PDPTRs, in the VMCS exactly for an unavailable set with EPT, CR4 bit 5 and CR0 bit 31 outside long mode |
| RegCache.Vcpu.PagingIff | svmx/x86.h:67-80 | PAE paging is CR4 bit 5 and CR0 bit 31 outside long mode |
| RegCache.PagingBitsSurvive | svmx/x86.h:67-80 | a refill never changes PAE or PG, so the PAE test of the PDPTR refill needs none |
| RegCache.Vcpu.MarkAvailable | svmx/kvm_cache_regs.h:88-91 | inserts the register into the available set, keeps dirty within available; of what the guest sees only that register changes, to the vcpu's copy |
| RegCache.Vcpu.MarkDirty | svmx/kvm_cache_regs.h:99-104 | inserts the register into both sets, keeps dirty within available; of what the guest sees only that register changes, to the vcpu's copy |
| RegCache.Vcpu.DeclaredHarmlessIff | svmx/kvm_cache_regs.h:88-105 | marking a register changes nothing the guest sees exactly when its copy is current: it was marked, or is not kept in the VMCS at the moment, or agrees with the VMCS on what the guest owns |
| RegCache.Vcpu.Execute | svmx/kvm_cache_regs.h:14-117 | in any run of reads and marks each read returns what the guest sees at that point; only the mark of a register whose copy is not current changes what the guest sees, to the copy held at the start; the available set ends exactly as the calls say, and dirty stays within it |
| RegCache.HarmlessRun | svmx/kvm_cache_regs.h:14-117 | a run that only marks registers with current copies shows the same guest throughout |
| RegCache.Vcpu.CacheReg | svmx/kvm_cache_regs.h:14-19 | the refill behind `cache_reg` (`svmx/vmx.c:2039-2079`) makes the register available, changes the logical value of no register, and makes no current copy stale |
| RegCache.Vcpu.ReadCr0Bits | svmx/kvm_cache_regs.h:32-38 | returns the logical CR0 under the mask, refill or not, and changes no logical value; computes `ReadBits` and leaves `After`, which `ReadRightIffOwnedPossible` and `MasksCombine` are about |
| RegCache.Vcpu.ReadCr4Bits | svmx/kvm_cache_regs.h:45-52 | returns the logical CR4 under the mask, refill or not, and changes no logical value; computes `ReadBits` and leaves `After` in the same way |
| RegCache.Vcpu.ReadCr3 | svmx/kvm_cache_regs.h:71-76 | returns the logical CR3 and changes no logical value |
| RegCache.Vcpu.PdptrRead | svmx/kvm_cache_regs.h:78-86 | returns the logical PDPTR and changes no logical value |
| RegCache.Vcpu.ReadRaw | svmx/kvm_cache_regs.h:111-117 | returns the logical register and changes no logical value |
| SlotIndex.IndexOfInSlot | svmx/mmu.h:149-159 | in a slot the index does not wrap and stays below the table size, which is at most the number of pages |
| SlotIndex.IndexMonotone | svmx/mmu.h:149-153 | the index grows with the gfn |
| SlotIndex.PagesPerLevel | svmx/mmu.h:149-159 | by `KVM_HPAGE_GFN_SHIFT` (`svmx/kvm_host.h:70-76`) a page has 1, 512 and 512 squared small pages at the three levels |
| SlotIndex.IndicesFillTable | svmx/mmu.h:149-159 | the indices of a slot's pages are exactly the numbers below the table size, which counts the huge frames the slot touches |
| SlotIndex.SmallPages | svmx/mmu.h:150-159 | at 4K the table has one element a page and the index is the offset |
| SlotIndex.MarkPartialFrames | svmx/mmu.h:149-159 | the marking loop of `kvm_alloc_memslot_metadata` (`svmx/x86.c:869-873`) sets the elements of the frames that reach out of the slot and leaves every other as allocated |
| SlotIndex.InsideIff | svmx/mmu.h:149-159 | a frame of the table lies wholly inside the slot exactly when it is not a first or last one that the alignment tests of `svmx/x86.c:869-873` reject |
| SlotIndex.MarksPartialIff | svmx/mmu.h:149-159 | after the marking the elements are set exactly for the partial frames if and only if the allocation (`svmx/x86.c:864`) was zero at every frame inside the slot |
| SlotIndex.LeftoverCountsAsPartial | svmx/mmu.h:149-159 | the slot of the first 512 pages at 2M: one whole frame, taken for partial whenever its element was allocated non-zero |
| SlotIndex.PageTrackIsActive | svmx/page_track.c:39-56 | the lookup is in bounds, and true exactly for a page with a non-zero counter when writes are tracked |

## Left out

- Threads: the table has no lock of its own and is modelled for one thread.
- Hash values are fixed when a node is made; a caller that rewrites `HashValue` and links the node again is not modelled.
- The bucket array is a sequence of distinct head nodes; that heads are adjacent in memory shows only in `RemoveKeyAsWritten`, as the word after the head, which is an argument there.
- MpHashTable.HashTable.Insert: does not model a table without buckets, where the code indexes a NULL array.
- MpHashTable.HashTable.ChangeTableAsWritten: does not model what the table is after an index has passed the new heads, where the code links entries to memory it has not prepared.
- Where a loop of the code both searches and relinks, the model has two methods: `Scan` (or `ScanAsWritten`) and `Unlink` for removal by key, `Predecessor` and `Unlink` for the iterator, `NextBucket` inside `GetNext`.
- MpHashTable.HashTableIterator.IterInit: does not model a non-NULL array of zero buckets, whose first head the code reads uninitialised.
- MpHashTable.HashTableIterator.GetNext: does not model a traversal that a rehash interrupts, which leaves the iterator in the old array.
- MpHashTable.HashTableIterator.IterRemove: does not model a table without buckets, where the code follows a NULL bucket.
- HashTableCleanup (`svmx/mphashtable.c:187-189`): a getter.
- ByteHash.HashBytesGeneric: does not model sizes from 2^31 on, where the `int` loop index overflows.
- `RtlUpcaseUnicodeChar` is an arbitrary function on 16-bit characters.
- The branch of `hash_64_generic` for 32-bit longs, and the `hlist` linking of `hash_add` and `hash_del`: list.h's lists are not part of this model.
- MultHash.HeadIndex: does not model a table of one head, where the shift is by the full word width.
- The register cache: RFLAGS, segments and exit information have no entry in the refill and only their availability is modelled; the SVM refill does nothing; VM entry and exit, which clear the sets, are not modelled.
- The switch of `vmx_cache_reg` is two methods, `CacheReg` and `LoadControl` for the control registers.
- HeapRuns.Traverse: does not model calls on the table that do not go through its iterator, such as a rehash between two steps; in `Execute` each iterator lives within one removal.
- The wrappers `kvm_read_cr0`, `kvm_read_cr4`, `kvm_is_cr0_bit_set` and `kvm_is_cr4_bit_set` ask one of the two reads for a fixed mask.
- SlotIndex.PageTrackIsActive: does not model who fills the tracking tables; `svmx/page_track.c:19-34` allocates none, so their presence is a condition.
- The red-black tree, the TDP iterator and MMU, the shadow-page code, nested VMX, PMU, APIC and driver plumbing are not part of this model.
