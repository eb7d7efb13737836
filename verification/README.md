# Verified models of the hash table, the allocator lab and the sampler

The repository is a set of systems-programming labs in C. Most of it is assignment stubs;
three components are complete, and each is modelled here in Dafny in the form the C code has
(objects whose fields are updated, arrays, linked nodes, loops), with its results proved for
all inputs and all runs.

**The hash table** (`threadlab/htable.c`). `Primes` has the trial division and the search for
the next prime; the loop of the search has no bound, so its termination measure is Euclid's
theorem, proved in the module. `HashCode` computes in 32-bit ints on every string and gives the
hash of a 7-bit key a closed form: the residue of the base-256 number the key spells, with
`BIG_PRIME` in the place of 0 for every key but the empty one. The table takes every key whose
hash is not negative. `Pointers` has what all linked structures share. `Chains` says what
relinking does to sequences of nodes; `HashTable` has the table in memory, every node a heap
object with a `next` field. A resize reuses exactly the old nodes: chain s of the new table is the
reverse of the old nodes that hash to s, taken in old slot order. `Dictionary` runs the table
against a finite map, through any number of resizes, from initialisation to destruction.

**The allocator lab** (`malloclab/mm.c`, `mm.h`, `memlib.c`, `mdriver.c`). `Layout` has bytes,
words and block layout; `MemLib` the simulated heap with its byte-level stores; `Mm` the bump
allocator, which writes each requested size into a header and copies bytes on realloc.
`MmClient` proves that every run of it, with arbitrary client writes inside payloads, is a run
of a collection of independent blocks. `Ranges` is the linked list of payload extents and its
overlap test; `Checker` says what the validity check decides for an arbitrary allocator, whose
answers are a parameter, and `Acceptance` tells when it accepts them from the trace and the
answers alone. `TraceLayout` says where the allocator puts the blocks of a trace, `MmVerdict`
what the check decides about answers like its own, and `RunningTotal` when the utilisation
replay's total stays an int. `Replay`, `ReplayValid`,
`ReplayUtil` and `ReplaySpeed` run the three replays of the driver over the allocator, and
`Evaluate` its loop over all traces: which traces pass, overflow or exit is proved exactly.

**The K-best sampler** (`malloclab/fcyc.c`). `Sampler` proves the online bounded insertion sort
against sorting everything and keeping the first k, and the measuring loop against the
shortest prefix of samples at which it may stop.

## Properties that fail, and exactly when

* **Overlap.** The comment at `malloclab/mdriver.c:401` says payloads must not overlap; the test
  looks at the two ends of a new range only. It is exact for a pair if and only if the new range
  does not enclose the old one (`Ranges.HitIsOverlap`), and a range that passes is disjoint from
  all records if and only if it encloses none (`Ranges.PassingIsDisjoint`). After an accepted
  trace of any allocator the records are pairwise disjoint if and only if none encloses an older
  one (`Checker.AcceptedIsDisjoint`). Input: an allocator that answers two allocations with the
  second block around the first is accepted (`Checker.OverlapIsAccepted`).
* **Data check of a realloc.** It compares a plain `char` with a value of 0 to 255, so with signed
  chars it rejects correctly kept data of ids whose low byte is 128 or more, and only of those
  (`Checker.PreservedMeans`, `Acceptance.AcceptedMeans`). The driver accepts
  a trace over mm.c if and only if the blocks fit the heap and no realloc names such an id
  (`ReplayValid.EvalMmValid`, `TraceLayout.Passes`). Input: one block of id 128, reallocated once
  (`MmVerdict.SignedCharRejects`).
* **Running total of eval_mm_util.** It is an int from which every free takes the recorded size,
  also of an id that is freed already, so the subtraction can overflow. Every well-formed trace
  that passes with at most n frees keeps the total in the range of an int if and only if n is at
  most 40 (`RunningTotal.FreesDecide`); a disciplined trace always does
  (`RunningTotal.DisciplinedMeterFits`). Inputs: a block of 52428000 bytes freed 42 times
  (`RunningTotal.DoubleFreesOverflow`), or freed 41 times and then reallocated
  (`RunningTotal.FortyOneFreesOverflow`).
* **Hash of a string.** It selects a slot in tables of all sizes if and only if it is not negative
  (`HashCode.KeysSelectSlots`). Over an alphabet no string hashes below 0 if and only if all its
  characters are 7-bit (`HashCode.AlphabetDecides`). No prefix of a given string does if and only
  if each character beyond 7 bits, as the negative number it is, goes no lower than the residue
  before it (`HashCode.PrefixesHashToSlots`). Input: the one-character string 255
  (`HashCode.HashCanBeNegative`).
* **Block size.** `mm_malloc` converts the rounded size to `int`. The block is large enough if and
  only if the size is at most `INT_MAX - 31` (`Mm.Mm.MallocAny`, `Layout.NewSizeSuffices`). Input:
  a size of 2^32 gives a block of 16 bytes (`Layout.NewSizeTruncates`).
* **Next prime.** The comment at `threadlab/htable.c:60` promises a prime larger than `min`. The
  search returns one if and only if `min` is at least 2 and not prime (`Primes.NextPrimeIsAbove`).
  Input: 7 (`Primes.NextPrimeStays`).
* **Order in a resize.** The comment at `threadlab/htable.c:123` promises to insert at the end of
  a slot. The nodes of a slot keep their order if and only if there is at most one
  (`Chains.ResizeKeepsOrder`). Input: any two nodes that share a slot (`Chains.ResizeSwapsTwo`).

## Conventions

`hide` statements at the head of a body name the definitions its proof does not need.
Pointers on the simulated heap are integers, with 0 for NULL. In the hash table a value is an
integer that stands for a `void *`; keys are immutable strings. `free` in the hash table, the
range list and the sampler is a ghost log or set, which the invariants balance against everything
that came from malloc. Chars in memory are read as signed, as the usual compilers for the lab's
platform do. The start of the simulated heap is 16-aligned, as malloc makes it. Two comments in
the source are out of date: `malloclab/mm.c:5` says blocks have no headers, and
`malloclab/memlib.c:19` says brk points to the last heap byte; the model follows the code, which
writes headers and lets brk point past the heap.

## Model

| member | source | states |
|---|---|---|
| Primes.PrimeAbove | threadlab/htable.c:60-70 | above every bound there is a prime, so the unbounded search ends |
| Primes.IsPrime | threadlab/htable.c:43-58 | trial division by odd numbers decides primality exactly; every number up to 1 is accepted too |
| Primes.GetPrime | threadlab/htable.c:60-70 | terminates and returns the least prime not below min (min itself when min is at most 1) |
| Primes.NextPrimeIsUnique | threadlab/htable.c:60-70 | the contract of the prime search leaves one result |
| Primes.NextPrimeIsAbove | threadlab/htable.c:60-70 | the result is a prime larger than min, as the comment says, if and only if min is at least 2 and not prime |
| Primes.NextPrimeStays | threadlab/htable.c:60-70 | from the prime 7 the only result is 7 itself |
| Primes.NextPrimeOverDouble | threadlab/htable.c:111-112 | the size after a resize is prime and, from size 2 on, strictly more than double |
| HashCode.Madd | threadlab/htable.c:16-21 | whenever the sum is an int: congruent to it modulo BIG_PRIME, with its sign, less by BIG_PRIME at most, and within BIG_PRIME if the sum is within twice that |
| HashCode.Mmul | threadlab/htable.c:23-28 | congruent to the product, with its sign, and smaller than BIG_PRIME in absolute value, whenever the product is an int |
| HashCode.HashOf | threadlab/htable.c:31-41 | on every C string the hash lies between -(BIG_PRIME + 127) and BIG_PRIME, and no step overflows |
| HashCode.HashIsResidue | threadlab/htable.c:31-41 | on every C string the hash is congruent to the base-256 number of its signed characters |
| HashCode.HashCanBeNegative | threadlab/htable.c:31-41 | the one-character string 255 hashes to -1, and its slot is -1 in every table of two or more slots |
| HashCode.KeysSelectSlots | threadlab/htable.c:143-145 | a string's remainder is a slot in tables of all sizes exactly if its hash is not negative |
| HashCode.AlphabetDecides | threadlab/htable.c:31-41 | over a set of characters, no string has a negative hash if and only if every character is 7-bit |
| HashCode.NextHash | threadlab/htable.c:36-39 | from a hash of at least 0, one more character keeps it there exactly if it does not go below the residue |
| HashCode.PrefixesHashToSlots | threadlab/htable.c:31-41 | no prefix of a string hashes below 0 if and only if no character beyond 7 bits goes below the residue before it |
| HashCode.KeyHash | threadlab/htable.c:31-41 | the closed form is a residue of the base-256 number within 0 to BIG_PRIME, and 0 only for the empty key |
| HashCode.HashStep | threadlab/htable.c:36-39 | one round of the hash loop extends the closed form by one 7-bit character |
| HashCode.HashOfKey | threadlab/htable.c:31-41 | on 7-bit keys the hash is the closed form, so it is never negative |
| HashCode.HashOfTwo | threadlab/htable.c:31-41 | two 7-bit characters c and d hash to 256 c + d |
| HashCode.Hashcode | threadlab/htable.c:31-41 | the loop computes the hash of every C string in 32-bit ints, and on 7-bit keys the closed form |
| Chains.MoveStep | threadlab/htable.c:119-130 | pushing an unmoved node onto its new slot keeps every new slot equal to the reversed filter of the nodes moved so far |
| Chains.AppendStep | threadlab/htable.c:160-171 | hanging a fresh node onto its chain's tail or empty slot keeps all chains linked, distinct, disjoint and in their slots |
| Chains.ReverseAt | threadlab/htable.c:124-129 | position by position, what pushing at the head does to the order |
| Chains.InSlotHas | threadlab/htable.c:122 | the filter of a slot holds exactly the nodes whose hash code selects it |
| Chains.ResizeKeepsOrder | threadlab/htable.c:122-129 | the new chain keeps its nodes in order, as inserting at the end would, if and only if there is at most one |
| Chains.ResizeSwapsTwo | threadlab/htable.c:122-129 | two nodes that share a slot change places |
| Chains.RehashOrder | threadlab/htable.c:117-131 | of two nodes of a new chain, the first was in a later old slot, or later in the same old chain |
| Chains.FreedInOrder | threadlab/htable.c:90-103 | chains are freed from slot 0 on, each from its tail |
| Chains.RehashHas | threadlab/htable.c:117-131 | after a resize a node is in chain s exactly when it was in the table and its hash code selects s |
| Chains.RehashHolds | threadlab/htable.c:109-136 | a resize loses and duplicates no node: the rehashed chains hold exactly the old nodes, each once, in its slot |
| Chains.UnmovedChain | threadlab/htable.c:117-121 | while a resize runs, slots not yet visited still head their old chains, although visited nodes are relinked |
| Chains.ReverseEachIsOnce | threadlab/htable.c:90-103 | freeing all chains tail first meets no node twice |
| HashTable.KeyIsInItsChain | threadlab/htable.c:144-158 | a key is in the map exactly when the chain its hash selects has it |
| HashTable.ChainIsCounted | threadlab/htable.c:144-158 | a chain is as long as its slot has keys |
| HashTable.HTable.Init | threadlab/htable.c:72-81 | the empty table of the least prime above sz satisfies the invariant |
| HashTable.HTable.Scan | threadlab/htable.c:147-158 | the walk stops at the first node with the key or passes the whole chain; it yields the node before and the count passed |
| HashTable.HTable.Lookup | threadlab/htable.c:178-192 | returns the map's value, or NULL for an absent key, for every key of a hash that is not negative |
| HashTable.HTable.MoveChain | threadlab/htable.c:118-130 | moves one old chain, following links that are overwritten on the way, and no other node |
| HashTable.HTable.Relink | threadlab/htable.c:110-131 | the new slots hold the rehashed old chains, in an array of the next prime of double the size |
| HashTable.HTable.Resize | threadlab/htable.c:107-136 | same nodes rehashed; of two nodes of a new chain the first comes from a later old slot or a later place in the same old chain; size at least doubled, from size 2 on more than doubled, old array freed once, memory balance and growth bound kept |
| HashTable.HTable.Append | threadlab/htable.c:160-171 | the chain gains the node at its tail, all other chains stay |
| HashTable.HTable.Insert | threadlab/htable.c:139-176 | 1 exactly for a present key, then nothing changes; otherwise the pair is added behind all nodes of its chain, and the table is resized exactly when resizing is allowed and ten other keys share the slot |
| HashTable.HTable.FreeLinkedList | threadlab/htable.c:90-96 | terminates and frees the chain's nodes from the tail, each once |
| HashTable.HTable.Destroy | threadlab/htable.c:98-105 | frees all nodes and the array, so that all memory ever obtained has been freed exactly once: as many frees as keys and resizes and one more |
| HashTable.EverythingOnce | threadlab/htable.c:98-105 | earlier frees, the nodes and the array together are everything from malloc, without repeats |
| Dictionary.FirstPutWins | threadlab/htable.c:139-153 | the map after a run gives each key the value of its first insert, and has only inserted keys |
| Dictionary.AnswerMeans | threadlab/htable.c:139-192 | from the operations alone: a get answers the value of the first put of its key or NULL, a put whether there was one before |
| Dictionary.Run | threadlab/htable.c:139-192 | every run of inserts and lookups, through any number of resizes: each get returns the value of the first insert of its key, or NULL if there was none before, and each insert 1 exactly if its key was inserted before |
| Dictionary.Lifetime | threadlab/htable.c:72-192 | from sz of at least 0: the same answers, prime size but for the first size from sz 0, at least 2^r times the initial size after r resizes, a resize at all exactly if more than ten keys share a slot of the initial size, and all memory freed once at the end |
| Layout.Align | malloclab/mm.h:9-12 | the least multiple of 16 that is enough |
| Layout.MaskRoundsDown | malloclab/mm.h:11-12 | bit by bit, the mask of the macro rounds every 64-bit word down to a multiple of 16 |
| Layout.AlignMacroAligns | malloclab/mm.h:11-12 | the macro as written on size_t is rounding up, wherever its sum does not wrap around |
| Layout.NewSizeSuffices | malloclab/mm.c:50-53 | over all of size_t, the block holds header and payload exactly for sizes up to INT_MAX - 31; larger ints turn negative |
| Layout.NewSizeTruncates | malloclab/mm.c:50-53 | a size of 2^32 is cut down to a block of 16 bytes |
| Layout.WordRoundTrip | malloclab/mm.c:57-81 | a stored word is loaded back unchanged |
| Layout.BlocksApart | malloclab/mm.c:50-60 | an earlier block ends, payload and all, before a later one starts |
| Layout.BlockTakes | malloclab/mm.c:50-60 | a block takes the least multiple of 16 that leaves room for its payload and 16 bytes more |
| Layout.WriteInPayload | malloclab/mdriver.c:614-619 | a write inside a payload keeps every header and every other payload |
| Layout.WriteNewHeader | malloclab/mm.c:52-58 | a header written at brk adds a block and keeps every old header and payload |
| MemLib.Mem.MemInit | malloclab/memlib.c:22-35 | an empty heap of MAX_HEAP bytes at an aligned address |
| MemLib.Mem.ResetBrk | malloclab/memlib.c:45-51 | the heap is empty again |
| MemLib.Mem.Sbrk | malloclab/memlib.c:53-69 | refuses exactly negative and too large requests and then keeps brk; otherwise grants old brk and advances it |
| MemLib.Mem.StoreWord | malloclab/mm.c:57 | writes the eight bytes of the word and no other |
| MemLib.Mem.LoadWord | malloclab/mm.c:81 | reads the word the eight bytes spell |
| MemLib.Mem.MemCpy | malloclab/mm.c:84 | the destination gets the source's old bytes, all else stays |
| MemLib.Mem.MemSet | malloclab/mdriver.c:619 | the area gets the byte, all else stays |
| Mm.NextAddr | malloclab/mm.c:50-60 | a fresh payload is aligned, lies 16 bytes above old brk, and moves no other |
| Mm.AgreeInMemory | malloclab/mm.c:81-84 | payloads agree if and only if as many bytes of memory are equal as the shorter one has |
| Mm.ByteNotWritten | malloclab/mm.c:57-84 | a byte outside of the new header and the copied bytes stays |
| Mm.Mm.MallocAny | malloclab/mm.c:46-60 | for every size_t: NULL and no change exactly for a negative or too large rounded size; otherwise brk advances by it, only the header is written, and the block is too small exactly above INT_MAX - 31 |
| Mm.Mm.Malloc | malloclab/mm.c:46-60 | for every int size: NULL and no change exactly when the rounded block exceeds what is left of 52428800 bytes; otherwise an aligned payload 16 bytes behind old brk, brk advanced by the block, only the header written, all payloads kept |
| Mm.Mm.ReadHeader | malloclab/mm.c:81 | the header in front of a payload decodes to the size it was asked for |
| Mm.Mm.Realloc | malloclab/mm.c:69-87 | fails like malloc; otherwise a new payload that agrees with the old one as far as both go, nothing written but its header and those bytes, all other payloads kept |
| MmClient.RunCalls | malloclab/mm.c:46-87 | every run of calls and client writes is a run of independent blocks, with pointers at the laid-out addresses |
| MmClient.OnlyWritesChange | malloclab/mm.c:62-87 | over any part of a run a payload byte changes only by a client write to that byte |
| MmClient.WriteIsRead | malloclab/mm.c:46-87 | in every run a byte the client writes is there until the client writes it again |
| MmClient.ReallocIsCopy | malloclab/mm.c:69-87 | in every run a block made by realloc has the size asked for and the old block's bytes, each until the client writes it |
| MmClient.PayloadsApart | malloclab/mm.c:50-60 | every payload lies inside the heap behind its header; payloads are disjoint and reach into no header |
| Ranges.HitIsOverlap | malloclab/mdriver.c:401-410 | no hit means disjoint or enclosing; the test is exact for a pair if and only if the new range does not enclose the old |
| Ranges.PassingIsDisjoint | malloclab/mdriver.c:401-410 | a range that passes the overlap test is disjoint from all recorded ones if and only if it encloses none |
| Ranges.AddKeepsLaminar | malloclab/mdriver.c:401-421 | a range passes the overlap test exactly when the list with it in front stays laminar |
| Ranges.LaminarStartsDiffer | malloclab/mdriver.c:401-443 | starts in a laminar list are distinct |
| Ranges.RemoveDropsOne | malloclab/mdriver.c:425-443 | at most one record goes, the order of the rest stays, laminarity stays, and no record at that start is left |
| Ranges.RangeList.AddRange | malloclab/mdriver.c:369-423 | accepts exactly aligned payloads inside the heap without a hit, and then records them in front |
| Ranges.RangeList.RemoveRange | malloclab/mdriver.c:425-443 | unlinks and frees the first record with that start, wherever in the list it is; every record is in the list or was freed, once |
| Ranges.RangeList.ClearRanges | malloclab/mdriver.c:445-458 | the list is empty and exactly its records were freed, in order |
| Checker.PrefixIsAccepted | malloclab/mdriver.c:592-678 | a trace is accepted only if all its prefixes are |
| Checker.AcceptedIsLaminar | malloclab/mdriver.c:592-675 | for every allocator, the range list after an accepted trace is laminar |
| Checker.AcceptedIsDisjoint | malloclab/mdriver.c:592-675 | for every allocator, the records after an accepted trace are pairwise disjoint if and only if none encloses an older one |
| Checker.RemoveMirrors | malloclab/mdriver.c:635-668 | dropping a live id's record drops exactly that id's extent |
| Checker.RangesAreLiveExtents | malloclab/mdriver.c:592-675 | for every allocator, on disciplined traces, the list holds exactly the live ids' extents, most recent first |
| Checker.PreservedMeans | malloclab/mdriver.c:647-655 | on raw bytes: for ids of low byte below 128 the check passes exactly if all compared bytes are that byte, for others only if none is compared |
| Checker.NamedMeans | malloclab/mdriver.c:596-660 | the ids a trace has placed, told from its operations |
| Acceptance.LiveMeans | malloclab/mdriver.c:592-675 | the live ids and sizes of a disciplined trace: those of operations whose id no later one names |
| Acceptance.DisciplinedMeans | malloclab/mdriver.c:592-675 | discipline told from the operations: exactly ids not in use are allocated, others reallocated or freed, and sizes are positive |
| Acceptance.PlacedIs | malloclab/mdriver.c:621-660 | an id in use is where the answer to its last operation put it |
| Acceptance.AcceptedMeans | malloclab/mdriver.c:592-675 | for every allocator, on disciplined traces, from trace and answers alone: accepted if and only if every block is aligned, inside the heap, and clear of or around every other block in use, and every realloc is of an id of low byte below 128 and finds that byte wherever old and new block overlap |
| Checker.AcceptedIffAllOk | malloclab/mdriver.c:592-675 | for every allocator, on disciplined traces, acceptance means exactly that each answer passes against the live ids and their places, said without the checker's records |
| Checker.OverlapIsAccepted | malloclab/mdriver.c:598-624 | a disciplined trace on which an allocator puts its second live block around its first and is accepted |
| TraceLayout.ExtentsStep | malloclab/mdriver.c:621-660 | what one operation does to the recorded address and size of each id, and that no other id's changes |
| TraceLayout.PreservedIfSmall | malloclab/mdriver.c:647-655 | the low byte of an id passes the char comparison exactly below 128 |
| TraceLayout.FreshIsAccepted | malloclab/mdriver.c:375-422 | a payload above all records and inside the heap passes every test |
| TraceLayout.LargestBlock | malloclab/memlib.c:53-69 | a block passes alone if and only if it has at most 52428784 bytes |
| TraceLayout.AddressesFollow | malloclab/mm.c:46-60 | in every replay the first payload is 16 bytes into the heap, and each next one behind the last by its size and 16 bytes, rounded up to a multiple of 16 |
| TraceLayout.ExtentIs | malloclab/mdriver.c:621-660 | an id's record is the pointer and size of the last operation that placed it |
| RunningTotal.MeterFitsHeap | malloclab/mdriver.c:707-769 | on every trace the running total and its maximum stay within the heap taken |
| RunningTotal.MeterIsLiveBytes | malloclab/mdriver.c:707-769 | on disciplined traces the running total is the sum of the live sizes, and its maximum their high-water mark |
| RunningTotal.DisciplinedMeterFits | malloclab/mdriver.c:707-769 | on disciplined traces the running total never leaves the range of an int |
| RunningTotal.MaxMeterBounds | malloclab/mdriver.c:725-749 | the greatest running total bounds the total at every prefix |
| RunningTotal.MaxMeterIsReached | malloclab/mdriver.c:725-749 | the greatest running total is the total at some prefix |
| RunningTotal.FreesLowerTheMeter | malloclab/mdriver.c:707-769 | the running total falls below the sum of the recorded sizes by at most the heap taken for each free |
| RunningTotal.FewFreesFit | malloclab/mdriver.c:707-769 | with at most 40 frees the running total never leaves the range of an int |
| RunningTotal.DoubleFreesOverflow | malloclab/mdriver.c:754-761 | a well-formed trace that passes the validity replay and overflows: a block of 52428000 bytes freed 42 times |
| RunningTotal.FortyOneFreesOverflow | malloclab/mdriver.c:734-761 | a well-formed, passing trace of 41 frees that overflows, at the realloc that ends it |
| RunningTotal.FreesDecide | malloclab/mdriver.c:707-769 | all well-formed, passing traces of at most n frees keep the total in the range of an int if and only if n is at most 40 |
| RunningTotal.MaxLiveBounds | malloclab/mdriver.c:725-749 | the high-water mark bounds the bytes in use at every prefix |
| RunningTotal.MaxLiveIsReached | malloclab/mdriver.c:725-749 | the high-water mark is the bytes in use at some prefix |
| RunningTotal.SizesKnownStep | malloclab/mdriver.c:710-763 | one operation changes the bytes in use by the sizes the arrays hold, and the arrays keep the live sizes |
| ReplayValid.CheckBytes | malloclab/mdriver.c:649-655 | the loop decides the check over the bytes of the payload in memory, whose meaning on raw bytes is `Checker.PreservedMeans` |
| ReplayValid.ValidAlloc | malloclab/mdriver.c:598-624 | passes exactly with room, fills and records the block; its answer is mm.c's, pointer and heap bounds, and the verdict the checker's on it |
| ReplayValid.ValidRealloc | malloclab/mdriver.c:626-661 | passes exactly with room and an id of low byte below 128; its answer is mm.c's, pointer, heap bounds and copied bytes, also on rejection, and the verdict the checker's on it |
| MmVerdict.MmAnswersDecide | malloclab/mdriver.c:571-679 | whatever gives mm.c's answers is accepted by the checker on exactly the traces whose blocks fit and whose realloc ids have a low byte below 128 |
| MmVerdict.SignedCharRejects | malloclab/mdriver.c:649-655 | a well-formed, disciplined trace that fits the heap and is rejected: a block of id 128, reallocated |
| ReplayValid.EvalMmValid | malloclab/mdriver.c:571-679 | returns 1 exactly when all blocks fit the heap and no realloc id has a low byte of 128 or more; accepted or rejected, the verdict is the checker's on answers that are mm.c's in pointer, heap bounds and copied bytes |
| RunningTotal.MeterStep | malloclab/mdriver.c:721-761 | what one operation adds to the running total by the recorded sizes, its maximum, and that the total stays within the heap |
| ReplayUtil.Utilization.Value | malloclab/mdriver.c:771 | times the heap taken it is the greatest running total |
| ReplayUtil.UtilOp | malloclab/mdriver.c:707-769 | one operation keeps both totals right in 32-bit ints, exits exactly without room, or overflows exactly where the new total is below the least int |
| ReplayUtil.EvalMmUtil | malloclab/mdriver.c:692-772 | overflows exactly on the traces whose total leaves the range of an int while blocks fit, which no disciplined trace and no trace of at most 40 frees does; otherwise exits exactly when the blocks do not fit; otherwise the greatest running total, on disciplined traces the high-water mark of the bytes in use, over the heap taken, which is no less |
| ReplaySpeed.EvalMmSpeed | malloclab/mdriver.c:779-820 | exits exactly when the blocks do not fit; otherwise the same pointers and heap size as the other replays |
| Evaluate.EvaluateTrace | malloclab/mdriver.c:290-307 | after an accepted validity replay the utilisation replay fails only by overflow, and exactly then; where it does not, the speed replay never exits, all pointers and final heap sizes agree, the records are disjoint and mirror the live blocks of a disciplined trace, and utilisation is at most 1 and, times the heap taken, the high-water mark of a disciplined trace |
| Evaluate.EvaluateAll | malloclab/mdriver.c:286-307 | on one reused heap and range list, each trace's verdict depends on that trace only, up to the first trace that passes and overflows the total, if there is one |
| Sampler.SortSorts | malloclab/fcyc.c:81-87 | the reference is an ascending permutation of the samples |
| Sampler.InsertPrefix | malloclab/fcyc.c:67-88 | an insertion touches the first k places only through the first k - 1 and the new value |
| Sampler.BestStep | malloclab/fcyc.c:67-88 | what a new sample does to the k best of the whole history |
| Sampler.BestIsBest | malloclab/fcyc.c:50-88 | the k best are ascending, taken from the samples, and nothing left out is smaller than anything kept |
| Sampler.BestIsLeast | malloclab/fcyc.c:162 | the first of the best is the minimum of all samples |
| Sampler.ConvergedMeans | malloclab/fcyc.c:90-98 | without sorting: converged if and only if at least k samples are within 1 + epsilon of the least |
| Sampler.Sampler.InitSampler | malloclab/fcyc.c:47-62 | starts an empty history in a fresh array of k values, a left-over array being freed |
| Sampler.Sampler.Sink | malloclab/fcyc.c:81-87 | the swapping loop inserts the last value into the sorted ones before it and touches no other |
| Sampler.Sampler.AddSample | malloclab/fcyc.c:64-88 | the array keeps holding the k smallest samples of the whole history in order |
| Sampler.Sampler.HasConverged | malloclab/fcyc.c:90-98 | true exactly when at least k samples are within 1 + epsilon of the least |
| Sampler.Sampler.Fcyc | malloclab/fcyc.c:126-168 | takes the shortest nonempty prefix of the samples that has maxsamples of them or at least k within 1 + epsilon of its least, returns its minimum, and leaves no array allocated |

## Left out

- The assignment stubs (`threadlab/rwlock.c`, `clab`, `binarylab`, the Bloom filter and the matching functions of `rklab`): there is no code to model.
- The helper arithmetic of `rklab/rkmatch.c` (`madd`, `mdel`, `mmul`): nothing in the repository composes these functions.
- Concurrent use of the hash table: this version takes no locks, so only sequential runs are modelled.
- HashTable.HTable.Insert: takes keys whose hash is not negative, all 7-bit keys among them (`HashCode.HashOfKey`); a negative hash that the table size does not divide makes the C code index before its slots. The other operations of the table and `Dictionary` take the same keys.
- Primes.GetPrime: works on unbounded integers, so overflow of `n` and of twice the table size is not modelled.
- HashTable.HTable.Init: takes sz of at least 0; with a negative sz the C table would have a size of 0 or less. With sz 0 the first size is 1, which is not prime; primality is claimed from sz 1 or the first resize on.
- Failure of the C library's own malloc in the hash table and the driver: the code asserts or exits.
- Mm.Mm.MallocAny: takes a size that rounds to nothing only if the header store at brk stays inside the area; elsewhere C leaves the behaviour undefined.
- Mm.Mm.Malloc: takes the sizes the driver passes, up to INT_MAX; every size_t is in `Mm.Mm.MallocAny`.
- MmClient.RunCalls: takes calls with sizes up to INT_MAX, as the driver makes them.
- Mm.Mm.Realloc: takes sizes up to INT_MAX, as the driver passes them, because the copy into a block that is too small is undefined in C; and a pointer that the allocator returned, the code having no case for NULL.
- The blocks and sizes arrays before their first write, whose contents are unknown.
- ReplayValid.EvalMmValid: takes traces with positive sizes whose reallocs and frees name ids allocated before; on others the code aborts or reads memory never written.
- ReplayUtil.EvalMmUtil: ends where the running total overflows, C leaving the behaviour undefined from there on; `Evaluate.EvaluateTrace` and `Evaluate.EvaluateAll` go no further either. It returns numerator and denominator; the quotient is taken over reals, and the zero-by-zero of a trace without allocations is left open.
- Sampler.Sampler.HasConverged: the product with 1 + epsilon is exact, doubles being reals.
- Sampler.Sampler.Fcyc: doubles are reals without rounding and NaN; samples come from a function of their number, timing and cache clearing do not exist, and k is at least 1. The branches with and without compensation are the same loop.
- The C library replays, performance index, printing, option and trace file parsing, clocks and timers of `malloclab`.
