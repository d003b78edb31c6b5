# Verified models of the systems labs

A Dafny model of the parts of this repository that have real invariants, and
proofs of what they promise. Each component is a group of modules; nothing is
shared between groups except the option type in `Wrappers`.

- **Allocator** (`HeapBlocks`, `FreeLists`, `SizeClasses`, `HeapState`,
  `PayloadBytes`, `Allocator`, `TraceDriver`): the boundary-tag allocator in its
  default configuration (segregated lists, best fit, 32-bit `size_t`), as a class
  over an array of 32-bit words, with the malloc-lab driver as its client. A block
  address is a word index; the ten list heads are words 2 to 21 and the heap
  starts at word 22. A ghost map of blocks and a ghost map of listed blocks say
  what the words mean; a valid heap is one whose words store those maps.
- **Big integers** (`Digits`, `PyLong`): sign and magnitude in base 2^30 digit
  arrays.
- **Semaphore protocols** (`ThreadCounts`, `SharedBuffer`, `ReadersWriters`): a
  state holds a program counter for each of any number of threads; every P, V,
  increment, test, store and load is one step.
- **Proxy cache** (`LruCache`): the time-stamped slots against a recency list.
- **Compiler** (`TinyLang`, `StackMachine`, `CompilerCorrect`, `CompilerLimits`,
  `Assembler`, `ByteVm`, `CompilerSamples`): Go subset to assembly to bytes to the 8-bit machine. The
  supported subset is `CompilerCorrect.Supported`: known variables,
  at most five locals, at most one `if` or `for`, an `if` that returns from its
  body or has no else, a `for` with a comparison as its condition. What the machine
  does says something about the source only if the program also uses none but the
  seven operators that have an instruction (`TinyLang.Known`).
- **Memtable and log** (`ByteKeys`, `Memtable`, `SkipLevels`, `SkipSplices`,
  `SkipList`, `Wal`, `LevelDb`): the skip list as an arena of nodes with index
  pointers, the log as a byte sequence. The drawn level is a parameter. Every
  node has a ghost position; the list is ordered by it.
- **Shell job control** (`JobTable`, `JobControl`): the job array and its
  routines as a class, and the main loop, signal handlers and children as a state
  machine in which a section with all signals blocked is one step.
- **Image smoothing** (`Smooth`): the sliding-window kernel against the naive one.
- **Buffered reading** (`Rio`): over a descriptor whose replies (short, EINTR,
  failure) are an arbitrary finite plan followed by full reads.

Where the code and what one would expect of it differ, the code is modelled, a
concrete case is given and the exact condition is proved:
`SizeClasses.AllocSizeFits` (requests close to 2^32 wrap),
`PyLong.ToInt64Exact` (magnitudes of 2^64 and more can wrap),
`TraceDriver.EvalValid` (the driver compares signed chars and misreads bytes from
0x80 on), `LevelDb.GetRightExactly` (a lookup may answer with a greater key's value),
`Wal.RecordRoundTrip` (lengths of 2^32 and more), `JobControl.AddedExactly` (a
full job table). `CompilerLimits` shows why the compiler's subset ends where it does.

`dafny verify dfyconfig.toml` checks the whole project.

## Model

| member | source | states |
|---|---|---|
| TraceDriver.EvalValid | labs/06_malloclab/malloclab-handout/mdriver.c:577-685 | the driver's whole check of any trace reports no misalignment, no payload outside the heap and no overlap; it reports lost data if and only if it comes, unrefused, to a resize whose index has bit 7 set, and the heap is then well formed all the same; it is refused only for a size of 0 or when the trace can ask for more than the heap holds; otherwise it passes |
| TraceDriver.HighIndexMisread | labs/06_malloclab/malloclab-handout/mdriver.c:655-661 | a concrete trace, index 128 allocated and resized to the same 8 bytes, on which lost data is reported of an intact heap |
| TraceDriver.DoOne | labs/06_malloclab/malloclab-handout/mdriver.c:602-679 | one operation of any kind: what is tracked afterwards, which verdict, and how far the break can have moved |
| TraceDriver.DoAlloc | labs/06_malloclab/malloclab-handout/mdriver.c:604-630 | one malloc request keeps every tracked block on the range list with the bytes the driver wrote into it, and adds the new one |
| TraceDriver.DoRealloc | labs/06_malloclab/malloclab-handout/mdriver.c:632-667 | one realloc request: a pass keeps the bytes of every other tracked block, and the verdict is lost data exactly when the request is not refused and the index has bit 7 set, although the block then begins with every byte it should |
| TraceDriver.DoFree | labs/06_malloclab/malloclab-handout/mdriver.c:669-675 | one free request drops exactly that block from the tracked ones and keeps the bytes of the others |
| TraceDriver.AddRange | labs/06_malloclab/malloclab-handout/mdriver.c:381-429 | for any byte address and size, which of the tests for alignment, heap bounds and overlap fails first; only a pass adds a record, in front |
| TraceDriver.LiveRangePasses | labs/06_malloclab/malloclab-handout/mdriver.c:381-429 | for a live block not yet recorded whose payload covers the request, all three tests pass against every recorded range |
| TraceDriver.RemoveRange | labs/06_malloclab/malloclab-handout/mdriver.c:434-449 | on any list the first record that starts at the address leaves the list; without one nothing changes |
| TraceDriver.DropFirst | labs/06_malloclab/malloclab-handout/mdriver.c:434-449 | on a list that records no address twice, that leaves exactly the records of all other addresses |
| TraceDriver.CheckBytes | labs/06_malloclab/malloclab-handout/mdriver.c:653-661 | on any memory the comparison succeeds if and only if every byte compared, read as a signed char, equals the int it is compared with |
| TraceDriver.HighBytesDiffer | labs/06_malloclab/malloclab-handout/mdriver.c:655-661 | on a block filled with one byte it succeeds if and only if nothing is compared or the byte is below 0x80 |
| Allocator.Heap.Malloc | labs/06_malloclab/malloclab-handout/mm.c:571-593 | NULL changes nothing and comes exactly when the size is 0, or no free block fits and the break cannot move by what is lacking; otherwise one new live block of the aligned size, up to 15 bytes over, in a smallest free block that fits if there is one; every other live payload keeps its place, length and words; the heap stays well formed |
| Allocator.Heap.Free | labs/06_malloclab/malloclab-handout/mm.c:595-605 | exactly that block stops being live, its neighbours are fused with it, and every other live payload is kept |
| Allocator.Heap.Realloc | labs/06_malloclab/malloclab-handout/mm.c:607-660 | on every path (grow at the end, absorb, shrink, move) the result begins with the first min(old capacity, new size) bytes; a NULL result leaves the old block live with all its bytes and comes exactly when the size is 0, or the block and a free successor are too small and the break cannot move by what is lacking (at the end of the heap) or neither the lists nor the break have a new block (elsewhere); a block that, with a free successor, is large enough stays in place, as does one at the end of the heap; every other live payload is kept |
| Allocator.Heap.Resize | labs/06_malloclab/malloclab-handout/mm.c:615-660 | the same for a live block and a positive size, with the exact condition of failure and the heap well formed afterwards |
| Allocator.Heap.CannotGrowExactly | labs/06_malloclab/malloclab-handout/mm.c:544-593 | when the break cannot serve a request, in bytes: what is asked for behind a live last block, what is lacking but at least 16 behind a free one |
| Allocator.Heap.CannotResizeExactly | labs/06_malloclab/malloclab-handout/mm.c:615-660 | when a resize fails, in the words of the block and the one behind it |
| Allocator.Heap.GrowAtEnd | labs/06_malloclab/malloclab-handout/mm.c:619-630 | a block at the end gets enough room behind it and all live payloads are kept; failure comes exactly if the break cannot move by what is lacking, with nothing changed |
| Allocator.Heap.SwallowNext | labs/06_malloclab/malloclab-handout/mm.c:632-638 | the block gains exactly its free successor; its payload and all other payloads are kept, in a well-formed heap |
| Allocator.Heap.ShrinkToFit | labs/06_malloclab/malloclab-handout/mm.c:640-651 | the block ends up less than 16 bytes over the aligned size; its first words and all other payloads are kept |
| Allocator.Heap.Move | labs/06_malloclab/malloclab-handout/mm.c:653-659 | the last resort: a new block that holds the copied bytes, the old one freed; a failure changes nothing |
| Allocator.Heap.CopyBytes | labs/06_malloclab/malloclab-handout/mm.c:657 | memcpy copies every byte of the prefix, the partial last word included, and touches no other word |
| Allocator.Heap.FindFit | labs/06_malloclab/malloclab-handout/mm.c:449-468 | NULL exactly when no free block in the heap is large enough, otherwise one of the globally smallest sufficient size |
| Allocator.Heap.BestInList | labs/06_malloclab/malloclab-handout/mm.c:453-465 | the same within one list, by walking its links |
| Allocator.Heap.ImplicitFindFit | labs/06_malloclab/malloclab-handout/mm.c:240-253 | the walk over all blocks gives a globally smallest sufficient free block, or NULL |
| Allocator.Heap.FitsAgree | labs/06_malloclab/malloclab-handout/mm.c:240-253 | the segregated search and the whole-heap search fail together and otherwise find blocks of the same size |
| Allocator.Heap.Place | labs/06_malloclab/malloclab-handout/mm.c:490-504 | the block becomes live with the requested words, at most 3 over; a rest of 16 bytes or more becomes a listed free block, all payloads are kept |
| Allocator.Heap.Coalesce | labs/06_malloclab/malloclab-handout/mm.c:506-542 | in all four cases the free run around the block becomes one free block, listed in its class; afterwards no two neighbours are free |
| Allocator.Heap.FuseAround | labs/06_malloclab/malloclab-handout/mm.c:515-538 | the tags written and the nodes erased in the four cases are exactly those of the fused run |
| Allocator.Heap.PrevFree | labs/06_malloclab/malloclab-handout/mm.c:133-135 | with the P bit clear, the footer in front of a block leads to its free predecessor |
| Allocator.Heap.ExtendHeap | labs/06_malloclab/malloclab-handout/mm.c:544-557 | for any size: NULL and no change exactly when the break cannot move by the aligned size, otherwise a free block that reaches the new end and starts at the old end or at a free last block |
| Allocator.Heap.Sbrk | labs/06_malloclab/malloclab-handout/memlib.c:58-69 | for any increment: fails exactly when it is negative as a C int or the break would pass the maximum; otherwise returns the old break and moves it by that many bytes |
| Allocator.Heap.Init | labs/06_malloclab/malloclab-handout/mm.c:559-569 | a well-formed heap with nothing live and nothing free, or -1 exactly when 16 bytes are not available |
| Allocator.Heap.InitLists | labs/06_malloclab/malloclab-handout/mm.c:372-376 | ten empty circular lists |
| Allocator.Heap.ListErase | labs/06_malloclab/malloclab-handout/mm.c:154-157 | the node leaves its list, all ten lists stay circular and doubly linked, only link words change |
| Allocator.Heap.ListPushFront | labs/06_malloclab/malloclab-handout/mm.c:148-153 | the node becomes the newest of its list, all ten lists stay linked, only link words change |
| Allocator.Heap.ListInsert | labs/06_malloclab/malloclab-handout/mm.c:394-398 | the block is listed in the class of the size in its header |
| Allocator.Heap.ListUpdate | labs/06_malloclab/malloclab-handout/mm.c:400-403 | the block moves to the list of its present size |
| Allocator.Heap.MmCheck | labs/06_malloclab/malloclab-handout/mm.c:182-205 | every assertion of the heap checker and of the list checker holds in every valid state |
| Allocator.Heap.CheckList | labs/06_malloclab/malloclab-handout/mm.c:415-433 | class bounds, free status and mutual links hold for every node of a list |
| Allocator.Heap.BlockChecks | labs/06_malloclab/malloclab-handout/mm.c:182-205 | what the heap checker asserts of a block, read off the memory words: sizes, equal header and footer, no free neighbour, agreeing bits |
| Allocator.Heap.NodeChecks | labs/06_malloclab/malloclab-handout/mm.c:415-433 | what the list checker asserts of a node, read off the memory words: the bounds of its class, the cleared bit and the four links |
| SizeClasses.AllocSizeFits | labs/06_malloclab/malloclab-handout/mm.c:575 | the block size is a multiple of 8 of at least 16, and covers request and header exactly when the request is at most 2^32 - 12 |
| SizeClasses.HugeRequestWraps | labs/06_malloclab/malloclab-handout/mm.c:575 | beyond that bound the 32-bit sum wraps: a request of 2^32 - 4 is answered with 16 bytes |
| SizeClasses.ClassBounds | labs/06_malloclab/malloclab-handout/mm.c:377-393 | a size is within the bounds of list c if and only if c is its class index |
| SizeClasses.ClassMonotone | labs/06_malloclab/malloclab-handout/mm.c:386-393 | a larger size has no smaller class |
| SizeClasses.ClassTable | labs/06_malloclab/malloclab-handout/mm.c:377-393 | the ten classes by their sizes in bytes |
| SizeClasses.LowerBound | labs/06_malloclab/malloclab-handout/mm.c:386-393 | the shifting loop returns the class whose bounds hold the size |
| FreeLists.EraseRings | labs/06_malloclab/malloclab-handout/mm.c:154-157 | erasing at the level of memory words keeps all ten rings and removes just that node |
| FreeLists.PushRings | labs/06_malloclab/malloclab-handout/mm.c:148-153 | pushing keeps all ten rings and adds just that node, in front |
| FreeLists.ListHoldsExactly | labs/06_malloclab/malloclab-handout/mm.c:422-423 | a walk from a list head meets every block of the list exactly once and returns |
| HeapBlocks.TagWord | labs/06_malloclab/malloclab-handout/mm.c:104-121 | every accessor and updater of a header word agrees with the record of size, prev-alloc and alloc it encodes |
| HeapBlocks.TagBits | labs/06_malloclab/malloclab-handout/mm.c:79-121 | bit 0 of a tag is the alloc bit, bit 1 the prev-alloc bit, and the size is the word with its low three bits cleared |
| HeapBlocks.PayloadsDisjoint | labs/06_malloclab/malloclab-handout/mm.c:100-138 | live payloads are 8-aligned, inside the heap and pairwise disjoint |
| HeapBlocks.Predecessor | labs/06_malloclab/malloclab-handout/mm.c:118-135 | every block but the first has a predecessor, whose alloc bit is this block's prev-alloc bit |
| HeapState.FuseShape | labs/06_malloclab/malloclab-handout/mm.c:506-542 | fusing keeps the blocks tiling the heap and leaves no two free neighbours |
| HeapState.CoalesceStep | labs/06_malloclab/malloclab-handout/mm.c:515-541 | two tag writes and some list erasures store the fused block map and touch no live payload |
| HeapState.PlaceSplitStep | labs/06_malloclab/malloclab-handout/mm.c:497-502 | three tag writes store the split block map and touch no live payload |
| HeapState.KeptOffLinks | labs/06_malloclab/malloclab-handout/mm.c:148-157 | list operations write no word of a live payload |
| HeapState.PayloadWrite | labs/06_malloclab/malloclab-handout/mm.c:657 | writing a live payload disturbs no tag, no link and no other payload |
| PyLong.Mul | cpython_int/cpython_int.c:437-467 | for all normal inputs of any length the result is normal and its value is the product |
| PyLong.MulMagnitude | cpython_int/cpython_int.c:448-461 | the product loops write digits below 2^30 within na + nb places, whose value is the product of the magnitudes |
| PyLong.AddRow | cpython_int/cpython_int.c:449-460 | one row adds x * b, shifted i digits; its carry loop ends inside the array |
| PyLong.ProductFits | cpython_int/cpython_int.c:454-459 | no intermediate reaches 2^60 and the carry is again one digit |
| PyLong.Add | cpython_int/cpython_int.c:379-426 | normal, with the sum as its value, in all sign cases |
| PyLong.Sub | cpython_int/cpython_int.c:428-435 | normal, with the difference as its value |
| PyLong.Neg | cpython_int/cpython_int.c:367-377 | normal, with the negated value |
| PyLong.Invert | cpython_int/cpython_int.c:469-480 | normal, with the value -(a + 1) |
| PyLong.AddMagnitude | cpython_int/cpython_int.c:292-325 | normal and non-negative, the sum of the magnitudes, whichever operand is longer |
| PyLong.SubMagnitude | cpython_int/cpython_int.c:327-365 | normal and non-negative, the difference of the magnitudes; the final borrow is 0 |
| PyLong.AddBoth | cpython_int/cpython_int.c:303-310 | the digits written and the carry hold the sum of the digits both numbers have |
| PyLong.AddRest | cpython_int/cpython_int.c:312-316 | the same through the rest of the longer number |
| PyLong.SubBoth | cpython_int/cpython_int.c:336-348 | the digits written, less the borrow, hold the difference of the digits both numbers have |
| PyLong.SubRest | cpython_int/cpython_int.c:350-359 | the same through the rest of the longer number |
| PyLong.CompareMagnitude | cpython_int/cpython_int.c:263-276 | the sign of the difference of the magnitudes |
| PyLong.Compare | cpython_int/cpython_int.c:278-290 | 1, 0 or -1 as the first value is greater than, equal to or less than the second, whatever the signs |
| PyLong.Long.Clamp | cpython_int/cpython_int.c:153-170 | normal form, with value and sign kept |
| PyLong.NormalFormIsUnique | cpython_int/cpython_int.c:172-197 | two numbers that satisfy the invariants and have the same value have the same digits |
| PyLong.FromInt64 | cpython_int/cpython_int.c:199-221 | normal, with the given value, for every int64 including the minimum |
| PyLong.ToInt64 | cpython_int/cpython_int.c:223-261 | which digit strings are accepted and what is returned, with the 64-bit accumulator wrapping |
| PyLong.ToInt64Exact | cpython_int/cpython_int.c:223-261 | the conversion succeeds exactly on int64 values, and is exact, if and only if the magnitude is below 2^64, has more than three digits, or is out of range even after wrapping |
| PyLong.TwoTo64Wraps | cpython_int/cpython_int.c:238-241 | 2^64 is accepted and converts to 0 |
| PyLong.RoundTrip | cpython_int/cpython_int.c:199-261 | every int64 survives the round trip |
| SharedBuffer.EveryRun | csi/03-languages-and-compilers/04-threads-and-shared-memory/csapp/sbuf.c:7-49 | for any number of threads and any interleaving: slots + items + threads in flight = n, at most one thread in the lock, what came out is a prefix of what went in, never more than n inside; no unread slot is about to be overwritten, the slot about to be read holds the oldest unread item, which is the item the reader then carries; what inserts were given is what went in and what they still carry, what came out is what removes have returned and still hold; a run stalls only for want of room in a full buffer or of an item in an empty one |
| SharedBuffer.ItemsConserved | csi/03-languages-and-compilers/04-threads-and-shared-memory/csapp/sbuf.c:28-49 | over any run, as multisets: the items given to inserts are those put in and those carried towards the store; the items taken out are those returned and those held on the way to the return |
| SharedBuffer.CarriedItemKept | csi/03-languages-and-compilers/04-threads-and-shared-memory/csapp/sbuf.c:28-35 | the item an insert is given stays with its thread through both waits and is the one it stores |
| SharedBuffer.HeldItemKept | csi/03-languages-and-compilers/04-threads-and-shared-memory/csapp/sbuf.c:40-49 | the item a remove has loaded stays with its thread, whoever moves, and is the one it returns |
| SharedBuffer.SoloInsert | csi/03-languages-and-compilers/04-threads-and-shared-memory/csapp/sbuf.c:28-35 | an insert nobody interferes with, while there is room, adds its item at the end and one to items |
| SharedBuffer.SoloRemove | csi/03-languages-and-compilers/04-threads-and-shared-memory/csapp/sbuf.c:40-49 | a remove nobody interferes with, while there is an item, returns the oldest unread item |
| SharedBuffer.InFlightMoves | csi/03-languages-and-compilers/04-threads-and-shared-memory/csapp/sbuf.c:28-49 | threads past their first semaphore do not block one another: one of them can take its next step |
| SharedBuffer.StalledOnlyByNeed | csi/03-languages-and-compilers/04-threads-and-shared-memory/csapp/sbuf.c:28-49 | when nobody can move, every thread inside waits at its first semaphore, an insert before a full buffer or a remove before an empty one |
| SharedBuffer.StepInv | csi/03-languages-and-compilers/04-threads-and-shared-memory/csapp/sbuf.c:28-49 | each single semaphore, counter and slot step keeps the invariant |
| SharedBuffer.NeverOverwritten | csi/03-languages-and-compilers/04-threads-and-shared-memory/csapp/sbuf.c:32 | the slot about to be written holds no unread item |
| SharedBuffer.ReadsOldest | csi/03-languages-and-compilers/04-threads-and-shared-memory/csapp/sbuf.c:45 | the slot about to be read has been written and holds the oldest unread item |
| ReadersWriters.EveryRun | labs/08_proxylab/proxylab-handout/proxy.c:118-144 | for any number of threads and any interleaving: a writer is inside alone, no reader reading, readcnt is the number of counted readers, and as long as any thread takes part some thread can move |
| ReadersWriters.AllReadAtOnce | labs/08_proxylab/proxylab-handout/proxy.c:124-131 | for any number of threads some run has all of them reading at once, with readcnt their number |
| ReadersWriters.ReadCallSucceeds | labs/08_proxylab/proxylab-handout/proxy.c:124-131 | from any reachable state without a writer inside, some schedule of the threads brings a read caller to the read lock |
| ReadersWriters.ReadCallNeverWrites | labs/08_proxylab/proxylab-handout/proxy.c:124-140 | after a read call a thread is never waiting for, or in, the write lock, whatever all threads do |
| ReadersWriters.WriteCallNeverReads | labs/08_proxylab/proxylab-handout/proxy.c:142-144 | after a write call a thread is only ever waiting for the write lock, in it, or out again |
| ReadersWriters.WriterGetsIn | labs/08_proxylab/proxylab-handout/proxy.c:142-144 | with w free a write call ends in the write lock, and the unlock restores the state |
| ReadersWriters.ReaderGetsOut | labs/08_proxylab/proxylab-handout/proxy.c:133-140 | a reader that unlocks is out and no longer counted, and w is free exactly if it was the last |
| ReadersWriters.StepInv | labs/08_proxylab/proxylab-handout/proxy.c:124-144 | each single P, V and readcnt step keeps the invariant |
| ReadersWriters.Exclusion | labs/08_proxylab/proxylab-handout/proxy.c:124-144 | no writer inside together with a reader or another writer |
| ReadersWriters.NoDeadlock | labs/08_proxylab/proxylab-handout/proxy.c:124-144 | a state with a thread inside always has an enabled step of such a thread |
| LruCache.Session | labs/08_proxylab/proxylab-handout/proxy.c:41-100 | any sequence of gets and puts under a strictly increasing clock is answered, and leaves the cache, as the move-to-front list cut to N entries says; keys stay distinct |
| LruCache.FreshSession | labs/08_proxylab/proxylab-handout/proxy.c:31-100 | the same from cache_init on, where the list starts empty |
| LruCache.RecencyMeaning | labs/08_proxylab/proxylab-handout/proxy.c:63-100 | the recency list is the uses at the last position of each key used so far, latest first |
| LruCache.Cache.Put | labs/08_proxylab/proxylab-handout/proxy.c:63-100 | after it the slots are exactly the N most recently used keys with their latest values, this one first |
| LruCache.Cache.Get | labs/08_proxylab/proxylab-handout/proxy.c:51-61 | a hit returns the latest value and counts as a use at this clock reading; a miss changes nothing; the cache stays the truncated recency list |
| LruCache.Cache.Find | labs/08_proxylab/proxylab-handout/proxy.c:41-49 | the slot that holds the key, or none if the cache does not have it |
| LruCache.Cache.Victim | labs/08_proxylab/proxylab-handout/proxy.c:88-95 | the slot with the smallest stamp |
| LruCache.UseCommutesWithCut | labs/08_proxylab/proxylab-handout/proxy.c:63-100 | using an entry and cutting to N commute, so remembering only N entries loses nothing |
| LruCache.UseExtendsHistory | labs/08_proxylab/proxylab-handout/proxy.c:63-100 | one use of the truncated list is the truncated list of the longer history |
| ByteVm.CompiledProgramReturns | csi/03-languages-and-compilers/01-ast-eval-and-compiler/03-compiler/main.go:8-39 | for every supported program, inputs and run of the source that returns v, the assembled bytes, loaded and executed, halt with v at address 0, if code, data and stack fit in 256 bytes |
| ByteVm.MachineReturnsExactly | csi/03-languages-and-compilers/01-ast-eval-and-compiler/03-compiler/main.go:8-39 | for every supported program that ends in a return and uses the seven operators, the machine halts with v at address 0 if and only if the source returns v; so a source that loops forever or divides by zero never halts it |
| ByteVm.MachineReturnsWithRoom | csi/03-languages-and-compilers/01-ast-eval-and-compiler/03-compiler/main.go:8-39 | the same equivalence for programs that may fall off their end, when one byte behind code, data and stack is left over |
| ByteVm.HaltsOnlyIfReturns | csi/03-languages-and-compilers/01-ast-eval-and-compiler/03-compiler/vm.go:102-176 | a machine that halts does so because the source returns the byte at address 0, or falls off its end without a return |
| ByteVm.HaltsOnlyByReturn | csi/03-languages-and-compilers/01-ast-eval-and-compiler/03-compiler/vm.go:102-176 | with a byte to spare a machine halts only because its source returns the byte at address 0; a source that falls off its end runs into the invalid opcode 0 |
| ByteVm.UnknownOpcodeFails | csi/03-languages-and-compilers/01-ast-eval-and-compiler/03-compiler/vm.go:170-175 | every byte that is no opcode stops the machine with an error, and only 0xff halts it |
| ByteVm.OperationBytes | csi/03-languages-and-compilers/01-ast-eval-and-compiler/03-compiler/vm.go:46-99 | the ten binary opcodes: what replaces the two top bytes, modulo 256, and the failing division by zero |
| ByteVm.MoveBytes | csi/03-languages-and-compilers/01-ast-eval-and-compiler/03-compiler/vm.go:105-169 | the moves and jumps: memory, pc and sp after each, with byte wrap-around |
| CompilerSamples.ProductOfSums | csi/03-languages-and-compilers/01-ast-eval-and-compiler/03-compiler/pipeline_test.go:45-50 | 2 * (x + 3) * (y + 4): the code, and for all bytes x and y the machine returns v if and only if v is that number modulo 256 |
| CompilerSamples.DistanceOfProductAndSum | csi/03-languages-and-compilers/01-ast-eval-and-compiler/03-compiler/pipeline_test.go:120-133 | two locals and an if with else: the code, and for all bytes the machine returns exactly the distance of x * y and x + y as bytes |
| CompilerSamples.Fibonacci | csi/03-languages-and-compilers/01-ast-eval-and-compiler/03-compiler/pipeline_test.go:144-160 | the for loop with three locals: for all bytes x the machine returns exactly the (x + 1)-st Fibonacci number modulo 256 |
| CompilerSamples.LoopMeans | csi/03-languages-and-compilers/01-ast-eval-and-compiler/03-compiler/pipeline_test.go:153-158 | the loop ends after x rounds with the next Fibonacci number in b, and is still running with less fuel |
| CompilerSamples.Operators | csi/03-languages-and-compilers/01-ast-eval-and-compiler/03-compiler/compile.go:350-369 | each operator: its value on bytes and the line of assembly; any other has neither |
| CompilerCorrect.ProgramEnds | csi/03-languages-and-compilers/01-ast-eval-and-compiler/03-compiler/compile.go:23-36 | the assembly goes on as the source does: to a halt with its value, to a division by zero, to its end, or for at least as many steps as the source makes iterations |
| StackMachine.ExprFaults | csi/03-languages-and-compilers/01-ast-eval-and-compiler/03-compiler/compile.go:122-137 | an expression whose value would need a division by zero brings its code to that division |
| CompilerCorrect.ProgramRuns | csi/03-languages-and-compilers/01-ast-eval-and-compiler/03-compiler/compile.go:23-36 | the same for the assembly on the symbolic stack machine |
| CompilerCorrect.StmtRuns | csi/03-languages-and-compilers/01-ast-eval-and-compiler/03-compiler/compile.go:53-83 | compiled code ends as the source statement does: it falls through to its end with the same variables, or halts with the returned value |
| CompilerCorrect.LoopRuns | csi/03-languages-and-compilers/01-ast-eval-and-compiler/03-compiler/compile.go:321-346 | entered at its test, the loop code runs as often as the source loop, for any number of iterations |
| CompilerCorrect.IfRuns | csi/03-languages-and-compilers/01-ast-eval-and-compiler/03-compiler/compile.go:262-291 | the branch code runs the branch the source runs, when the body returns or there is no else |
| StackMachine.ExprRuns | csi/03-languages-and-compilers/01-ast-eval-and-compiler/03-compiler/compile.go:98-153 | expression code pushes exactly the mod-256 value and leaves the deeper stack and the data untouched |
| CompilerCorrect.ResolvedWithin | csi/03-languages-and-compilers/01-ast-eval-and-compiler/03-compiler/compile.go:258-260 | with at most one branch, the hardcoded labels resolve to their own lines |
| CompilerLimits.ElseRunsToo | csi/03-languages-and-compilers/01-ast-eval-and-compiler/03-compiler/compile.go:282-288 | outside the subset: a body that does not return runs on into the else; the source returns 1, the code the compiler emits for it 2 |
| CompilerLimits.SecondIfIsSkipped | csi/03-languages-and-compilers/01-ast-eval-and-compiler/03-compiler/compile.go:258-260 | outside the subset: with two ifs the first test jumps to the second label; the source returns 2, the code the compiler emits for it 3 |
| TinyLang.BlockSwallowsErrors | csi/03-languages-and-compilers/01-ast-eval-and-compiler/03-compiler/compile.go:67-74 | an unknown variable drops the rest of its block without an error |
| Assembler.Assemble | csi/03-languages-and-compilers/01-ast-eval-and-compiler/03-compiler/assemble.go:51-120 | the first pass collects exactly the labels, each with the address of its last occurrence; the second emits the bytes of every line in order |
| Assembler.PassesAgree | csi/03-languages-and-compilers/01-ast-eval-and-compiler/03-compiler/assemble.go:55-119 | a label's address is 8 plus the number of bytes the second pass emits before it |
| Assembler.EmitAt | csi/03-languages-and-compilers/01-ast-eval-and-compiler/03-compiler/assemble.go:71-118 | the bytes of every line are found at that line's address |
| Assembler.LineBytes | csi/03-languages-and-compilers/01-ast-eval-and-compiler/03-compiler/assemble.go:74-116 | the bytes of every kind of line |
| ByteVm.Execute | csi/03-languages-and-compilers/01-ast-eval-and-compiler/03-compiler/vm.go:39-177 | the loop on the memory array computes the iterated round function |
| ByteVm.Round | csi/03-languages-and-compilers/01-ast-eval-and-compiler/03-compiler/vm.go:102-176 | one fetch and execute: memory, pc and sp as the round function says, with byte wrap-around |
| ByteVm.SimStep | csi/03-languages-and-compilers/01-ast-eval-and-compiler/03-compiler/vm.go:112-175 | a symbolic step is one machine round, or none for a label |
| ByteVm.SimRun | csi/03-languages-and-compilers/01-ast-eval-and-compiler/03-compiler/vm.go:102-176 | a whole symbolic run is replayed by the machine |
| SkipList.List.Insert | csi/05-storage-and-retrieval/03-leveldb-lsm/skiplist/skiplist.go:55-85 | for every drawn level the structure stays well formed and its entries are those of a linear insertion before the first key >= the new one |
| SkipList.List.Search | csi/05-storage-and-retrieval/03-leveldb-lsm/skiplist/skiplist.go:138-150 | returns the first entry with key >= target, as a linear scan would, or nil exactly when there is none |
| SkipList.List.Delete | csi/05-storage-and-retrieval/03-leveldb-lsm/skiplist/skiplist.go:152-180 | removes the newest entry with the key and succeeds exactly if there is one; every level stays linked and empty top levels are dropped |
| SkipList.List.Update | csi/05-storage-and-retrieval/03-leveldb-lsm/skiplist/skiplist.go:182-198 | overwrites the newest entry with the key, or inserts one |
| SkipList.List.Descend | csi/05-storage-and-retrieval/03-leveldb-lsm/skiplist/skiplist.go:59-64 | the nested loops end, on every level, at the last node before the key |
| SkipList.List.Along | csi/05-storage-and-retrieval/03-leveldb-lsm/skiplist/skiplist.go:60-62 | the inner loop ends at the last node of its level before the key |
| SkipList.List.Path | csi/05-storage-and-retrieval/03-leveldb-lsm/skiplist/skiplist.go:59-73 | the recorded nodes are the last before the key on every level the new node has, the head on the levels it adds |
| SkipList.List.Unlink | csi/05-storage-and-retrieval/03-leveldb-lsm/skiplist/skiplist.go:166-171 | the loop that stops at the first level not pointing to the node bypasses it on exactly its own levels |
| SkipList.List.ShrinkLevel | csi/05-storage-and-retrieval/03-leveldb-lsm/skiplist/skiplist.go:173-175 | the loop drops just the empty top levels |
| SkipLevels.LevelIsSubsequence | csi/05-storage-and-retrieval/03-leveldb-lsm/skiplist/skiplist.go:55-85 | walking level l from the head visits exactly the level-0 nodes that are tall enough, in level-0 order, and at level 0 all of them |
| SkipLevels.ContentsSorted | csi/05-storage-and-retrieval/03-leveldb-lsm/skiplist/skiplist.go:55-85 | the level-0 entries are ordered by key |
| SkipSplices.InsertLinks | csi/05-storage-and-retrieval/03-leveldb-lsm/skiplist/skiplist.go:81-84 | splicing a node in behind the recorded nodes keeps every level linked |
| SkipSplices.DeleteLinks | csi/05-storage-and-retrieval/03-leveldb-lsm/skiplist/skiplist.go:166-171 | bypassing a node keeps every level linked |
| SkipList.CutHitsFirst | csi/05-storage-and-retrieval/03-leveldb-lsm/skiplist/skiplist.go:166-171 | a recorded node points to the found node exactly on the levels that node has |
| Memtable.InsertedVersions | csi/05-storage-and-retrieval/03-leveldb-lsm/skiplist/skiplist.go:55-85 | an insert puts one version in front of the key's and leaves every other key alone |
| Memtable.RemovedVersions | csi/05-storage-and-retrieval/03-leveldb-lsm/skiplist/skiplist.go:152-180 | a delete takes the newest version away and fails exactly if there is none |
| Memtable.OverwrittenVersions | csi/05-storage-and-retrieval/03-leveldb-lsm/skiplist/skiplist.go:182-198 | an update replaces the newest version or adds the first |
| Memtable.InsertThenRemove | csi/05-storage-and-retrieval/03-leveldb-lsm/skiplist/skiplist.go:55-180 | a delete undoes the insert before it |
| Memtable.StaysSorted | csi/05-storage-and-retrieval/03-leveldb-lsm/skiplist/skiplist.go:55-198 | all operations keep the entries ordered |
| Memtable.FirstFromMeaning | csi/05-storage-and-retrieval/03-leveldb-lsm/skiplist/skiplist.go:138-150 | the scan stops at the first entry that is not less, which is the newest version if the key has one and a greater key otherwise |
| ByteKeys.CompareRank | csi/05-storage-and-retrieval/03-leveldb-lsm/skiplist/skiplist.go:60 | the byte-wise comparison is a total order on keys, equal only for equal keys |
| ByteKeys.Lexicographic | csi/05-storage-and-retrieval/03-leveldb-lsm/skiplist/skiplist.go:60 | it is the lexicographic order: a proper prefix comes first, otherwise the first byte that differs decides; the result is -1, 0 or 1 |
| Wal.RecordRoundTrip | csi/05-storage-and-retrieval/03-leveldb-lsm/wal/wal.go:44-60 | a record is read back as written, whatever follows it, if and only if its lengths fit in 32 bits |
| Wal.ParseThenEncode | csi/05-storage-and-retrieval/03-leveldb-lsm/db.go:109-148 | whatever is parsed as a record encodes to the same bytes |
| Wal.TruncatedLog | csi/05-storage-and-retrieval/03-leveldb-lsm/db.go:107-157 | a log cut at any byte yields exactly its complete records in order, and an error exactly if the cut is inside a record |
| Wal.CompleteIsMost | csi/05-storage-and-retrieval/03-leveldb-lsm/db.go:107-157 | the complete records of a cut log are as many as fit before the cut |
| Wal.WholeLog | csi/05-storage-and-retrieval/03-leveldb-lsm/db.go:107-157 | a whole log yields the whole history and no error |
| Wal.Uint32RoundTrip | csi/05-storage-and-retrieval/03-leveldb-lsm/wal/wal.go:63-67 | decoding an encoded length gives it modulo 2^32 |
| Wal.Log.Write | csi/05-storage-and-retrieval/03-leveldb-lsm/wal/wal.go:44-55 | the buffer built field by field is appended as one record |
| Wal.RecordBytes | csi/05-storage-and-retrieval/03-leveldb-lsm/wal/wal.go:44-67 | the bytes of a record: 1 or 2 for the operation, each length in four bytes with the most significant first, then key and value |
| LevelDb.Restart | csi/05-storage-and-retrieval/03-leveldb-lsm/db.go:100-158 | recovery into an empty memtable from any prefix of the log rebuilds the entries of exactly the complete records, and the same entries as before from the whole log, whatever levels are drawn |
| LevelDb.Db.RecoverFromWAL | csi/05-storage-and-retrieval/03-leveldb-lsm/db.go:107-158 | the loop applies the complete records in order through Put and Delete, ignores failed deletes and unknown operations, and fails exactly at a torn record |
| LevelDb.ReadRecord | csi/05-storage-and-retrieval/03-leveldb-lsm/db.go:110-148 | the successive reads of one round parse a record as the format says, or fail exactly on a torn one |
| LevelDb.Db.Put | csi/05-storage-and-retrieval/03-leveldb-lsm/db.go:70-77 | log and memtable both gain the operation |
| LevelDb.Db.Delete | csi/05-storage-and-retrieval/03-leveldb-lsm/db.go:79-89 | the record is logged in any case; success exactly if the key had a version |
| LevelDb.Db.Get | csi/05-storage-and-retrieval/03-leveldb-lsm/db.go:50-60 | the value of the first key >= the one asked for |
| LevelDb.Db.Has | csi/05-storage-and-retrieval/03-leveldb-lsm/db.go:62-68 | true exactly if some stored key is >= the one asked for |
| LevelDb.GetRightExactly | csi/05-storage-and-retrieval/03-leveldb-lsm/db.go:50-60 | Get answers with the key's newest value, or "not found", if and only if the key is stored or no greater key is |
| LevelDb.GetFindsAnotherKey | csi/05-storage-and-retrieval/03-leveldb-lsm/db.go:50-60 | a concrete lookup answered with another key's value |
| LevelDb.HistoryVersions | csi/05-storage-and-retrieval/03-leveldb-lsm/db.go:70-89 | after any history, failed deletes included, the versions of a key are a stack that puts push and deletes pop |
| LevelDb.DeleteUncovers | csi/05-storage-and-retrieval/03-leveldb-lsm/db.go:79-89 | a delete brings back the value from before the newest put |
| JobControl.RunInv | labs/07_shlab/shlab-handout/tsh.c:186-209 | every state reached from the start by any interleaving of commands, signals and child events satisfies the job-control invariant |
| JobControl.StepInv | labs/07_shlab/shlab-handout/tsh.c:303-405 | each step of the main loop, of the handlers and of the children keeps it |
| JobControl.AtMostOneForeground | labs/07_shlab/shlab-handout/tsh.c:23-31 | at most one job is FG, and only while waitfg sleeps on it |
| JobControl.ReturnsWithoutForeground | labs/07_shlab/shlab-handout/tsh.c:351-360 | waitfg returns only when no job is FG |
| JobControl.NoLostWakeUp | labs/07_shlab/shlab-handout/tsh.c:351-405 | while waitfg sleeps on an added job it is FG in the table and not reaped; if it has something to report, SIGCHLD is pending or being handled, and reaping it clears susp; otherwise, once no signal is pending or handled, the child is running |
| JobControl.BgFgStep | labs/07_shlab/shlab-handout/tsh.c:326-343 | bg leaves the job BG and fg leaves it FG, a stopped child runs again, no other slot or child changes, and only fg waits |
| JobControl.HandlerWakes | labs/07_shlab/shlab-handout/tsh.c:373-405 | the handler does not leave while the awaited child has something to report |
| JobControl.AliveUntilOverflow | labs/07_shlab/shlab-handout/tsh.c:326-328 | as long as every addjob found a slot, neither app_error is reached and every child has its job |
| JobControl.AddedExactly | labs/07_shlab/shlab-handout/tsh.c:200-206 | a foreground job is waited for as an added one if and only if the table had an empty slot |
| JobControl.OverflowNeverReturns | labs/07_shlab/shlab-handout/tsh.c:477-500 | otherwise waitfg does not return, and reaping the child kills the shell |
| JobControl.SeventeenthJobStrands | labs/07_shlab/shlab-handout/tsh.c:477-500 | a concrete run that gets there: sixteen background jobs and one foreground job |
| JobControl.ForwardTarget | labs/07_shlab/shlab-handout/tsh.c:412-439 | ctrl-c and ctrl-z reach the job waitfg sleeps on, or none |
| JobControl.Globals.Launch | labs/07_shlab/shlab-handout/tsh.c:203-206 | the blocked section of eval: the first empty slot takes the job as BG or FG, if there is one, and susp is set for FG either way |
| JobControl.Globals.DoBgFg | labs/07_shlab/shlab-handout/tsh.c:306-343 | the blocked section of bg and fg: which job is found, when it is an error; otherwise just its state becomes BG or FG, SIGCONT goes out exactly if it was stopped, and susp is set exactly for fg |
| JobControl.Globals.Reap | labs/07_shlab/shlab-handout/tsh.c:381-400 | one round of the SIGCHLD handler: a stop turns the state of the child's job to ST, anything else clears exactly that slot, and susp is cleared exactly if the job was FG; without a job nothing changes |
| JobTable.Jobs.AddJob | labs/07_shlab/shlab-handout/tsh.c:477-500 | the first empty slot, and no other, takes the job under the next job id, which then wraps after 16; false and no change exactly if there is none or the pid is not positive |
| JobTable.Jobs.DeleteJob | labs/07_shlab/shlab-handout/tsh.c:503-518 | the first slot of the pid, and no other, is cleared and nextjid is one above the largest jid left; false and no change exactly if there is none |
| JobTable.Jobs.GetJobPid | labs/07_shlab/shlab-handout/tsh.c:531-540 | the first slot with the pid, or none |
| JobTable.Jobs.GetJobJid | labs/07_shlab/shlab-handout/tsh.c:543-553 | the first slot with the jid, or none |
| JobTable.Jobs.FgPid | labs/07_shlab/shlab-handout/tsh.c:521-528 | the pid of the first foreground job, or 0 |
| JobTable.Jobs.MaxJid | labs/07_shlab/shlab-handout/tsh.c:466-474 | the largest jid in the table, or 0 |
| Smooth.Smooth | labs/perflab/perflab-handout/kernels.c:207-298 | for every image of dimension 2 or more every pixel is written with the average of its clipped 3 x 3 neighbourhood |
| Smooth.NaiveSmooth | labs/perflab/perflab-handout/kernels.c:159-166 | the naive kernel writes the same averages, for every dimension |
| Smooth.BothKernels | labs/perflab/perflab-handout/kernels.c:159-298 | run on the same image, the two kernels leave equal arrays |
| Smooth.OneOutput | labs/perflab/perflab-handout/kernels.c:159-298 | a finished output is determined by the image |
| Smooth.SmoothRow | labs/perflab/perflab-handout/kernels.c:214-236 | the sliding window yields one row of averages; its sum is always that of the columns it covers |
| Smooth.Avg | labs/perflab/perflab-handout/kernels.c:136-149 | the clipped double loop gives the average of the neighbourhood |
| Smooth.NineNeighbours | labs/perflab/perflab-handout/kernels.c:136-149 | the average is the sum of the nine neighbours, those outside the image counting as nothing, divided by the number that are inside |
| Smooth.WindowAdd | labs/perflab/perflab-handout/kernels.c:184-188 | adding a column to the window does not overflow 32 bits |
| Smooth.WindowDrop | labs/perflab/perflab-handout/kernels.c:190-194 | taking the left column away does not underflow |
| Smooth.ToPixelExact | labs/perflab/perflab-handout/kernels.c:196-200 | the sums stay below 2^31 and the averages fit in 16 bits |
| Smooth.Column | labs/perflab/perflab-handout/kernels.c:225-228 | a column of the window is summed exactly |
| Rio.Session | labs/08_proxylab/proxylab-handout/csapp.c:805-894 | however read() splits the stream and however often it is interrupted, any sequence of calls delivers what the stream alone determines, and fails only if a read fails |
| Rio.OutputsJoin | labs/08_proxylab/proxylab-handout/csapp.c:849-894 | what the calls deliver joins to a prefix of the stream |
| Rio.OutputsInOrder | labs/08_proxylab/proxylab-handout/csapp.c:849-894 | each call delivers what it takes from the stream behind the bytes of the calls before it |
| Rio.EnoughCallsDeliverAll | labs/08_proxylab/proxylab-handout/csapp.c:849-894 | calls that keep asking deliver the whole stream |
| Rio.Reader.ReadNb | labs/08_proxylab/proxylab-handout/csapp.c:849-864 | n bytes in stream order, fewer only if they are all that is left; -1 only after a failed read, which drops the bytes copied before it |
| Rio.Reader.ReadLineB | labs/08_proxylab/proxylab-handout/csapp.c:871-893 | the bytes through the first newline, at most maxlen - 1, or to the end, no newline before the last byte, and a terminating 0 unless nothing was left |
| Rio.LineStops | labs/08_proxylab/proxylab-handout/csapp.c:876-890 | a line has a newline at most at its end, and stops short of cap and end only there |
| Rio.Reader.LineLoop | labs/08_proxylab/proxylab-handout/csapp.c:876-890 | the loop leaves exactly the bytes of the line in the buffer and the rest of the stream ahead |
| Rio.Reader.RioRead | labs/08_proxylab/proxylab-handout/csapp.c:805-830 | some of the bytes ahead, none only at the end or when none is asked for; a failure takes nothing |
| Rio.Reader.Refill | labs/08_proxylab/proxylab-handout/csapp.c:809-820 | the refill loop ends despite interruptions and loses no byte |

## Left out

- First-fit searches, the implicit and explicit list configurations of the allocator, printing and space-utilisation measurement.
- Allocator.Heap.Init: the heap limit is below 2^31 bytes and memory is a whole number of words, as with the driver's 20 MB heap; a request that wraps is answered with the wrapped size, and its payload is then not claimed to cover the request.
- TraceDriver.EvalValid: traces only resize and free blocks in use, as the driver's trace files do; a second malloc under the same index leaves the first block allocated and untracked by index. The driver's char is taken as signed, as on the 32-bit x86 target of its Makefile.
- pylong_and, allocation failures (NULL results), reference counts, type-slot dispatch and float objects of cpython_int.c.
- SharedBuffer.EveryRun: front and rear are unbounded integers; their wrap-around after 2^31 insertions is not modelled. The same holds for readcnt.
- Fairness and starvation of the two semaphore protocols: progress is stated as an enabled step.
- The data race on clk when cache_get runs under the read lock: the cache is modelled sequentially and the lock separately.
- LruCache.Cache.Put: the clock is required to increase strictly from call to call; keys and values longer than the fixed buffers are not modelled. The number of slots is a parameter (10 in the source).
- Assembly text: a program is a sequence of instructions, so splitting lines, parsing numbers and the "invalid operation" error have no counterpart. The parser of Go source is not part of this model.
- varToMem and nextMemoryLocation surviving from one compilation to the next: every compilation starts from the initial map.
- Programs outside the supported subset, beyond the two shown in CompilerLimits: no claim is made. Declarations without a value compile to nothing and their variables read as 0.
- ByteVm.HaltsOnlyIfReturns: without a spare byte behind the code (ByteVm.HaltsOnlyByReturn has one), what the machine does after a program has fallen off its end is not modelled, since it then executes whatever the stack has left there.
- ByteVm.Execute: bounded by an argument that counts rounds, since the loop of the source need not end.
- SkipList.List.Insert: nodes are arena entries addressed by index, and a deleted node stays in the arena unreachable, where the source leaves it to the garbage collector. The distribution of random levels is not modelled.
- LevelDb.Restart: lengths are below 2^32, as the format demands. Write errors of the log, file names (recovery opens a file called wal.go, not the log) and the unfinished tables on disk are not modelled; the file read and the log appended to are different.
- Iterators and range scans over the skip list.
- JobControl.NoLostWakeUp: states which steps are enabled, not that the scheduler takes them. Command-line parsing, messages, cmdline strings, process groups and failures of system calls are not modelled.
- Uniqueness of job ids, which the code does not ensure.
- Smooth.Smooth: dimension 2 or more, since with dimension 1 the code reads past the image. The three copies of the row code are one method with the number of rows and the two divisors as parameters. The rotate kernels are not modelled.
- Rio.Session: the plan of replies is finite, so interruptions are finite; after the end of the stream no more data arrives. rio_readn and rio_writen are not modelled.
- Everything else in the repository: sockets, servers, timing, printing, unfinished exercises and small drills, which have no invariant of their own or would only add easy members.
