# Verified models of the lab programs

A Dafny model of the state-changing cores of the labs and proofs of what they
promise. Each program is modelled in its own form: objects whose fields change
are classes, algorithms on memory work on arrays, loops are loops, and each
method is proved against a specification function or predicate about which the
theorems are proved.

**The allocator (LAB6).** `Memory` holds the simulated heap as an array of bytes
with a ghost view as 32-bit words. `FreeList`, `Layout` and `BoundaryTags` say what
it means for that memory to hold a doubly linked address-ordered list, a
gap-free sequence of blocks, and header and footer tags; `Coalescing` and
`Placement` prove how single stores move all three together. `Allocator.Heap`
is mm.c itself, word by word. `Requests` states mm_malloc and mm_free as functions on
layouts: first fit by linear scan, growth, carving, and merging by a normal
form. Addresses are byte offsets from mem_start_brk, which is 8-aligned; offset
0 is the padding word, so 0 is also NULL. `Traces`, `Ranges` and `Driver` are
eval_mm_valid with its range list as the client of the allocator.

**The cache simulator (LAB4).** `Bits` defines masks and shifts bit by bit, `Lru`
the recency stack of a history, `CacheSet` relates timestamps to the stack,
and `CacheSim` is the flat array of lines with access_mem and run. `Transpose` has the
three blocked branches, with a ghost log of the cells written.

**The shell (LAB5).** `Jobs` is the job table; `Shell` interleaves the steps of the
main loop with table updates of the SIGCHLD handler at every point, and keeps
track of the children that are still to be reaped; `Commands` says what each step does. Nothing
relies on SIGCHLD being blocked before addjob, because `mask_one` is never
initialised (LAB5_tshlab/tsh.c:188,198).

**Input, output and smaller cores.** `Rio` reads from a descriptor that answers each
read with any portion, an interrupt or an error. `Sio` prints numbers in place.
`Queue` rewires real nodes. `Sampler` is the K-best scheme of fcyc.c over reals.
`Balancer` is checktrace.pl, and `Verdicts` says what it answers. `Arithmetic`, `Bytes` and `Sequences` are shared.

## Where the code falls short of its documentation

The model follows the code. Each of these is a theorem with the exact condition
or an input that shows it:

- eval_mm_valid compares a signed `char` with `index & 0xFF`, so it rejects a
  correct realloc of an id whose low byte is 128 or more
  (`Driver.Replay.EvalMmValid`, `Driver.RejectedTrace`).
- add_range is to refuse overlapping payloads, but accepts one that encloses a
  recorded one (`Ranges.AcceptableIff`, `Ranges.EnclosingAccepted`).
- q_remove_head leaves `tail` behind when it empties the queue, and a following
  q_insert_tail stores into the freed node and loses its element (`Queue.Queue.InsertTail`, `Queue.LoseElement`).
- waitfg can wait without end, for two causes. do_bgfg reads `job->pid` again after
  unblocking signals; if the job was reaped in between it waits for process 0
  (`Shell.StuckOnZero`). And a child that ends before addjob is entered after it was
  reaped, as a job that nothing deletes (`Shell.StuckOnReaped`, `Shell.StuckOnReuse`).
  `Shell.ReturnsIff` has the exact condition, `Shell.MaskedReturnsIff` what remains
  of it when SIGCHLD is blocked from fork to addjob.
- sigchld_handler does not check getjobpid for NULL (`Shell.CrashesIff`,
  `Shell.CrashIsReachable`).
- Job IDs can collide (`Shell.AddedDistinctIff`, `Shell.JidsCollide`).
- sio_ltoa prints one wrong character for a negative number (`Sio.PrintsValueIff`,
  `Sio.NegativePrints`).
- rio_readlineb does not terminate the user buffer when nothing was left to read
  and maxlen is above 1 (`Rio.Reader.ReadLineB`, `Rio.UnterminatedLine`).
- checktrace.pl never reports a reused id, since a free deletes the entry that its
  test looks for (`Balancer.DeadTests`, `Balancer.ReusedId`); its test for a second
  free never succeeds either, and a second free is refused as one of an unallocated
  block (`Balancer.DeadTests`, `Balancer.RefusedIff`). A command other than a, r and f
  hides a second allocate (`Balancer.ForeignCommandHidesAllocate`).

## Model

| member | source | states |
|---|---|---|
| Memory.Mem.constructor | LAB6_malloclab/memlib.c:25-38 | the arena of MAX_HEAP bytes with the break at its start |
| Memory.Mem.ResetBrk | LAB6_malloclab/memlib.c:48-51 | the heap is empty again |
| Memory.Mem.Sbrk | LAB6_malloclab/memlib.c:58-69 | the break moves up by the increment and its old value is returned exactly when the increment is not negative and the arena suffices; otherwise failure and no change |
| Memory.Mem.Get | LAB6_malloclab/mm.c:62 | a word read is the little-endian value of its four bytes |
| Memory.Mem.Put | LAB6_malloclab/mm.c:63 | storing a word changes that word of the word view and no other |
| Memory.PutRepresents | LAB6_malloclab/mm.c:62-63 | the byte array and the word view stay in step under a word store |
| Memory.BytesOfWords | LAB6_malloclab/mm.c:62-63 | if the words of a doubleword-aligned interval are unchanged, so is every byte of it |
| Memory.Mem.Copy | LAB6_malloclab/mm.c:198 | memcpy copies the source bytes and leaves every byte and word outside the target alone |
| Memory.Mem.Fill | LAB6_malloclab/mdriver.c:626 | memset fills exactly its interval |
| FreeList.Unlink | LAB6_malloclab/mm.c:403-423 | rewriting the two neighbouring link words takes exactly one node out of the doubly linked, address-ordered list |
| FreeList.UnlinkedWords | LAB6_malloclab/mm.c:403-423 | those are the only two words that change |
| FreeList.Link | LAB6_malloclab/mm.c:429-464 | the link stores of put_block insert exactly one node at its place in the address order |
| FreeList.NodeFacts | LAB6_malloclab/mm.c:403-464 | each node reads as its successor and, one word further, its predecessor, 0 at the ends |
| Layout.TilesOrdered | LAB6_malloclab/mm.c:69-75 | blocks that tile an extent are ordered and inside it |
| Layout.TilesTotal | LAB6_malloclab/mm.c:69-75 | their sizes add up to the extent |
| Layout.CoalescedIsNormal | LAB6_malloclab/mm.c:208-259 | the four cases of coalesce compute the layout with every maximal run of free blocks merged |
| Layout.NormalizeNoAdjacentFree | LAB6_malloclab/mm.c:208-259 | after merging, no two adjacent blocks are free |
| Layout.NormalizeTiles | LAB6_malloclab/mm.c:208-259 | merging keeps the tiling |
| Layout.NormalizeFixed | LAB6_malloclab/mm.c:208-259 | merging leaves a layout without adjacent free blocks alone |
| Layout.GrownShape | LAB6_malloclab/mm.c:265-288 | new space at the break is merged with a free block before it, and with nothing else |
| Layout.CarveTiles | LAB6_malloclab/mm.c:319-347 | splitting keeps the tiling |
| Layout.FirstFit | LAB6_malloclab/mm.c:293-312 | the linear scan over all blocks: the first free block that is large enough, or the number of blocks when there is none |
| Layout.FreeAddrsMember | LAB6_malloclab/mm.c:429-464 | the free list of a layout has exactly the payload pointers of its free blocks |
| BoundaryTags.TagFields | LAB6_malloclab/mm.c:59-67 | GET_SIZE and GET_ALLOC undo PACK |
| BoundaryTags.LinksSpareTags | LAB6_malloclab/mm.c:403-464 | relinking free blocks changes no header, footer, prologue, epilogue or live payload |
| BoundaryTags.BlockFacts | LAB6_malloclab/mm.c:69-75 | header and footer of every block are equal and give back its size and state |
| BoundaryTags.PayloadSparesHeap | LAB6_malloclab/mm.c:140-201 | a client that writes inside a live payload disturbs neither the tags nor the list nor another payload |
| BoundaryTags.LiveApart | LAB6_malloclab/mm.c:140-201 | distinct live blocks do not overlap |
| BoundaryTags.PreservedBytes | LAB6_malloclab/mm.c:140-201 | preserved words of a payload are preserved bytes |
| Coalescing.PrevFacts | LAB6_malloclab/mm.c:209-214 | the footer before a block leads to the previous header, whose allocated bit is that of the previous block or of the prologue |
| Coalescing.NextFacts | LAB6_malloclab/mm.c:209-214 | the word after a block is the next header or the epilogue, with the corresponding allocated bit |
| Coalescing.CoalescedCases | LAB6_malloclab/mm.c:215-254 | which blocks become one in each of the four cases |
| Coalescing.FuseMemory | LAB6_malloclab/mm.c:219-254 | storing one header and one footer turns a run of blocks into one free block in memory, keeps the links of all other nodes and every live payload, and put_block then completes the list |
| Coalescing.ListFirstFit | LAB6_malloclab/mm.c:371-397 | the first large enough node of the free list is the first large enough block of the linear scan, and both fail together |
| Coalescing.ExtendMemory | LAB6_malloclab/mm.c:265-288 | the three stores of extend_heap append a free block and move the epilogue, keeping everything else |
| Placement.CarveMemory | LAB6_malloclab/mm.c:319-347 | the stores of place turn one free block into the carved pieces and keep every live payload |
| Allocator.RootIndex | LAB6_malloclab/mm.c:353-364 | the size classes 1-2, 3, 4, 5-8 and above; every block size, being at least 16, selects list 4 |
| Allocator.ExtendSize | LAB6_malloclab/mm.c:269-274 | the least multiple of 8 that is at least 16 bytes and holds the words asked for |
| Allocator.Heap.InvariantWords | LAB6_malloclab/mm.c:114-464 | the heap invariant word by word: prologue, epilogue, equal headers and footers, tiling, no adjacent free blocks, roots 0..3 NULL, and root 4 leading through exactly the free blocks in address order, linked both ways |
| Allocator.BreakBlock | LAB6_malloclab/mm.c:158-163 | the tags before the break give mm_malloc exactly the shortfall of the trailing block |
| Allocator.Heap.Init | LAB6_malloclab/mm.c:114-134 | mm_init succeeds on an empty arena and establishes the heap invariant with one free block of 64 bytes |
| Allocator.Heap.RemoveBlock | LAB6_malloclab/mm.c:403-423 | removes exactly the given node from list and memory, keeps the heap consistent and every live payload |
| Allocator.Heap.PutBlock | LAB6_malloclab/mm.c:429-464 | inserts the block at its place in the address order, keeps the heap consistent and every live payload |
| Allocator.Heap.MergeNext | LAB6_malloclab/mm.c:219-228 | case 2 of coalesce fuses the block with its successor |
| Allocator.Heap.MergePrev | LAB6_malloclab/mm.c:230-239 | case 3 fuses it with its predecessor |
| Allocator.Heap.MergeBoth | LAB6_malloclab/mm.c:241-254 | case 4 fuses three blocks |
| Allocator.Heap.Coalesce | LAB6_malloclab/mm.c:208-259 | from a heap with one newly free block to the heap invariant: the layout becomes its normal form, the result is the merged block, live payloads are kept |
| Allocator.Heap.ExtendHeap | LAB6_malloclab/mm.c:265-288 | grows by the rounded size, at least 16 bytes, merged with a trailing free block; NULL and no change exactly when the arena is too small |
| Allocator.Heap.GetBlock | LAB6_malloclab/mm.c:293-312 | walking the segregated lists returns the block of the linear first-fit scan of the whole heap, NULL exactly when no free block is large enough |
| Allocator.Heap.Place | LAB6_malloclab/mm.c:319-347 | allocates the start of the block and splits off the rest exactly when 16 bytes or more remain |
| Allocator.Heap.Malloc | LAB6_malloclab/mm.c:140-168 | keeps the heap invariant, returns NULL exactly for size 0, otherwise the new heap and block are those of first fit on the possibly grown layout; no payload byte of a live block changes |
| Allocator.Heap.Free | LAB6_malloclab/mm.c:173-185 | keeps the heap invariant, the new layout is the old one with the block marked free and merged; no other live payload changes |
| Allocator.Heap.MallocCopy | LAB6_malloclab/mm.c:190-198 | the allocate-and-copy half of mm_realloc: the new payload starts with min(size, old block size - 8) bytes of the old one |
| Allocator.Heap.Realloc | LAB6_malloclab/mm.c:190-201 | each of the first min(size, old block size - 8) bytes of the result is that of the old payload, even after the old block was freed and merged; every other live payload is kept |
| Allocator.Heap.CheckNoContiguousFree | LAB6_malloclab/mm.c:525-546 | returns 1 exactly when no two adjacent blocks are free; the heap invariant says that none are |
| Requests.Adjusted | LAB6_malloclab/mm.c:150-155 | the block size asked for is the least multiple of 8 from 16 on that holds the payload and both tags |
| Requests.FirstFitUnique | LAB6_malloclab/mm.c:371-397 | the block found is the only one that fits with none fitting before it |
| Requests.GrowthBound | LAB6_malloclab/mm.c:158-167 | with no fit the heap grows by max(16, asize - trailing free bytes); the merged last block is then the first fit, has asize or asize + 8 bytes and is placed without a split |
| Requests.MallocAddsBlock | LAB6_malloclab/mm.c:140-168 | a request keeps the heap valid and adds exactly one live block, large enough, 8-aligned, inside the heap and disjoint from all live blocks |
| Requests.FreeRemovesBlock | LAB6_malloclab/mm.c:173-185 | freeing keeps the heap valid and ends the life of exactly that block |
| Requests.NormalizeMarked | LAB6_malloclab/mm.c:173-185 | coalescing before further frees makes no difference to the final layout |
| Requests.FreesCommute | LAB6_malloclab/mm.c:173-185 | any sequence of frees, in any order, leads to the layout with all of them marked and merged once |
| Requests.FullRecovery | LAB6_malloclab/mm.c:173-259 | once every live block was freed, in whatever order, the heap is one free block of all bytes but the 16 of prologue and epilogue |
| Requests.SizesSumToHeap | LAB6_malloclab/memlib.c:90-93 | block sizes always sum to the heap size less 16 |
| Traces.LoseValid | LAB6_malloclab/mdriver.c:605-631 | an ALLOC of an id that still has a payload loses that payload without freeing it |
| Traces.StepValid | LAB6_malloclab/mdriver.c:602-681 | after every request of a well-formed trace the live and lost payloads own exactly the live blocks, one each, all large enough |
| Traces.RunValid | LAB6_malloclab/mdriver.c:602-681 | and so after every well-formed trace |
| Traces.BalancedTraceRecovers | LAB6_malloclab/mdriver.c:578-686 | a trace that ends with no payload live or lost leaves one free block spanning the heap |
| Ranges.NewBlockAcceptable | LAB6_malloclab/mdriver.c:382-430 | a payload in a new block passes every test of add_range, and overlaps no recorded range in any way, not only in the ways add_range looks for |
| Ranges.RecordRenamed | LAB6_malloclab/mdriver.c:605-631 | a lost payload stays in the range list |
| Ranges.RecordMoved | LAB6_malloclab/mdriver.c:633-645 | after a realloc the range list again records exactly the live and lost payloads |
| Ranges.DroppedMembers | LAB6_malloclab/mdriver.c:435-450 | remove_range drops exactly the range that starts at the pointer |
| Ranges.AcceptableIff | LAB6_malloclab/mdriver.c:391-416 | what add_range accepts: aligned payloads inside the heap that share no byte with a recorded one, unless they reach beyond it at both ends |
| Ranges.EnclosingAccepted | LAB6_malloclab/mdriver.c:408-416 | a payload around a recorded one is accepted though they overlap |
| Driver.Replay.AddRange | LAB6_malloclab/mdriver.c:382-430 | accepts exactly that, and then records the payload in front |
| Driver.Replay.RemoveRange | LAB6_malloclab/mdriver.c:435-450 | the list walk unlinks the first range that starts at the pointer |
| Driver.Replay.CheckData | LAB6_malloclab/mdriver.c:653-661 | comparing the copied bytes as signed chars succeeds exactly when the low byte of the id is below 128 |
| Driver.Replay.DoAlloc | LAB6_malloclab/mdriver.c:605-631 | an ALLOC request, of any id, passes all checks and keeps heap, range list, arrays and payload contents in agreement |
| Driver.Replay.DoRealloc | LAB6_malloclab/mdriver.c:633-668 | a REALLOC request passes all checks exactly when the low byte of its id is below 128 |
| Driver.Replay.DoFree | LAB6_malloclab/mdriver.c:670-676 | a FREE request keeps everything in agreement |
| Driver.Replay.EvalMmValid | LAB6_malloclab/mdriver.c:578-686 | on every well-formed trace eval_mm_valid accepts the allocator if and only if no REALLOC names an id whose low byte is 128 or more |
| Driver.SignedLowByte | LAB6_malloclab/mdriver.c:655-656 | a byte read through the signed char pointer equals the low byte of its id exactly when that is below 128 |
| Driver.RejectedTrace | LAB6_malloclab/mdriver.c:653-661 | a well-formed trace of two requests that is rejected although the allocator served it |
| Driver.CopiedFill | LAB6_malloclab/mdriver.c:626-661 | bytes copied from a filled payload carry the fill |
| Bits.MaskValues | LAB4_cachelab/csim.c:66-69 | the masks of cache_init are runs of ones in the set and tag positions, and the subtraction does not wrap |
| Bits.AddressParts | LAB4_cachelab/csim.c:72-77 | tag, set and offset determine the address: nothing is lost and nothing overlaps |
| Lru.RecentMembers | LAB4_cachelab/csim.c:80-142 | the recency stack of a history lists each tag used, once |
| Lru.RecentOrder | LAB4_cachelab/csim.c:80-142 | it is ordered by last use |
| Lru.KeptAppend | LAB4_cachelab/csim.c:80-142 | a stack cut to E tags can be updated from itself, without the history |
| Lru.KeptExactly | LAB4_cachelab/csim.c:80-142 | the cut stack holds min(E, distinct) distinct tags, all of them used later than every tag left out |
| Lru.KeptMonotone | LAB4_cachelab/csim.c:80-142 | a larger cut contains a smaller one |
| CacheSet.HitHolds | LAB4_cachelab/csim.c:89-102 | renewing the timestamp of a hit line makes its tag the most recent |
| CacheSet.FillHolds | LAB4_cachelab/csim.c:115-130 | filling an empty line adds its tag in front |
| CacheSet.EvictHolds | LAB4_cachelab/csim.c:131-141 | overwriting the line with the oldest timestamp drops the least recently used tag |
| CacheSim.ScanMiss | LAB4_cachelab/csim.c:88-141 | what one scan remembers is enough: an empty line if there is one, otherwise the least recently used |
| CacheSim.HeldTags | LAB4_cachelab/csim.c:80-142 | the valid lines of a set hold exactly the tags of its stack, each once |
| CacheSim.WriteHolds | LAB4_cachelab/csim.c:80-142 | a write to one line of the flat array that serves its own set correctly serves all sets |
| CacheSim.Cache.constructor | LAB4_cachelab/csim.c:60-70 | an empty cache holds the empty stacks |
| CacheSim.Cache.AccessMem | LAB4_cachelab/csim.c:80-142 | for any history: 0 exactly when the tag is among the E most recently used of its set, 1 when not but the set has room, 2 when it is full; afterwards every set holds the E most recent tags again |
| CacheSim.Cache.Run | LAB4_cachelab/csim.c:145-181 | over any trace: misses and evictions are those of LRU replacement, hits + misses = lines without fetches + M lines, misses - evictions = valid lines |
| CacheSim.AccessCount | LAB4_cachelab/csim.c:152-167 | each line that is no instruction fetch is one access |
| CacheSim.AccessAt | LAB4_cachelab/csim.c:152-167 | in the order of the lines, with the set and tag of its address |
| CacheSim.ModifyCount | LAB4_cachelab/csim.c:177-179 | the extra hits are the M lines |
| CacheSim.EvictionMeansFull | LAB4_cachelab/csim.c:114-141 | a line is evicted only from a set whose lines are all valid |
| CacheSim.HitsIncluded | LAB4_cachelab/csim.c:80-142 | for the same accesses, what a cache with fewer lines a set holds is held by one with more, so its hits are hits there |
| CacheSim.MissesFallWithWays | LAB4_cachelab/csim.c:145-181 | misses never rise with associativity |
| CacheSim.LinesIncluded | LAB4_cachelab/csim.c:80-142 | a tag in a valid line of one cache is in a valid line of a cache with more lines a set |
| CacheSim.CompareWays | LAB4_cachelab/csim.c:145-181 | two simulators on one trace: the one with more lines a set ends up holding all the other holds and counts no more misses |
| Jobs.JobList.constructor | LAB5_tshlab/tsh.c:491-496 | an empty table |
| Jobs.AddedEntry | LAB5_tshlab/tsh.c:509-531 | whatever the state: the first empty slot gets the process and the next ID, nothing else changes, and IDs count from 1 to 16 and start again; a pid below 1 or a full table changes nothing |
| Jobs.JobList.AddJob | LAB5_tshlab/tsh.c:509-531 | exactly that, refused for a pid below 1 or a full table |
| Jobs.DeletedEntry | LAB5_tshlab/tsh.c:534-548 | the first slot of the process is empty afterwards, nothing else changes, and the next ID is the least from 1 on above the IDs that are left |
| Jobs.JobList.DeleteJob | LAB5_tshlab/tsh.c:534-548 | exactly that, refused when the process is absent |
| Jobs.JobList.MaxJid | LAB5_tshlab/tsh.c:499-506 | the largest job ID in use |
| Jobs.FgPidNames | LAB5_tshlab/tsh.c:551-558 | fgpid names the process of the first foreground slot, and 0 without one |
| Jobs.JobList.FgPid | LAB5_tshlab/tsh.c:551-558 | the loop computes that |
| Jobs.JobList.GetJobPid | LAB5_tshlab/tsh.c:561-570 | the first slot of the process, NULL exactly when there is none |
| Jobs.JobList.GetJobJid | LAB5_tshlab/tsh.c:573-582 | the first slot of the job ID, NULL exactly when there is none |
| Jobs.JobList.ClearJob | LAB5_tshlab/tsh.c:483-488 | empties one slot only |
| Shell.StepInv | LAB5_tshlab/tsh.c:181-440 | every step of the shell loop and of the SIGCHLD handler, in any order, keeps who the foreground job may be at each point of the loop |
| Commands.ForkEffect | LAB5_tshlab/tsh.c:199-199 | at the prompt: a new child to be reaped, or a failure |
| Commands.AddJobEffect | LAB5_tshlab/tsh.c:206-221 | the child is entered as background job and the shell is at the prompt, or as foreground job and the shell waits for it |
| Commands.ForegroundChild | LAB5_tshlab/tsh.c:206-213 | a foreground child with a slot is what ctrl-c reaches, and waitfg does not return at its first poll |
| Commands.FgEffect | LAB5_tshlab/tsh.c:358-362 | fg makes the chosen job the foreground job, whatever its state was; ctrl-c reaches it and waitfg waits for it |
| Commands.BgEffect | LAB5_tshlab/tsh.c:363-367 | bg makes the chosen job a background job and changes nothing else |
| Commands.RereadEffect | LAB5_tshlab/tsh.c:361 | waitfg is called with whatever process the slot names then |
| Commands.PollEffect | LAB5_tshlab/tsh.c:374-380 | the loop goes on exactly while a foreground job has the process, or for process 0 while there is no foreground job |
| Commands.ReapEffect | LAB5_tshlab/tsh.c:400-405 | wherever the shell is, the handler clears the first slot of an ended child, and nothing when it has none |
| Commands.StopEffect | LAB5_tshlab/tsh.c:406-411 | wherever the shell is, the handler marks the first slot of a stopped child, and follows NULL when it has none |
| Commands.IdleEffect | LAB5_tshlab/tsh.c:147-164 | an empty or refused command changes nothing, and quit only ends the shell |
| Commands.EndedStays | LAB5_tshlab/tsh.c:287-291 | an ended or crashed shell does nothing any more |
| Shell.AlwaysSafe | LAB5_tshlab/tsh.c:30-38 | in every interleaving at most one job is in the foreground, and none whenever the shell is at the prompt |
| Shell.SignalTarget | LAB5_tshlab/tsh.c:447-472 | ctrl-c and ctrl-z reach the one foreground job if there is one, and nothing otherwise |
| Shell.LookupFinds | LAB5_tshlab/tsh.c:325-349 | bg and fg only find slots in use |
| Shell.ReturnsIff | LAB5_tshlab/tsh.c:374-380 | a shell in waitfg can come back to the prompt exactly when its process is not the foreground job, or is a child still to be reaped whose reaping deletes the foreground job |
| Shell.StuckStep | LAB5_tshlab/tsh.c:374-380 | otherwise no step of shell or handler changes that |
| Shell.StuckRun | LAB5_tshlab/tsh.c:374-380 | nor does any sequence of steps |
| Shell.StuckOnZero | LAB5_tshlab/tsh.c:358-362 | such a state is reached, even with SIGCHLD blocked around fork, when the resumed job is reaped before do_bgfg reads its pid again |
| Shell.StuckOnReaped | LAB5_tshlab/tsh.c:198-211 | and another, for every child that ends before addjob: the job is entered after its process was reaped |
| Shell.StuckOnReuse | LAB5_tshlab/tsh.c:534-548 | an entry left that way shields the foreground job of a later child with the same process ID from deletejob |
| Shell.MaskedRegistered | LAB5_tshlab/tsh.c:198-211 | with no handler step between fork and addjob every job is a child still to be reaped, in one slot |
| Shell.MaskedReturnsIff | LAB5_tshlab/tsh.c:198-211 | and then a waiting shell can come back exactly when it does not wait for process 0 |
| Shell.CrashesIff | LAB5_tshlab/tsh.c:408-411 | the handler follows a NULL job pointer exactly when the stopped child is not in the table |
| Shell.CrashIsReachable | LAB5_tshlab/tsh.c:198-211 | which the gap between fork and addjob makes possible |
| Shell.AddedDistinctIff | LAB5_tshlab/tsh.c:516-522 | addjob keeps job IDs distinct exactly when the next ID is not in use |
| Shell.DeletedNextIsFresh | LAB5_tshlab/tsh.c:541-544 | after a deletion the next ID is larger than every ID in use |
| Shell.JidsCollide | LAB5_tshlab/tsh.c:509-548 | filling the table, ending two jobs and starting two gives two jobs one ID |
| Rio.LineEnds | LAB7_proxylab/csapp.c:865-881 | a line has no byte 10 before its last one, and ends with one unless it is full or the stream is at its end |
| Rio.LineOf | LAB7_proxylab/csapp.c:865-881 | the line a stream starts with: up to and with its first newline, cut off at maxlen - 1 bytes |
| Rio.Reader.Refill | LAB7_proxylab/csapp.c:798-809 | refilling through any short reads and interrupts loses nothing; 0 only at the end of the stream |
| Rio.Reader.Read | LAB7_proxylab/csapp.c:794-820 | what rio_read stores followed by what is unread is what was unread before; nothing else in the user buffer changes |
| Rio.Reader.ReadNb | LAB7_proxylab/csapp.c:838-854 | all bytes asked for or all that are left, in order |
| Rio.Reader.LineLoop | LAB7_proxylab/csapp.c:865-879 | the loop of rio_readlineb stores the line byte by byte; it returns at once exactly when nothing was left and there was room |
| Rio.Reader.ReadLineB | LAB7_proxylab/csapp.c:860-882 | exactly the line the unread bytes start with, ended by the byte 10 unless it is full or the last; a NUL follows it when something was left to read or maxlen is 1, otherwise the buffer is untouched; nothing past the NUL changes |
| Rio.TwoLines | LAB7_proxylab/csapp.c:860-882 | the stream a, newline, b comes out as two lines, through any short reads and interrupts |
| Rio.UnterminatedLine | LAB7_proxylab/csapp.c:872-873 | at the end of the stream a full buffer of other bytes stays without a NUL |
| Rio.Reader.ReadMix | LAB7_proxylab/csapp.c:794-882 | any mix of both calls returns what a function of the byte stream alone says, however the descriptor portions it; a mix that fails has returned a prefix of that |
| Rio.StreamPreserved | LAB7_proxylab/csapp.c:794-882 | the results of any mix, concatenated, followed by what is left, are the stream: no loss, duplication or reordering |
| Rio.WriteN | LAB7_proxylab/csapp.c:764-780 | all n bytes are written in order, or the call fails after an error and a prefix was written |
| Rio.Reader.constructor | LAB7_proxylab/csapp.c:826-831 | a fresh reader has the whole stream unread |
| Sio.Ltoa | LAB7_proxylab/csapp.c:235-244 | the buffer ends up with the digits most significant first and one NUL |
| Sio.ReverseInPlace | LAB7_proxylab/csapp.c:223-232 | reverses the string before its NUL and touches nothing else |
| Sio.PrintedIsNumeral | LAB7_proxylab/csapp.c:235-244 | for v >= 0 that is the base-b numeral of v without leading zero, and its value is v |
| Sio.PrintedOfValue | LAB7_proxylab/csapp.c:235-244 | conversely every numeral without leading zero is what its value prints as |
| Sio.PrintsValueIff | LAB7_proxylab/csapp.c:235-244 | the string denotes v exactly when v is not negative |
| Sio.NegativePrints | LAB7_proxylab/csapp.c:239-241 | what a negative number prints as: one character, as far below 0 as its last digit |
| Sio.Truncated | LAB7_proxylab/csapp.c:240-241 | quotient and remainder of C: they undo the multiplication, and the remainder has the sign of the dividend |
| Sio.TruncatedIsUnique | LAB7_proxylab/csapp.c:240-241 | and that fixes both |
| Sio.DigitsInAlphabet | LAB7_proxylab/csapp.c:240 | digits are written as 0 to 9 and then a to z |
| Sio.PrintsInOrder | LAB7_proxylab/csapp.c:235-244 | 120 in base 10, 255 in base 16 and 0 come out most significant digit first |
| Sio.LongFits | LAB7_proxylab/csapp.c:265-271 | the 128 bytes of sio_putl hold every long |
| Transpose.TransposeSubmit | LAB4_cachelab/trans.c:26-92 | each branch leaves the transpose in B and writes every cell of B exactly once |
| Transpose.Tiles8 | LAB4_cachelab/trans.c:31-47 | the 8 x 8 branch, for any square matrix of multiples of 8 |
| Transpose.Tiles16 | LAB4_cachelab/trans.c:49-70 | the clipped 16-wide branch, for any M and N |
| Transpose.Tiles4 | LAB4_cachelab/trans.c:72-90 | the 4 x 4 branch, for M and N multiples of 4 |
| Transpose.Row8 | LAB4_cachelab/trans.c:34-43 | one row of an 8 x 8 tile, its diagonal element last |
| Transpose.Row16 | LAB4_cachelab/trans.c:53-67 | one row of a clipped tile, its diagonal element last |
| Transpose.Row4 | LAB4_cachelab/trans.c:75-87 | one row of a 4 x 4 tile, its diagonal element last |
| Transpose.TilesMeet | LAB4_cachelab/trans.c:36-43 | the diagonal crosses an aligned tile exactly when the tile sits on it, so the saved index is set when it is used |
| Transpose.Trans | LAB4_cachelab/trans.c:103-114 | the plain loop leaves the transpose in B |
| Transpose.IsTranspose | LAB4_cachelab/trans.c:138-150 | 1 exactly when B is the transpose of A |
| Transpose.BlockedAgreesWithPlain | LAB4_cachelab/trans.c:26-150 | blocked and plain transposes agree, and is_transpose accepts both |
| Sequences.ReverseTwice | LAB0_cprogramminglab/queue.c:139-159 | reversing twice is the identity |
| Queue.Queue.constructor | LAB0_cprogramminglab/queue.c:23-32 | the empty queue |
| Queue.Queue.InsertHead | LAB0_cprogramminglab/queue.c:57-72 | prepends a new node and keeps the others |
| Queue.Queue.InsertTail | LAB0_cprogramminglab/queue.c:80-101 | appends exactly when the queue is not empty or its tail is NULL; otherwise, and only then, it stores into a freed node and the element is counted but unreachable |
| Queue.Queue.RemoveHead | LAB0_cprogramminglab/queue.c:110-119 | removes, frees and returns the first element, refused exactly for the empty queue; tail is left as it was |
| Queue.Queue.Turn | LAB0_cprogramminglab/queue.c:145-157 | the three-pointer loop turns every link round and changes no value |
| Queue.Queue.ReverseInPlace | LAB0_cprogramminglab/queue.c:139-159 | the same nodes in reverse order |
| Queue.ReversedLinks | LAB0_cprogramminglab/queue.c:145-157 | links that lead backwards through a list lead forwards through its reverse |
| Queue.ReverseBack | LAB0_cprogramminglab/queue.c:139-159 | two reversals restore nodes and contents |
| Queue.LoseElement | LAB0_cprogramminglab/queue.c:80-119 | insert, remove, insert at the tail: size 1 and no element |
| Sampler.SortSorts | LAB6_malloclab/fcyc.c:83-87 | the reference order: a sorted permutation of the samples |
| Sampler.BestIsSmallest | LAB6_malloclab/fcyc.c:67-88 | the k best are min(k, n) of the samples, sorted, and no other sample is smaller |
| Sampler.InsertCut | LAB6_malloclab/fcyc.c:67-88 | only the k smallest matter for the k smallest of a longer sequence |
| Sampler.NextBest | LAB6_malloclab/fcyc.c:67-80 | when a new sample changes the k best, and how |
| Sampler.ConvergedIff | LAB6_malloclab/fcyc.c:93-98 | convergence is a comparison of the smallest and the largest of the k best |
| Sampler.ConvergedPairs | LAB6_malloclab/fcyc.c:93-98 | for an epsilon from -1 on, that any two of the k best are within the factor 1 + epsilon |
| Sampler.Sampler.InitSampler | LAB6_malloclab/fcyc.c:50-62 | no samples and kbest slots |
| Sampler.Sampler.SiftDown | LAB6_malloclab/fcyc.c:82-87 | the insertion loop puts the value at its place among the sorted ones before it |
| Sampler.Sampler.AddSample | LAB6_malloclab/fcyc.c:67-88 | values[0..min(k, n)) is the sorted sequence of the k best of all samples, before and after |
| Sampler.Sampler.HasConverged | LAB6_malloclab/fcyc.c:93-98 | true exactly when there are k samples and the largest of the k best is within epsilon of the smallest |
| Sampler.Sampler.Fcyc | LAB6_malloclab/fcyc.c:129-168 | the result is the minimum of all samples taken, at least one and at most max(1, maxsamples) of them; it stops at the first convergence and before maxsamples only then |
| Balancer.ReadRequests | LAB6_malloclab/traces/checktrace.pl:70-116 | the reading loop dies exactly when a line is refused, otherwise it saves the non-blank lines and tallies what is outstanding |
| Balancer.TallyIsLast | LAB6_malloclab/traces/checktrace.pl:84-115 | the tally holds exactly the ids whose last command is not a free, with that command |
| Balancer.RefusedIff | LAB6_malloclab/traces/checktrace.pl:84-108 | by the lines read so far: an allocate is refused exactly after an allocate of its id, a free or realloc exactly when its id is new or was freed last, nothing else ever |
| Balancer.AcceptedIff | LAB6_malloclab/traces/checktrace.pl:70-116 | a trace is read to its end exactly when no line is refused by the lines before it |
| Balancer.DeadTests | LAB6_malloclab/traces/checktrace.pl:96-108 | the tests for a reused id and for a second free never succeed |
| Balancer.ReuseIsAccepted | LAB6_malloclab/traces/checktrace.pl:96-98 | every allocate after a free of its id is accepted |
| Balancer.ReusedId | LAB6_malloclab/traces/checktrace.pl:96-98 | an input of three lines with a reused id that is accepted |
| Balancer.SortedKeys | LAB6_malloclab/traces/checktrace.pl:148 | the outstanding ids in ascending order, each once |
| Balancer.ListsUnique | LAB6_malloclab/traces/checktrace.pl:148 | there is only one such list |
| Balancer.CheckTrace | LAB6_malloclab/traces/checktrace.pl:70-155 | dies on a refused line, otherwise prints the -s verdict, or the trace with one free for each outstanding id, cut short before the first id whose entry is no allocate |
| Verdicts.DiesIff | LAB6_malloclab/traces/checktrace.pl:70-116 | with -s as without, the script dies while reading exactly when a line is refused by those before it |
| Verdicts.SummaryIff | LAB6_malloclab/traces/checktrace.pl:121-129 | the -s verdict is balanced exactly when every id is idle |
| Verdicts.SummaryAgrees | LAB6_malloclab/traces/checktrace.pl:121-153 | and exactly when the full output adds no free |
| Verdicts.SummaryMatched | LAB6_malloclab/traces/checktrace.pl:121-129 | and, for allocates, reallocs and frees alone, exactly when each allocate already has its one matching free |
| Verdicts.UnbalancedTrace | LAB6_malloclab/traces/checktrace.pl:121-127 | an allocate alone is unbalanced |
| Verdicts.OutputShape | LAB6_malloclab/traces/checktrace.pl:131-153 | the printed trace: the header with only the operation count changed, the saved lines, and frees of the ids that are not idle in ascending order, up to the first that is no allocate |
| Verdicts.SavedPieces | LAB6_malloclab/traces/checktrace.pl:76-82 | the saved lines of a piece follow those of the piece before it |
| Verdicts.SavedLine | LAB6_malloclab/traces/checktrace.pl:76-82 | a line is saved unless its command is missing or 0 |
| Verdicts.LeIff | LAB6_malloclab/traces/checktrace.pl:148 | string order: a prefix first, otherwise by the first character that differs |
| Balancer.PrintedIff | LAB6_malloclab/traces/checktrace.pl:147-153 | the balanced trace is printed whole exactly when every id is idle or was last allocated |
| Balancer.AnswerIsUnique | LAB6_malloclab/traces/checktrace.pl:70-155 | the answer is determined by the input |
| Balancer.OutputBalances | LAB6_malloclab/traces/checktrace.pl:131-153 | an accepted trace comes out as one that is accepted with nothing outstanding, its operation count raised by the lines added |
| Balancer.BalancingIsIdempotent | LAB6_malloclab/traces/checktrace.pl:131-153 | balancing again changes nothing |
| Balancer.MatchedIff | LAB6_malloclab/traces/checktrace.pl:92-98 | in a balanced trace every allocate has exactly one later matching free if and only if no id is allocated twice without a free between |
| Balancer.OutputMatchedIff | LAB6_malloclab/traces/checktrace.pl:92-153 | and for the output that condition can be read off the saved input lines |
| Balancer.KnownNoneTwice | LAB6_malloclab/traces/checktrace.pl:92-94 | without foreign commands every second allocate is refused |
| Balancer.KnownAreMatched | LAB6_malloclab/traces/checktrace.pl:70-153 | so every accepted trace of allocates, reallocs and frees comes out with each allocate matched exactly once |
| Balancer.ForeignCommandHidesAllocate | LAB6_malloclab/traces/checktrace.pl:92-115 | a foreign command on the id overwrites its entry, and a second allocate passes |
| Balancer.OutstandingCount | LAB6_malloclab/traces/checktrace.pl:43-49 | the number of outstanding ids is the number of allocates less that of frees |

## Left out

- Allocator.Heap.Malloc: requires room for the request, because mm_malloc calls place on NULL when extend_heap failed (LAB6_malloclab/mm.c:163-166); the wrap-around of `ALIGN` and of sizes beyond the arena is excluded with it.
- Allocator.Heap.Free: requires the payload pointer of a live block, as does Allocator.Heap.Realloc; mm_realloc of NULL reads a header before the arena.
- Allocator.Heap.MergePrev: reads PREV_BLKP once and passes it on, where the source expands the macro again from unchanged words.
- BoundaryTags.TagFields: PACK, GET_SIZE and GET_ALLOC are arithmetic on words, equal to the bit operations for sizes that are multiples of 8.
- Memory.Mem.constructor: the failing malloc of mem_init is not modelled; words are little-endian.
- Traces.RunValid: a well-formed trace has positive sizes, live ids for REALLOC and FREE, and enough arena; ALLOC may name any id.
- Driver.Replay.AddRange: the range list is a sequence of ranges rather than allocated list nodes, so allocation failure in the driver is not modelled; addresses are compared as offsets.
- CacheSim.Cache.constructor: the array has as many lines as the source allocates, computed without the overflow of its `int`; s, E and b are positive as main demands, and s + b < 64.
- CacheSim.Cache.Run: at most 2^31 - 1 lines, since `time` is an int and `lru_time` starts at 0x7fffffff; the trace is given as parsed lines, and `dest` counts without overflow.
- Shell.AlwaysSafe: signals and masks appear only as the freedom to interleave; command texts, listjobs, pid2jid and the process groups are left out, and a failing system call other than fork ends the shell. A process is reaped once, and only a child is.
- Shell.ReturnsIff: says that waitfg can return, not that the operating system will make it return.
- Rio.Reader.ReadLineB: requires maxlen >= 1, because for 0 the source stores a NUL past the buffer it was given.
- Rio.Reader.ReadNb: when it fails the bytes already stored are dropped, as in the source, and nothing is claimed about them.
- Transpose.TransposeSubmit: requires multiples of 4 in the last branch, which otherwise runs over the matrix edges.
- Queue.Queue.InsertHead: NULL queues and failing malloc are left out; freed nodes are a ghost set, and what a store into one destroys is not modelled.
- Rio.Reader.LineLoop: the loop is a method of its own, with its exits as a status.
- Sampler.Sampler.Fcyc: measurements are reals, not doubles, and kbest >= 1; cache clearing and timers are left out.
- Balancer.CheckTrace: lines come split into fields, the header values as numbers, and error texts are left out.
- rio_readn and the error-checking wrappers, sockets, HTTP and the proxy of LAB7 (LAB7_proxylab/proxy.c, LAB7_proxylab/tiny).
- mm_check_all_free and mm_check_point_to_free walk lists the invariant describes; mm_check_free_in_list, mm_check_overlap and mm_check_valid_addr only return 1.
- eval_mm_util, eval_mm_speed, scoring, trace file parsing and printing in mdriver.c.
- LAB1 to LAB3: bit puzzles, disassembly and exploit strings.
- Timers, argument parsing and verbose output everywhere.
