# faultcache: a verified model

The library maps files of derived content lazily. A *region* is a list of chunks
laid over pages at arbitrary byte boundaries; a read of a page that is not there
raises a fault, and the fault handler derives the chunks the page needs. This
project models the in-process fault cache, the server that shares derived content
between processes, the resolve/attach handshake, and the SIGSEGV handler chain,
and proves what they promise over every layout, every run and every interleaving.

## How it is built

- `Basics`, `Pages`, `Layout`: page arithmetic; chunk layouts, shared and exclusive pages,
  both binary searches, the overflow check of region creation.
- `SharedPages`, `PageTable`, `Scratch`: the staging of shared pages; the page
  table as a map from page to `Empty`, `Hidden(bytes)` or `Readable(bytes)`;
  scratch buffers that are used up by disjoint publish and discard ranges.
- `LruQueue`, `ChunkQueue`, `Region`, `Pool`: the imperative core. Intrusive list
  nodes relinked in place, counters and flag arrays updated per fault, eviction
  and rebalancing loops. `CacheModel` says what a pool does on plain values, and
  every `Pool` method is proved to take the step `CacheModel` takes.
- `CacheTheorems`, `FaultTheorems`, `SharedBudget`, `Straddle`, `Counters`,
  `PoolFacts`: what that means over one fault and over whole runs.
- `Program`: any list of creations, reads and destructions on a real `Pool` reads
  what the same list reads on plain memory.
- `FaultRace`, `FaultDelivery`, `Interleaving`: several threads and several pools,
  every interleaving of reads, lookups, creations and destructions: which faults
  are claimed, and which bytes a load returns.
- `ServerGroup`, `ServerRun`, `ServerWide`: the server's page-closed groups, and
  its connection threads interleaved at every lock operation and every callback,
  over one region and over all of them.
- `Wire`, `Handshake`, `HandshakeRuns`: messages byte for byte, the two ends of a
  connection, and whole runs of it.
- `SignalChain`, `SignalWalk`: installs, re-arms, how far a fault is passed on, and
  exactly whom it reaches.

`hide` statements in the proofs only keep the solver's context small.

## Results that are not what a reader might expect

- A fault on a *shared* page does not meet the budget a fault on an exclusive page
  meets: contributors that are already resident are protected but not moved to the
  front (src/inproc.c:561-564, 420-422). `FaultTheorems.BudgetAfterSharedFault`
  gives the exact condition and `SharedBudget.SharedFaultEndsOverTarget` a family
  of three-read programs that end over target with an unneeded chunk resident.
- Of two threads that fault on one page the second is always declined, and over a
  default prior action that decline uninstalls the handler (src/fault-posix.c:68-69).
  `SignalChain.RaceDisarms` says exactly when. The classification proved is the
  one the code has, not the stronger one in src/fault.h:46-52.
- Where sockets carry messages of any length and a receiver keeps the first
  2^20 bytes, client and server fall out of step if and only if an accepted reply
  is longer than that, and the next call fails and brings them back in step:
  `HandshakeRuns.InStepExactly`, `HandshakeRuns.BehindRecovers`. 131071 chunks are
  enough: `HandshakeRuns.OneByteChunksOverflow`.
- Two chunks that are alone in a bounded pool and are read alternately fault on
  every read, for ever, whatever their sizes and the target; from a new pool on:
  `Straddles.AlternatesFromStart`.
- `cold` is not cleared by eviction, although include/faultcache/debug.h:32 calls
  it "resident, but demoted"; everything here about `cold` is about queued nodes.

## Model

| member | source | states |
|---|---|---|
| Pages.PageFloorIsModulo | src/inproc.c:186-192 | the recursive `PageFloor` and `Aligned` used throughout are the source's `x - x % page_size` and `x % page_size == 0` |
| Pages.FloorUnique | src/inproc.c:186-188 | the rounded-down offset is the only page boundary in the page holding `x` |
| Pages.CeilUnique | src/inproc.c:190-192 | the rounded-up offset is the only page boundary in `[x, x + page_size)` |
| Layouts.FindChunk | src/inproc.c:195-205 | the binary search returns the one chunk whose range holds the offset; the last chunk also answers for the padding |
| Layouts.PagePartition | src/inproc.c:207-253 | every page below `mapped_size` is either shared or in the exclusive range of exactly one chunk, the one the search returns |
| Layouts.ExclusiveCovers | src/inproc.c:207-222 | a chunk's exclusive pages lie wholly inside it, up to the padding after the last chunk |
| Layouts.Contributors | src/inproc.c:283-291 | the chunks with bytes in a page are exactly those between the owners of its first and last in-region byte |
| Layouts.ContributorIsHeadOrTail | src/inproc.c:487-504 | a chunk contributes to a shared page exactly when that page is its head or tail page, so staging at most two slices is enough |
| Layouts.CheckSizes | src/inproc.c:736-743 | on wrapping `size_t` arithmetic, sizes pass exactly when none is zero and no true running total exceeds `size_t` |
| Layouts.PrefixSums | src/inproc.c:755-760 | `chunk_start` holds the true running totals, one more than there are sizes |
| Layouts.CreateLayout | src/inproc.c:736-768 | creation refuses exactly the invalid size lists and otherwise yields their layout, for fewer than 2^32 - 1 chunks |
| SharedPages.SharedPagesInit | src/inproc.c:258-295 | the table lists each page with an unaligned boundary exactly once, in increasing order, with the range of its contributors |
| SharedPages.FreshTableOk | src/inproc.c:258-295 | the fresh table satisfies the staging invariant of an untouched region |
| SharedPages.FindSharedPage | src/inproc.c:224-237 | the binary search finds the entry of a page exactly when there is one |
| SharedPages.ConcatAt | src/inproc.c:481-482 | the concatenated fill output holds every chunk's bytes at its own offsets |
| SharedPages.MappedIffAllStaged | src/inproc.c:456-459 | a shared page is up if and only if every contributor has staged its slice |
| SharedPages.SlicesTile | src/inproc.c:450-455 | every in-region byte of a shared page lies in the slice of exactly one contributor |
| SharedPages.StageOk | src/inproc.c:440-460 | a missing contributor finds its page unmapped, the counter stays exact, and the last slice completes the source page |
| SharedPages.StagingStep | src/inproc.c:485-504 | staging one slice advances that page and no other |
| SharedPages.StagingFinished | src/inproc.c:485-504 | after a chunk's head and tail slices the whole table is consistent with the chunk marked staged |
| PageTables.SetReadableOk | src/inproc.c:319-325 | hiding or showing a chunk moves its status and nothing else, contents included |
| PageTables.DecommitOk | src/inproc.c:397-407 | evicting a resident chunk empties exactly its exclusive pages |
| PageTables.PublishOk | src/inproc.c:515-525 | publishing a filled scratch makes the chunk's exclusive pages readable source pages |
| PageTables.InstallOk | src/inproc.c:427-433 | installing a complete staging page makes that page readable and touches no other |
| PageTables.HeldPagesAreSource | src/vm.h:11-41 | any page that is held, readable or hidden, is the fill output at its offsets, zeros past the end |
| PageTables.FootprintBound | src/inproc.c:440-460 | published and staging pages never overlap and take at most resident bytes plus one page per shared page plus one |
| Scratches.FullByCount | src/vm-win32.c:112-120 | counting bytes of disjoint ranges reaches the size exactly when every byte has been used |
| Scratches.Scratch.At | src/vm.h:55-61 | a pointer to the buffer embedded in a shared page, none of it used |
| Scratches.Scratch.Consume | src/vm-win32.c:112-120 | the buffer loses its address exactly when its last byte is consumed |
| Scratches.Scratch.Publish | src/vm-win32.c:122-137 | hands out the range's bytes and counts it as used |
| Scratches.Scratch.Discard | src/vm-win32.c:139-142 | counts the range as used |
| Scratches.Scratch.PublishMiddle | src/inproc.c:515-525 | one published piece and the two ends around it use the buffer up, each byte once |
| LruQueues.LruQueue.InsertMru | src/inproc.c:339-350 | the node goes in front and into the readable half; links, midpoint, flags and `hot_bytes` stay right |
| LruQueues.LruQueue.Unlink | src/inproc.c:327-337 | exactly that node leaves; the midpoint steps back if it was the midpoint, and `hot_bytes` drops only if the node was readable |
| LruQueues.LruQueue.DemoteMidpoint | src/inproc.c:366-372 | the last readable node goes cold and the midpoint moves one towards the front |
| ChunkQueues.ChunkQueue.MoveToFront | src/inproc.c:376-381 | a cold chunk becomes the front of the queue, readable, and the order of the others is kept |
| ChunkQueues.ChunkQueue.IsCold | src/inproc.c:252 | for a queued chunk the flag says on which side of the midpoint it is |
| ChunkQueues.ChunkQueue.Register | src/inproc.c:297-315 | a new region's nodes are unqueued and carry their chunks' sizes; nobody else's node changes |
| Regions.Region.constructor | src/inproc.c:745-777 | a new region has nothing filled or staged, every page reserved, all counters zero |
| Regions.Region.SetReadable | src/inproc.c:319-325 | the page table shows or hides exactly the chunk's exclusive pages |
| Regions.Region.Decommit | src/inproc.c:402-406 | the page table drops exactly the chunk's exclusive pages |
| Regions.Region.Forget | src/inproc.c:389-394 | the chunk is not initialized any more and the byte and chunk counters drop by it |
| Regions.Region.InstallSharedPage | src/inproc.c:427-433 | the whole staging buffer is published over the page, which uses it up |
| Regions.Region.StageIntoSharedPage | src/inproc.c:440-460 | one slice goes in, and the page is installed precisely if it was the last one missing |
| Regions.Region.StageChunk | src/inproc.c:485-504 | every page the chunk contributes to gets its slice once; no staging assertion or lookup can fail |
| Regions.Region.FindStagingPage | src/inproc.c:496-503 | the entry of a chunk's head or tail page is always found, and not yet mapped |
| Regions.Region.PublishExclusive | src/inproc.c:513-525 | the scratch is used up exactly and the chunk's pages become readable source pages |
| Regions.Region.Fill | src/inproc.c:468-525 | a fill of a chunk that is not resident keeps staging, page table and counters consistent and brings the chunk up |
| Regions.Region.CountFill | src/inproc.c:527-535 | fault, resident and resolved counters each go up by this chunk |
| Regions.Region.Free | src/inproc.c:689-702 | the reservation is gone and every half-full staging page has been discarded whole |
| Pools.Pool.constructor | src/inproc.c:670-687 | a new pool is the empty cache with its target |
| Pools.Pool.PageIsReadable | src/inproc.c:246-253 | true exactly when the page table has the page readable, and exactly when the model says so |
| Pools.Pool.FillChunkLocked | src/inproc.c:468-536 | takes the model's `Fill` step on all structures at once and keeps them in agreement |
| Pools.Pool.PromoteChunk | src/inproc.c:376-381 | takes the model's `Promote` step: readable again, in front, counted, not filled |
| Pools.Pool.EvictTail | src/inproc.c:397-407 | removes exactly the least recent chunk from queue, bookkeeping and page table |
| Pools.Pool.EvictUntilWithinBudget | src/inproc.c:409-425 | the loop is the model's eviction |
| Pools.Pool.Rebalancing | src/inproc.c:359-373 | the loop is the model's rebalancing; only read access changes |
| Pools.Pool.BringInShared | src/inproc.c:558-566 | fills exactly the contributors that are not resident |
| Pools.Pool.BringInOwner | src/inproc.c:567-575 | promotes the owner if it is resident, fills it otherwise |
| Pools.Pool.ResolveFaultLocked | src/inproc.c:548-582 | takes the model's step and returns with the faulting page readable in the page table |
| Pools.Pool.FindRegionLocked | src/inproc.c:591-600 | returns the region holding the address, and none only if no region holds it |
| Pools.Pool.Lookup | src/inproc.c:630-651 | one pool's turn: finds the region holding the address and resolves its page exactly if it could not be read |
| Pools.Pool.TryPool | src/inproc.c:630-651 | one pool's turn: claims the fault exactly when the model does, and then the page is readable |
| FaultDelivery.FaultTryResolve | src/inproc.c:602-654 | over all pools: claims the fault exactly when the model does, leaves each pool as the model says, and a claimed address readable |
| FaultDelivery.StaysPut | src/inproc.c:630-651 | a pool whose turn it is not is as it was |
| Pools.Pool.CreateRegion | src/inproc.c:727-779 | refuses exactly the invalid size lists, changing nothing, and otherwise adds a region of that layout and content and leaves the others |
| Pools.Pool.ForgetAll | src/inproc.c:799-800 | takes exactly the dying region's chunks out of the queue, in any order |
| Pools.Pool.DestroyRegion | src/inproc.c:793-805 | the region leaves queue and pool, its staging pages and reservation are released, the others stay |
| Pools.Pool.Load | src/inproc.c:246-253 | a load succeeds exactly when its page is readable, and returns the byte the region was created to hold |
| Pools.Pool.ReadAt | src/inproc.c:602-654 | a read faults exactly when its page is unreadable, and returns the byte the region was created to hold |
| Programs.Execute | src/inproc.c:548-805 | one command of a program is one step of the model, changes the regions' contents as plain memory would, and reads what plain memory holds |
| Programs.Replay | src/inproc.c:548-805 | any list of commands, under any target, reads what it would read from plain memory, leaves queue, bookkeeping and page tables in agreement, and holds only pages of the contents the commands gave |
| Programs.MemoryIsLastMade | src/inproc.c:727-805 | plain memory, with no reference to the replay, holds for each region what its last creation put there, unless it was destroyed since |
| Programs.ReadsAre | src/inproc.c:468-525 | so a read answers byte i of chunk c exactly as the creation's callback wrote it, and zero in the padding |
| Interleaving.ActOne | src/inproc.c:602-805 | one creation, destruction, lookup or load moves its pool as the model says; a load succeeds exactly when it does not fault, and commands answer as plain memory does |
| Interleaving.Act | src/inproc.c:602-805 | whatever happens in one pool, the others keep their state and contents |
| Interleaving.ReplayEvents | src/inproc.c:602-805 | in every interleaving of creations, destructions, lookups and loads over several pools, each pool moves as the model says, and a load succeeds exactly when its page is readable and then returns the byte its region was created to hold |
| Programs.ContentsHeld | src/inproc.c:468-525 | every page a pool holds, readable or hidden, is its region's content at that offset, zeros past the end |
| PoolFacts.AgreesWithSource | src/inproc.c:246-253 | every held page of a pool equals its source, and the page table's readable pages are exactly the ones the bookkeeping calls readable |
| PoolFacts.FootprintHolds | src/inproc.c:214-222 | a live region's pages and staging pages stay within its resident bytes plus one page per shared page plus one |
| PoolFacts.LiveScratches | src/inproc.c:427-460 | between operations a staging buffer is live, none of it used, exactly for shared pages some but not all contributors have staged into; those of published pages are used up |
| PoolFacts.RegionCounters | src/inproc.c:529-534 | a region's byte and chunk counters are the sums over its queued nodes |
| PoolFacts.CountersOf | src/inproc.c:527-535 | so in every pool; and `fault_events_total` is the sum of `chunk_faults_total` |
| PoolFacts.BytesConserved | src/inproc.c:383-395 | the pool's resident bytes are the sum of its regions' |
| CacheTheorems.FillMissingQueue | src/inproc.c:561-564 | a shared-page fault puts the missing contributors in front of a queue it otherwise leaves alone |
| CacheTheorems.EvictInv | src/inproc.c:409-425 | eviction keeps the queue duplicate-free, live and strictly ordered by most recent fill or promotion |
| CacheTheorems.ResolveInv | src/inproc.c:548-582 | so does a whole fault |
| CacheTheorems.DestroyInv | src/inproc.c:793-805 | and the destruction of a region |
| CacheTheorems.ForgetStep | src/inproc.c:383-395 | forgetting one chunk after those before it is forgetting one more of the region's chunks |
| CacheTheorems.RunInv | src/inproc.c:548-805 | over any run the queue is strictly ordered by recency, holds live staged chunks once each, and fault counters are conserved |
| FaultTheorems.EvictShape | src/inproc.c:409-425 | eviction drops the shortest least-recent suffix that reaches the target, or stops at a protected chunk |
| FaultTheorems.RebalanceShape | src/inproc.c:359-373 | rebalancing keeps the longest readable prefix within half the resident bytes, and at least the front chunk |
| FaultTheorems.MidpointAfterFault | src/inproc.c:359-373 | after a fault in a bounded pool at most half the resident bytes are readable, or only the front chunk is |
| FaultTheorems.ResolveReadable | src/inproc.c:548-582 | neither eviction nor rebalancing takes the faulting page back, exclusive or shared |
| FaultTheorems.OverBudgetExactly | src/inproc.c:416-424 | eviction ends over target if and only if the queue through the last protected chunk is already over it |
| FaultTheorems.BudgetAfterExclusiveFault | src/inproc.c:409-425 | after a fault on an exclusive page the pool is within target or holds only the faulting chunk |
| FaultTheorems.BudgetAfterSharedFault | src/inproc.c:558-566 | a fault on a shared page ends over target if and only if the missing contributors plus the queue through the least recent resident contributor exceed it; and then just those stay |
| SharedBudget.SharedFaultEndsOverTarget | src/inproc.c:561-564 | for every such geometry, three reads leave the pool over target with a chunk resident that the fault did not need |
| Straddles.StraddleCriterion | src/inproc.c:359-425 | after faulting two chunks in turn the first page is still readable if and only if, in the queue before eviction, some prefix within the target is twice as big as both; that is, its chunk was not evicted and both fit in half of what stays |
| Straddles.FirstPair | src/inproc.c:359-373 | reading two chunks that fit the target, with nothing else resident, leaves only the second readable |
| Straddles.Replace | src/inproc.c:409-425 | of two chunks that do not fit the target together, reading one throws the other out |
| Straddles.AlternatesFromStart | src/inproc.c:359-425 | from a new bounded pool with one region, reading two chunks with pages of their own in turn faults every time, for any number of reads, whether or not they fit the target |
| Straddles.AlternatesForever | src/inproc.c:359-373 | with only two chunks resident and one of them readable, reading pages of their own in turn faults every time, for any number of reads |
| FaultTheorems.FaultTouchesExactly | src/inproc.c:548-582 | a fault is counted once against exactly the chunks it concerns and against no other |
| Counters.FaultCounts | src/inproc.c:548-582 | a fault raises `faults_handled` by one for its own region only, and fills exactly the chunks that have bytes on its page and are not resident |
| Counters.CountersOverRun | src/inproc.c:535-581 | over every run, bounded or not, `faults_handled` is the number of reads of the region that faulted since its creation, and `chunks_resolved` the number of chunks they filled, refills included |
| Counters.TouchesOverRun | src/inproc.c:527-572 | and a chunk's `chunk_faults_total` is the number of them that concerned it |
| Counters.DestroyExactly | src/inproc.c:793-805 | a destroyed region takes its own chunks out of the queue and no other, and shows or hides none |
| FaultTheorems.StagedForLife | src/inproc.c:490-495 | once a chunk has staged, it has staged until its region is destroyed: a refill never stages again |
| FaultTheorems.SharedUpForLife | src/inproc.c:427-433 | over every run, a shared page that can be read stays so until its region is destroyed |
| FaultTheorems.UnreadableHasMissing | src/inproc.c:485-489 | an unreadable shared page always has a contributor that is not resident |
| FaultTheorems.UnboundedRun | src/inproc.c:359-363 | in an unbounded pool no chunk is ever cold or filled twice |
| FaultTheorems.UnboundedFaultBound | src/inproc.c:535-581 | so over a whole run `faults_handled <= chunks_resolved <= nchunks` |
| FaultRace.ClaimedIsReadable | src/inproc.c:641-648 | a claimed fault leaves its address readable |
| FaultRace.DeclinedExactly | src/inproc.c:641-653 | a declined fault changes nothing, and a fault is declined if and only if no live region holds the address or it is readable |
| FaultRace.SecondHandlerDeclines | src/inproc.c:641-653 | of two threads that faulted on one page, the second is declined |
| FaultRace.LookupClassified | src/inproc.c:630-651 | one lookup either claims the fault and turns its address readable before the lock is released, or changes nothing |
| FaultRace.OnlyHandlersOpen | src/inproc.c:602-654 | only a handler's claim turns an unreadable address readable: no read, creation, destruction or new pool does |
| FaultRace.CreateHides | src/inproc.c:727-779 | a new region starts unreadable and makes no other page readable |
| FaultRace.DestroyHides | src/inproc.c:793-805 | destroying a region makes no page of another readable |
| FaultRace.PassedOnOnlyIf | src/inproc.c:602-654 | with pools looked at one by one and regions coming and going in between, a read fault is passed on only if no region held the address all the while or another thread's handler made it readable |
| FaultRace.NeverStuck | src/inproc.c:602-654 | a handler that has not returned can move, or the one that holds the lock can |
| FaultRace.ScanIsTry | src/inproc.c:630-653 | nobody interrupting, pool after pool comes to what the scan comes to as one step |
| FaultRace.ReadIsServed | src/inproc.c:602-654 | a read of an address that some region holds and that is unreadable is served: when its handler returns, uninterrupted, the address is readable |
| FaultRace.TryOneIs | src/inproc.c:591-651 | where regions do not overlap, any search that finds a holder finds the one that decides |
| ServerGroups.GroupIsLeast | src/server.c:105-115 | the group is the least page-closed interval of chunks around the faulting one |
| ServerGroups.GroupsPartition | src/server.c:105-115 | groups of two faults are identical or share no page |
| ServerGroups.CopyCoversFault | src/server.c:128-135 | the copied range covers the faulting page and stays inside `content` |
| ServerGroups.GroupOwnsRange | src/server.c:105-135 | every in-region byte of the copied range belongs to a chunk of the group |
| ServerGroups.GrowGroup | src/server.c:101-115 | the two loops compute that group and its page range |
| ServerGroups.CopyIsSource | src/server.c:117-135 | once the group is resolved, the copied range is derived content, zeros past the end |
| ServerGroups.ServerRegion.FillChunk | src/server.c:121-124 | writes one chunk's slice in place, leaves every other chunk and the padding alone, at most once ever |
| ServerGroups.ServerRegion.ResolveFault | src/server.c:101-139 | derives what is missing of the group and returns its pages, from the first to the last of the least page-closed interval, equal to the source |
| ServerRuns.StepInv | src/server.c:117-126 | every step of every thread keeps the cache, the lock and every thread's view consistent |
| ServerRuns.CopyDelivers | src/server.c:128-135 | a copy made without the lock still delivers derived bytes |
| ServerRuns.ResolvedForever | src/server.c:117-126 | the bytes of a resolved chunk never change, in any interleaving |
| ServerRuns.ConcurrentRuns | src/server.c:101-139 | in every interleaving, for one region, each chunk is derived at most once, resolved bytes stay, and every byte any mapping received is the derived one |
| ServerRuns.FaultIsServed | src/server.c:101-139 | in every interleaving, when a thread that faulted at a byte through a mapping copies, every byte of that page the copy reached is in that mapping |
| ServerRuns.FaultIsServedWhole | src/server.c:128-138 | and the whole page is, where a copy stops early only at a page the mapping already has |
| ServerRuns.DeliveredWasAsked | src/server.c:128-135 | nothing is delivered to a mapping that did not fault in the group of that byte |
| ServerRuns.ResolvedWasAsked | src/server.c:105-125 | no chunk is derived unless a mapping faulted in its group |
| ServerRuns.NeverStuck | src/server.c:117-126 | a thread that serves a fault can move, or the one that holds the lock can |
| ServerRuns.ServingAdvances | src/server.c:101-139 | every move brings a serving thread one nearer to its copy, its callback's writes aside, and nobody else's takes it further away |
| ServerRuns.ServedAlone | src/server.c:101-139 | a fault that finds the lock free and is not interrupted ends with its whole page in its mapping, the lock free and every other thread where it was |
| ServerWide.OwnView | src/server.c:101-139 | a thread's step is a step of the region it works in |
| ServerWide.OtherView | src/server.c:117-126 | and no step of any other region, although the lock is shared |
| ServerWide.ConcurrentServer | src/server.c:101-139 | the same for the whole server, with regions created during the run: at most one derivation per chunk, derived bytes only, resolved bytes stay, regions stay |
| ServerWide.RegionRun | src/server.c:538-572 | what one region sees of a whole run is a run of that region |
| ServerWide.ServerFaultIsServed | src/server.c:101-139 | in every region of the whole server, a fault that is served is served with its own page |
| ServerWide.ServerFaultIsServedWhole | src/server.c:128-138 | and with the whole of it |
| ServerWide.ServerDeliveredWasAsked | src/server.c:128-135 | deliveries go to mappings that faulted in the group of that byte |
| ServerWide.ServerResolvedWasAsked | src/server.c:105-125 | chunks are derived only where a mapping faulted in their group |
| ServerWide.ServerNeverStuck | src/server.c:117-126 | no thread of the whole server is ever stuck |
| Wire.IntegerRoundTrip | src/wire.h:31-65 | little-endian fields are read back as written when they fit their width |
| Wire.LittleEndian | src/wire.h:31-65 | byte i of a field is its i-th least significant one |
| Wire.RequestLayout | src/wire.h:31-65 | where each field of the resolve and attach requests is |
| Wire.ReplyLayout | src/wire.h:37-50 | where the header fields and each chunk size of an accepting reply are |
| Wire.RefusalLayout | src/wire.h:37-50 | where the header fields and the message of a refusal are |
| Wire.ResolveReqRoundTrip | src/wire.h:31-35 | a resolve request yields its descriptor |
| Wire.AttachReqRoundTrip | src/wire.h:52-65 | an attach request with a file descriptor yields its base and descriptor |
| Wire.RejectRoundTrip | src/wire.h:37-50 | a rejection yields its message |
| Wire.AcceptRoundTrip | src/client.c:202-249 | an accepted layout is read back if and only if its reply fits the receive buffer, and otherwise the reply is malformed |
| Wire.ReadReply | src/client.c:202-249 | the client's parsing loop is the parse function |
| Wire.WriteSizes | src/server.c:324-329 | the sizes sent are the differences of the prefix sums |
| Wire.LayoutRoundTrip | src/client.c:330-370 | prefix sums of the sizes sent are the server's layout again, and pass the client's check |
| Handshake.Server.FindRegion | src/server.c:142-150 | the scan finds a region by its descriptor exactly when there is one |
| Handshake.Server.HandleResolve | src/server.c:283-362 | replies with the layout of the descriptor's region, making it first if the factory gives a valid recipe, and refuses otherwise, changing nothing |
| Handshake.Server.HandleAttach | src/server.c:380-454 | hooks the mapping to the descriptor's region, or nacks |
| Handshake.Server.FindMapping | src/server.c:556-572 | the scan finds the mapping a fault came from, if there is one |
| Handshake.HookedForever | src/server.c:380-454 | whatever others resolve or attach, a creation's mapping stays in the region its descriptor names |
| Handshake.ServeConnection | src/server.c:538-555 | one readiness event of the connection is one step of the protocol |
| Handshake.ReadLayout | src/client.c:202-249 | the client's layout is the one the reply parses to, or the call fails |
| HandshakeRuns.ResolveOutcome | src/server.c:283-362 | an accepted descriptor names the region whose sizes are sent; a refusal changes nothing and is never read as a layout |
| HandshakeRuns.ResolveCreates | src/server.c:179-250 | a new descriptor with an accepted recipe becomes a region of exactly those chunks in front of the list, with no mapping, and a reply that fits reads as exactly those sizes |
| HandshakeRuns.ResolveFinds | src/server.c:313-329 | a known descriptor is answered with its region's layout and makes nothing new |
| HandshakeRuns.ResolveRefuses | src/server.c:173-198 | a refusal reaches the client with the factory's message, a bad recipe with the server's |
| HandshakeRuns.CreationCompletes | src/client.c:313-402 | from a connection in step, an accepted creation that nobody interrupts succeeds with exactly the recipe's chunks and leaves the connection in step |
| HandshakeRuns.CallReports | src/client.c:313-402 | a call that ends reports success exactly when its creation is among the finished ones |
| Handshake.ResolveKeeps | src/server.c:313-320 | descriptors stay unique in the region list |
| Handshake.FdsKept | src/server.c:380-454 | no two mappings ever share a file descriptor |
| Handshake.NamesForever | src/server.c:142-150 | whatever others resolve or attach, a descriptor keeps naming the same region |
| HandshakeRuns.ServeAttachInStep | src/server.c:416-440 | an attach after an accepted resolve finds that same region and hooks the client's mapping to it |
| HandshakeRuns.LayoutArrives | src/client.c:202-249 | a reply that fits is read back as the server's own layout, one that does not as none |
| HandshakeRuns.RunDone | src/client.c:386-402 | over any run, every creation that has returned a region keeps its mapping, under the layout the client mapped |
| HandshakeRuns.MappingIsFound | src/server.c:556-572 | a fault in such a mapping is never ignored |
| HandshakeRuns.CopyStaysInMapping | src/server.c:128-135 | at every point of every run, the range copied for a fault in the mapping of any finished creation covers the faulting page and lies inside what that client registered |
| HandshakeRuns.OversizedIsReached | src/server.c:324-357 | the reply that puts the ends out of step occurs: on a new server, the first call whose recipe has too many chunks for a message |
| HandshakeRuns.OneByteChunksOverflow | src/server.c:324-357 | for instance 131071 chunks of one byte |
| HandshakeRuns.OneByteChunksFit | src/client.c:202-249 | one chunk fewer fits and arrives |
| HandshakeRuns.InStepExactly | src/client.c:202-223 | after an accepted resolve the ends are in step if and only if the reply fitted |
| HandshakeRuns.BehindRecovers | src/server.c:405-443 | out of step, the next call is nacked whatever its descriptor, changes nothing, and the ends are in step again |
| HandshakeRuns.RunInStep | src/server.c:512-555 | over any run of accepted, refused and nacked creations the two ends agree on the next message unless an accepted reply was too long |
| HandshakeRuns.RunPhase | src/server.c:512-555 | over any run whatsoever the connection is in step, about to fall out of step, or one call behind |
| SignalChain.RunOk | src/fault-posix.c:75-95 | over any order of installs, re-arms and faults the saved action is never our own handler |
| SignalChain.WalkIsFinite | src/fault-posix.c:25-73 | a fault enters our handler, and every other one, at most twice |
| SignalChain.InterleavedFinite | src/fault-posix.c:25-103 | also while other threads install and re-arm during the walk: at most two rounds of the handlers there are |
| SignalChain.CycleExactly | src/fault-posix.c:75-103 | a chain leading back to us is closed by a re-arm over a handler that chains to us, and by nothing else |
| SignalChain.EnteredOnce | src/fault-posix.c:60-70 | while the chain does not lead back to us a fault enters us at most once |
| SignalChain.RearmedCycle | src/fault-posix.c:53-61 | the cycle exists: arm, foreign install, re-arm; an unresolved fault then ends at the default disposition after two entries |
| SignalChain.DispositionAfterFault | src/fault-posix.c:25-73 | our handler stays installed if and only if it claims the fault, a foreign handler takes it, or the cycle's second entry claims it |
| SignalWalks.DeclinedCalls | src/fault-posix.c:60-71 | a fault that is not ours calls us, then exactly the handlers on the way along the saved links, in order, then us again if the way leads back |
| SignalWalks.FollowsUnique | src/fault-posix.c:60-71 | there is only one such way |
| SignalWalks.TakerIsCalled | src/fault-posix.c:62-67 | a handler that takes the fault is called, last and once, and we stay installed |
| SignalWalks.ArmingKeepsChain | src/fault-posix.c:75-103 | arming or re-arming keeps what it displaces: a fault that is not ours calls us and then exactly what it called before, and ends where it ended |
| SignalWalks.ArmingOverChainToUs | src/fault-posix.c:53-61 | where what is displaced chains to us, the fault comes back to us at its end |
| SignalWalks.ForeignKeepsChain | src/fault-posix.c:88-91 | a library that installs over anything and passes a fault on has it handled as before |
| SignalWalks.VisitsAreCalls | src/fault-posix.c:25-73 | turn by turn, uninterrupted, a thread visits exactly the calls of a fault nobody takes |
| SignalChain.RaceDisarms | src/fault-posix.c:62-69 | of two racing reads of one page, the second leaves our handler installed if and only if a foreign handler takes the fault |
| SignalChain.SignalState.InstallHandler | src/fault-posix.c:75-95 | installs us and saves what was displaced unless that was us |
| SignalChain.SignalState.FaultArm | src/fault-posix.c:97-99 | only the first call installs |
| SignalChain.SignalState.ForeignInstall | src/fault-posix.c:84-91 | another library installs over whatever is there and keeps it, which is how our own handler gets to be saved |
| SignalChain.SignalState.SegvHandler | src/fault-posix.c:25-73 | calls the handlers, leaves installed the action and restores the chaining flag as the walk says |

## Left out

- Layouts.CreateLayout: requires fewer than 2^32 - 1 chunks, since `nchunks + 1` wraps at that count in the allocation of `chunk_start` (src/inproc.c:750) and the source does not check.
- Pools.Pool.CreateRegion: requires that `total_size + page_size - 1` and `nchunks + 1` do not wrap, which the source does not check (src/inproc.c:190-192, 750), and that the callback writes the same bytes each time.
- HandshakeRuns.InStepExactly: does not model a `send` that the kernel refuses because of its own socket buffer limit; a message longer than the receive buffer is cut to it.
- Handshake.Server.HandleResolve: requires recipes of fewer than 2^32 - 1 chunks, and sizes `content` as if `total_size + page_size - 1` did not wrap; src/server.c:204 and 228 check neither. Allocation failure is not modelled.
- SignalChain.WalkIsFinite: foreign handlers save what they displaced once, at their install, and either take a fault or pass it on; two libraries that re-arm over each other, or leave the handler by a long jump, are not covered.
- SignalChain.SignalState.SegvHandler: a saved default action with `SA_SIGINFO` set, handlers that change errno, and the signal mask are not modelled; a fault during `fill_chunk` is a misuse abort in the source.
- The regions of a pool are a map, not the linked list of src/inproc.c:152-163; the server's region and mapping lists are sequences.
- Page-table operations and scratch publication are atomic steps, as src/vm.h:11-22 requires; the kernel calls behind them are not modelled, nor is src/fault-win32.c or src/vm-posix.c.
- Allocation failure, assertion aborts on system calls, the misuse hook, coverage flushing and the locks' own implementation.
- `fc_pool_destroy`, use after destroy, and destruction racing with faults on the same region: outside the callers' contract.
- The client pool's list handling (src/client.c:64-150), `fc_server_stop`, disconnects and the debug statistics: list insertions, a flag and copies of counters, with no property beyond their own bodies.
- The Python bindings, the examples and the build files.
