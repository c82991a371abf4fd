# nginx 1.4.7 core data structures, verified

A Dafny model of the self-contained core of nginx 1.4.7: the structures, allocators, caches, codecs
and the one inter-process protocol that the rest of the server is built on. Each component is written
in the form of its source (objects with updated fields, loops over buffers, a step relation for the
lock) and proved against a simple abstract meaning: a sequence, a map, a set of intervals, a calendar.

| file | component | abstract meaning |
|---|---|---|
| `RbTree.dfy` | red-black tree with parent links and a shared sentinel | the in-order sequence of nodes |
| `Timers.dfy` | event timers over wrapping millisecond keys | a queue sorted by deadline without wrap-around, then by insertion |
| `Slab.dfy`, `SlabPage.dfy`, `Chains.dfy` | slab allocator of shared memory | the set of live blocks |
| `Shmtx.dfy` | shared-memory mutex with a POSIX semaphore | runs of an interleaved step relation |
| `OpenFileCache.dfy` | open file cache | handles, descriptors and their owners |
| `Hash.dfy` | packed exact hash | a plain map of names |
| `Radix.dfy` | 32-bit radix trie | a map of prefixes, longest match |
| `Queue.dfy` | intrusive circular queue | a sequence of nodes |
| `Gmtime.dfy` | `ngx_gmtime` | the Gregorian calendar counted day by day |
| `SslOutput.dfy` | SSL output buffering | the byte stream |
| `Md5.dfy` | streaming MD5 | MD5 of the whole message (RFC 1321) |
| `Inet6.dfy`, `Inet6Grammar.dfy` | IPv6 printing and parsing | the address, the fields of a text |
| `Base64.dfy`, `Uri.dfy` | base64, percent-encoding | the byte string |
| `Words.dfy`, `Bytes.dfy`, `Options.dfy` | machine words, bytes, optional values | |

## How to read it

Methods are the operations of the source; what they do is tied by `ensures` to a function or a
predicate on values, and lemmas state what holds of those. State invariants are called `Valid`. Two
techniques recur. A pointer operation is first proved to make exactly its stores, and a lemma then
shows that these stores keep the invariant. And ghost fields carry the abstract value (`order`, `plan`,
`runs`, `owner`, `model`, `wire`), which the invariant ties to the real fields.

Some results are worth pointing out.

* Deleting from the red-black tree tests `temp == temp->parent->left` while `temp` may be the shared
  sentinel. `SiblingIsReal` shows why that is sound: black heights force the sibling to be a real node.
* The branch of the delete that picks `subst->left` for the successor is never taken, since the
  successor is the leftmost node of a subtree (`Choose` needs no such case).
* A sleeper facing a free lock is abandoned exactly in the step in which the last process that would
  still help it dies, or reads a zero counter in its wakeup. The latter happens only after a process died
  between decrementing the counter and posting the semaphore. Each of these is shown by a run of the model.
* Handlers run inside the expiry loop and may set and delete timers. Whatever they do, short of making a
  timer due, the timers that were due fire by deadline and then in the order they were set, each once
  unless a handler deletes or moves it.
* When a cached file is replaced and put back between the two system calls of a retest, the entry takes the
  new descriptor under the old id, and the old descriptor is never closed. `Open` says that this is the only
  way to lose one, and `ChangedBackLosesOne` that it happens.
* The comment above the escape table for refresh (`nginx-1.4.7/src/core/ngx_string.c:1427`) lists `%`, but
  the table does not mark it; the model follows the table. For it the round trip holds exactly for strings
  without a percent sign; for all other tables it holds always. The comment above the table for arguments
  (line 1367) leaves out the semicolon, which the table marks.
* Unescaping a URI stops at a question mark, plain or escaped, but not at one right behind a percent sign:
  for `%?` a question mark is written and reading goes on.
* An IPv6 address whose dotted tail is 255.255.255.255 cannot be read back, because that value is
  also the failure code of the IPv4 parser; there are exactly two such addresses.
* Deleting the empty prefix from a radix trie that holds nothing else dereferences a null parent, and
  nothing else does (`DeleteFaultsIff`); the model's `Delete` asks its caller not to do that.
* An octet of a dotted address is read in a machine word that wraps, and may be empty: `1..2.3` and
  `18446744073709551617.0.0.1` are both accepted.

## Model

| member | source | states |
|---|---|---|
| `RbTree.Tree.constructor` | nginx-1.4.7/src/core/ngx_rbtree.h:44-48 | an empty tree: the root is the sentinel, the sentinel is black, the invariant holds |
| `RbTree.Tree.Insert` | nginx-1.4.7/src/core/ngx_rbtree.c:24-94 | for any key every red-black invariant is kept, and the in-order sequence is the old one with the node between two neighbours the comparison puts it between: not less than the one before, less than the one after |
| `RbTree.Tree.InsertSorted` | nginx-1.4.7/src/core/ngx_rbtree.c:97-119 | with plain keys the sequence stays sorted and the node comes after all equal keys, so equal keys stay in insertion order |
| `RbTree.Tree.SeekValue` | nginx-1.4.7/src/core/ngx_rbtree.c:97-119 | the descent ends at a free slot between two neighbours in the sequence: the key is not less than the one before it and less than the one after it |
| `RbTree.Tree.SeekTimerValue` | nginx-1.4.7/src/core/ngx_rbtree.c:122-154 | the same for the signed-difference comparison of timer keys |
| `RbTree.Tree.InsertFixup` | nginx-1.4.7/src/core/ngx_rbtree.c:47-93 | from a tree whose only flaw is a red node under a red parent, recolouring and rotations restore all invariants without changing the sequence |
| `RbTree.Tree.LeftRotate` | nginx-1.4.7/src/core/ngx_rbtree.c:325-352 | a rotation relinks consistently and keeps the in-order sequence |
| `RbTree.Tree.RightRotate` | nginx-1.4.7/src/core/ngx_rbtree.c:355-382 | the mirror image |
| `RbTree.Tree.Min` | nginx-1.4.7/src/core/ngx_rbtree.h:73-81 | the leftmost node of a subtree is the first of its slice of the sequence |
| `RbTree.Tree.Choose` | nginx-1.4.7/src/core/ngx_rbtree.c:164-185 | the node to splice out and its only child: the node itself, or its in-order successor, which has no left child |
| `RbTree.Tree.Delete` | nginx-1.4.7/src/core/ngx_rbtree.c:157-322 | deleting any node keeps every red-black invariant, the sentinel black included, and removes exactly that node from the sequence |
| `RbTree.Tree.DeleteRoot` | nginx-1.4.7/src/core/ngx_rbtree.c:187-198 | a root with at most one child is replaced and blackened; the new root's parent is left alone, and the invariant does not ask for it |
| `RbTree.Tree.DeleteFixup` | nginx-1.4.7/src/core/ngx_rbtree.c:257-321 | a missing black above a node, possibly the sentinel, is paid back with at most a walk to the root |
| `RbTree.Tree.SiblingIsReal` | nginx-1.4.7/src/core/ngx_rbtree.c:257-264 | next to a subtree that is one black short the sibling is a real node, so telling the sides apart by a pointer comparison is sound even for the sentinel |
| `RbTree.Tree.InOrderIsOrder` | nginx-1.4.7/src/core/ngx_rbtree.c:24-382 | the sequence the contracts speak of is the traversal of the real child links from the real root |
| `RbTree.Tree.HeightIsLogarithmic` | nginx-1.4.7/src/core/ngx_rbtree.c:24-322 | in every valid tree of n nodes, 2 to the height is at most (n + 1) squared |
| `Timers.SignedDifference` | nginx-1.4.7/src/core/ngx_rbtree.c:122-154 | within half the key range the signed difference of wrapped keys is the difference of the deadlines, and orders them |
| `Timers.EventTimers.constructor` | nginx-1.4.7/src/event/ngx_event_timer.c:27-48 | an empty timer tree |
| `Timers.EventTimers.FindTimer` | nginx-1.4.7/src/event/ngx_event_timer.c:51-73 | 2^64 - 1 without timers, else the least remaining delay, zero if one is overdue |
| `Timers.EventTimers.AddTimer` | nginx-1.4.7/src/event/ngx_event_timer.h:58-99 | the moment asked for is the clock plus the delay; a timer set less than 300 ms from it is kept in its place, any other leaves, if it was set, and comes in at that moment, its key the moment modulo 2^64; the rest of the queue is as it was |
| `Timers.SetAlone` | nginx-1.4.7/src/event/ngx_event_timer.h:58-99 | of a single timer set for some delay, the wait found next is that delay |
| `Timers.WaitAlone` | nginx-1.4.7/src/event/ngx_event_timer.c:76-158 | it fires when that much time has passed, and not before |
| `Timers.EventTimers.Start` | nginx-1.4.7/src/event/ngx_event_timer.h:86-98 | the event comes in behind all deadlines up to its own and before all later ones, and the others keep their order |
| `Timers.EventTimers.DelTimer` | nginx-1.4.7/src/event/ngx_event_timer.h:35-55 | exactly the event's timer leaves the queue, the others keep their order |
| `Timers.Plan.AskMovesOne` | nginx-1.4.7/src/event/ngx_event_timer.h:58-99 | what a request means: the queue stays sorted by deadline and, on ties, by insertion; a near timer keeps its rank, any other gets the last rank of its deadline, and no other timer's rank changes |
| `Timers.Plan.SameDeadlineInTurn` | nginx-1.4.7/src/event/ngx_event_timer.h:58-99 | of two timers set to the same deadline the one set first stands first |
| `Timers.EventTimers.LazyUpdatesDoNotDrift` | nginx-1.4.7/src/event/ngx_event_timer.h:66-84 | in every state the stored deadline is less than 300 ms from the last one asked for |
| `Timers.EventTimers.ExpireTimers` | nginx-1.4.7/src/event/ngx_event_timer.c:76-158 | with a handler after each timer that fires, any finite list of requests and deletions that make nothing due: the loop ends; every timer that fires is the first of the queue at that moment; those fired were due at the start and fired in strict order of deadline and insertion; every timer due at the start fired once or was deleted or moved by a handler; nothing due is left; exactly the events fired are newly marked as timed out |
| `Timers.RoundShrinks` | nginx-1.4.7/src/event/ngx_event_timer.c:83-153 | a round of the loop takes from the due timers the one that fired and at most those its handler touched, and leaves the ranks of the others alone |
| `Timers.FiredInOrder` | nginx-1.4.7/src/event/ngx_event_timer.c:83-153 | of two timers fired in one call the earlier deadline fired first, and on equal deadlines the one set first, whatever the handlers did in between |
| `Timers.DueLeavesOnce` | nginx-1.4.7/src/event/ngx_event_timer.c:83-153 | a timer due at the start stops being due in exactly one round, in which it fires or the handler acts on it, and it fires in no other |
| `Timers.IdleHandlersFireFront` | nginx-1.4.7/src/event/ngx_event_timer.c:83-153 | if no handler touches a timer, the rounds take the queue from the front, one timer each |
| `Timers.EventTimers.Tick` | nginx-1.4.7/src/core/ngx_times.c:74-96 | time passes across the wrap-around as long as clock and deadlines stay within half the key range |
| `Shmtx.OwnerHoldsStep` | nginx-1.4.7/src/core/ngx_shmtx.c:62-160 | every step keeps that a process in its critical section is the one whose id is in the lock |
| `Shmtx.MutualExclusion` | nginx-1.4.7/src/core/ngx_shmtx.c:62-195 | in every reachable state, for any number of processes, at most one is in its critical section |
| `Shmtx.ConservedStep` | nginx-1.4.7/src/core/ngx_shmtx.c:98-195 | every step keeps that the counter, the semaphore and the pending posts balance the waiters, the increments leaked by the re-check and the posts dropped by deaths |
| `Shmtx.RunKeepsInvariant` | nginx-1.4.7/src/core/ngx_shmtx.c:62-195 | exclusion and the balance hold at the end of every run |
| `Shmtx.NoLostWakeupStep` | nginx-1.4.7/src/core/ngx_shmtx.c:70-195 | from a state in which a sleeper facing a free lock has a post, a poster or a retrying process to count on, a step leads to another such state exactly unless the last helper leaves: it dies, or its wakeup reads a zero counter |
| `Shmtx.OnlyDeathsLose` | nginx-1.4.7/src/core/ngx_shmtx.c:163-194 | while no decrement has lost its post, the last helper leaves exactly by dying |
| `Shmtx.WakeupsKeptIff` | nginx-1.4.7/src/core/ngx_shmtx.c:70-195 | over every run, wakeups are kept up to any moment exactly if the last helper has not left before it |
| `Shmtx.NoWakeupIsLost` | nginx-1.4.7/src/core/ngx_shmtx.c:70-195 | in every run in which no process dies between its decrement and its post, and no last helper dies, no wakeup is lost |
| `Shmtx.DeathInWakeupLosesIt` | nginx-1.4.7/src/core/ngx_shmtx.c:163-194 | a run in which a process dies between the decrement and the post: one post is dropped and the sleeper is never woken |
| `Shmtx.DeathInRetryLosesIt` | nginx-1.4.7/src/core/ngx_shmtx.c:72-133 | a run in which a woken process dies before its next attempt, and the wakeup is lost |
| `Shmtx.DroppedPostLosesLater` | nginx-1.4.7/src/core/ngx_shmtx.c:163-194 | a run in which such a death loses nothing yet, and a later wakeup reads a zero counter and leaves a sleeper behind |
| `Shmtx.TryLockDecides` | nginx-1.4.7/src/core/ngx_shmtx.c:62-66 | with nobody in the way, trylock on a free lock leaves its caller in its critical section with the lock its own, and on a taken lock changes nothing |
| `Shmtx.TryLockRaces` | nginx-1.4.7/src/core/ngx_shmtx.c:62-66 | the compare-and-set decides: a lock taken between the look and the store fails the try |
| `Shmtx.LockTakesFree` | nginx-1.4.7/src/core/ngx_shmtx.c:70-81 | a call of lock on a free lock with nobody in the way takes it |
| `Shmtx.SpinEnds` | nginx-1.4.7/src/core/ngx_shmtx.c:78-98 | while the lock stays taken, the spin ends after one attempt, and on several processors after eleven more: with a semaphore the caller goes to be counted, without one it starts over |
| `Shmtx.CountedAndAsleep` | nginx-1.4.7/src/core/ngx_shmtx.c:100-119 | a caller that finds the lock still taken is counted once and sleeps |
| `Shmtx.SleepEnds` | nginx-1.4.7/src/core/ngx_shmtx.c:112-126 | a sleeper takes a post if there is one and starts over, or an error ends its sleep without one |
| `Shmtx.WakeupPosts` | nginx-1.4.7/src/core/ngx_shmtx.c:163-194 | a wakeup takes one off the counter and posts once, or does nothing if nobody is counted |
| `Shmtx.UnlockFrees` | nginx-1.4.7/src/core/ngx_shmtx.c:135-160 | unlocking one's own lock, or forcing the lock of a dead owner, leaves the lock zero, and a wakeup follows if there is a semaphore |
| `Shmtx.ForceOnlyFromOwner` | nginx-1.4.7/src/core/ngx_shmtx.c:147-160 | forcing a lock that the dead process does not own changes nothing |
| `Shmtx.HandOver` | nginx-1.4.7/src/core/ngx_shmtx.c:70-195 | unlock, wakeup, post, waking and the next attempt together: the lock goes from its owner to a sleeper, and the counter is one lower |
| `SlabPage.BitmapFits` | nginx-1.4.7/src/core/ngx_slab.c:330-347 | the chunks reserved at the start of a page of small chunks are just enough for its bitmap: eight of 8 bytes, two of 16, one of 32, and none from 64 bytes on |
| `SlabPage.Take` | nginx-1.4.7/src/core/ngx_slab.c:195-325 | in all three bitmap layouts the first free chunk is found and marked, no other bit changes, and the page is reported full exactly when it is |
| `SlabPage.TakeSmall` | nginx-1.4.7/src/core/ngx_slab.c:197-247 | the layout with the bitmap in the page itself |
| `SlabPage.TakeExact` | nginx-1.4.7/src/core/ngx_slab.c:249-281 | the layout with the bitmap in the slab field |
| `SlabPage.TakeBig` | nginx-1.4.7/src/core/ngx_slab.c:283-324 | the layout with the bitmap in the upper half of the slab field |
| `SlabPage.Fresh` | nginx-1.4.7/src/core/ngx_slab.c:327-386 | a fresh page has exactly the bitmap's own chunks and the first other one in use |
| `SlabPage.Return` | nginx-1.4.7/src/core/ngx_slab.c:429-557 | exactly one bit is cleared, and the page is reported empty exactly when nothing but its bitmap is in use |
| `Slab.Pool.constructor` | nginx-1.4.7/src/core/ngx_slab.c:72-134 | for a given number of pages: one free run of all pages, nothing live |
| `Slab.PagesFit` | nginx-1.4.7/src/core/ngx_slab.c:92-130 | the pages lie between the descriptors and the end of the pool, aligned, exactly when the first does not begin beyond the end; room for two pages is enough, and at most two pages are given up |
| `Slab.Pool.AllocPages` | nginx-1.4.7/src/core/ngx_slab.c:617-663 | the first free run that is long enough is cut or taken; failure exactly when no single free run is, and then nothing changes |
| `Slab.Pool.FreePages` | nginx-1.4.7/src/core/ngx_slab.c:666-690 | the pages become one free run at the head of the free list, without coalescing |
| `Slab.Pool.AllocLocked` | nginx-1.4.7/src/core/ngx_slab.c:152-395 | exactly one block becomes live or nothing changes. A request below 2048 bytes gets a chunk of at least that size, of eight bytes or of less than twice the size, and fails exactly if every page of that chunk size is full and no page is free; a larger one gets whole pages, less than one too many, and fails exactly if no free run is long enough; slot lists hold exactly the chunk pages with room |
| `Slab.Pool.TakeChunk` | nginx-1.4.7/src/core/ngx_slab.c:195-325 | the first page of a slot list always satisfies a request |
| `Slab.ShiftFor` | nginx-1.4.7/src/core/ngx_slab.c:178-187 | the size class is the least power of two that holds the size, from eight bytes on |
| `Slab.Pool.FreeLocked` | nginx-1.4.7/src/core/ngx_slab.c:409-614 | the block is released exactly if it is live, nothing else changes, and a refused free changes nothing |
| `Slab.LiveBlocksDisjoint` | nginx-1.4.7/src/core/ngx_slab.c:152-614 | in every reachable state live blocks lie in the page area and do not overlap |
| `Slab.LiveChunkAligned` | nginx-1.4.7/src/core/ngx_slab.c:195-395 | live chunks are aligned to their power-of-two size and never overlap the bitmap of their page |
| `Slab.Serve` | nginx-1.4.7/src/core/ngx_slab.c:152-690 | over any run of allocations, releases and stores into live blocks, the live blocks are exactly those handed out and not given back, large enough, inside the pool and pairwise disjoint |
| `Slab.StoreKeeps` | nginx-1.4.7/src/core/ngx_slab.c:195-247 | a store into any word that is not part of a page's own bitmap keeps the whole invariant and the live blocks |
| `Slab.Pool.Write` | nginx-1.4.7/src/core/ngx_slab.c:152-614 | whatever the owner of a live block writes into it, the pool stays valid and the same blocks are live |
| `Slab.RunCut` | nginx-1.4.7/src/core/ngx_slab.c:626-643 | cutting a run in two keeps the whole invariant: every page in exactly one run, lists and homes in agreement |
| `Slab.RunFreed` | nginx-1.4.7/src/core/ngx_slab.c:666-690 | giving a run back keeps the whole invariant |
| `OpenFileCache.Cache.constructor` | nginx-1.4.7/src/core/ngx_open_file_cache.c:52-81 | an empty cache |
| `OpenFileCache.Cache.Open` | nginx-1.4.7/src/core/ngx_open_file_cache.c:139-482 | for every answer of the file system: the invariant holds again; an entry tested less than `valid` seconds ago answers by itself, any other by what was found; exactly a successful open of a file adds a handle, with the caller's min_uses; an entry that stays has one use more, a new one has one use; the entry is first in the queue with its access and test times set, and the rest of the tree is as it was but for entries that made room; a descriptor is lost exactly when a stale entry is found with a new descriptor and its old id |
| `OpenFileCache.Cache.Retest` | nginx-1.4.7/src/core/ngx_open_file_cache.c:271-345 | an entry keeps its place exactly if the file is the same one still or no handle is out; then it takes over what was found, otherwise it leaves the tree and keeps its descriptor for its handles |
| `OpenFileCache.Cache.Enter` | nginx-1.4.7/src/core/ngx_open_file_cache.c:356-420 | a new entry never makes the cache larger than its maximum; only entries at the tail of the queue are dropped for it, one or more up to three, and all but the first of these are inactive |
| `OpenFileCache.Cache.Discard` | nginx-1.4.7/src/core/ngx_open_file_cache.c:449-472 | a failed open removes the entry, at once or with its last handle |
| `OpenFileCache.Cache.CloseFile` | nginx-1.4.7/src/core/ngx_open_file_cache.c:965-1008 | its precondition, met at every call, says that a descriptor is closed only while open and not in use by any handle |
| `OpenFileCache.Cache.Release` | nginx-1.4.7/src/core/ngx_open_file_cache.c:951-962 | exactly one handle goes: the last one of an entry marked for closing frees it and closes its descriptor, the last one of a file used too seldom closes the descriptor, and a file still in the tree comes first in the queue; then inactive entries leave from the tail, two at most and no fewer if there are two |
| `OpenFileCache.OftenUsedStaysOpen` | nginx-1.4.7/src/core/ngx_open_file_cache.c:139-1008 | over a run: a file opened any number n of times and released as often keeps its descriptor exactly if n reaches min_uses, and its entry stays in any case |
| `OpenFileCache.Cache.Retire` | nginx-1.4.7/src/core/ngx_open_file_cache.c:965-1008 | a rarely used entry stays without its descriptor, at the head of the queue |
| `OpenFileCache.Cache.Expire` | nginx-1.4.7/src/core/ngx_open_file_cache.c:1028-1076 | the tail of the queue goes: one by force if asked, then at most two more, each inactive, and all inactive ones up to that number |
| `OpenFileCache.Cache.Bookkeeping` | nginx-1.4.7/src/core/ngx_open_file_cache.c:139-482 | current is the size of the tree and of the queue and at most the maximum; both hold the same entries |
| `OpenFileCache.Cache.CountIsHandles` | nginx-1.4.7/src/core/ngx_open_file_cache.c:951-1008 | every count is the number of outstanding handles of the entry |
| `OpenFileCache.Cache.HandlesStayUsable` | nginx-1.4.7/src/core/ngx_open_file_cache.c:139-482 | a handle's descriptor is open and its entry not freed until it is released |
| `OpenFileCache.Cache.DescriptorsApart` | nginx-1.4.7/src/core/ngx_open_file_cache.c:139-482 | no two entries hold the same descriptor |
| `OpenFileCache.OpenOnlyInUse` | nginx-1.4.7/src/core/ngx_open_file_cache.c:139-482 | every open descriptor that was not lost belongs to an entry in the tree or to an outstanding handle |
| `OpenFileCache.ChangedBackLosesOne` | nginx-1.4.7/src/core/ngx_open_file_cache.c:291-396 | the loss does happen: a file found again under its old id with a new descriptor leaves the old descriptor open for good |
| `Hash.Init` | nginx-1.4.7/src/core/ngx_hash.c:251-455 | failure exactly when an element is too large or no size tried fits; otherwise a valid table of the names, of the first size that fits |
| `Hash.ChooseSize` | nginx-1.4.7/src/core/ngx_hash.c:276-323 | the first size from the start value on for which all buckets fit |
| `Hash.TrySize` | nginx-1.4.7/src/core/ngx_hash.c:287-306 | a size is accepted exactly when the elements of every bucket fit |
| `Hash.LayOut` | nginx-1.4.7/src/core/ngx_hash.c:340-387 | each non-empty bucket begins where the areas before it end, on a cache line |
| `Hash.AreasApart` | nginx-1.4.7/src/core/ngx_hash.c:342-387 | buckets never overlap |
| `Hash.Store` | nginx-1.4.7/src/core/ngx_hash.c:393-407 | after the loop every bucket holds the bytes of its elements, in order |
| `Hash.Terminate` | nginx-1.4.7/src/core/ngx_hash.c:409-417 | every non-empty bucket ends in a null value, inside its area |
| `Hash.Walk` | nginx-1.4.7/src/core/ngx_hash.c:28-48 | the walk over packed bytes ends and returns the value of the first element with the name, or null at the terminator |
| `Hash.Table.Find` | nginx-1.4.7/src/core/ngx_hash.c:12-49 | for every name and its hash, the value the plain map has, null for all others |
| `Hash.BucketDecides` | nginx-1.4.7/src/core/ngx_hash.c:289-296 | looking in the bucket of the hash is looking in the whole list of names |
| `Hash.AlignFormula` | nginx-1.4.7/src/core/ngx_config.h:97-97 | rounding up to the alignment, counted out, is the quotient formula that the macro's mask computes for powers of two |
| `Hash.StartSizeIs` | nginx-1.4.7/src/core/ngx_hash.c:274-285 | the first size tried: the number of buckets that the names fill at sixteen bytes each, at least one, but a thousand below the maximum if that is above 10000 and below a hundred times the names |
| `Hash.EltSizeIs` | nginx-1.4.7/src/core/ngx_hash.c:248-249 | an element takes ten bytes, its name and less than eight more, a multiple of eight in all |
| `Hash.HashIsPolynomial` | nginx-1.4.7/src/core/ngx_hash.c:604-615 | the hash of a name is its polynomial in 31 modulo 2^64 |
| `Hash.LowerIs` | nginx-1.4.7/src/core/ngx_hash.c:634-648 | lowering changes exactly the capital letters, by 32 |
| `Radix.Tree.constructor` | nginx-1.4.7/src/core/ngx_radix_tree.c:15-45 | a trie with a root and no values |
| `Radix.Tree.Insert` | nginx-1.4.7/src/core/ngx_radix_tree.c:108-170 | busy exactly when the prefix has a value; otherwise exactly that prefix is added |
| `Radix.Tree.Delete` | nginx-1.4.7/src/core/ngx_radix_tree.c:173-233 | succeeds exactly when the prefix has a value, and removes exactly that prefix |
| `Radix.Tree.Find` | nginx-1.4.7/src/core/ngx_radix_tree.c:236-263 | the value of the longest stored prefix of the address |
| `Radix.Tree.Alloc` | nginx-1.4.7/src/core/ngx_radix_tree.c:463-488 | the first node of the free list if there is one, else a new one |
| `Radix.Tree.Prune` | nginx-1.4.7/src/core/ngx_radix_tree.c:206-230 | a childless node is unhooked from its parent and joins the free list |
| `Radix.Tree.Run` | nginx-1.4.7/src/core/ngx_radix_tree.c:108-233 | over any run of inserts and deletes the trie stays a faithful copy of the plain map and gives its answers |
| `Radix.Tree.FreeListApart` | nginx-1.4.7/src/core/ngx_radix_tree.c:214-215 | no node is in the trie and on the free list at once |
| `Radix.Tree.LeavesCarryValues` | nginx-1.4.7/src/core/ngx_radix_tree.c:206-230 | every leaf below the root has a value |
| `Radix.Tree.RootChildless` | nginx-1.4.7/src/core/ngx_radix_tree.c:197-212 | the root is childless exactly when nothing but the empty prefix has a value |
| `Radix.Tree.DeleteFaultsIff` | nginx-1.4.7/src/core/ngx_radix_tree.c:197-212 | the delete loop starts at a node without a parent exactly when the empty prefix is to be deleted and no other has a value |
| `Radix.PrefixMatches` | nginx-1.4.7/src/core/ngx_radix_tree.c:115-134 | for contiguous masks, being a prefix of the address is agreeing under the mask |
| `Radix.NoMaskMatches` | nginx-1.4.7/src/core/ngx_radix_tree.c:236-263 | no value if no stored prefix matches |
| `Radix.LongestMaskWins` | nginx-1.4.7/src/core/ngx_radix_tree.c:236-263 | the answer in terms of addresses and masks: the matching entry with the longest mask |
| `Queue.Remove` | nginx-1.4.7/src/core/ngx_queue.h:80-82 | the ring without that element |
| `Queue.InsertAfter` | nginx-1.4.7/src/core/ngx_queue.h:33-40 | the ring with the element in that place |
| `Queue.Split` | nginx-1.4.7/src/core/ngx_queue.h:87-93 | two rings, the elements from q on behind the new head |
| `Queue.Add` | nginx-1.4.7/src/core/ngx_queue.h:96-100 | one ring, the elements of the second after those of the first, which undoes a split |
| `Queue.Middle` | nginx-1.4.7/src/core/ngx_queue.c:17-45 | the element at half the length |
| `Queue.Sort` | nginx-1.4.7/src/core/ngx_queue.c:48-80 | a ring through the sorted sequence of the same nodes |
| `Queue.SortPermutes` | nginx-1.4.7/src/core/ngx_queue.c:48-80 | sorting permutes |
| `Queue.SortSorts` | nginx-1.4.7/src/core/ngx_queue.c:48-80 | for a total preorder the result ascends |
| `Queue.SortIsStable` | nginx-1.4.7/src/core/ngx_queue.c:48-80 | elements that do not exceed a later one stay before it |
| `Gmtime.GuessIsNear` | nginx-1.4.7/src/core/ngx_times.c:319-321 | the year estimate is never low, and high by at most two days |
| `Gmtime.GuessIsHighIff` | nginx-1.4.7/src/core/ngx_times.c:321-327 | it is one high exactly when the day of the year comes out negative |
| `Gmtime.MonthOfDay` | nginx-1.4.7/src/core/ngx_times.c:337-341 | the empirical month formula finds the month the day lies in by the Gauss formula |
| `Gmtime.GmtimeIsCorrect` | nginx-1.4.7/src/core/ngx_times.c:282-372 | for every non-negative time a valid date whose day number counted from 1970-01-01 is the day of the time, the right weekday, and a time of day that recombines |
| `Gmtime.GmtimeInverts` | nginx-1.4.7/src/core/ngx_times.c:282-372 | the time of any date and time of day gives back that date and time |
| `Gmtime.DayNumberOrdersDates` | nginx-1.4.7/src/core/ngx_times.c:282-372 | day numbers tell dates apart in calendar order, so the date found is the only one |
| `SslOutput.Connection.SendChain` | nginx-1.4.7/src/event/ngx_event_openssl.c:1118-1272 | for any library: bytes written, held and left over are conserved in order; sent grows by the bytes written; the buffered flag is set exactly when bytes are held; all writes of a call but the last are taken in full; the call fails exactly if the last write is an error; otherwise, unless that one was short, the chain is consumed and a flush leaves nothing held, or the limit is reached; the limit is never exceeded by new bytes; a flush cut short is remembered and tried again; a small chain without a flush is only copied; with a library that takes all it is offered no write is short |
| `SslOutput.Connection.Cycle` | nginx-1.4.7/src/event/ngx_event_openssl.c:1187-1258 | the loop goes on while the buffer was written in full, the chain has more and the limit is not reached |
| `SslOutput.Connection.SslWrite` | nginx-1.4.7/src/event/ngx_event_openssl.c:1275-1349 | the answer of the library to this write, entered in the log; to take nothing, or more than offered, is an error |
| `SslOutput.Connection.Fill` | nginx-1.4.7/src/event/ngx_event_openssl.c:1189-1221 | the copying loop moves bytes from the chain to the buffer and stops at the end of the chain, a full buffer or the limit |
| `SslOutput.Connection.Drain` | nginx-1.4.7/src/event/ngx_event_openssl.c:1227-1255 | a write moves bytes from the buffer to the wire, and a full write resets the buffer |
| `SslOutput.Connection.SendDirect` | nginx-1.4.7/src/event/ngx_event_openssl.c:1126-1153 | the same conservation without a buffer; the call stops before the end of the chain only at a write that must be tried again or failed |
| `SslOutput.Connection.Session` | nginx-1.4.7/src/event/ngx_event_openssl.c:1118-1272 | over any number of calls, bytes written, then held, then left over are all output so far in order |
| `Md5.MacrosAreRfc` | nginx-1.4.7/src/core/ngx_md5.c:126-129 | the optimised F and G equal the definitions in section 3.4 of RFC 1321 |
| `Md5.RoundsAreRfc` | nginx-1.4.7/src/core/ngx_md5.c:192-278 | the 64 operations are those of section 3.4 of RFC 1321: words i, 5i+1, 3i+5 and 7i modulo 16 in the four rounds, with the shifts and the table of constants of each, the registers taking turns; for any functions, sums and rotation |
| `Md5.PartsAgree` | nginx-1.4.7/src/core/ngx_md5.c:126-138 | the macros' functions, sums and rotations are those of section 3.4 of RFC 1321, each stated on its own |
| `Md5.RotatesLeft` | nginx-1.4.7/src/core/ngx_md5.c:135-138 | the two shifts of a step make a circular left rotation |
| `Md5.CompressIsRfc` | nginx-1.4.7/src/core/ngx_md5.c:173-287 | one turn of the block loop is the transformation of the standard, its functions, schedule of words, shifts and constants included |
| `Md5.WordsHoldBytes` | nginx-1.4.7/src/core/ngx_md5.c:149-166 | word n of a block holds bytes 4n to 4n + 3, low byte first |
| `Md5.OutputIsNumber` | nginx-1.4.7/src/core/ngx_md5.c:97-112 | a register is put out low byte first |
| `Md5.InitIsRfc` | nginx-1.4.7/src/core/ngx_md5.c:22-31 | the registers start as section 3.3 of RFC 1321 says: 01 23 45 67 89 ab cd ef fe dc ba 98 76 54 32 10 |
| `BlockHash.PaddedIs` | nginx-1.4.7/src/core/ngx_md5.c:65-95 | the padding: one byte 0x80, fewer than 64 zero bytes, and the length in bits modulo 2^64 in eight bytes, low byte first, to whole blocks |
| `Md5.Hash` | nginx-1.4.7/src/core/ngx_md5.c:22-115 | any split into updates gives the MD5 of the concatenation |
| `BlockHash.Digest` | nginx-1.4.7/src/core/ngx_md5.c:22-115 | the same for any compression function: the state after the padded whole message |
| `BlockHash.Context.Update` | nginx-1.4.7/src/core/ngx_md5.c:34-62 | the message grows by the data; whole blocks are in the state, the tail in the buffer |
| `BlockHash.Context.Finish` | nginx-1.4.7/src/core/ngx_md5.c:65-95 | the state after the padding and length of sections 3.1 and 3.2 of RFC 1321, the length modulo 2^64 |
| `BlockHash.Context.Body` | nginx-1.4.7/src/core/ngx_md5.c:173-287 | the block loop takes in the blocks in order |
| `Inet6.Ntop` | nginx-1.4.7/src/core/ngx_inet.c:275-349 | nothing if the buffer is shorter than 45; otherwise the text of the address with its first longest run of zero words left out, within the buffer |
| `Inet6.TextIs` | nginx-1.4.7/src/core/ngx_inet.c:275-349 | the text told without the loop: words in hexadecimal between colons, a double colon for the run left out; or :: and perhaps ffff: before four numbers between dots, exactly for the addresses whose first ten bytes are zero and whose next words call for it |
| `Inet6.HexIs` | nginx-1.4.7/src/core/ngx_inet.c:337-337 | a word is printed in lower case without leading zeros |
| `Inet6.PrintsOne` | nginx-1.4.7/src/core/ngx_inet.c:286-312 | an address has just one text |
| `Inet6.FindRun` | nginx-1.4.7/src/core/ngx_inet.c:286-311 | the longest run of two or more zero words, the first of several |
| `Inet6.Addr` | nginx-1.4.7/src/core/ngx_inet.c:58-171 | the parser as a function of the text |
| `Inet6.ReadV4` | nginx-1.4.7/src/core/ngx_inet.c:17-53 | the dotted parser as a function of the text |
| `Inet6.AddressRoundTrip` | nginx-1.4.7/src/core/ngx_inet.c:58-349 | parsing the printed text gives back the 16 bytes, for every address but the two printed with the tail 255.255.255.255, which are refused (section 2.2 of RFC 4291) |
| `Inet6.TwoExceptions` | nginx-1.4.7/src/core/ngx_inet.c:317-324 | exactly two addresses are printed with that tail |
| `Inet6.DotsRead` | nginx-1.4.7/src/core/ngx_inet.c:17-53 | a dotted quad is read back, except all ones |
| `Inet6.TextFits` | nginx-1.4.7/src/core/ngx_inet.c:282-284 | the text never exceeds the length the printer asks for |
| `Inet6Grammar.QuadAccepted` | nginx-1.4.7/src/core/ngx_inet.c:17-53 | accepted exactly: four fields of digits between dots, each below 256 as a machine word holds it, not all 255; and the value they make |
| `Inet6Grammar.AddressAccepted` | nginx-1.4.7/src/core/ngx_inet.c:58-171 | accepted exactly: fields of up to four digits between colons, at most one gap, the last perhaps a quad, and eight words in all or fewer with a gap |
| `Base64.Encode` | nginx-1.4.7/src/core/ngx_string.c:1060-1098 | the digits of the 24-bit groups of section 4 of RFC 4648, padded |
| `Base64.Decode` | nginx-1.4.7/src/core/ngx_string.c:1155-1198 | an error exactly for a byte that is no digit before the padding or a single left-over digit; otherwise the bytes of the groups, three for every four digits |
| `Base64.EncodedLength` | nginx-1.4.7/src/core/ngx_string.h:181-181 | the encoding is exactly as long as the macro says |
| `Base64.EncoderCuts` | nginx-1.4.7/src/core/ngx_string.c:1072-1076 | the shifts and masks compute the four digits of a group |
| `Base64.DecoderShifts` | nginx-1.4.7/src/core/ngx_string.c:1179-1182 | the shifts compute the three bytes of a group |
| `Base64.EncodedAt` | nginx-1.4.7/src/core/ngx_string.c:1060-1098 | digit by digit: digit j of the encoding stands for bits 6j to 6j + 5 of the string, and = where none of them are left |
| `Base64.DecodedAt` | nginx-1.4.7/src/core/ngx_string.c:1155-1198 | byte by byte: byte i is made of bits 8i to 8i + 7 of the digits, and bits that make no whole byte are dropped |
| `Base64.AlphabetIs` | nginx-1.4.7/src/core/ngx_string.c:1065-1121 | the alphabet of RFC 4648, and its decoding table: no other byte is a digit |
| `Base64.RoundTrip` | nginx-1.4.7/src/core/ngx_string.c:1060-1198 | decoding the encoding of any byte string gives it back |
| `Uri.Count` | nginx-1.4.7/src/core/ngx_string.c:1475-1490 | the number of bytes the table marks |
| `Uri.Escape` | nginx-1.4.7/src/core/ngx_string.c:1492-1505 | marked bytes become a percent sign and two digits, the others stay |
| `Uri.EscapedLength` | nginx-1.4.7/src/core/ngx_string.c:1475-1505 | the escaped length is the length plus twice the count |
| `Uri.Unescape` | nginx-1.4.7/src/core/ngx_string.c:1509-1636 | the state machine for every type, with the bytes written and the bytes read |
| `Uri.UnescapedByGroups` | nginx-1.4.7/src/core/ngx_string.c:1509-1636 | for every type, what the state machine writes and reads, told by groups of one, two or three bytes |
| `Uri.UriStopsAtQuestion` | nginx-1.4.7/src/core/ngx_string.c:1553-1622 | with the URI type what is read is decoded plainly, and reading stops early only behind a question mark written |
| `Uri.TablesMarkPercent` | nginx-1.4.7/src/core/ngx_string.c:1347-1473 | every table but the one for refresh escapes the percent sign |
| `Uri.UriTable` | nginx-1.4.7/src/core/ngx_string.c:1347-1366 | the table for URIs marks controls, everything from DEL on, the space and # % ? |
| `Uri.ArgsTable` | nginx-1.4.7/src/core/ngx_string.c:1367-1386 | the table for arguments marks the same and & + ; |
| `Uri.ComponentTable` | nginx-1.4.7/src/core/ngx_string.c:1387-1406 | the table for URI components marks all but letters, digits and - . _ ~ |
| `Uri.HtmlTable` | nginx-1.4.7/src/core/ngx_string.c:1407-1426 | the table for HTML marks controls, everything from DEL on, the space, the quotes and # % |
| `Uri.RefreshTable` | nginx-1.4.7/src/core/ngx_string.c:1427-1446 | the table for refresh marks the same without # and % |
| `Uri.MemcachedTable` | nginx-1.4.7/src/core/ngx_string.c:1447-1466 | the table for memcached keys marks controls, the space and % |
| `Uri.EscapeRoundTrip` | nginx-1.4.7/src/core/ngx_string.c:1340-1636 | for every type and every byte string, unescaping with type 0 gives the string back exactly if the type is not refresh or there is no percent sign (section 2.1 of RFC 3986) |
| `Uri.NeverComesBack` | nginx-1.4.7/src/core/ngx_string.c:1509-1636 | a table that leaves the percent sign alone and marks no hexadecimal digit never round-trips a string that has a percent sign |

## Left out

- Sockets, signals, configuration, logging, the HTTP and mail modules, the DNS resolver: plumbing around system calls and callbacks.
- `page_parser` and `src/aret`: declarations only.
- The threaded build, the Windows branches and the fcntl branch of the mutex.
- Wildcard hashes and the 128-bit radix trie: same ideas, more cases.
- Failure of memory allocation: allocation succeeds throughout.
- Shmtx: a failing `sem_post` is not modelled; the spin loop is modelled by its attempts with the default bound of 2048, the pauses between them take no step.
- Slab.Pool.constructor: the number of pages is an input; how the source computes it is `Slab.PagesFit`.
- Slab.Pool.Write: of a page's words only the eight that a bitmap may occupy are kept, so what a block holds is not.
- Slab.Pool.FreeLocked: pointers outside the pool, into the tail of a run, at a free page or into a page's own bitmap are not modelled; words have 64 bits and pages 4096 bytes, and the smallest chunk has 8 bytes.
- Timers.EventTimers.ExpireTimers: a handler is a list of requests and deletions for registered events; whatever else handlers do, such as clearing the mark of an event that timed out, is not modelled.
- Timers.EventTimers.Tick: models only the update of the current millisecond; the cached time strings are left out.
- OpenFileCache.Cache.Open: vnode events, symlink checks, direct I/O and read-ahead are left out; the tree is a map by name, the queue a sequence, file-system answers and the time are inputs, and a file's unique id is taken to determine whether it is a directory. Calls without a cache, and those that only test a file, are left out.
- OpenFileCache.Cache.Release: the 24-bit width of the count is not modelled.
- Hash.Init: bucket sizes of 32768 and more, for which the 16-bit sums may wrap, are not modelled; the memory block is taken to start on a cache line.
- Radix.Tree.Insert: preallocation, and with it the insertion of the no-value mark, is not modelled; keys are numbers whose bits are tested, and the walk ends at the first zero bit of the mask.
- SslOutput.Connection.SendChain: the buffers of the chain are values, so aliasing between them is not captured; error and retry codes of the library are reduced to error and again.
- Gmtime.GmtimeIsCorrect: the cast of the year to a 32-bit int is not modelled.
- BlockHash.Context.Finish: the context is not wiped afterwards.
- Inet6.Addr: the bytes stored so far are kept as words, so the shift that opens the gap moves words.
- Uri.Unescape: buffers are values, so decoding in place is not captured.
- `ngx_decode_base64url`: the decoder is modelled for any table; the url table has no encoder to be paired with.
