# OpenMAMA data structures and protocols in Dafny

This project models the parts of OpenMAMA that its middleware layers rest on:
the red-black and splay trees of `systree.h`, the timer heap built on them, the
multi-reader/single-writer lock, the fault-tolerance election, the dispatch
queue, the linked list with iterators, the hash table and its hash function, the
node pool, and the field dictionary with its file format. It proves what every
operation keeps and what whole runs guarantee.

## How the model is laid out

Structures that the C code changes in place are classes with `modifies` clauses.
Next to the real fields a class has ghost fields: the contents as a sequence, set
or map, and the link fields as maps. One predicate (`Faithful`) says that the
objects hold what the maps say; the shape of a structure is then a statement
about maps and inductive values, proved without the heap.

| files | source | content |
|---|---|---|
| `Options`, `Powers`, `Sides`, `KeyOrder` | shared | missing values, powers of two, left and right, comparison functions and ascending sequences |
| `RbNodes`, `RbShape`, `RbFixup`, `RbMemory`, `RbTree`, `RbSearch`, `RbUpdate`, `RbHeight` | `systree.h` | red-black trees: shapes and zippers, the colour repair cases, link fields, rotations and repair loops, searching and walking, insert and remove, height |
| `SplayShape`, `SplayMemory`, `SplayTree` | `systree.h` | the top-down splay tree |
| `TimerOps`, `TimerWakeup`, `TimerPasses`, `TimerHeap` | `timers.c` | operations on pending timers, the wake-up protocol, what its runs fire and how long they sleep, the heap on a red-black tree |
| `MrswLock` | `MRSWLock.c` | the lock as atomic steps of any number of threads |
| `FtElection`, `FtMember` | `ft.c` | the election over members and groups; a member as an object |
| `QueueSpec`, `QueueTokens`, `Chains`, `QueueLinks`, `WombatQueue` | `queue.c` | what one call does to entries and flag; the semaphore protocol; linked chains and free lists; the queue with its cursor |
| `ListLinks`, `WombatList` | `list.c` | the list, its free list and its iterators |
| `TableRows`, `WombatTable` | `wtable.c` | the chained hash table |
| `JenkinsHash`, `WordBits`, `HashWords` | `lookup2.c` | the hash function on words of any width; machine words of 32 bits and their numbers; the hash on machine words |
| `MemPool` | `mempool.c`, `memnode.c` | node pool and elastic buffers |
| `DictionaryText`, `DictionaryFile`, `Dictionary` | `dictionary.c` | lines and how they are read; whole files and which fields come back; the growing array and the in-place parser |

Mutexes, semaphores, clocks, sockets and allocation appear as their usual
meaning: a lock has one holder, a semaphore is a count, a clock does not go
backwards, a socket pair holds some number of bytes, allocation succeeds. What a
callback does, which heartbeats arrive and what a file contains are parameters.
Parameters and results marked `ghost`, such as the index of an element, only
serve the contracts.

## Where code and comments differ

The model follows the code in each case.

- `wombatQueue_flush` is written as a loop until the queue is empty but returns
  after one item; `WombatQueue.Queue.Flush` states that it takes at most one.
- `wombatQueue_insertAfter` and `insertBefore` speak of moving the cursor off a
  sentinel when the queue is empty; they do it for every queue, so an insert
  after the tail goes to the front and an insert before the head to the end.
- `wombatQueue_replace` leaves the callback of the item as it is.
- The next incarnation of a fault-tolerance member is a 32-bit number: deferring
  to the last incarnation wraps it to 0. `FtElection.NextIncarnation` says that
  this is the only way to lose the ordering, and `FtElection.LastIncarnationWraps`
  shows it.
- `allocChunk` adds in 32-bit arithmetic, so a large chunk can get past the limit.
  `WombatQueue.RefusesExactly` says exactly when, and `WombatQueue.ExceedsLimit` is
  a queue that holds twelve entries under a limit of ten.
- `wombatQueue_poll` and `wombatQueue_flush` remove without looking. A token without
  an item, as unblock posts it, makes them remove the tail sentinel:
  `QueueTokens.StepEnough` says exactly when, `QueueTokens.PollAfterUnblock` is a run.
- A dispatch does not look at the cursor. When it takes the item under the cursor,
  and only then, the cursor is left on the free list; `wombatQueue_begin` and `_end`
  bring it back.
- `list_insert_before` promises to fail quietly for an element that is not in order.
  It lets through a freed element without a successor, which is then in both lists,
  and a freed position, whose predecessor is the pointer value -1.
  `WombatList.WList.InsertBefore` gives the exact condition and
  `WombatList.FreedElementInserted` a list. `list_push_back`, `list_push_front` and
  `iterator_insert_before` test nothing: they keep the lists in order if and only if
  the element is neither listed nor freed. `iterator_move_element_before` does if and
  only if it is not freed.
- `wtable_create` multiplies the asked size by ten in an `unsigned long`, which can
  wrap around. `WombatTable.TableBits` says exactly when the search for a power of
  two ends and when the table is as large as asked, `WombatTable.EndlessSearch` and
  `WombatTable.WantedVanishes` show the two failures.
- The hash's word type is called a 4-byte quantity and is `unsigned long`; the
  results hold for every word of at least 32 bits.
  `HashWords` writes the hash a second time, on machine words of 32 bits.
- A dictionary line gives back its field if and only if the name has no bar in it
  (`DictionaryText.ParseLine`). The reader's buffer takes 254 characters, and a line
  that is longer than 254 is written without its newline, so its end is read in front
  of the next line. `DictionaryFile.RoundTrip` says exactly which dictionaries come
  back, for names of any length; `DictionaryFile.TwoLongLines` are two fields that
  come back one by one but not together.

## Model

| member | source | states |
|---|---|---|
| RbFixup.InOrderRotate | common/c_cpp/src/c/systree.h:335-373 | a rotation keeps the order of the elements |
| RbFixup.InsertRecolor | common/c_cpp/src/c/systree.h:409-414 | with a red uncle, recolouring moves the only possible red-red conflict two levels up and keeps all black counts |
| RbFixup.InsertInner | common/c_cpp/src/c/systree.h:415-420 | the inner case turns into the outer one by a rotation at the parent |
| RbFixup.InsertOuter | common/c_cpp/src/c/systree.h:421-422 | recolouring and rotating at the grandparent removes the conflict and keeps all black counts |
| RbFixup.RemoveRedSibling | common/c_cpp/src/c/systree.h:452-456 | with a red sibling, a rotation gives the place with the missing black a black sibling |
| RbFixup.RemoveBlackNephews | common/c_cpp/src/c/systree.h:457-463 | with black nephews, colouring the sibling red moves the missing black one level up |
| RbFixup.RemoveNearNephew | common/c_cpp/src/c/systree.h:465-473 | with only the near nephew red, a rotation at the sibling makes the far one red |
| RbFixup.RemoveFarNephew | common/c_cpp/src/c/systree.h:474-480 | with the far nephew red, one rotation makes the whole tree red-black again |
| RbTree.Tree.RotateLeft | common/c_cpp/src/c/systree.h:335-353 | the link writes are exactly the rotation, for a node anywhere in the tree, including parent links and the head's root |
| RbTree.Tree.RotateRight | common/c_cpp/src/c/systree.h:355-373 | the mirror image |
| RbTree.Tree.InsertColor | common/c_cpp/src/c/systree.h:399-442 | the loop ends with a red-black tree of the same elements in the same order |
| RbTree.Tree.InsertStep | common/c_cpp/src/c/systree.h:404-440 | one turn of the loop keeps elements and colour conditions and moves the conflict strictly upwards |
| RbTree.Tree.RemoveColor | common/c_cpp/src/c/systree.h:444-518 | the loop turns a tree with one black too few at a place into a red-black tree of the same elements |
| RbTree.Tree.RemoveStep | common/c_cpp/src/c/systree.h:449-513 | one turn of the loop finishes, or leaves a red node at the place, or moves the place strictly upwards |
| RbUpdate.Insert | common/c_cpp/src/c/systree.h:587-616 | keeps search order, parent links, colours and black counts; adds exactly the element at its place, or returns the equal element and changes nothing |
| RbUpdate.Remove | common/c_cpp/src/c/systree.h:520-585 | keeps search order, parent links, colours and black counts and takes out exactly the element |
| RbUpdate.RemoveSuccessor | common/c_cpp/src/c/systree.h:532-566 | the successor takes over the place, links and colour of the removed element |
| RbUpdate.FindSuccessor | common/c_cpp/src/c/systree.h:531-533 | going right once and then left as far as possible reaches the first element of the right subtree |
| RbSearch.Find | common/c_cpp/src/c/systree.h:618-634 | returns the element equal to the key, or null exactly when every element is below or above it |
| RbSearch.NFind | common/c_cpp/src/c/systree.h:636-655 | returns the least element that is not below the key, or null when all are below |
| RbSearch.Neighbor | common/c_cpp/src/c/systree.h:657-699 | returns the element next to the given one in order, on either side, or null at the end |
| RbSearch.MinMax | common/c_cpp/src/c/systree.h:701-714 | returns the first or the last element in order, or null for the empty tree |
| RbSearch.Walk | common/c_cpp/src/c/systree.h:728-731 | starting from the minimum and asking for the next one visits every element once in ascending order |
| RbHeight.BlackCount | common/c_cpp/src/c/systree.h:46-54 | the recursive balance condition is the same as: every path from the root to a leaf has the same number of black nodes |
| RbHeight.HeightBound | common/c_cpp/src/c/systree.h:46-54 | 2 to the height is at most (n+1) squared, so the height is at most 2 lg(n+1), and no path is longer |
| SplayTree.SplayHead.Splay | common/c_cpp/src/c/systree.h:202-235 | terminates, keeps elements and order, and leaves the equal element at the root if there is one and otherwise a neighbour of the key |
| SplayTree.SplayHead.SplayStep | common/c_cpp/src/c/systree.h:208-232 | one turn keeps the three trees' contents as one ascending sequence around the key and shrinks the middle one |
| SplayTree.SplayHead.Assemble | common/c_cpp/src/c/systree.h:105-110 | the side trees and the middle tree become one tree with the same elements in order |
| SplayTree.SplayHead.Find | common/c_cpp/src/c/systree.h:120-130 | returns the equal element, or null exactly when there is none; the elements stay |
| SplayTree.SplayHead.Insert | common/c_cpp/src/c/systree.h:156-179 | adds exactly the element at its place in the order, or returns the equal element and keeps all |
| SplayTree.SplayHead.Remove | common/c_cpp/src/c/systree.h:181-200 | takes out exactly the element equal to the key, or returns null and keeps all |
| SplayTree.SplayHead.JoinLeft | common/c_cpp/src/c/systree.h:191-196 | splaying the left subtree for the key brings its greatest element up, which adopts the right subtree |
| TimerOps.ApplyAllSooner | common/c_cpp/src/c/timers.c:173-188 | callbacks that add only timers later than the pass's clock reading make nothing due |
| TimerOps.FireShrinks | common/c_cpp/src/c/timers.c:178-188 | each firing leaves strictly fewer timers due, so a pass ends |
| TimerOps.FiredInOrder | common/c_cpp/src/c/timers.c:173-188 | a pass fires in non-decreasing deadline order, none early, and leaves none due |
| TimerOps.FiresOnce | common/c_cpp/src/c/timers.c:173-188 | a timer no callback touches fires exactly once if it was due and otherwise stays with its deadline |
| TimerWakeup.StepLock | common/c_cpp/src/c/timers.c:126-189 | every step of every thread keeps the heap lock's single holder in agreement with the threads' positions |
| TimerWakeup.ApplyCovers | common/c_cpp/src/c/timers.c:310-321 | an operation that does not kick the pipe leaves a sleeping dispatcher covered |
| TimerWakeup.StepWake | common/c_cpp/src/c/timers.c:126-189 | every step keeps: a sleeping dispatcher has a byte waiting or coming, or wakes in time by itself |
| TimerWakeup.SleeperCovered | common/c_cpp/src/c/timers.c:142-151 | in every reachable state a dispatcher in select has an unread byte, or a byte is about to be written under the lock, or no timer comes due before the clock reading that its timeout was computed from plus that timeout; how long that is, TimerPasses.SleepsExactly says |
| TimerWakeup.NoLostWakeup | common/c_cpp/src/c/timers.c:310-402 | over every interleaving of create, reset and destroy, once a timer has been due for as long as the dispatcher took from its clock reading to entering select, select has something to return |
| TimerWakeup.DueAtOnce | common/c_cpp/src/c/timers.c:136-151 | a timer that was due at the dispatcher's clock reading makes select return at once |
| TimerWakeup.OneInside | common/c_cpp/src/c/timers.c:114-402 | no two threads are in critical sections of the heap at once |
| TimerWakeup.NeverStuck | common/c_cpp/src/c/timers.c:114-402 | in every run a thread can take a step exactly when it neither waits for the heap lock nor creates a timer at an address that is pending; an idle thread can make any call |
| TimerWakeup.ComesRound | common/c_cpp/src/c/timers.c:153-188 | from the reading of the bytes to the end of the pass every step of the dispatcher that is not an interruption or a callback's own call brings it nearer to the next choice of a timeout, so that neither loop goes on for ever |
| TimerWakeup.FiresDue | common/c_cpp/src/c/timers.c:178-181 | a callback runs only for the earliest timer, when it is due and out of the tree; otherwise no timer is due; which timers get there, TimerPasses.PassesWhole says |
| TimerPasses.Linearized | common/c_cpp/src/c/timers.c:272-402 | in every run the pending timers are what the users' calls, the callbacks' calls and the firings make of no timers one after another, with the arguments that were passed |
| TimerPasses.EachCallOnce | common/c_cpp/src/c/timers.c:272-402 | a user whose calls have all returned has had each of them take effect exactly once |
| TimerPasses.SleepsExactly | common/c_cpp/src/c/timers.c:128-151 | in every run the timeout is none exactly without timers, and otherwise the larger of 0 and the least deadline minus the clock, both of the moment when it was chosen |
| TimerPasses.PassesWhole | common/c_cpp/src/c/timers.c:146-188 | in every run each return to the choice of a timeout ends a whole pass over the timers that were there when the dispatcher took the lock again, with a clock read after that, and a byte that select saw has been read with all others |
| TimerPasses.WokenFires | common/c_cpp/src/c/timers.c:146-188 | when a pass ends no timer is left that was due when the dispatcher woke; a timer that is gone was fired or destroyed or reset by a callback, and one that was due and no callback touched fired exactly once |
| TimerHeap.TimerOrdering | common/c_cpp/src/c/timers.c:44-56 | a total order in which only a timer equals itself: the earlier deadline first, and of equal deadlines the lower address |
| TimerHeap.TimerHeap.Earliest | common/c_cpp/src/c/timers.c:313-318 | tells whether no pending timer is earlier than the deadline |
| TimerHeap.TimerHeap.AddTimer | common/c_cpp/src/c/timers.c:310-350 | adds the timer to the pending ones and writes a byte exactly when it becomes the earliest and the pair is not full |
| TimerHeap.TimerHeap.RemoveTimer | common/c_cpp/src/c/timers.c:369-373 | finds and removes the timer whenever it is pending, and otherwise changes nothing |
| TimerHeap.TimerHeap.CreateTimer | common/c_cpp/src/c/timers.c:272-308 | the new timer, at an address that no live timer has, is pending with its deadline; acts as the protocol's create |
| TimerHeap.TimerHeap.ResetTimer | common/c_cpp/src/c/timers.c:375-402 | the timer is pending with the new deadline only; acts as the protocol's reset |
| TimerHeap.TimerHeap.DestroyTimer | common/c_cpp/src/c/timers.c:352-367 | the timer is no longer pending and its address may be used again |
| TimerHeap.TimerHeap.NotFound | common/c_cpp/src/c/timers.c:369-373 | a failed search means that the timer is not in the tree, as its key has not changed since it went in |
| TimerHeap.TimerHeap.Dispatch | common/c_cpp/src/c/timers.c:173-188 | the loop over the tree, with callbacks that create, reset and destroy timers, is a pass in the sense of the results above; afterwards the live timers are those that its callbacks leave |
| MrswLock.NextInv | common/c_cpp/src/c/MRSWLock.c:33-292 | every atomic step of every thread keeps mutex ownership, reader count, writer identity and nesting in agreement with the threads |
| MrswLock.Exclusion | common/c_cpp/src/c/MRSWLock.c:33-122 | in every reachable state a holder of the write lock excludes all other readers and writers, and the reader count is the number of threads' acquisitions; MrswLock.CallersExcluded says it of the callers' own calls |
| MrswLock.WriteSteps | common/c_cpp/src/c/MRSWLock.c:233-292 | a write acquire passes the check only without readers, and nesting goes up and down by one; MrswLock.CallsCount says it of whole runs |
| MrswLock.CallsCount | common/c_cpp/src/c/MRSWLock.c:33-292 | in every run a thread whose calls have returned holds exactly as many write and read acquisitions as it made acquire calls more than release calls, and it can release one exactly when that number is not 0 |
| MrswLock.CallersExcluded | common/c_cpp/src/c/MRSWLock.c:33-292 | in every run, for callers whose calls have returned: one that made more write acquires than releases is the writer, with the nesting its calls say, and every other one has released all that it acquired |
| MrswLock.ReadersCount | common/c_cpp/src/c/MRSWLock.c:92-164 | when all calls have returned, the reader count is the number of read acquire calls minus the read release calls |
| MrswLock.NextToken | common/c_cpp/src/c/MRSWLock.c:69-114 | every step keeps the token with the semaphore, the readers, or a thread that stands for it |
| MrswLock.TokenNeverLost | common/c_cpp/src/c/MRSWLock.c:242-284 | in every reachable state with no reader and no valid writer the event is signalled, or a call under way is between taking the token and giving it on; with the mutex free it is signalled or a writer has the token and has not yet checked for readers |
| MrswLock.StepBalance | common/c_cpp/src/c/MRSWLock.c:69-164 | a step takes a token exactly when a writer waits for it or the first reader resets the event; otherwise tokens, with those that calls under way owe, change only by one for each hold that ends |
| MrswLock.TokenBalance | common/c_cpp/src/c/MRSWLock.c:33-292 | in every run the tokens, with those that calls under way still owe, are one plus the ended holdings minus the tokens taken |
| MrswLock.NeverStranded | common/c_cpp/src/c/MRSWLock.c:69-90 | on a lock that nobody holds, whenever a call is under way some call can take a step |
| MrswLock.QuietMeansSignalled | common/c_cpp/src/c/MRSWLock.c:124-164 | when all other calls have returned, a waiting writer finds the event signalled |
| FtElection.TotalOrder | mama/c_cpp/src/c/ft.c:688-719 | credentials are strictly and totally ordered; different instances never tie; which order it is, FtElection.RankedBy and BetterIsHigher say |
| FtElection.RankedBy | mama/c_cpp/src/c/ft.c:688-719 | the greater weight is better; with equal weight the greater incarnation; then the greater address; then the greater process |
| FtElection.BetterIsHigher | mama/c_cpp/src/c/ft.c:688-719 | better is exactly higher in the dictionary order of the sequences weight, incarnation, address, process |
| FtElection.Ignores | mama/c_cpp/src/c/ft.c:722-768 | a heartbeat changes a member only if it is of its group and ranks higher; one of its own instance never does, and a higher one of another puts it on standby with the timer running |
| FtElection.HearAllKeeps | mama/c_cpp/src/c/ft.c:637-651 | a drain of heartbeats judges them all against the same credentials and ends on standby unless none is better |
| FtElection.HearInv | mama/c_cpp/src/c/ft.c:744-760 | deferring keeps the next incarnation above everything deferred to, and the incarnation at most the next one |
| FtElection.HandleInv | mama/c_cpp/src/c/ft.c:536-566 | every heartbeat and every timeout keeps the incarnation ordering, and the timeout timer exists exactly while the member is not active |
| FtElection.NextIncarnation | mama/c_cpp/src/c/ft.c:746-749 | over a whole activation the next incarnation exceeds every one deferred to if and only if none of them was the last 32-bit number |
| FtElection.ActiveOutranks | mama/c_cpp/src/c/ft.c:544-553 | in every run an active member outranks every credential of its weight that it deferred to since it last deferred to the last incarnation, if it ever did |
| FtElection.LastIncarnationWraps | mama/c_cpp/src/c/ft.c:746-749 | deferring to the last incarnation starts again from 0 and lets a lower-ranked member go active |
| FtElection.DeliverLocal | mama/c_cpp/src/c/ft.c:722-768 | whatever the order of deliveries, a member's state depends only on what it received |
| FtElection.RoundElects | mama/c_cpp/src/c/ft.c:722-768 | after every member has taken in every other's current heartbeat, in any order and with anything else in between, all but the one with the greatest weight, incarnation, address and process of a group are on standby and at most one is active |
| FtElection.BestKeepsState | mama/c_cpp/src/c/ft.c:764-768 | the best member of a group is not moved by the others' current heartbeats |
| FtElection.TimeoutElects | mama/c_cpp/src/c/ft.c:637-651 | when after a full round the best member times out with nothing better unread, it is the only active one of its group, and it still ranks above the others unless its next incarnation had wrapped around |
| FtElection.StepElected | mama/c_cpp/src/c/ft.c:637-768 | a heartbeat or a timeout of any member keeps the elected member the only active one, if it meets nothing better and its heartbeat has reached whoever times out |
| FtElection.StaysElected | mama/c_cpp/src/c/ft.c:637-768 | over every run of heartbeats and timeouts of all members in which that holds, exactly the elected member of the group is active |
| FtMember.FtMember.constructor | mama/c_cpp/src/c/ft.c:279-313 | an activated member is in state unknown with incarnation 0, next incarnation 1 and a timeout timer |
| FtMember.FtMember.InvokeStateChange | mama/c_cpp/src/c/ft.c:536-566 | going active takes the next incarnation, announces it and stops the timer; every other change has the timer run |
| FtMember.FtMember.BetterCredentials | mama/c_cpp/src/c/ft.c:688-719 | the four tests decide exactly the dictionary order of weight, incarnation, address and process |
| FtMember.FtMember.CheckHeartbeat | mama/c_cpp/src/c/ft.c:722-768 | the object changes exactly as the election step says, the timer it restarts exists, and the shared counter counts the better heartbeats |
| FtMember.FtMember.TimeoutCallback | mama/c_cpp/src/c/ft.c:637-651 | drains the unread heartbeats and goes active, with an announcement, exactly when none of them was better |
| QueueTokens.StepEnough | common/c_cpp/src/c/queue.c:208-449 | every step keeps tokens at least as many as items plus the unblock flag, except a poll or flush that has a token and finds no item; exactly that one removes a sentinel |
| QueueTokens.BreaksOnSurplus | common/c_cpp/src/c/queue.c:339-377 | a sentinel is removed only while there are more tokens than items |
| QueueTokens.StepExact | common/c_cpp/src/c/queue.c:339-377 | without unblock every step, also of poll and flush, keeps the counts equal and never removes a sentinel |
| QueueTokens.QueueHasToken | common/c_cpp/src/c/queue.c:260-323 | in every run in which no sentinel was removed, semaphore and tokens under way cover queue and flag, so a queue that is not empty can always be served; what queue and flag then are, QueueTokens.Linearized says |
| QueueTokens.DispatchNeverBreaks | common/c_cpp/src/c/queue.c:260-323 | runs without poll and flush never remove a sentinel, whatever is unblocked |
| QueueTokens.PollAfterUnblock | common/c_cpp/src/c/queue.c:339-377 | unblock and then poll on an empty queue is a run that removes a sentinel |
| QueueTokens.ExactCount | common/c_cpp/src/c/queue.c:339-377 | without unblock the count is exact and a consumer with a token always finds a real item |
| QueueTokens.Fifo | common/c_cpp/src/c/queue.c:208-323 | in every interleaving the items taken and the items queued are together the items added, in that order; that these are the callers' data, QueueTokens.Linearized says |
| QueueTokens.Linearized | common/c_cpp/src/c/queue.c:208-449 | in every run queue and flag are what the calls' sequential meaning, the one that the object's methods have, makes of them in the order of the locked steps; taken and queued items are the data of the accepted enqueue calls in that order, and the semaphore counts accepted enqueues and unblocks minus takes |
| QueueTokens.EachCallOnce | common/c_cpp/src/c/queue.c:208-449 | a thread whose calls have all returned has had each of them take effect once, be refused as full, or find no token |
| QueueLinks.UnlinkShape | common/c_cpp/src/c/queue.c:31-35 | the four writes of WQ_REMOVE take the item out of the queue and put it on the free list |
| QueueLinks.LinkShape | common/c_cpp/src/c/queue.c:232-242 | linking the first free item between two neighbours inserts it there and pops the free list |
| QueueLinks.ChunkShape | common/c_cpp/src/c/queue.c:395-408 | a strung chunk becomes the free list without touching the queue |
| WombatQueue.RefusesExactly | common/c_cpp/src/c/queue.c:388-392 | an accepted chunk is within the limit if and only if the 32-bit sum does not wrap around or the wrapped sum is refused; without wrap-around a chunk is refused exactly when it would exceed the limit |
| WombatQueue.Queue.constructor | common/c_cpp/src/c/queue.c:72-102 | an empty queue with its cursor on the head |
| WombatQueue.Queue.Create | common/c_cpp/src/c/queue.c:104-130 | sets the sizes and makes the first chunk, and fails exactly when that exceeds the limit |
| WombatQueue.Queue.AllocChunk | common/c_cpp/src/c/queue.c:381-409 | gives the free list a chunk of new items, or nothing when the limit refuses it |
| WombatQueue.Queue.EachItemOnce | common/c_cpp/src/c/queue.c:381-409 | every item of every chunk is once in the queue or once on the free list |
| WombatQueue.Queue.Enqueue | common/c_cpp/src/c/queue.c:208-249 | appends the entry and posts, or reports full, exactly when no item is free and a chunk is refused, with nothing changed; sizes stay, and chunks add up to at most the limit while the sum does not wrap around |
| WombatQueue.ExceedsLimit | common/c_cpp/src/c/queue.c:381-409 | with a limit of 10, one initial item and a chunk size of 2^32-1, twelve entries are queued |
| WombatQueue.Queue.Dispatch | common/c_cpp/src/c/queue.c:260-323 | with a token: clears the unblock flag, or takes the first entry, or finds the queue empty; the cursor stays on its entry unless exactly that one is taken; limits stay |
| WombatQueue.Queue.TimedDispatch | common/c_cpp/src/c/queue.c:331-336 | times out exactly without a token and otherwise dispatches, with the same effect on the cursor |
| WombatQueue.Queue.Poll | common/c_cpp/src/c/queue.c:339-377 | would block exactly without a token; takes the first entry, or from an empty queue the tail sentinel, after which no queue fits the links |
| WombatQueue.Queue.Flush | common/c_cpp/src/c/queue.c:424-449 | with a token hands over the first entry and no more, or from an empty queue the tail sentinel |
| WombatQueue.Queue.Unblock | common/c_cpp/src/c/queue.c:411-422 | sets the flag and posts a token for it |
| WombatQueue.Queue.CurrentEntry | common/c_cpp/src/c/queue.c:513-537 | the entry under the cursor, or the end on a sentinel |
| WombatQueue.Queue.Next | common/c_cpp/src/c/queue.c:451-480 | moves to the next entry and gives it, or stays on the last one at the end |
| WombatQueue.Queue.Prev | common/c_cpp/src/c/queue.c:482-511 | moves to the previous entry and gives it, or stays on the first one at the beginning |
| WombatQueue.Queue.RemoveCurrent | common/c_cpp/src/c/queue.c:539-569 | removes the entry under the cursor, which moves on; the semaphore keeps its token; sizes and number of items stay |
| WombatQueue.Queue.InsertAfter | common/c_cpp/src/c/queue.c:571-616 | inserts behind the cursor, from the tail at the front, or reports full exactly when no item is free and a chunk is refused |
| WombatQueue.Queue.InsertBefore | common/c_cpp/src/c/queue.c:618-663 | inserts in front of the cursor, from the head at the end, or reports full exactly when no item is free and a chunk is refused |
| WombatQueue.Queue.Replace | common/c_cpp/src/c/queue.c:665-685 | replaces data and closure under the cursor and keeps the callback |
| WombatQueue.Queue.Begin | common/c_cpp/src/c/queue.c:687-697 | the cursor is on the head, wherever it was |
| WombatQueue.Queue.ToEnd | common/c_cpp/src/c/queue.c:699-709 | the cursor is on the tail, wherever it was |
| ListLinks.Whereabouts | common/c_cpp/src/c/list.c:213-232 | the link fields of an element tell whether it is in the list, free or loose |
| ListLinks.RemoveShape | common/c_cpp/src/c/list.c:530-537 | unlinking an element leaves a list without it, with the free list as it was |
| ListLinks.InsertShape | common/c_cpp/src/c/list.c:394-404 | linking a loose element in front of another one inserts it there |
| ListLinks.LinkedFree | common/c_cpp/src/c/list.c:394-404 | linking a freed element into the list leaves links that no list and free list fit |
| ListLinks.OneBefore | common/c_cpp/src/c/list.c:394-404 | no two elements have the same next one and none is its own |
| ListLinks.LinkedTwice | common/c_cpp/src/c/list.c:394-404 | linking an element of the list in a second time leaves links that no list and free list fit |
| WombatList.WList.constructor | common/c_cpp/src/c/list.c:75-102 | an empty list without iterators |
| WombatList.WList.AllocateElement | common/c_cpp/src/c/list.c:158-189 | gives the first free element, cleared, or a new one when none is free |
| WombatList.WList.FreeElement | common/c_cpp/src/c/list.c:212-253 | frees a loose element; an element in the list, or one already freed, stays as it is |
| WombatList.WList.LinkBefore | common/c_cpp/src/c/list.c:394-404 | for every element that is not a sentinel: a loose one is inserted, and the lists stay in order if and only if it was loose |
| WombatList.WList.PushBack | common/c_cpp/src/c/list.c:258-272 | appends a loose element and counts it; the lists stay in order if and only if the element was neither listed nor freed |
| WombatList.WList.PushFront | common/c_cpp/src/c/list.c:274-289 | puts a loose element first and counts it; the lists stay in order if and only if the element was neither listed nor freed |
| WombatList.WList.InsertBefore | common/c_cpp/src/c/list.c:411-433 | for all elements and positions: rejected exactly when the position has no predecessor or the element a successor, and then nothing changes; follows the freed mark exactly for a freed position; otherwise inserts; the lists stay in order if and only if it is rejected or neither is freed |
| WombatList.FreedElementInserted | common/c_cpp/src/c/list.c:411-433 | a list of one element and one freed element that is inserted: it is then first on the free list and before the other one in the list, and no list and free list fit the links |
| WombatList.WList.AdjustIterators | common/c_cpp/src/c/list.c:451-472 | iterators on the element go to the next one, from the last to the first, or to the tail; all others stay |
| WombatList.WList.RemoveElement | common/c_cpp/src/c/list.c:509-540 | removes exactly the element and moves its iterators to a listed element or the tail; does nothing for an element that is not in the list |
| WombatList.WList.PopFront | common/c_cpp/src/c/list.c:477-503 | removes and returns the first element, with iterators moved on, or returns null |
| WombatList.WList.CreateIterator | common/c_cpp/src/c/list.c:603-623 | a new iterator on the first element, or on the tail of an empty list |
| WombatList.WList.CurrentNode | common/c_cpp/src/c/list.c:578-598 | the current element, from a sentinel the first one |
| WombatList.WList.Next | common/c_cpp/src/c/list.c:655-672 | gives the current element and moves on, ending at the tail |
| WombatList.WList.NextCirc | common/c_cpp/src/c/list.c:677-699 | gives the current element and moves on, from the last one to the first |
| WombatList.WList.Circle | common/c_cpp/src/c/list.c:677-699 | from an iterator on any element or on a sentinel, n calls give n consecutive elements of the circle; as many calls as there are elements give each exactly once and end where they began |
| WombatList.OnceRound | common/c_cpp/src/c/list.c:677-699 | going round once from any element meets each exactly once |
| WombatList.WList.InsertBeforeCurrent | common/c_cpp/src/c/list.c:641-650 | inserts a loose element in front of the iterator's element, on which the iterator then is; the lists stay in order if and only if the element was neither listed nor freed |
| WombatList.WList.MoveElementBefore | common/c_cpp/src/c/list.c:736-754 | moves a listed element, or inserts a loose one, just before the iterator's one; other iterators on a moved element go to its successor and all others stay; the lists stay in order if and only if the element was not freed |
| WombatList.MovedInFront | common/c_cpp/src/c/list.c:736-754 | after the move the element is right in front and the others are in their old order |
| TableRows.InsertRepresents | common/c_cpp/src/c/wtable.c:275-287 | pushing a bucket for a new key on its row adds exactly that binding |
| TableRows.UpdateRepresents | common/c_cpp/src/c/wtable.c:254-265 | writing a bucket's data changes exactly its key's binding |
| TableRows.RemoveRepresents | common/c_cpp/src/c/wtable.c:401-423 | taking a bucket out of its row removes exactly its key's binding |
| WombatTable.TableBits | common/c_cpp/src/c/wtable.c:171-185 | finds the smallest power of two, from 2 on, that is at least ten times the asked size in the word's arithmetic, if and only if that product is at most half the word; the table is as large as asked if and only if ten times the size is |
| WombatTable.SearchEnds | common/c_cpp/src/c/wtable.c:178-185 | some power of two in the word ends the search if and only if the wrapped product is at most half the word |
| WombatTable.EndlessSearch | common/c_cpp/src/c/wtable.c:173-185 | for size 214748365 in 32 bits no power of two ends the search |
| WombatTable.WantedVanishes | common/c_cpp/src/c/wtable.c:173-173 | for a size of half the word the product is 0, so the search ends at once |
| WombatTable.Table.Search | common/c_cpp/src/c/wtable.c:321-345 | finds the bucket with the key in the chain of its slot, or none |
| WombatTable.Table.Lookup | common/c_cpp/src/c/wtable.c:296-362 | returns the key's data, or nothing for an unbound key |
| WombatTable.Table.Insert | common/c_cpp/src/c/wtable.c:221-293 | binds the key, keeps all other bindings and tells a new key from a replaced one |
| WombatTable.Table.Remove | common/c_cpp/src/c/wtable.c:364-440 | unbinds the key, keeps all other bindings and returns the old data |
| WombatTable.Table.Clear | common/c_cpp/src/c/wtable.c:442-469 | leaves no binding and a count of zero |
| WombatTable.Table.ForEach | common/c_cpp/src/c/wtable.c:50-69 | visits every binding exactly once with its data |
| WombatTable.Table.GetCount | common/c_cpp/src/c/wtable.c:504-512 | the number of bindings |
| WombatTable.Perform | common/c_cpp/src/c/wtable.c:221-512 | every call changes the bindings, and answers, as on a map |
| WombatTable.RunCalls | common/c_cpp/src/c/wtable.c:164-512 | over any run of inserts, lookups, removes, clears and counts on a new table, with any hash function and any number of buckets, every answer is that of a map |
| JenkinsHash.XorCancels | common/c_cpp/src/c/lookup2.c:41-52 | exclusive or undoes itself |
| JenkinsHash.TurnBack | common/c_cpp/src/c/lookup2.c:43-51 | each line of mix has an inverse |
| JenkinsHash.MixReversible | common/c_cpp/src/c/lookup2.c:26-52 | mix is a permutation of all states, with an explicit inverse, for every word width; which permutation, HashWords.MixAgrees says |
| JenkinsHash.StatesApart | common/c_cpp/src/c/lookup2.c:117-144 | different states stay different under the same rest of a key |
| JenkinsHash.OneBlockApart | common/c_cpp/src/c/lookup2.c:104-147 | keys of equal length that differ in one 12-byte block, or only in the tail, end in different states |
| JenkinsHash.LengthsApart | common/c_cpp/src/c/lookup2.c:117-144 | keys of different length with the same number of whole blocks that differ only by zeros at the end end in different states |
| JenkinsHash.AddBytes | common/c_cpp/src/c/lookup2.c:128-142 | the falling-through cases add the remaining bytes as one word |
| JenkinsHash.Whash | common/c_cpp/src/c/lookup2.c:104-147 | the loop computes the last word of the key's final state; what that is, HashWords.HashAgrees says |
| WordBits.ValPlus | common/c_cpp/src/c/lookup2.c:119-121 | the machine's addition is addition of the words' numbers modulo 2^32 |
| WordBits.ValMinus | common/c_cpp/src/c/lookup2.c:43-51 | and its subtraction subtraction |
| HashWords.LowXor | common/c_cpp/src/c/lookup2.c:43-51 | the machine's exclusive or of two words is that of their numbers, for the bits under any mask |
| HashWords.LineTurns | common/c_cpp/src/c/lookup2.c:43-51 | two subtractions and an exclusive or on machine words are one line of mix |
| HashWords.MixAgrees | common/c_cpp/src/c/lookup2.c:41-52 | the nine lines on machine words, with the source's shifts, are mix at width 32 |
| HashWords.BlockAgrees | common/c_cpp/src/c/lookup2.c:119-121 | twelve bytes shifted and added to machine words are the block that the model adds |
| HashWords.TailAgrees | common/c_cpp/src/c/lookup2.c:127-142 | the length and up to eleven bytes added one by one, the highest first, are the tail that the model adds |
| HashWords.HashAgrees | common/c_cpp/src/c/lookup2.c:104-147 | for every key of bytes and every start value, the hash on machine words, from the golden ratio twice on, ends in the model's state at width 32 |
| MemPool.MemNode.Stretch | common/c_cpp/src/c/memnode.c:84-131 | the buffer grows to the asked size with its bytes kept and zeros behind, and never shrinks |
| MemPool.Pool.AddNode | common/c_cpp/src/c/mempool.c:75-121 | adds one free, tracked node of the asked size, within the tracker's capacity |
| MemPool.Pool.GrowTracker | common/c_cpp/src/c/mempool.c:86-97 | after growing by blocks there is always room for the next index, and tracked nodes stay |
| MemPool.Pool.GetNode | common/c_cpp/src/c/mempool.c:123-153 | hands out a node that is not out, at least as large as asked, and leaves at least one free |
| MemPool.Pool.ReturnNode | common/c_cpp/src/c/mempool.c:155-167 | a handed-out node is free again, with its buffer |
| MemPool.Pool.Iterate | common/c_cpp/src/c/mempool.c:169-189 | visits the tracked nodes, oldest first |
| MemPool.Pool.FreeOrOut | common/c_cpp/src/c/mempool.c:35-167 | every tracked node is tracked once and is either free or handed out |
| MemPool.Create | common/c_cpp/src/c/mempool.c:35-73 | a pool of the asked number of free nodes, all with buffers of the asked size, refused below two |
| DictionaryText.AtoiItoa | mama/c_cpp/src/c/dictionary.c:591-594 | reading back a printed number gives the number |
| DictionaryText.AtoiSkips | mama/c_cpp/src/c/dictionary.c:684-686 | white space of any of the six kinds in front of a number does not change it |
| DictionaryText.StripDrops | mama/c_cpp/src/c/fileutils.c:78-87 | of a line followed by white space of any of the six kinds exactly the line is left |
| DictionaryText.ParseLine | mama/c_cpp/src/c/dictionary.c:609-638 | a field's line gives back the field if and only if its name has no bar; with a bar the name is cut there |
| DictionaryFile.SurvivorLine | mama/c_cpp/src/c/dictionary.c:591-695 | a field whose line, with the character left over from the line before, fits the buffer comes in wherever it stands in a file, and so does one of type 0 that is one character longer |
| DictionaryText.LoadedPlain | mama/c_cpp/src/c/dictionary.c:657-695 | no file gives a field a name with a bar or a newline |
| DictionaryFile.ReadLong | mama/c_cpp/src/c/dictionary.c:591-657 | a longer line is read as its first 254 characters, and the rest of it in front of the following line |
| DictionaryFile.LoadedCount | mama/c_cpp/src/c/dictionary.c:620-695 | reading any file adds at most one field for every two bars in it |
| DictionaryFile.LoadedKeeps | mama/c_cpp/src/c/dictionary.c:657-695 | a field that is overwritten costs one of those |
| DictionaryFile.LostLine | mama/c_cpp/src/c/dictionary.c:591-695 | after a line that is cut too early, too few bars are left for all fields to come, or its field stays with a wrong type |
| DictionaryFile.OneFieldRoundTrip | mama/c_cpp/src/c/dictionary.c:569-697 | a file of one field gives it back if and only if its name has no bar or newline and its line at most 254 characters, or 255 when the type is 0 |
| DictionaryFile.RoundTrip | mama/c_cpp/src/c/dictionary.c:569-697 | for every dictionary: reading what was written into an empty one gives the same fields if and only if all names are without bar and newline and every line, with the character that a line of 255 characters before it leaves over, has at most 254 characters, or 255 when the type is 0 |
| DictionaryFile.FileRoundTrip | mama/c_cpp/src/c/dictionary.c:587-695 | the same for the lines of any fields with different identifiers, in any order |
| DictionaryFile.TwoLongLines | mama/c_cpp/src/c/dictionary.c:591-657 | two fields with lines of 255 characters come back each from a file of its own but not from one file |
| Dictionary.Fgets | mama/c_cpp/src/c/dictionary.c:657-657 | takes the text through the next newline, at most 254 characters, with a NUL behind |
| Dictionary.StripTrailing | mama/c_cpp/src/c/fileutils.c:78-87 | cuts exactly the white space at the end of the string |
| Dictionary.GetNextDelim | mama/c_cpp/src/c/dictionary.c:608-615 | overwrites the next bar and gives the place after it |
| Dictionary.AfterFirst | mama/c_cpp/src/c/dictionary.c:676-679 | searching from the start again, past the NUL left by the first search, finds the second bar |
| Dictionary.ValidateDelims | mama/c_cpp/src/c/dictionary.c:620-638 | accepts exactly the lines with two bars |
| Dictionary.ParseBuffer | mama/c_cpp/src/c/dictionary.c:673-686 | the three strings in the overwritten buffer are the line's parts |
| Dictionary.Dictionary.EnsureCapacity | mama/c_cpp/src/c/dictionary.c:885-917 | makes room for the identifier and the largest one, keeping all fields |
| Dictionary.Dictionary.CreateDictArray | mama/c_cpp/src/c/dictionary.c:919-927 | an empty array that reaches the largest identifier |
| Dictionary.Dictionary.CreateFieldDescriptor | mama/c_cpp/src/c/dictionary.c:512-545 | enters exactly the field, with the array beyond the largest identifier |
| Dictionary.Dictionary.SetMaxFid | mama/c_cpp/src/c/dictionary.c:547-567 | keeps all fields and the array beyond the largest identifier, which becomes the given one in 16 bits, or with an array the larger of the two |
| Dictionary.Dictionary.WriteToFile | mama/c_cpp/src/c/dictionary.c:569-606 | the file is the lines of all fields in ascending order |
| Dictionary.Dictionary.PopulateFromFile | mama/c_cpp/src/c/dictionary.c:640-697 | the fields are those before plus those of the valid lines, later lines winning |
| Dictionary.WriteAndPopulate | mama/c_cpp/src/c/dictionary.c:569-697 | populating a new dictionary from a written file gives what the file holds, never a bar or newline in a name, and the same fields if and only if all of them survive as above |

## Left out

- Sockets, multicast setup, file handles, logging and process statistics: input and output without a result to state.
- Bridges, inboxes, plugins, entitlements, message fields and utilities: they pass calls on to libraries that are not part of this repository.
- Enum and string tables, `datetime.c`, `price.c`: single-branch facts, or conversions done elsewhere.
- `imagerequest.c` and `listenermsgcallback.c`: their guarantees rest on subscription and throttle code.
- `SPLAY_MIN` and `SPLAY_MAX`, which splay towards one end and return the new root; `SPLAY_NEXT`, which splays its element and returns the leftmost one of the right subtree; `SPLAY_FOREACH`, built from these; `RB_FOREACH_REVERSE`, which starts at the maximum and asks for predecessors; and `RB_AUGMENT`, a hook in the rotations that does nothing unless a user defines it.
- Heap teardown in `timers.c` and hard write failures on the wake-up pipe.
- FtMember.FtMember.TimeoutCallback: the heartbeat counter that all members of a process share is not changed by other threads during the callback.
- Deactivating and activating a fault-tolerance member again, changing its weight, and the text of heartbeats.
- WombatQueue.Queue.Enqueue: a semaphore that overflows its largest value is not modelled.
- `list_for_each`, the getters of `list.c`, `iterator_destroy`, and `iterator_next_circ`, `iterator_insert_before` and `iterator_move_element_before` on an empty list, where the code has no current element.
- WombatTable.Table.Clear: the code counts the buckets with `1 << size` in `int`, so the result holds of tables of at most 2^30 buckets.
- WombatTable.Table.ForEach: the same count in `int`, so at most 2^30 buckets.
- NULL tables and keys, `wtable_free_all`, `wtable_clear_for_each` and `wtable_destroy`.
- `whash2`, `whash3` and the self-test drivers of `lookup2.c`; the avalanche statistics in its comments.
- Failing allocations in `mempool.c` and `memnode.c`, and `memoryPool_destroy`.
- Dictionaries received as messages, lookups by name and duplicate checks in `dictionary.c`.
