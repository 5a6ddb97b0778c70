# Verified model of the queues, the ring and the log protocol

A Dafny 4.11 model of the three pieces of this repository that carry real invariants, and proofs about
all their runs. `dafny verify dfyconfig.toml` checks everything.

**Intrusive queues** (`server/src/queue.h`). Memory is a set of one- or two-word records. The first word of a
record is a forward pointer; the second, where the family has one, holds the *address of a forward word*, which
is also the address of a record, so TAILQ_LAST and TAILQ_PREV can read it as a head. `QueueMemory` says when
memory holds given queues (`Represents`) and when an operation did exactly its sequence meaning and touched
nothing else (`Relinked`); the queues determine every word and every word chain determines its queue. The macros
are methods over a mutable `Memory` that load and store one word per statement, and every access demands an
allocated record. `TailQueue` has the TAILQ macros with their consistency checks compiled in,
`TailQueuePrograms` runs pairs of programs on twin memories, `TailQueueTraversal` the FOREACH forms,
`TailQueueRuns` whole runs and the server's thread list, `OtherQueues` the removals and tail upkeep of the
other families.

**Ten-slot ring and driver calls** (`aesd-char-driver`). `RingBuffer` has the ring's value, its two operations
on values and the in-place code; `RingRuns` runs of insertions and lookups; `CharDriver` aesd_write and aesd_read
with an allocation ledger in which kfree demands a live block; `CharDriverRuns` runs of calls;
`CharDriverSessions` what readers get.

**Mutex protocol of the socket server** (`server/src`). `LogProtocol` is a step system of any number of clients,
timer callbacks and an exit signal over one stdio stream; `LogRuns` says what the actions of a run determine, byte
for byte and thread by thread; `LogTheorems` what every interleaving keeps; `SocketServer` the threads' code, proved
to perform only protocol actions and to leave its loop as its client's receptions and the signal decide.

## Where the code departs from its description

The model follows the code.

- A lookup that misses also resets `full`, `in_offs` and `out_offs` (aesd-circular-buffer.c:46-48), which its
  header comment does not say. Conservation of entries is therefore not a law; `RingRuns.ConservedIffLossless` gives
  the exact condition, `RingRuns.MissLosesEntry` the smallest failing run. `CharDriverRuns.MissThenWriteLeaks` shows
  the same for the driver's memory, `CharDriverRuns.ExactIffNoLeak` the exact condition there.
- aesd_read ignores the in-entry offset the lookup returns and copies the whole entry whatever `count` is
  (main.c:74-85). `CharDriverSessions.ReadDeliversWholeEntry` says what any read delivers, `PositionedReadIff` when
  that is a positioned read, and `SecondByteIsMisread` gives a read that is not one.
- aesd_write returns `count` when the trylock fails although the data is dropped (main.c:135-141).
  `CharDriver.ReportedWriteKeptIffLocked` gives the exact condition, `CharDriver.DroppedWriteReportsSuccess` the call.
- A client that sees the exit signal sends the file back without flushing (aesdsocket_thread.c:75, 100).
  `LogTheorems.ExitReplyExact` says exactly what it is sent and when that is whole or contains all its own bytes;
  `LogTheorems.ExitReplyMayMissOwnBytes` is a run in which it contains none of them.

## Model

| member | source | states |
|---|---|---|
| QueueMemory.DenotationUnique | server/src/queue.h:570-575 | a head denotes at most one sequence: two sequences that its forward words spell are equal |
| QueueMemory.SpelledIsDuplicateFree | server/src/queue.h:570-594 | a queue whose forward words end in NULL holds no element twice |
| QueueMemory.LinkedWordsDetermined | server/src/queue.h:570-594 | two memories holding the same queues agree on every word of every head and linked element |
| QueueMemory.RelinkedDetermines | server/src/queue.h:635-785 | an operation's sequence meaning plus "nothing else changed" fixes the whole resulting memory |
| QueueMemory.RelinkedBackRestores | server/src/queue.h:696-768 | going to other queues and back restores every word outside the records only the other queues used |
| QueueMemory.SpliceRelinks | server/src/queue.h:696-742 | linking a free element in at any position of any head keeps all other heads' queues and gives this one exactly the inserted sequence, in every family |
| QueueMemory.CutRelinks | server/src/queue.h:752-768 | unlinking any position keeps all other heads' queues and gives this one exactly the shorter sequence, in every family |
| QueueMemory.ConcatRelinks | server/src/queue.h:635-644 | hanging one head's whole chain behind another's moves the queue and empties the source |
| QueueMemory.SwapRelinks | server/src/queue.h:770-785 | resetting two heads and letting each adopt the other's chain exchanges the queues, empty ones included |
| TailQueue.HeadChecksPass | server/src/queue.h:605-615 | the head and tail checks read only allocated words and can never panic in a well-formed memory |
| TailQueue.ElementChecksPass | server/src/queue.h:617-627 | the next and prev checks of a queue member read only allocated words and can never panic |
| TailQueue.Empty | server/src/queue.h:646 | true exactly for the empty queue |
| TailQueue.First | server/src/queue.h:648 | the first element, NULL for the empty queue |
| TailQueue.Next | server/src/queue.h:747 | the successor in the sequence, NULL after the last |
| TailQueue.Last | server/src/queue.h:744-745 | reading the address in tqh_last as a head gives the last element, and NULL exactly for the empty queue |
| TailQueue.Prev | server/src/queue.h:749-750 | reading the address in tqe_prev as a head gives the predecessor, and NULL exactly for the first element |
| TailQueue.Init | server/src/queue.h:690-694 | the head denotes the empty queue; no other queue and no other word changes |
| TailQueue.InsertHead | server/src/queue.h:721-732 | the element becomes first; other heads and unlinked words are unchanged; no check fires |
| TailQueue.InsertTail | server/src/queue.h:734-742 | the element becomes last; other heads and unlinked words are unchanged; no check fires |
| TailQueue.InsertAfter | server/src/queue.h:696-709 | the element stands right after the named one, at the tail too; nothing else changes; no check fires |
| TailQueue.InsertBefore | server/src/queue.h:711-719 | the element stands right before the named one, first place included, without being told the head |
| TailQueue.Remove | server/src/queue.h:752-768 | exactly the named member leaves, wherever it stands, and is then in no queue; no check fires |
| TailQueue.Concat | server/src/queue.h:635-644 | the second queue follows the first and the second head is empty, for every combination of empty queues |
| TailQueue.Swap | server/src/queue.h:770-785 | the two heads exchange queues, for every combination of empty queues; the same head given twice is left as it was |
| TailQueuePrograms.InsertBeforeByOthers | server/src/queue.h:696-732 | INSERT_BEFORE and INSERT_AFTER of the predecessor, or INSERT_HEAD when there is none, leave the same memory word for word |
| TailQueuePrograms.InsertTailByOthers | server/src/queue.h:696-742 | INSERT_TAIL and INSERT_AFTER of the last element, or INSERT_HEAD of an empty queue, leave the same memory word for word |
| TailQueuePrograms.Insert | server/src/queue.h:696-742 | whichever insertion macro is used, the element takes the position that macro promises |
| TailQueuePrograms.InsertThenRemove | server/src/queue.h:696-768 | REMOVE after any insertion of the same element restores the queues and every word of every other record |
| TailQueuePrograms.MoveAll | server/src/queue.h:734-768 | moving elements one by one from the front of one queue to the tail of another joins them |
| TailQueuePrograms.ConcatByMoves | server/src/queue.h:635-644 | constant-time CONCAT and the element-by-element move leave the same memory link for link |
| TailQueueTraversal.KeepMembers | server/src/queue.h:660-663 | the survivors of a filtering traversal are exactly the members the predicate spares |
| TailQueueTraversal.KeepConcat | server/src/queue.h:660-663 | survivors of a concatenation are the survivors of the parts in order |
| TailQueueTraversal.Foreach | server/src/queue.h:650-658 | from NULL visits the whole queue in order; from an element, that element and everything after it |
| TailQueueTraversal.ForeachReverse | server/src/queue.h:670-678 | from NULL visits the whole queue last to first; from an element, that element and everything before it, back to the first |
| TailQueueTraversal.ForeachSafe | server/src/queue.h:660-668 | with a body that removes and frees whatever the predicate picks: the elements FOREACH visits are visited, of these exactly the survivors remain in order and exactly the picked records are gone, everything before the start stays, no freed record is read |
| TailQueueTraversal.ForeachReverseSafe | server/src/queue.h:680-688 | the same for the elements FOREACH_REVERSE visits, last to first; everything after the start stays |
| TailQueueRuns.Execute | server/src/queue.h:635-785 | the queues after each operation, written out: empty after INIT, the element first, last, right after or right before the named one, the named one gone, one queue behind the other, the two exchanged |
| TailQueueRuns.RunExtends | server/src/queue.h:635-785 | the meaning of a run is that of its operations one after the other, last one last |
| TailQueueRuns.Run | server/src/queue.h:635-785 | over every legal run on any number of heads memory stays well formed, no check fires and the heads denote the fold of the sequence meanings |
| TailQueueRuns.ReleaseAll | server/src/aesdsocket_thread.c:32-41 | the loop terminates, frees each node once in queue order, never touches a freed node and leaves a valid empty queue |
| TailQueueRuns.Accept | server/src/aesdsocket.c:239-247 | one accepted connection appends its node, and the scan that follows visits all nodes in order of acceptance |
| TailQueueRuns.ServeAndShutDown | server/src/aesdsocket.c:200-251 | from initialization over any number of accepts to shutdown: nodes freed in order of acceptance, every record reclaimed, queue empty and valid |
| TailQueueRuns.TwoElements | server/src/queue.h:690-742 | from an arbitrary blank memory the macros build a queue of two elements, so well-formed memories exist |
| OtherQueues.FindBefore | server/src/queue.h:254-257 | the scan terminates at the predecessor of the element sought without dereferencing NULL |
| OtherQueues.SlistRemoveHead | server/src/queue.h:267-269 | exactly the first element leaves |
| OtherQueues.SlistRemoveAfter | server/src/queue.h:262-265 | exactly the successor of the named element leaves |
| OtherQueues.SlistRemove | server/src/queue.h:248-260 | exactly the named member leaves |
| OtherQueues.StailqInsertHead | server/src/queue.h:351-355 | the element becomes first and the tail slot is still the last next-slot |
| OtherQueues.StailqInsertTail | server/src/queue.h:357-361 | the element becomes last and its next-slot the tail slot |
| OtherQueues.StailqInsertAfter | server/src/queue.h:345-349 | the element stands after the named one and the tail slot is right, at the end too |
| OtherQueues.StailqRemoveHead | server/src/queue.h:390-394 | the first element leaves and the tail slot is right, also when the queue becomes empty |
| OtherQueues.StailqRemoveAfter | server/src/queue.h:384-388 | the successor leaves and the tail slot is right, also when it was the last element |
| OtherQueues.StailqRemove | server/src/queue.h:370-382 | exactly the named member leaves and the tail slot is right |
| OtherQueues.StailqLast | server/src/queue.h:363-366 | the owner of the tail slot is the last element; NULL exactly for the empty queue |
| OtherQueues.ListInsertBefore | server/src/queue.h:521-527 | the element stands right before the named one without being told the head |
| OtherQueues.ListRemove | server/src/queue.h:544-555 | exactly the named member leaves, with neither head nor scan |
| OtherQueues.ListPrev | server/src/queue.h:539-542 | the predecessor; NULL exactly for the first element |
| OtherQueues.FindLast | server/src/queue.h:195-196 | the scan terminates at the last element without dereferencing NULL |
| OtherQueues.SlistConcat | server/src/queue.h:190-201 | the second list follows the first and the second head is empty, for every combination of empty lists |
| OtherQueues.ListConcat | server/src/queue.h:467-482 | the same, and the moved list's first element points back at the slot that now holds it |
| OtherQueues.RemovalsAgree | server/src/queue.h:248-768 | scanning and constant-time removals leave equal queues in all four families, minus exactly that member |
| RingBuffer.AddIsBoundedEnqueue | aesd-char-driver/aesd-circular-buffer.c:60-83 | in every well-formed state insertion is a bounded queue's: append, and hand back the oldest entry exactly when full |
| RingBuffer.AddKeepsRest | aesd-char-driver/aesd-circular-buffer.c:72-76 | slots beyond the contents keep their place in reading order until filled |
| RingBuffer.AddAllKeepsLastTen | aesd-char-driver/aesd-circular-buffer.c:60-83 | after any insertions the contents are the last ten of the old contents followed by the new entries |
| RingBuffer.TenAddsDetermineRing | aesd-char-driver/aesd-circular-buffer.c:60-83 | from any well-formed state ten insertions leave a full ring that reads exactly as those ten entries |
| RingBuffer.LocateIsPosition | aesd-char-driver/aesd-circular-buffer.c:36-45 | the walk hits exactly below the total size, at the entry whose predecessors' sizes plus the in-entry offset make the offset |
| RingBuffer.LocateIsIndexing | aesd-char-driver/aesd-circular-buffer.c:36-45 | the byte found is the byte at that offset of the concatenation, for any memory contents |
| RingBuffer.LookupIsIndexing | aesd-char-driver/aesd-circular-buffer.c:29-51 | in every well-formed state: hit exactly below the total size of the ten slots, right byte of the rotated concatenation, no slot altered, a hit changes nothing |
| RingBuffer.CircularBuffer.constructor | aesd-char-driver/aesd-circular-buffer.c:88-91 | the zeroed ring |
| RingBuffer.CircularBuffer.AddEntry | aesd-char-driver/aesd-circular-buffer.c:60-83 | the in-place code does what the insertion on values does |
| RingBuffer.CircularBuffer.FindEntryOffsetForFpos | aesd-char-driver/aesd-circular-buffer.c:29-51 | the in-place loop finds what walking the rotated sizes finds, and resets the indices exactly on a miss |
| RingRuns.ConservedIffLossless | aesd-char-driver/aesd-circular-buffer.c:29-83 | over every run, added entries equal evictions in return order followed by the contents if and only if no lookup missed while the ring held something |
| RingRuns.MissLosesEntry | aesd-char-driver/aesd-circular-buffer.c:46-50 | one insertion and one lookup just past it lose the entry |
| RingRuns.LosslessHoldsLastTen | aesd-char-driver/aesd-circular-buffer.c:60-91 | in a run without a harmful miss the contents are the last ten insertions, or all of them, and every other slot is zero |
| RingRuns.LookupReadsLastTen | aesd-char-driver/aesd-circular-buffer.c:29-51 | after such a run, lookup is indexing into the text of the last ten writes: same range, same bytes |
| RingRuns.TenAddsHealAnyRun | aesd-char-driver/aesd-circular-buffer.c:46-83 | after any run at all, misses included, ten insertions restore the last-ten reading |
| CharDriver.CallKeepsSound | aesd-char-driver/main.c:48-191 | every call, failing ones and misses included, leaves no dangling and no coinciding pointer, and sizes match blocks |
| CharDriver.CallLost | aesd-char-driver/main.c:145-178 | a call loses a block exactly when it overwrites a live slot of a ring not marked full, and then exactly that block |
| CharDriver.ReportedWriteKeptIffLocked | aesd-char-driver/main.c:119-141 | a write returns count exactly when its block was allocated and copied; of those, it has an effect if and only if the trylock succeeded; a write that returns an error has none, -ENOMEM tells exactly a failed allocation and -EFAULT exactly a failed copy |
| CharDriver.PendingSurvives | aesd-char-driver/main.c:144-178 | the pending partial buffer, pointer and bytes, outlives every call but an accepted write without a newline, which leaves the ring alone and replaces it |
| CharDriver.ReadEffect | aesd-char-driver/main.c:62-94 | a read that fails its trylock answers -ERESTARTSYS and changes nothing, one past the end answers 0 at the same position; any other finds the entry covering its position and advances by the smaller of count and size, even when the copy fails with -EFAULT |
| CharDriver.DroppedWriteReportsSuccess | aesd-char-driver/main.c:135-141 | a call that returns count and leaves no trace |
| CharDriver.Device.Write | aesd-char-driver/main.c:99-191 | which error gives which code; a failed write changes nothing; a newline write adds the entry and frees exactly what it evicts, leaving the partial buffer alone; a partial write leaves the ring alone and makes the new or the joined block the partial buffer, freeing exactly the old one; every kfree hits a live block |
| CharDriver.Device.Read | aesd-char-driver/main.c:48-97 | the answer, position and bytes of every read: failed trylock, any position past the end, failed copy and success; no block is ever changed, and the ring only by a miss |
| CharDriverRuns.EveryRunIsSound | aesd-char-driver/main.c:99-191 | over every run no slot and no partial buffer refers to a freed block and all held blocks are distinct |
| CharDriverRuns.PendingIsNewestPartial | aesd-char-driver/main.c:145-165 | over every run the partial buffer holds the newest write without a newline as it was stored or joined, whatever reads and ring writes came after |
| CharDriverRuns.RunCalls | aesd-char-driver/main.c:48-191 | from module initialization the code carries out any possible run of calls, no block being freed that is not live, and ends in the modelled state |
| CharDriverRuns.ExactIffNoLeak | aesd-char-driver/main.c:117-190 | the live blocks are exactly those held if and only if no call overwrote a live slot of a ring not marked full |
| CharDriverRuns.RunsOnRing | aesd-char-driver/main.c:68-168 | what a run of calls does to the ring is a run of insertions and lookups |
| CharDriverRuns.LosslessRunIsExact | aesd-char-driver/main.c:117-190 | without harmful misses the live blocks are exactly those held by slots and the partial buffer |
| CharDriverRuns.MissThenWriteLeaks | aesd-char-driver/main.c:166-176 | a write, a read to the end and a write leave a block that nothing holds |
| CharDriverSessions.LocateAtBoundary | aesd-char-driver/aesd-circular-buffer.c:36-45 | a lookup at an entry boundary lands on the first byte of the next non-empty entry, or misses at the end |
| CharDriverSessions.ChunksAreFlat | aesd-char-driver/main.c:68-94 | the non-empty entries, one chunk each, concatenate to the flat text |
| CharDriverSessions.ReadDeliversWholeEntry | aesd-char-driver/main.c:72-88 | a successful read anywhere delivers the whole entry containing the position, starting `offset` bytes before it, and advances by the smaller of count and size |
| CharDriverSessions.PositionedReadIff | aesd-char-driver/main.c:68-88 | a successful read delivers the bytes at its position, as many as it returns, for every contents of the blocks, if and only if the position is an entry boundary and the count covers the entry |
| CharDriverSessions.OffBoundaryMisreads | aesd-char-driver/main.c:85 | off an entry boundary there are contents whose first byte is delivered wrong |
| CharDriverSessions.SecondByteIsMisread | aesd-char-driver/main.c:72-88 | after one write of two bytes, reading one byte, or two, at position 1 delivers both bytes |
| CharDriverSessions.WriteStores | aesd-char-driver/main.c:166-176 | a write that reaches the ring appends its data to the stored texts, dropping the oldest exactly when full |
| CharDriverSessions.LosslessRunStores | aesd-char-driver/main.c:48-191 | after a run without a harmful miss the slots hold the data of the last ten writes that reached the ring |
| CharDriverSessions.LosslessTextIsLastTen | aesd-char-driver/main.c:48-191 | and the text readers walk through is those writes end to end |
| CharDriverSessions.RunThenRead | aesd-char-driver/main.c:48-191 | after any such run a reader that asks for enough receives exactly the data of the last ten writes |
| CharDriverSessions.ReadSession | aesd-char-driver/main.c:68-94 | a reader from position 0 with counts covering the largest entry gets the rotated text, one non-empty entry per call, and 0 after at most ten; the ring's indices end reset |
| CharDriverSessions.ReadTwice | aesd-char-driver/aesd-circular-buffer.c:46-50 | a second session starts at physical slot 0 wherever the first began |
| LogProtocol.RegroupedContiguous | server/src/aesdsocket_thread.c:71-72 | in a stream regrouped by lock order no thread's bytes are split by another's |
| LogProtocol.StepKeepsMutex | server/src/aesdsocket_thread.c:72-112 | every step keeps "inside the critical section if and only if owner" |
| LogProtocol.StepKeepsLockOrder | server/src/aesdsocket_thread.c:72-112 | every step keeps "each thread locks at most once and the owner locked last" |
| LogProtocol.StepKeepsLog | server/src/aesdsocket_thread.c:90-96 | every step keeps "the stream is the unsplit contributions in lock order, and disk plus pending are the stream" |
| LogProtocol.OthersKeepReplies | server/src/aesdsocket_thread.c:100 | a thread's step never changes what another's reply means |
| LogRuns.RunTells | server/src/aesdsocket_thread.c:89-96 | after every run the stream is the received and stamped bytes in the order of the writes, the file all of it but the last bytes that stdio did not write out since the last flush, and the exit flag set exactly if the signal came |
| LogRuns.OwnIsWritten | server/src/aesdsocket_thread.c:89-90 | a thread's part of the log is the concatenation, in order, of what its own receptions or its timestamp handed to fwrite |
| LogRuns.ProgramOrder | server/src/aesdsocket_thread.c:72-112 | in every interleaving each thread does what its text says next, each branch taken as the exit flag and the newline test decide |
| LogRuns.EndingTells | server/src/aesdsocket_thread.c:75-112 | a finished client left through the failed recv exactly if recv failed, through the flushing break exactly if a newline was found |
| LogTheorems.EveryRunKeepsInv | server/src/aesdsocket_thread.c:60-115 | the whole invariant holds in every interleaving of clients, timer callbacks and the exit signal |
| LogTheorems.MutualExclusion | server/src/aesdsocket_thread.c:72-112 | at most one thread is in its critical section, and it owns the mutex |
| LogTheorems.WritesAreContiguous | server/src/timer_thread.c:11-28 | the log of all writes is the concatenation in lock order of contributions none of which is split |
| LogTheorems.DiskThenPendingIsLog | server/src/timer_thread.c:24 | whatever stdio has written out, file followed by pending bytes is the log |
| LogTheorems.FlushedReplyIsWholeLog | server/src/aesdsocket_thread.c:93-100 | a client leaving through the flushing break is sent, byte for byte, what every earlier locker wrote in lock order and then what it sent itself |
| LogTheorems.FlushedReplyIsAllWritten | server/src/aesdsocket_thread.c:93-100 | that reply is everything any thread had handed to fwrite when the client's newline was found |
| LogTheorems.FlushedRepliesAreOrdered | server/src/aesdsocket_thread.c:93-100 | of two such replies the earlier locker's is a prefix of the other |
| LogTheorems.ExitReplyIsPrefix | server/src/aesdsocket_thread.c:75-100 | a reply cut short by the exit signal is some prefix of the log |
| LogTheorems.ExitReplyExact | server/src/aesdsocket_thread.c:75-100 | a client that saw the exit signal is sent exactly the file of that moment: all that had been handed to fwrite, earlier lockers' bytes and then its own, without as many last bytes as stdio held; it is whole if and only if stdio held nothing, and has all of the client's own bytes if and only if stdio held nothing or the client wrote nothing |
| LogTheorems.ExitWasSeen | server/src/aesdsocket_thread.c:75 | every client that finished without a flush did see the signal at some step of the run |
| LogTheorems.ExitReplyMayMissOwnBytes | server/src/aesdsocket_thread.c:75-100 | such a reply can lack the client's own bytes |
| SocketServer.Server.SendFileToClient | server/src/aesdsocket_thread.c:6-18 | sends exactly the file, byte by byte, as protocol steps |
| SocketServer.Server.ThreadSocketReceive | server/src/aesdsocket_thread.c:60-115 | whatever the client sends and whoever connects, fires or signals meanwhile: the received bytes are written in order; the thread leaves flushed exactly on a newline, with the whole file as its reply, by error exactly on a failed recv, by the signal only when an exit test saw it, and otherwise stays blocked; without a signal the first reception that fails or has a newline decides; only protocol actions are performed |
| SocketServer.Server.TimerThread | server/src/timer_thread.c:6-29 | whatever arrives meanwhile, the callback performs only its own protocol actions, adds exactly the timestamp and frees the mutex |
| SocketServer.ActionsContinueRun | server/src/aesdsocket_thread.c:72-112 | a thread's actions appended to any run are again a run, so every theorem about runs applies to the code |

## Left out

- Queue families: not modelled are the SLIST insertions, LIST_INSERT_HEAD and LIST_INSERT_AFTER, STAILQ_CONCAT, the SLIST, LIST and STAILQ swaps and traversals, and SLIST_FOREACH_PREVPTR.
- QUEUE_MACRO_DEBUG: TRASHIT and the trace fields are compiled out, as they are by default; the consistency checks are modelled as compiled in.
- TailQueue.Concat: requires two distinct heads; the macro given the same head twice is not modelled, nor are its SLIST and LIST counterparts.
- TailQueueTraversal.ForeachSafe: the loop body is fixed to removing and freeing the current element when a predicate says so.
- CharDriver.Device.Write: joins of partial writes are kept in the ledger as a block with arbitrary bytes, since the string calls assume terminators the code does not write; the newline test is an arbitrary answer; the inner kmalloc is assumed to succeed; a zero-byte kmalloc is modelled as a block of its own.
- CharDriver.Device.Read: one call is one step, although the code uses the entry after releasing the semaphore; a failed user copy is all or nothing.
- size_t and uint8_t widths: the walk only subtracts sizes it has compared, and indices stay below ten, so no width is reached.
- Joining of threads: check_thread_exit stores a pointer into a bool and rejoins listed threads, so it is modelled only as a scan of the list.
- Liveness of the receive loop: a client that stays silent keeps the mutex; only safety is claimed.
- Sockets, signals beyond the exit flag, daemon mode, timer arming, module and device registration, logging and failing file operations: plumbing.
