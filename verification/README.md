# Verification of LwIPC's shared-memory core

Dafny models of the parts of LwIPC whose correctness rests on an argument rather than on reading one
function: the lock-free rings, the shared-memory channel, the reader/writer lock, the bag file format,
the executor and the memory pool.  `dafny verify dfyconfig.toml` checks everything.

## How the models are built

Every concurrent component is modelled twice, and the two are tied together.

* A *protocol* (`MpmcProtocol`, `SpscProtocol`, `ShmProtocol`, `RwLockProtocol`, `ExecutorProtocol`) is a
  state machine whose actions are the code's atomic steps: each atomic load, compare-exchange and store,
  and each plain access to shared data, is an action of its own, and threads interleave freely.  `Enabled`
  says when a step may be taken, `Apply` what it does, `Inv` what every step keeps; a `Run` is an initial
  state and the steps taken since, and the theorems hold for every legal run.  Atomics are sequentially
  consistent.
* A *class* has the source's fields and its methods the source's statements, with arrays updated in place
  and loops where the source has loops.  Beside each statement the method takes the protocol action that
  statement is, recorded in the ghost field `run`, so a class can only do what the protocol allows and
  inherits its theorems.  A call runs while the other threads stand still, but they may stand anywhere,
  in the middle of their own calls; a retry loop can be entered with an arbitrarily stale position.  A
  weak compare-exchange may fail spuriously any chosen finite number of times.

Histories (claimed tickets, accepted messages, executed tasks, ...) are ordinary fields of the protocol
states and influence no step.

| file | what it holds |
|---|---|
| `RingIndex.dfy`, `BoundedFifo.dfy`, `ByteRanges.dfy`, `Bytes.dfy` | slot arithmetic, the sequential queue every ring is measured against, block layout, little-endian integers |
| `MpmcProtocol.dfy`, `MpmcRuns.dfy`, `MpmcRing.dfy` | the many-thread ring: steps and invariant, theorems about runs, the class |
| `SpscProtocol.dfy`, `SpscRing.dfy` | the one-producer one-consumer ring |
| `ShmProtocol.dfy`, `ShmRuns.dfy`, `ShmRing.dfy` | the shared-memory channel |
| `RwLockProtocol.dfy`, `RwLock.dfy` | the reader/writer lock, its guards and their clients |
| `BagFormat.dfy`, `BagRecording.dfy`, `BagPlayback.dfy`, `BagSessions.dfy` | the bag format, recorder, player, and the two together |
| `ExecutorProtocol.dfy`, `TaskExecutor.dfy` | the executor |
| `MemoryPool.dfy` | the memory pool |

## What is assumed

* Ring positions are unbounded; `MachineDifferenceIsExact` shows that the signed 64-bit difference in the
  code is the same number while positions stay below 2^63.  Counters and sequence numbers of the channel
  are unbounded too.
* `MpmcRingBuffer` needs a capacity of at least 2, and `FifoIffTwoCells` shows that this is exactly the
  condition.  The code accepts 1; `CapacityOneLosesAValue` shows what happens then.
* `ShmChannel` has one publisher and one consumer.
* The lock needs fewer than 2^31 simultaneous read guards; `EncodedThroughoutIffBounded` shows that this is
  exactly the condition and `OneReaderTooMany` what happens beyond it.
* The bag header has the layout of the usual 64-bit little-endian ABI: a 9-byte magic, three bytes of
  padding (left arbitrary), then the fields, 56 bytes in all.
* Lengths are cut to 32 bits where the code casts them (`Cut`); nothing is assumed about their size, and
  the theorems say what the cut means (`RoundTripIff`).
* The memory pool has fewer than 2^32 slots: with more, the 32-bit loop counter of the constructor never
  reaches the end (`LoopEndsIff`).

## Where the code does not do what it seems to promise

* A ring of capacity 1 accepts a push onto a full queue, overwrites the value there, and makes every later
  pop spin (`MpmcRuns.FifoIffTwoCells`, `MpmcRuns.CapacityOneLosesAValue`).
* `addTopic` does not check that a recording is in progress and changes the topic count that `stop` writes
  back.  The topics then do not come back (`BagSessions.TopicsSurviveIff`), and neither do the messages,
  unless there were none: the player takes the missing topic out of them
  (`BagSessions.MessagesSurviveIff`, `BagSessions.LateTopicLosesMessages`, `BagFormat.MessageReadAsTopic`).
  Only if 2^32 topics have wrapped the count around can it be too small; then topics are played as messages
  (`BagFormat.LeftoverTopicsArePlayed`, `BagFormat.LeftoverTopicReadAsMessage`).
* Pausing a playback while a message waits for its time loses that message (`BagPlayback.HeardAllIff`).
* `BagPlayer::open` accepts a file whose topic section is cut short, and reports as many topics as the header
  counts (`BagPlayback.BagPlayer.Open`, `BagSessions.LateTopicSpoilsTheBag`).
* `BagPlayer::open` never returns as it is written: it locks a mutex that is not recursive and then calls
  `close`, which locks it again (`src/bag_recorder.cpp:186-188`, `src/bag_recorder.cpp:238`).  Every statement
  about the player describes the code without the inner lock.
* A `release` of a slot that is not on loan is accepted and breaks the pool: two holders get one buffer
  (`MemoryPools.ReleaseKeepsPartitionIff`, `MemoryPools.WrongReleaseLendsTwice`).
* A second `Executor::stop` returns at once, even with accepted tasks not yet run
  (`ExecutorProtocol.SecondStopReturnsEarly`); they have all run if and only if none is queued and none is in
  the worker's hands (`ExecutorProtocol.LaterStopDrainsIff`).
* Slots of a channel start with a 64-bit atomic but are aligned for it only if `payload_max` is a multiple of
  8 (`ShmRing.SlotsAreAlignedIff`).

## Model

| member | source | states |
|---|---|---|
| `RingIndex.SlotIsRemainder` | include/lwipc/ring_buffer_mpmc.hpp:125 | the slot of a position is the `%` the code writes |
| `RingIndex.SameSlot` | include/lwipc/ring_buffer_mpmc.hpp:125 | two positions share a slot only when equal or at least a whole lap apart |
| `RingIndex.NextSlot` | include/lwipc/ring_buffer_spsc.hpp:53 | stepping an index with wrap-around is the slot of the next position |
| `RingIndex.NeighboursDiffer` | include/lwipc/ring_buffer_mpmc.hpp:127-129 | consecutive tickets use different cells exactly when there are at least two |
| `BoundedFifo.Conservation` | include/lwipc/ring_buffer_spsc.hpp:15-46 | in every history of a bounded queue, what came out followed by what is queued is what went in, and the bound holds |
| `MpmcProtocol.PushPositionFacts` | include/lwipc/ring_buffer_mpmc.hpp:125-143 | what the three outcomes of the push's sequence test say about the queue, for any position no later than the shared one |
| `MpmcProtocol.PopPositionFacts` | include/lwipc/ring_buffer_mpmc.hpp:176-194 | the same for the pop's sequence test |
| `MpmcProtocol.StepKeepsInv` | include/lwipc/ring_buffer_mpmc.hpp:114-196 | every atomic step of every thread keeps the invariant: each cell is free for or published by one ticket of its own, claimed tickets have their owner, 0 <= claims - takes <= capacity, logs follow tickets |
| `MpmcProtocol.OwnersAreAlone` | include/lwipc/ring_buffer_mpmc.hpp:131-135 | two threads between winning a ticket and storing the sequence are at different cells |
| `MpmcRuns.RunKeepsInv` | include/lwipc/ring_buffer_mpmc.hpp:114-196 | the invariant holds in every reachable state, for any number of threads |
| `MpmcRuns.RunRefinesFifo` | include/lwipc/ring_buffer_mpmc.hpp:121-196 | every interleaving is a history of one FIFO bounded by the capacity, whose inputs are the claimed values and whose outputs are those of the popped tickets in order |
| `MpmcRuns.PopReturnsItsTicketsValue` | include/lwipc/ring_buffer_mpmc.hpp:182-186 | the pop holding ticket p returns the value pushed under ticket p |
| `MpmcRuns.TicketsAreForever` | include/lwipc/ring_buffer_mpmc.hpp:131-132 | from any moment of a run on, who won a ticket and its value never change |
| `MpmcRuns.LogsFollowTickets` | include/lwipc/ring_buffer_mpmc.hpp:121-196 | each producer's completed pushes are its tickets in order and each consumer's pops its share of tickets in ticket order |
| `MpmcRuns.Conservation` | include/lwipc/ring_buffer_mpmc.hpp:121-196 | with no call in progress, everything pushed was received by exactly one thread or is still queued |
| `MpmcRuns.CellDataIsExclusive` | include/lwipc/ring_buffer_mpmc.hpp:133-134 | no two threads ever access one cell's data at the same time |
| `MpmcRuns.WaitingValueIsIntact` | include/lwipc/ring_buffer_mpmc.hpp:133-134 | a published value nobody has taken sits unaltered in its cell: nothing is overwritten |
| `MpmcRuns.FullCallWasJustified` | include/lwipc/ring_buffer_mpmc.hpp:126-139 | a call about to report "full", however stale its position, loaded the sequence when the enqueue position was that position and the ticket one lap earlier was not released |
| `MpmcRuns.EmptyCallWasJustified` | include/lwipc/ring_buffer_mpmc.hpp:177-190 | a call about to report "empty" loaded the sequence when the dequeue position was its position and that ticket was not published |
| `MpmcRuns.FullIffUnreleased` | include/lwipc/ring_buffer_mpmc.hpp:125-139 | whatever is in flight, the push's test at the present position says "full" exactly when the ticket one lap earlier is not released, and else "free" |
| `MpmcRuns.EmptyIffUnpublished` | include/lwipc/ring_buffer_mpmc.hpp:176-190 | whatever is in flight, the pop's test at the present position says "empty" exactly when that ticket is not published, and else "ready" |
| `MpmcRuns.QuietTestsAreExact` | include/lwipc/ring_buffer_mpmc.hpp:126-139 | with no ticket in flight the sequence tests decide exactly full and empty |
| `MpmcRuns.RetryRaisesPosition` | include/lwipc/ring_buffer_mpmc.hpp:129-143 | every retry but a spurious one moves the call to a strictly later position |
| `MpmcRuns.GoingRoundAgain` | include/lwipc/ring_buffer_mpmc.hpp:129-143 | a call that goes round again holds the present position, has one more retry exactly if that is later, and stays put only after a spurious failure |
| `MpmcRuns.RetriesAreBounded` | include/lwipc/ring_buffer_mpmc.hpp:122-144 | a call has retried at most as often as tickets were won since the moment it began |
| `MpmcRuns.SoloCallReturns` | include/lwipc/ring_buffer_mpmc.hpp:121-196 | from any reachable state a call left alone returns within the number of its own steps that its place in the code says |
| `MpmcRuns.SixStepsSuffice` | include/lwipc/ring_buffer_mpmc.hpp:121-196 | six of its own steps are always enough |
| `MpmcRuns.SizeNeverUnderReports` | include/lwipc/ring_buffer_mpmc.hpp:206-210 | `size` never takes its fallback and is never below the length at either of its loads |
| `MpmcRuns.EmptyMeansEmptyThroughout` | include/lwipc/ring_buffer_mpmc.hpp:199-203 | when `empty` answers true, claims and takes were equal at every moment between its two loads |
| `MpmcRuns.MachineDifferenceIsExact` | include/lwipc/ring_buffer_mpmc.hpp:127 | below 2^63 the signed difference of the code does not overflow and is the exact difference |
| `MpmcRuns.CapacityOneLosesAValue` | include/lwipc/ring_buffer_mpmc.hpp:81-85 | with capacity 1 a second push succeeds, overwrites the first value, and a pop then spins for ever |
| `MpmcRuns.FifoIffTwoCells` | include/lwipc/ring_buffer_mpmc.hpp:81-85 | all runs of a queue of a given capacity are histories of a FIFO of that bound if and only if the capacity is at least 2 |
| `MpmcRing.MpmcRingBuffer.InitializeSequences` | include/lwipc/ring_buffer_mpmc.hpp:114-118 | cell i gets sequence i and keeps its data |
| `MpmcRing.MpmcRingBuffer.PushTurn` | include/lwipc/ring_buffer_mpmc.hpp:125-143 | one turn of the push loop wins the present ticket, is refused, or goes on from a later position unless the exchange failed spuriously |
| `MpmcRing.MpmcRingBuffer.FillCell` | include/lwipc/ring_buffer_mpmc.hpp:133-134 | the winner leaves its value published in its cell and nothing else changed |
| `MpmcRing.MpmcRingBuffer.PushFrom` | include/lwipc/ring_buffer_mpmc.hpp:124-144 | from any stale position the loop ends and succeeds exactly when the present enqueue cell is free |
| `MpmcRing.MpmcRingBuffer.TryPush` | include/lwipc/ring_buffer_mpmc.hpp:121-145 | appends the value, refused exactly when the ticket one lap earlier is not released, whatever is in flight; with nothing in flight that is exactly when full |
| `MpmcRing.MpmcRingBuffer.PopTurn` | include/lwipc/ring_buffer_mpmc.hpp:176-194 | one turn of the pop loop |
| `MpmcRing.MpmcRingBuffer.EmptyCell` | include/lwipc/ring_buffer_mpmc.hpp:184-185 | the winner takes out its ticket's value and leaves the cell, and no other, with the next lap's sequence |
| `MpmcRing.MpmcRingBuffer.PopFrom` | include/lwipc/ring_buffer_mpmc.hpp:175-195 | from any stale position the loop ends and succeeds exactly when the present dequeue ticket is published |
| `MpmcRing.MpmcRingBuffer.TryPop` | include/lwipc/ring_buffer_mpmc.hpp:172-196 | returns the oldest value, refused exactly when the next ticket is not published, whatever is in flight; with nothing in flight that is exactly when empty |
| `MpmcRing.MpmcRingBuffer.Empty` | include/lwipc/ring_buffer_mpmc.hpp:199-203 | undisturbed, true exactly when the queue is empty |
| `MpmcRing.MpmcRingBuffer.Size` | include/lwipc/ring_buffer_mpmc.hpp:206-210 | undisturbed, the length of the queue |
| `SpscProtocol.StepKeepsInv` | include/lwipc/ring_buffer_spsc.hpp:15-46 | every step of either side keeps the indices, the queued elements and both sides' local knowledge in order |
| `SpscProtocol.FullExactlyWhenNextMeetsTail` | include/lwipc/ring_buffer_spsc.hpp:16-20 | the index test is true exactly with Capacity - 1 elements queued, and head meets tail exactly with none |
| `SpscProtocol.RunRefinesFifo` | include/lwipc/ring_buffer_spsc.hpp:15-46 | every interleaving is a history of a FIFO of Capacity - 1 elements, refusals included, at the tail load and head load |
| `SpscProtocol.SidesNeverShareASlot` | include/lwipc/ring_buffer_spsc.hpp:21-44 | the slot being written and the slot being read always differ |
| `SpscRing.SpscRingBuffer.TryPush` | include/lwipc/ring_buffer_spsc.hpp:15-24 | appends, refused exactly when Capacity - 1 elements are queued, whatever the consumer is in the middle of |
| `SpscRing.SpscRingBuffer.TryPop` | include/lwipc/ring_buffer_spsc.hpp:37-46 | returns the oldest element, refused exactly when empty, whatever the producer is in the middle of |
| `SpscRing.SpscRingBuffer.Empty` | include/lwipc/ring_buffer_spsc.hpp:48-50 | undisturbed, true exactly when nothing is queued |
| `ByteRanges.BlocksAreDisjoint` | src/memory_pool.cpp:28-32 | equal blocks laid end to end lie inside their region and do not overlap |
| `ShmRing.SlotsLieInTheSegment` | include/lwipc/shm_channel.hpp:62-67 | the slots that `get_slot` addresses, payload areas included, lie behind the control block, inside the segment the creator asks for, and do not overlap |
| `ShmRing.SlotsAreAlignedIff` | include/lwipc/shm_channel.hpp:62-67 | all slots are aligned for their 64-bit atomic if and only if `payload_max` is a multiple of 8 |
| `ShmProtocol.StepKeepsInv` | src/shm_channel.cpp:115-229 | every step of publisher and consumer keeps indices, slot flags, slot contents, delivered views and counters consistent |
| `ShmProtocol.MovingTailKeepsFlag` | src/shm_channel.cpp:214-222 | moving the tail before freeing the slot makes it the last slot of the next lap, still flagged as being read |
| `ShmProtocol.FullExactly` | src/shm_channel.cpp:130-131 | next head meets tail exactly with buffer_size - 1 messages outstanding |
| `ShmRuns.RunKeepsInv` | src/shm_channel.cpp:115-229 | that consistency holds in every reachable state |
| `ShmRuns.CallbacksSeeAPrefix` | src/shm_channel.cpp:202-212 | callbacks see exactly a prefix of the accepted messages, in order, numbered 1, 2, 3, ..., with the time of publishing, the length of the payload shown and zeros in the other header fields; whole exactly when the length fits 32 bits |
| `ShmRuns.ViewIsStableDuringCallback` | src/shm_channel.cpp:206-212 | at every moment of a callback the slot shows the delivered header and payload |
| `ShmRuns.PublisherLeavesConsumersSlot` | src/shm_channel.cpp:194-222 | from seeing a message to freeing its slot, no publisher step touches the slot |
| `ShmRuns.ConsumerLeavesPublishersSlot` | src/shm_channel.cpp:138-171 | from seeing room to moving the head, no consumer step touches the publisher's slot |
| `ShmRuns.ClaimNeverFails` | src/shm_channel.cpp:141-148 | the EMPTY-to-WRITING exchange never fails, even with a stale tail |
| `ShmRuns.NotReadyNeverFires` | src/shm_channel.cpp:197-200 | the break for a slot that is not READY is never taken |
| `ShmRuns.AccessesStayInBounds` | src/shm_channel.cpp:150-222 | after the claim and after the READY test, every access to a slot by index or length is inside its bounds |
| `ShmRuns.DropsExactlyWhenFull` | src/shm_channel.cpp:126-148 | a size-valid publish on an initialized channel drops exactly when buffer_size - 1 messages were outstanding at its tail load |
| `ShmRuns.RunRefinesFifo` | src/shm_channel.cpp:115-229 | every interleaving is a history of a FIFO of buffer_size - 1 messages; `consume` stops only when it is empty |
| `ShmRuns.HistoryIsComplete` | src/shm_channel.cpp:171-219 | that history's inputs are the accepted messages and its outputs the consumed ones |
| `ShmRuns.CountersLagByOne` | src/shm_channel.cpp:171-223 | sent and received lag head and tail moves by at most one, so received <= sent + 1 |
| `ShmRuns.CountersAtRest` | src/shm_channel.cpp:231-241 | at rest sent - received is the backlog, sent + dropped the size-valid attempts, and `consume` returns the number of its callbacks |
| `ShmRing.ShmChannel.constructor` | src/shm_channel.cpp:46-71 | the creator leaves an initialized empty channel, whatever the memory held |
| `ShmRing.ShmChannel.EmptyAllSlots` | src/shm_channel.cpp:64-68 | every slot gets sequence 0 and state EMPTY and keeps the rest |
| `ShmRing.ShmChannel.ClaimOrDrop` | src/shm_channel.cpp:126-148 | claims the slot at head, or counts a drop exactly when next head meets tail |
| `ShmRing.ShmChannel.SendClaimed` | src/shm_channel.cpp:150-172 | a claimed slot becomes the next accepted message and is counted |
| `ShmRing.ShmChannel.Publish` | src/shm_channel.cpp:115-175 | refuses without a trace, drops exactly when full, else appends the message with the next sequence number |
| `ShmRing.ShmChannel.ConsumeNext` | src/shm_channel.cpp:193-225 | one message is viewed, then its slot freed and counted |
| `ShmRing.ShmChannel.Turn` | src/shm_channel.cpp:184-226 | one turn of the loop hands over the oldest waiting message, or ends the call when there is none |
| `ShmRing.ShmChannel.Consume` | src/shm_channel.cpp:177-229 | hands over the whole backlog in order, header fields and payloads as published, empties it and returns its length |
| `RwLockProtocol.WordIsBitAndCount` | include/lwipc/atomic_rw_lock.hpp:82-95 | for every 32-bit word the tests say: write bit exactly from 2^31 up, reader count what is left without it |
| `RwLockProtocol.StepKeepsInv` | include/lwipc/atomic_rw_lock.hpp:33-77 | every step that stays below 2^31 readers keeps the word, the guards and what was read under them consistent |
| `RwLockProtocol.RunKeepsInv` | include/lwipc/atomic_rw_lock.hpp:33-97 | in every reachable state with fewer than 2^31 readers the word is the write bit with one writer and no reader, or the reader count with no writer |
| `RwLockProtocol.EncodedThroughoutIffBounded` | include/lwipc/atomic_rw_lock.hpp:33-97 | a run keeps that encoding at every moment if and only if it never has 2^31 readers inside at once |
| `RwLockProtocol.ReadGuardKeepsEncodingIff` | include/lwipc/atomic_rw_lock.hpp:42-44 | one more read guard keeps that encoding exactly when the count stays below 2^31 |
| `RwLockProtocol.OneReaderTooMany` | include/lwipc/atomic_rw_lock.hpp:42-44 | the 2^31st reader makes the lock report a writer that does not exist and no readers |
| `RwLockProtocol.WriterIsAlone` | include/lwipc/atomic_rw_lock.hpp:64-70 | while a write guard is owned nobody else owns a guard |
| `RwLockProtocol.UnlockWriteErasesNobody` | include/lwipc/atomic_rw_lock.hpp:75-77 | the store of 0 never erases a reader |
| `RwLockProtocol.GuardSeesOneGoodSnapshot` | include/lwipc/atomic_rw_lock.hpp:103-152 | everything read under one read guard comes from the present object, which satisfies whatever each write section restores |
| `RwLockProtocol.ObjectFrozenWhileHeld` | include/lwipc/atomic_rw_lock.hpp:103-152 | the object does not change while a read guard is held |
| `RwLock.AtomicRWLock.ExchangeLoop` | include/lwipc/atomic_rw_lock.hpp:42-50 | entered with any word last seen, the loop ends and succeeds exactly when no writer holds the lock; the lock stays valid exactly below 2^31 readers |
| `RwLock.AtomicRWLock.TryLockRead` | include/lwipc/atomic_rw_lock.hpp:33-51 | succeeds exactly when no writer holds the lock and then adds one reader; the lock stays valid exactly below 2^31 readers |
| `RwLock.AtomicRWLock.UnlockRead` | include/lwipc/atomic_rw_lock.hpp:56-58 | removes one reader |
| `RwLock.AtomicRWLock.TryLockWrite` | include/lwipc/atomic_rw_lock.hpp:64-70 | succeeds exactly when nobody holds the lock |
| `RwLock.AtomicRWLock.UnlockWrite` | include/lwipc/atomic_rw_lock.hpp:75-77 | removes the writer |
| `RwLock.AtomicRWLock.IsWriteLocked` | include/lwipc/atomic_rw_lock.hpp:82-84 | tells whether a write guard is owned |
| `RwLock.AtomicRWLock.ReaderCount` | include/lwipc/atomic_rw_lock.hpp:89-91 | tells how many read guards are owned |
| `RwLock.ReadLockGuard.constructor` | include/lwipc/atomic_rw_lock.hpp:105-107 | owns a read lock exactly when there was no writer; the guard is valid exactly below 2^31 readers |
| `RwLock.ReadLockGuard.Destroy` | include/lwipc/atomic_rw_lock.hpp:109-113 | gives back exactly what the guard owned |
| `RwLock.WriteLockGuard.constructor` | include/lwipc/atomic_rw_lock.hpp:132-134 | owns the write lock exactly when nobody held the lock |
| `RwLock.WriteLockGuard.Destroy` | include/lwipc/atomic_rw_lock.hpp:136-140 | gives back exactly what the guard owned |
| `Bytes.LERoundTrip` | src/bag_recorder.cpp:135-138 | an integer written in n bytes is read back |
| `Bytes.LEOther` | src/bag_recorder.cpp:274-287 | n bytes read as an integer write back as the same bytes |
| `Bytes.LEByte` | src/bag_recorder.cpp:135-138 | the byte at place k of a stored integer is its digit of weight 256^k |
| `Bytes.FourBytes` | src/bag_recorder.cpp:211-215 | four bytes read as an integer, written out with the lowest first |
| `Bytes.EightBytes` | src/bag_recorder.cpp:271-274 | eight bytes read as an integer, written out with the lowest first |
| `BagFormat.HeaderLayout` | include/lwipc/bag_recorder.hpp:27-35 | the header fields lie at bytes 0, 12, 16, 24, 32, 36 and 40 of its 56 |
| `BagFormat.HeaderFields` | src/bag_recorder.cpp:197-211 | what is read from those places, written out byte by byte |
| `BagFormat.PartsInOrder` | src/bag_recorder.cpp:86-98 | messages and topics are their parts in the order of the code, lengths cut to 32 bits |
| `BagFormat.ExampleMessage` | src/bag_recorder.cpp:131-139 | one message as 18 bytes |
| `BagFormat.ExamplePlayed` | src/bag_recorder.cpp:262-294 | those 18 bytes play back as that message |
| `BagFormat.ExampleTopic` | src/bag_recorder.cpp:86-98 | one topic as 15 bytes |
| `BagFormat.HeaderRoundTrip` | include/lwipc/bag_recorder.hpp:27-35 | the 56-byte header is read back field by field |
| `BagFormat.ReadMessageBack` | src/bag_recorder.cpp:131-139 | a recorded message at the front of a stream is read back, leaving the rest |
| `BagFormat.CutMessageIsRefused` | src/bag_recorder.cpp:270-294 | a message that is cut off anywhere is not played at all |
| `BagFormat.ReadTopicsBack` | src/bag_recorder.cpp:86-98 | the topic section is read back, leaving the messages |
| `BagFormat.CompleteIsLongest` | src/bag_recorder.cpp:262-294 | the number of complete messages in m bytes is that of the longest prefix that fits |
| `BagFormat.TruncatedPlayback` | src/bag_recorder.cpp:262-332 | playing any truncation delivers exactly the complete messages, unaltered and in order |
| `BagFormat.WholePlayback` | src/bag_recorder.cpp:262-332 | playing everything delivers everything |
| `BagFormat.FileRoundTrip` | src/bag_recorder.cpp:185-332 | opening and playing a bag, or any truncation after its topic section, gives back header, topics and exactly the complete messages if and only if the header counts the topics written |
| `BagFormat.RoundTripIff` | src/bag_recorder.cpp:131-139 | a whole bag gives back exactly the recorded topics and messages if and only if the header counts the topics and all lengths fit 32 bits |
| `BagFormat.TopicsComeBackIff` | src/bag_recorder.cpp:209-232 | the topics come back exactly when the header's topic count is the number of topics written |
| `BagFormat.SurplusComesFromBody` | src/bag_recorder.cpp:211-232 | a reader that finds more topics than were written takes the surplus, at least 12 bytes each, from the messages |
| `BagFormat.PlaybackTakesNoMore` | src/bag_recorder.cpp:262-294 | the messages played from a stream would take no more room than the stream |
| `BagFormat.MessagesComeBackIff` | src/bag_recorder.cpp:209-332 | with a topic count that is not too small the messages come back exactly when the count is right or there are none |
| `BagFormat.LeftoverTopicsArePlayed` | src/bag_recorder.cpp:209-332 | with a topic count that is too small the topics not asked for are played as messages |
| `BagFormat.MessageReadAsTopic` | src/bag_recorder.cpp:211-232 | a concrete bag whose message is read as a topic |
| `BagFormat.LeftoverTopicReadAsMessage` | src/bag_recorder.cpp:209-332 | a concrete bag whose count is too small and whose messages come back by accident |
| `BagRecording.CompressionNameComesBack` | src/bag_recorder.cpp:79-81 | the stored compression name reads back as the configured one, cut to 15 bytes |
| `BagRecording.BagRecorder.Configure` | src/bag_recorder.cpp:13-28 | refused while recording or for an empty path, which is stored all the same |
| `BagRecording.BagRecorder.AddTopic` | src/bag_recorder.cpp:30-50 | adds exactly the topics whose name is new, recording or not, and updates the count |
| `BagRecording.BagRecorder.Start` | src/bag_recorder.cpp:52-102 | the file becomes a bag of the present topics and no messages, its first nine bytes "LWIPC001" and a NUL |
| `BagRecording.BagRecorder.Record` | src/bag_recorder.cpp:124-152 | while recording, appends one message and adds one, in 32 bits, to the count in the header and to that of its topic |
| `BagRecording.BagRecorder.RecordView` | src/bag_recorder.cpp:154-161 | refuses empty payloads and zero timestamps, else records |
| `BagRecording.BagRecorder.Stop` | src/bag_recorder.cpp:104-122 | the finished file is a bag with the final header, message count and topic count, and every byte after the header is unchanged |
| `BagRecording.FileWhileRecording` | src/bag_recorder.cpp:83-98 | at every moment of a recording the bytes of the file: magic, version, times, counts, topics, messages |
| `BagRecording.StoppedFile` | src/bag_recorder.cpp:111-119 | the same for a finished bag, with its end time, message count and topic count |
| `BagSessions.RecordMessages` | src/bag_recorder.cpp:124-152 | recording a list of messages adds to each topic's count, in 32 bits, how many of them bear its name, and changes no topic otherwise |
| `BagPlayback.RecognisedMeans` | src/bag_recorder.cpp:197-207 | a file is recognised exactly if it has 56 bytes and starts with "LWIPC001"; its counts are the bytes at 32 and 36 |
| `BagPlayback.BagPlayer.Open` | src/bag_recorder.cpp:185-235 | without the inner lock of `close`: accepts exactly files of 56 bytes or more that start with "LWIPC001", takes the header fields from their places, and reads a complete topic section as the format says |
| `BagPlayback.BagPlayer.ReadMessageStep` | src/bag_recorder.cpp:270-294 | one turn of the loop reads exactly the next complete message or turns the stream bad |
| `BagPlayback.HeardAllIff` | src/bag_recorder.cpp:313-326 | every message is handed on exactly when nobody pauses or stops playback while one waits, or stops it before the last |
| `BagPlayback.HeardOneMore` | src/bag_recorder.cpp:313-331 | a message is handed on exactly when nobody stopped playback before it and its own wait was neither paused nor stopped |
| `BagPlayback.BagPlayer.Play` | src/bag_recorder.cpp:249-334 | hands on every complete message left in the stream, in order, except those paused away or stopped, and nothing else |
| `BagSessions.RecordThenPlay` | tests/test_bag.cpp:57-113 | recording, stopping, cutting the file, opening and playing gives back the topics and exactly the complete messages, all of them if nothing was cut |
| `BagSessions.CrashLosesOnlyTheTail` | src/bag_recorder.cpp:124-152 | a recording that never reached `stop`, truncated anywhere after its topics, plays back its topics and complete messages if and only if the topics could be counted in 32 bits |
| `BagSessions.TopicsSurviveIff` | src/bag_recorder.cpp:47-118 | a finished bag gives back its topics exactly when the recorder's topic count is still that of `start` |
| `BagSessions.MessagesSurviveIff` | src/bag_recorder.cpp:47-118 | unless the count has wrapped around, a finished bag gives back its messages exactly when the count is still that of `start` or there are none |
| `BagSessions.LateTopicLosesMessages` | src/bag_recorder.cpp:30-50 | for any recorder, late topic and messages: if the topic is taken, the player accepts the finished bag with one topic too many, and the messages come back only if there were none |
| `BagSessions.LateTopicSpoilsTheBag` | src/bag_recorder.cpp:30-50 | a concrete empty bag spoiled by one topic added after `start`: the player accepts it with one topic, its stream already bad |
| `ExecutorProtocol.StepKeepsInv` | src/executor.cpp:9-51 | every step of the worker and any number of clients keeps mutex, queue order, stop flag and pending notices consistent |
| `ExecutorProtocol.NoLostWakeup` | src/executor.cpp:9-47 | a worker blocked although there is work or a stop request is about to be notified |
| `ExecutorProtocol.ExecutedIsAPrefix` | src/executor.cpp:34-51 | executed tasks are a prefix of accepted tasks in acceptance order |
| `ExecutorProtocol.StopDrains` | src/executor.cpp:20-32 | when the `stop` that set the flag returns from join, everything accepted has run |
| `ExecutorProtocol.LaterStopDrainsIff` | src/executor.cpp:23-25 | a `stop` that finds the flag set returns, and everything accepted has then run if and only if no task is queued or in hand |
| `ExecutorProtocol.SecondStopReturnsEarly` | src/executor.cpp:23-25 | a concrete run in which a second `stop` returns although an accepted task has not run |
| `ExecutorProtocol.DrainIsBounded` | src/executor.cpp:9-51 | from any moment with stopping set, nothing more is accepted and the worker is done after at most five steps for each queued task and five over, whatever the clients do |
| `ExecutorProtocol.SomeoneCanMove` | src/executor.cpp:9-51 | no deadlock while there is work or a stop request |
| `TaskExecutor.Executor.Post` | src/executor.cpp:9-18 | queues the task and wakes the worker, unless stopping |
| `TaskExecutor.Executor.Run` | src/executor.cpp:34-51 | runs every queued task in order, then returns exactly when stopping and blocks otherwise |
| `TaskExecutor.Executor.Stop` | src/executor.cpp:20-32 | the first call waits, whatever the worker is doing, until everything accepted has run; a later one changes nothing; either way all has run exactly when no task is queued or in hand |
| `MemoryPools.DisciplineKeepsPartition` | src/memory_pool.cpp:7-47 | over every sequence of operations that releases only loaned slots, free and loaned slots partition the pool without duplicates |
| `MemoryPools.ReleaseKeepsPartitionIff` | src/memory_pool.cpp:35-42 | a release keeps that partition exactly when the slot was on loan or the call throws |
| `MemoryPools.WrongReleaseLendsTwice` | src/memory_pool.cpp:19-42 | after the release of a slot nobody holds, that slot is free twice, and some later acquire hands it out while it is on loan |
| `MemoryPools.LoopEndsIff` | src/memory_pool.cpp:14-16 | the constructor's loop with its 32-bit counter ends exactly for fewer than 2^32 slots |
| `MemoryPools.LoanedBuffersAreDisjoint` | src/memory_pool.cpp:28-32 | loaned buffers, as long as their capacity says, are disjoint byte ranges inside the storage |
| `MemoryPools.FreshPoolLendsInOrder` | src/memory_pool.cpp:14-16 | a fresh pool lends slots 0, 1, 2, ... |
| `MemoryPools.ReleasedSlotComesBackFirst` | src/memory_pool.cpp:25-41 | the slot released last is lent first |
| `MemoryPools.FreeAndLoanedAddUp` | src/memory_pool.cpp:44-47 | free and loaned slots add up to the slot count |
| `MemoryPools.MemoryPool.Create` | src/memory_pool.cpp:7-17 | throws exactly for a zero size or count, else every slot is free |
| `MemoryPools.MemoryPool.Acquire` | src/memory_pool.cpp:19-33 | refused exactly when all slots are on loan, else lends the last slot of the free list, of the slot size, inside the storage and apart from every buffer on loan |
| `MemoryPools.MemoryPool.Release` | src/memory_pool.cpp:35-42 | throws exactly out of range, else the slot is free; the pool stays valid exactly when it was on loan |
| `MemoryPools.MemoryPool.FreeSlots` | src/memory_pool.cpp:44-47 | the number of slots not on loan |

## Left out

- Weak memory orderings and cache alignment: atomics are sequentially consistent here.
- Move construction and assignment of the many-thread ring, and the move overloads of the pushes, which take the same steps as the copying ones.
- `SpscRingBuffer::empty` called by a third thread: its two loads are unsynchronised with both sides; only the undisturbed call is stated.
- Several publishers or consumers on one channel: the index protocol does not support them.
- Opening, mapping and destroying shared memory segments, channel names, `waitForInitialization` and `ShmTransport`: foreign calls or map lookups.  `initialized` is constant after creation.
- The `abi_version` field of a slot's header, which the channel never writes.
- Clock values are parameters; console output is left out.
- Playback timing, speed, progress and the loop branch, which cannot be reached; what happens during a wait is a parameter.
- The mutexes of the bag classes and of the memory pool: every operation holds one throughout.
- File-system errors other than failing to open, and reading of files by anything but the player.
- BagPlayback.BagPlayer.Open: the deadlock of the code as written is not modelled; see above.
- A task that calls `stop` on its own executor; a task that posts appears as one more client.
- Allocation failure and overflow of `slot_size * slot_count`.
- `transport.cpp`, `service_discovery.cpp`, `proto_codec.cpp`, `src/node`, `broker`, `signal_slot`, `heartbeat`, `metrics`, `topology`, `sensor_interface` and `system_monitor`: sockets, serialisation, or map and counter updates that would add only easy members.
