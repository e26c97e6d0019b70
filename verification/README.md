# Media eXchange Layer: verified models

Media flows are shared between processes through ring buffers in mapped memory. This project
models the algorithms behind those rings, and a few tools that check what flows through them,
and proves what they promise. `dafny verify dfyconfig.toml` checks everything.

| part | files |
|---|---|
| event queue: storage, ring view, writer and reader objects | `EventWords`, `EventCopy`, `EventLayout`, `EventRing`, `EventFlow` |
| event queue: concurrent, crash-recoverable protocol | `EventProtocol`, `EventInvariant`, `EventPreservation`, `EventRuns`, `EventCursors` |
| continuous (audio) flows | `ContinuousRing`, `ContinuousFlow` |
| discrete (grain) flows | `DiscreteRing`, `DiscreteGaps`, `DiscreteTail`, `DiscreteFlow` |
| blocking reads; samples announced in batches; waiting for several flows | `Waiting`; `SampleWaits`; `SyncGroup` |
| index and time | `IndexConversion` |
| video probe: cyclic reference matching | `VideoProbe` |
| data probe: RFC 8331 payloads | `AncBits`, `AncPayload`, `AncPacking` |
| audio/video sync test captions | `Captions` |
| positions in a ring, products; word limits; optional values | `Modular`; `MachineWords`; `Wrappers` |

**Event queue.** `EventProtocol` is a state machine: every store of the writer and every load of a
reader that can race with a store is one step, a crash drops the writer between any two stores and
keeps the mapping, and any number of readers take steps in any order. A log of published entries
and a record of owed notifications exist for the proofs only. `EventInvariant.Inv` is inductive
(`EventPreservation.StepInv`), and `EventRuns` draws from it what holds in every run. The classes
in `EventRing` and `EventFlow` are the code's loops over one array of words; their contracts refer
to the same functions as the state machine, and `EventRuns.PublishCompletes`, `CommitCompletes` and
`RecoveryCompletes` show that its steps, when nothing interrupts them, have these effects.

**Continuous flows.** A ghost field of the writer holds the unbounded stream of each channel. `Valid`
says that each ring is a window on its stream, except for cells that were handed out and never
committed; every operation keeps it, and reads are compared with the stream. A writer that joins a
flow in use takes what the rings show as the stream so far. Its first commit may be for any index, also
one below the head, clears nothing, and again takes what the rings show.

**Discrete flows.** Open, commit, cancel and read are functions of the headers and the writer's fields;
the classes compute them in place. `DiscreteGaps` says which opens a reader cannot notice once they are
done. `DiscreteTail` splits open and commit into single stores and says what a reader can see in between;
there the boundary is one grain closer, because the first store of an open takes over its slot before
the last one resets the header. Runs there go from a new flow through any number of writers, each of which
can die between any two stores.

Positions in rings use `Modular.Wrap`, which is the remainder (`Modular.WrapIsRemainder`).

## Where the code differs from what is said about it

- The comment at lib/internal/src/PosixDiscreteFlowReader.cpp:172-176 says that the reserved tail hides
  the grain after the head. At head n - 1 it does not: index 0 shares a slot with it
  (`DiscreteTail.FullRingShowsNext`, `DiscreteTail.FullRing`). It does in every other case
  (`DiscreteTail.ReadsCommitted`). Grains further on are not hidden: opening a grain beyond the exact boundary
  of `DiscreteGaps.OpenHonestIff` and `DiscreteTail.UnnoticedIff` makes reads of the oldest grain return another header.
- The comment at lib/internal/src/PosixDiscreteFlowWriter.cpp:98-99 says that skipped grains are invalidated so that readers
  see no stale data. A writer that joins a flow in use does not do so before its first complete commit (`DiscreteGaps.JoiningGap`).
- The reader's half of a continuous ring is out of a contiguous writer's reach, but not of one that leaves a gap;
  `ContinuousRing.OpenHarmlessIff` has the condition.
- lib/include/mxl/flow.h:709-716 has the group wait for at least the given number of valid slices. For a head
  that was already reached the slices are not looked at (`SyncGroup.SlicesAfterWalk`, `SyncGroup.SlicesCanBeMissing`).
- docs/Architecture.md:156-157 describes two fragments for every window. For an empty window the second length
  wraps around (`ContinuousRing.LengthsAddUp`).
- Blocking reads of grains and samples take a timeout, but look at the deadline only while the counter is unchanged
  (`Waiting.AfterTheDeadline`); the event reader looks at it in every round (`Waiting.EventReadEnds`).
- A blocking read of samples that times out returns the status of its last attempt, also when samples were stored since
  without a signal (`SampleWaits.MissedSamples`, `SampleWaits.BoundReached`).
- The head of a discrete flow can move back (`DiscreteRing.HeadsRiseIff`, `DiscreteRing.PartialCommitMovesHeadBack`).
- The index comparison at lib/internal/src/PosixDiscreteFlowWriter.cpp:163-166 refuses a commit with nothing open,
  except for a header that carries the reserved index (`DiscreteRing.CommitWithoutOpen`).

## Model

| member | source | states |
|---|---|---|
| `EventRuns.RunInv` | lib/internal/src/PosixEventFlowWriter.cpp:31-71 | every state of every run, with any number of readers and the writer dying between any two stores, satisfies the inductive invariant `EventInvariant.Inv` |
| `EventInvariant.InitInv` | lib/internal/src/EventRingBuffer.cpp:9-28 | a freshly created flow, all tags EMPTY and no head, satisfies the invariant |
| `EventPreservation.StepInv` | lib/internal/include/mxl-internal/EventRingBuffer.hpp:139-159 | every step of the writer, of recovery and of any reader keeps the invariant: slots hold the newest entry of their residue class or are in flux for the very next position, the log and the head agree up to one entry, a partial copy under an unchanged tag is a prefix of its entry |
| `EventPreservation.RecoverExact` | lib/internal/src/PosixEventFlowWriter.cpp:33-70 | what recovery decides, for every state a crash can leave: it never throws; it adopts the published entry whose head store was lost, or only notifies, and takes over the timestamp of the newest entry |
| `EventPreservation.LoadTagExact` | lib/internal/include/mxl-internal/EventRingBuffer.hpp:176-181 | the tag at the cursor shows the entry, a later entry of the same slot, or that the entry is not published at this moment |
| `EventPreservation.RecheckExact` | lib/internal/include/mxl-internal/EventRingBuffer.hpp:182-197 | an unchanged tag makes the copy the whole entry; a changed one means that the position is gone; the metadata check of a stable copy never fails |
| `EventPreservation.BeforeOldest` | lib/internal/include/mxl-internal/EventFlowData.hpp:69-73 | every position before `oldestIndex` has been overwritten in its slot |
| `EventCursors.WindowSize` | lib/internal/include/mxl-internal/EventFlowData.hpp:69-73 | from `oldestIndex` to the head there are exactly min(head + 1, N) positions |
| `EventCursors.NewReaderFinds` | lib/internal/src/PosixEventFlowReader.cpp:46-53 | with no commit under way a new reader's first position is Ready with its entry, unless the ring is full and an earlier writer died in the middle of the next commit, in that very slot; no earlier position is left |
| `EventCursors.CutOffCommit` | lib/internal/include/mxl-internal/EventFlowData.hpp:70-71 | that case follows from every state with a full ring |
| `EventCursors.ResumesInWindow` | lib/internal/src/PosixEventFlowReader.cpp:105-126 | after a loss the cursor is at the first later position that the last N positions up to the head include |
| `EventCursors.InitializedIsFresh` | lib/internal/src/EventRingBuffer.cpp:9-28 | the slots of an initialized mapping are those of the fresh flow that every run starts from |
| `EventCursors.RecoverRefuses` | lib/internal/src/PosixEventFlowWriter.cpp:33-65 | on any mapping, recovery throws exactly if the entry at the head cannot be read, or the slot after it holds a later entry, an invalid one, or one with an earlier timestamp |
| `EventCursors.LostIff` | lib/internal/src/PosixEventFlowReader.cpp:105-110 | the window test reports a loss exactly if the position is N or more behind the head |
| `EventCursors.ReadDelivers` | lib/internal/src/PosixEventFlowReader.cpp:102-121 | a call that nothing disturbs and whose entry is in its slot delivers exactly this entry and moves on by one |
| `EventCursors.ReadSleeps` | lib/internal/src/PosixEventFlowReader.cpp:102-138 | a call that nothing disturbs and that has nothing to read ends asleep on the counter it loaded |
| `EventRuns.CompletedNeverChanges` | lib/internal/include/mxl-internal/EventRingBuffer.hpp:146-157 | once the completed tag of index n was visible, entry n keeps its index and content for ever, across crashes and retries, and a slot that shows this tag holds exactly that entry |
| `EventRuns.HeadFollowsLog` | lib/internal/src/PosixEventFlowWriter.cpp:172-195 | in every run recovery has not thrown, the head is at most one entry behind the published entries, and it is not behind at all whenever a writer is ready to commit |
| `EventRuns.LogGrowsByTag` | lib/internal/include/mxl-internal/EventRingBuffer.hpp:154-157 | published indices are 0, 1, 2, ... without gap or duplicate: only storing a completed tag adds an entry, and that tag is the one of the next index |
| `EventRuns.UnfinishedIsReused` | lib/internal/include/mxl-internal/EventRingBuffer.hpp:148-154 | an unfinished tag names the next index, and the next accepted commit retries it in the same slot without a change to the tag |
| `EventRuns.CommitOutcome` | lib/internal/src/PosixEventFlowWriter.cpp:174-187 | the exact refusals of commit: a record, size or timestamp that is not acceptable, or an exhausted index; never a tag found in the ring; a refusal changes nothing |
| `EventRuns.RecoveryCompletes` | lib/internal/src/PosixEventFlowWriter.cpp:31-71 | a constructor that runs to its end after any crash leaves ring and log alone, the head on the newest entry, the timestamp floor at its timestamp, the owed notification paid and every sleeper awake |
| `EventRuns.PublishCompletes` | lib/internal/include/mxl-internal/EventRingBuffer.hpp:139-159 | the stores of an uninterrupted publication, one after another, have the effect of replacing one slot by the published entry |
| `EventRuns.CommitCompletes` | lib/internal/src/PosixEventFlowWriter.cpp:172-195 | the stores of an uninterrupted commit add exactly one entry, move the head to it, bump the counter and wake every sleeper |
| `EventRuns.RunLater` | lib/internal/include/mxl-internal/EventRingBuffer.hpp:154-157 | between any two states of a run the log is extended, tags of every slot, the head and the counter never go back, and reports are never withdrawn |
| `EventRuns.WindowIntact` | lib/internal/include/mxl-internal/EventRingBuffer.hpp:141-157 | with head h, the positions h - N + 2 .. h hold their completed tags and content in every reachable state, also while the next entry is being written |
| `EventRuns.ReadExact` | lib/internal/include/mxl-internal/EventRingBuffer.hpp:169-198 | the result of a read for every index in every reachable state: pending exactly if not published, overwritten exactly after a full turn or while the slot is refilled one turn later, otherwise exactly the published entry; never invalid |
| `EventRuns.LoadTagTells` | lib/internal/include/mxl-internal/EventRingBuffer.hpp:176-181 | a reader finds its entry missing exactly if it is not published, and overrun exactly if its slot has moved on |
| `EventRuns.DeliveredExact` | lib/internal/src/PosixEventFlowReader.cpp:112-121 | no torn snapshot: in every interleaving whatever was delivered under index n is the metadata of entry n and its first eventSize payload bytes; a corrupt entry is never reported |
| `EventRuns.CursorAccounts` | lib/internal/src/PosixEventFlowReader.cpp:105-126 | a list of reports accounts for exactly the positions between the start and the cursor, each by exactly one report |
| `EventRuns.EveryPositionAccounted` | lib/internal/src/PosixEventFlowReader.cpp:105-126 | in every run each position the cursor went over was delivered once or reported too late once, and one reported too late has been overwritten in its slot |
| `EventRuns.DeliveredInOrder` | lib/internal/src/PosixEventFlowReader.cpp:114-121 | delivered indices strictly increase |
| `EventRuns.TimestampsOrdered` | lib/internal/src/PosixEventFlowWriter.cpp:36-58 | timestamps never decrease along the published entries, through failed commits, cancels and crashes; the floor of an idle writer is the timestamp of the head entry, or zero |
| `EventRuns.NoLostWakeup` | lib/internal/src/PosixEventFlowReader.cpp:105-138 | a sleeping reader whose entry is published is owed a notification by a writer on its way to it or dead before it, unless the 32-bit counter went all the way round in between |
| `EventRuns.WrapLosesWakeup` | lib/internal/src/Sync.cpp:78-110 | the exception is real: from every fresh flow with a reader and for every acceptable record there is a run that ends with this reader asleep on a published entry, with no writer at work and nothing owed to it |
| `EventWords.UnpackPack` | lib/internal/include/mxl-internal/EventRingBuffer.hpp:252-279 | reading back the words of a stored byte string gives its bytes, for every length including partial last words |
| `EventWords.PackUnpack` | lib/internal/include/mxl-internal/EventRingBuffer.hpp:252-279 | storing the bytes read from whole words gives the words |
| `EventWords.StreamDetermines` | lib/internal/include/mxl-internal/EventRingBuffer.hpp:155-156 | the stored words of an entry determine its metadata, how far a reader copies, and its payload |
| `EventCopy.StoreBytes` | lib/internal/include/mxl-internal/EventRingBuffer.hpp:252-263 | the store loop changes exactly the words that cover the size and leaves there the packed bytes, zero filled |
| `EventCopy.LoadBytes` | lib/internal/include/mxl-internal/EventRingBuffer.hpp:271-279 | the load loop writes exactly the first `size` bytes of the destination, with the bytes of the words, and nothing beyond |
| `EventLayout.StrideFits` | lib/internal/include/mxl-internal/EventRingBuffer.hpp:68-72 | the stride is a multiple of 128, covers header and payload rounded up to words, and wastes less than 128 bytes |
| `EventLayout.SlotsDisjoint` | lib/internal/include/mxl-internal/EventRingBuffer.hpp:81-85 | slots are disjoint, aligned to 128 bytes, inside the buffer size and large enough for the payload rounded up to words |
| `EventLayout.SizeNeverOverflows` | lib/internal/include/mxl-internal/EventRingBuffer.hpp:217-224 | for legal counts and sizes the overflow test of the geometry check never fires and the size fits 64 bits |
| `EventLayout.BaseIsAddress` | lib/internal/include/mxl-internal/EventRingBuffer.hpp:231-234 | word positions of slots are the byte addresses of the code divided by eight |
| `EventLayout.OneSlotChanged` | lib/internal/include/mxl-internal/EventRingBuffer.hpp:231-244 | stores inside one slot leave every other slot as it was |
| `EventRing.Initialize` | lib/internal/src/EventRingBuffer.cpp:9-28 | initialization of a legal geometry leaves valid headers and every slot empty; an illegal one is refused without a store |
| `EventRing.CheckHeaders` | lib/internal/include/mxl-internal/EventRingBuffer.hpp:109-126 | attaching accepts exactly a legal geometry whose ring header and slot headers match |
| `EventRing.EventRingBuffer.Publish` | lib/internal/include/mxl-internal/EventRingBuffer.hpp:139-159 | publishing into the mapping replaces exactly one slot by the entry under its completed tag, or is refused for exactly the two reasons without a store |
| `EventRing.EventRingBuffer.Read` | lib/internal/include/mxl-internal/EventRingBuffer.hpp:169-198 | a read has the outcome of the protocol read of that slot, and when ready the caller holds the entry with the queue index filled in |
| `EventRing.IndexFilledIn` | lib/internal/include/mxl-internal/EventRingBuffer.hpp:196-197 | filling in the library-owned index changes no other byte of the delivered record and no payload byte |
| `EventFlow.EventFlowWriter.constructor` | lib/internal/src/PosixEventFlowWriter.cpp:22-30 | a new writer is not open and has timestamp floor zero before it recovers |
| `EventFlow.EventFlowWriter.Recover` | lib/internal/src/PosixEventFlowWriter.cpp:31-71 | recovery over a mapping decides as the protocol recovery on its slots and throws where that fails; it stores head and write time exactly when it adopts an entry, registers with the watcher, and increments the counter and wakes the sleepers exactly if there is an entry |
| `EventFlow.EventFlowWriter.OpenEvent` | lib/internal/src/PosixEventFlowWriter.cpp:118-140 | opening hands out the default record and the staging buffer exactly when nothing is open |
| `EventFlow.NewRecordAcceptable` | lib/internal/src/PosixEventFlowWriter.cpp:124-136 | the default record, handed back unchanged, passes the tests of commit for every capacity, as an empty event stamped zero, and carries the reserved index |
| `EventFlow.EventFlowWriter.Cancel` | lib/internal/src/PosixEventFlowWriter.cpp:142-150 | cancelling succeeds exactly when something is open |
| `EventFlow.EventFlowWriter.CheckRecord` | lib/internal/src/PosixEventFlowWriter.cpp:174-178 | the tests of commit, byte by byte: bytes 0-7 as in a new record, bytes 16-19 zero, event size within the capacity, timestamp not below the floor, and an open event; nothing else of the record matters |
| `EventRing.AcceptableBytes` | lib/internal/include/mxl-internal/EventRingBuffer.hpp:192-195 | the records that commit and read accept, byte by byte |
| `EventRing.InvalidIff` | lib/internal/include/mxl-internal/EventRingBuffer.hpp:182-195 | a read finds its entry invalid exactly if the completed tag is there and the stored record is not of this form |
| `EventRing.PublishExact` | lib/internal/include/mxl-internal/EventRingBuffer.hpp:139-147 | the refusals of publish for every tag and index: an exhausted index, or a slot completed at this index or later or in flux for a later one |
| `EventRing.HeadersTellApart` | lib/internal/include/mxl-internal/EventRingBuffer.hpp:109-114 | a ring initialized with one geometry is never accepted for another one |
| `EventFlow.CounterFollows` | lib/internal/src/PosixEventFlowWriter.cpp:192-192 | the 32-bit counter goes with the unbounded one of the protocol and changes with every notification |
| `EventFlow.EventFlowWriter.Commit` | lib/internal/src/PosixEventFlowWriter.cpp:172-195 | commit over a mapping refuses a record as invalid exactly by the byte tests, the open flag and the timestamp, has the status of the protocol, changes nothing and wakes nobody on refusal, and otherwise publishes the staged payload at the next index, moves head, write time, floor and counter, and wakes the sleepers once |
| `EventFlow.EventFlowReader.constructor` | lib/internal/src/PosixEventFlowReader.cpp:46-53 | a reader starts at the oldest retained index, with min(head + 1, N) positions up to the head |
| `EventFlow.EventFlowReader.GetEvent` | lib/internal/src/PosixEventFlowReader.cpp:99-140 | one undisturbed call: status, cursor and copied entry for every content of the slot at the cursor; after a loss the cursor is at the first position in the window; the caller's record is written only on success |
| `ContinuousRing.FragmentsInOrder` | lib/internal/src/PosixContinuousFlowReader.cpp:135-151 | for at least one sample the two fragments visit the cells of the range in order, exactly once each and inside the ring |
| `ContinuousRing.LengthsAddUp` | lib/internal/src/PosixContinuousFlowReader.cpp:138-139 | the two fragment lengths add up to the count exactly if the count is not zero; for zero the second length wraps around |
| `ContinuousRing.StartNearTheLimit` | lib/internal/src/PosixContinuousFlowWriter.cpp:101-102 | the start cell is right exactly if the 64-bit sum does not overflow or the ring length divides the word range |
| `ContinuousRing.ThroughIsSamples` | lib/internal/src/PosixContinuousFlowReader.cpp:135-151 | following the fragments of a range shows the samples at its positions |
| `ContinuousRing.BaseIsProduct` | lib/internal/src/PosixContinuousFlowWriter.cpp:156-163 | the rings of the channels start one stride apart |
| `ContinuousRing.OneRingChanged` | lib/internal/src/PosixContinuousFlowWriter.cpp:158-163 | stores inside one channel's ring leave the other rings as they were |
| `ContinuousRing.CommitExtends` | lib/internal/src/PosixContinuousFlowWriter.cpp:141-164 | a commit with any gap keeps the ring a window of an unbounded stream: the gap reads as zeros, the range as what is in it, and no sample of the last turn is lost |
| `ContinuousRing.FirstCommit` | lib/internal/src/PosixContinuousFlowWriter.cpp:141-170 | the first commit on a zeroed flow: everything before it reads as zeros |
| `ContinuousRing.ReadIsStream` | lib/internal/src/PosixContinuousFlowReader.cpp:127-155 | a successful read of at least one sample shows stream[index - count .. index] |
| `ContinuousRing.HalvesDisjoint` | lib/internal/src/PosixContinuousFlowWriter.cpp:85-117 | hence a contiguous open of up to half the ring is always out of reach of readers |
| `ContinuousRing.OpenHarmlessIff` | lib/internal/src/PosixContinuousFlowWriter.cpp:85-117 | an open, with or without a gap, shares no cell with any range readable at the current head exactly if, counted round the ring from the head, it ends before the readable part begins |
| `ContinuousRing.Window` | lib/internal/src/PosixContinuousFlowReader.cpp:127-155 | the window test succeeds exactly for ranges inside the last half ring before the head, and is too early exactly past the head |
| `ContinuousRing.SignalBound` | lib/internal/src/PosixContinuousFlowWriter.cpp:195-221 | after every commit fewer than one batch of samples lie between the last signalled head and the head |
| `ContinuousRing.SignalledEarly` | lib/internal/src/PosixContinuousFlowWriter.cpp:200-210 | the exact rule: in the batch that is due a head is signalled early if and only if one more commit of the hinted size would go past the end of the batch; a new batch always, an accounted one never again |
| `ContinuousRing.SignalsSpaced` | lib/internal/src/PosixContinuousFlowWriter.cpp:195-221 | over any run of heads that rise by at most C per commit, consecutive signals are at most B + C - 1 apart |
| `ContinuousFlow.ClearChannel` | lib/internal/src/PosixContinuousFlowWriter.cpp:160-162 | the two fills of one channel zero exactly the cells of the range and leave the other channels alone |
| `ContinuousFlow.ClearGap` | lib/internal/src/PosixContinuousFlowWriter.cpp:158-163 | the channel loop zeroes exactly the cells of the range in every channel |
| `ContinuousFlow.ClearBetween` | lib/internal/src/PosixContinuousFlowWriter.cpp:141-164 | the newest part of the gap, up to what the range leaves of the ring, is zeroed in every channel |
| `ContinuousFlow.FragmentCells` | lib/internal/src/PosixContinuousFlowWriter.cpp:149-154 | the two fragments of a range are exactly its cells |
| `ContinuousFlow.ContinuousFlowWriter.constructor` | lib/internal/src/PosixContinuousFlowWriter.cpp:20-40 | a new writer, on a new flow or on one in use with any head and content, satisfies the ring invariant for the streams that the rings show |
| `ContinuousFlow.ContinuousFlowWriter.OpenSamples` | lib/internal/src/PosixContinuousFlowWriter.cpp:81-128 | the exact acceptance condition for every 64-bit index; on success the fragments of the range, on failure nothing changes; cells of an abandoned open are remembered as dirty; the ring invariant is kept up to one ring length below the largest index |
| `ContinuousFlow.ContinuousFlowWriter.StoreSample` | lib/internal/src/PosixContinuousFlowWriter.cpp:103-117 | a store through the slices changes one cell of one channel, hidden from the streams |
| `ContinuousFlow.StoreShows` | lib/internal/src/PosixContinuousFlowWriter.cpp:103-117 | that cell is the k-th sample of the open range and no other sample of it |
| `ContinuousFlow.ContinuousFlowWriter.Commit` | lib/internal/src/PosixContinuousFlowWriter.cpp:130-186 | each channel's stream grows by zeros for the gap and the samples in the range; the head moves to its end; the counter moves and the sleepers are woken exactly when the batch rule says so; without an open range it is refused |
| `ContinuousFlow.ContinuousFlowWriter.ClearSkipped` | lib/internal/src/PosixContinuousFlowWriter.cpp:139-164 | the memory part of a commit re-establishes the ring invariant for the longer streams |
| `ContinuousFlow.ContinuousFlowWriter.SignalCompletedBatch` | lib/internal/src/PosixContinuousFlowWriter.cpp:195-221 | the batch rule on the notifier's fields |
| `ContinuousFlow.ContinuousFlowWriter.Cancel` | lib/internal/src/PosixContinuousFlowWriter.cpp:188-193 | cancelling closes the range and keeps streams and memory |
| `ContinuousFlow.ContinuousFlowReader.GetSamples` | lib/internal/src/PosixContinuousFlowReader.cpp:124-161 | status by the window test, slices of the range on success |
| `ContinuousFlow.ReaderSeesStream` | lib/internal/src/PosixContinuousFlowReader.cpp:124-161 | in every state of a writer a successful read that meets no cell of an abandoned open shows the committed stream in any channel, also while a range is open that is out of reach |
| `DiscreteRing.InvalidateSlot` | lib/internal/src/PosixDiscreteFlowWriter.cpp:105-111 | after the skip loop every slot is untouched or marked for a skipped grain of its own residue class |
| `DiscreteRing.InvalidateMarks` | lib/internal/src/PosixDiscreteFlowWriter.cpp:105-111 | the last n skipped grains all carry their marks, for gaps of any size |
| `DiscreteRing.OpenSlot` | lib/internal/src/PosixDiscreteFlowWriter.cpp:84-131 | what an open can leave in any slot |
| `DiscreteRing.OpenPending` | lib/internal/src/PosixDiscreteFlowWriter.cpp:96-126 | after an open the slot of the grain carries its index and every skipped grain of the last turn is marked invalid |
| `DiscreteRing.CompleteRecent` | lib/internal/src/PosixDiscreteFlowWriter.cpp:168-179 | a complete commit keeps the record of the last n positions: committed headers, marks of skipped grains, or slots taken over by a later open |
| `DiscreteRing.StepInv` | lib/internal/src/PosixDiscreteFlowWriter.cpp:84-189 | open, commit and cancel keep the ring invariant |
| `DiscreteRing.RunInv` | lib/internal/src/PosixDiscreteFlowWriter.cpp:21-30 | every run of opens, commits and cancels of a fresh writer, on a new flow or on one in use with any headers and any head, satisfies the ring invariant |
| `DiscreteRing.RingAfterCommit` | lib/internal/src/PosixDiscreteFlowWriter.cpp:91-180 | after any run of a fresh writer on any flow that ends in a complete commit the head is that index, and each of the last n positions since its first commit, unless a grain a full turn later was opened, carries its index, with its committed header or flagged invalid with zero valid slices, whatever stale header was there |
| `DiscreteRing.ReadStatuses` | lib/internal/src/PosixDiscreteFlowReader.cpp:167-206 | all statuses of a read: too early past the head, too late before the window, and inside it a complete or invalid grain is readable however many slices are asked for, any other one exactly for as many as it has |
| `DiscreteRing.GrainsReadable` | lib/internal/src/PosixDiscreteFlowReader.cpp:179-196 | in any run of a fresh writer, after a complete commit every readable position since its first commit that was not overrun is readable however many slices are asked for |
| `DiscreteRing.CommittedReadable` | lib/internal/src/PosixDiscreteFlowReader.cpp:179-196 | a committed grain, complete or not, is readable at once for exactly the slices it has |
| `DiscreteRing.WindowLength` | lib/internal/src/PosixDiscreteFlowReader.cpp:172-177 | the readable window ends at the head and has n - 1 positions, or all from zero on |
| `DiscreteRing.CommitsCounted` | lib/internal/src/PosixDiscreteFlowWriter.cpp:181-184 | over any run the counter that blocked readers sleep on counts the accepted commits modulo 2^32 |
| `DiscreteRing.PositionLost` | lib/internal/src/PosixDiscreteFlowWriter.cpp:91-126 | an open takes a position of the last turn out of its slot exactly if it is for a grain at least a full turn later |
| `DiscreteRing.PositionKept` | lib/internal/src/PosixDiscreteFlowWriter.cpp:84-189 | over any run after a complete commit a position that is in its slot stays there exactly as long as no grain a full turn later is opened |
| `DiscreteRing.HeadsRiseIff` | lib/internal/src/PosixDiscreteFlowWriter.cpp:161-169 | over any run the head never decreases exactly if no accepted commit is for an index below the head at that moment |
| `DiscreteRing.CompleteCommitsRaiseHead` | lib/internal/src/PosixDiscreteFlowWriter.cpp:168-180 | in every run of complete commits of a fresh writer on any flow each accepted commit after the first moves the head strictly up |
| `DiscreteRing.PartialCommitMovesHeadBack` | lib/internal/src/PosixDiscreteFlowWriter.cpp:168-180 | the other case of `HeadsRiseIff` occurs: after a partial commit of a later grain, completing an earlier one moves the head backwards |
| `DiscreteRing.CommitWithoutOpen` | lib/internal/src/PosixDiscreteFlowWriter.cpp:163-169 | a commit with nothing open is refused exactly if the header does not carry the reserved index; with it the head becomes undefined |
| `DiscreteGaps.OldestReadable` | lib/internal/src/PosixDiscreteFlowReader.cpp:172-177 | what the oldest readable index means: no two readable positions share a slot, and they leave out exactly the slot of the grain after the head, except for index 0 while the head is n - 1; one position more would not |
| `DiscreteGaps.OpenHonestExact` | lib/internal/src/PosixDiscreteFlowWriter.cpp:96-126 | an open, with any gap and in any state in which OK reads return the header asked for, keeps them so exactly if no mark of a skipped grain that survives the open shares its slot with another readable position |
| `DiscreteGaps.OpenHonestIff` | lib/internal/src/PosixDiscreteFlowWriter.cpp:96-126 | the boundary: that is the case exactly for opens at most a full turn after the oldest readable position - for a full ring, at most one skipped grain - or when the head alone is readable and the opened grain takes its slot, provided that no mark falls behind the readable positions, as it only can after a partial commit more than a turn past the last complete one; before the first complete commit for every open |
| `DiscreteGaps.JoiningGap` | lib/internal/src/PosixDiscreteFlowWriter.cpp:96-112 | a writer that joins a flow in use marks nothing before its first complete commit: if its first commit skips grains, reads return the header asked for exactly if no skipped position that becomes readable has a stale header in its slot |
| `DiscreteFlow.DiscreteFlowData.constructor` | lib/internal/src/FlowManager.cpp:206-223 | a new flow has zero head and blank headers |
| `DiscreteFlow.DiscreteFlowWriter.OpenGrain` | lib/internal/src/PosixDiscreteFlowWriter.cpp:84-131 | the in-place open has the status and the effect of the function `DiscreteRing.Open`, and returns the header in the slot |
| `DiscreteFlow.DiscreteFlowWriter.InvalidateSkipped` | lib/internal/src/PosixDiscreteFlowWriter.cpp:96-112 | the in-place loop marks exactly the skipped grains of the last turn |
| `DiscreteFlow.DiscreteFlowWriter.Commit` | lib/internal/src/PosixDiscreteFlowWriter.cpp:159-189 | the in-place commit has the status and the effect of the function `DiscreteRing.Commit`, and wakes the sleepers exactly if it is accepted |
| `DiscreteFlow.DiscreteFlowWriter.Cancel` | lib/internal/src/PosixDiscreteFlowWriter.cpp:133-137 | cancelling only forgets the open grain |
| `DiscreteFlow.DiscreteFlowReader.GetGrain` | lib/internal/src/PosixDiscreteFlowReader.cpp:160-211 | status by window, slices and flag as in `DiscreteRing.Read`, OK for every complete or invalid grain inside the window; on success the header in the slot |
| `DiscreteTail.StepInv` | lib/internal/src/PosixDiscreteFlowWriter.cpp:96-184 | every single store of an open, with its marks of skipped grains, or of a commit, fields copied in any order, and the replacement of the writer between any two stores, keeps the invariant of the visible slots |
| `DiscreteTail.StoresOpen` | lib/internal/src/PosixDiscreteFlowWriter.cpp:96-129 | without interruption the stores of any accepted open have the effect of the operation |
| `DiscreteTail.StoresCommit` | lib/internal/src/PosixDiscreteFlowWriter.cpp:168-172 | in whatever order the fields are copied, the slot ends up with the committed header |
| `DiscreteTail.UnnoticedIff` | lib/internal/src/PosixDiscreteFlowWriter.cpp:96-126 | after a complete commit, reads return the header asked for between any two stores of an open exactly if it is less than a full turn after the oldest readable position, or exactly a full turn and no read for a slice succeeds there |
| `DiscreteTail.NoticedInRun` | lib/internal/src/PosixDiscreteFlowWriter.cpp:96-126 | the same boundary in every run of a careful client, wherever the head is not n - 1 |
| `DiscreteTail.ReadsCommitted` | lib/internal/src/PosixDiscreteFlowReader.cpp:167-196 | hidden tail: between any two stores of any run of careful opens, by writers that can die and be replaced at any point, an OK read of grain i for at least one slice returns index i, with the header as committed or the mark of a skipped grain - only the head's may still be under copy, and only a writer that died while copying leaves another - except for index 0 while the head is n - 1 |
| `DiscreteTail.HeadShowsCopy` | lib/internal/src/PosixDiscreteFlowWriter.cpp:168-172 | the allowance for the head is needed: on every new flow a run leads to an OK read of the head that returns a header nobody ever committed, its slice count copied before the rest; if the writer dies now, it stays |
| `DiscreteTail.FullRingShowsNext` | lib/internal/src/PosixDiscreteFlowReader.cpp:172-177 | the exception is real: with grains 0 .. n - 1 committed, the first store of opening grain n shows in a read of index 0 |
| `DiscreteTail.FullRing` | lib/internal/src/PosixDiscreteFlowReader.cpp:172-177 | a ring of every length gets there: a run that commits grains 0 .. n - 1 and whose next store makes a read of index 0 return the header of grain n |
| `Waiting.WaitUntilChanged` | lib/internal/src/Sync.cpp:67-110 | the loop computes the wait whose meaning is `WaitExact` |
| `Waiting.WaitExact` | lib/internal/src/Sync.cpp:67-110 | the wait succeeds exactly on a changed counter, having slept while it was unchanged and the deadline ahead, and fails only when time ran out or the sleep failed on an unchanged counter |
| `Waiting.BlockingRead` | lib/internal/src/PosixDiscreteFlowReader.cpp:213-237 | the retry loop, in every world in which it does not go on for ever, ends in the first round that does not start another one, with the result of that round |
| `Waiting.ResultMeans` | lib/internal/src/PosixDiscreteFlowReader.cpp:213-237 | that result is the one of the last attempt, all earlier attempts were too early, and it is too early only if time ran out while the counter had the value loaded before that attempt |
| `Waiting.NoMissedData` | lib/internal/src/PosixContinuousFlowReader.cpp:163-182 | a blocking read never says too early about data announced before its deadline; for samples stored without an announcement see `SampleWaits.MissedSamples` |
| `Waiting.AfterTheDeadline` | lib/internal/src/PosixDiscreteFlowReader.cpp:220-236 | a read whose deadline has passed goes on for n rounds exactly if each of them finds no data and a counter that changed between its load and the wait |
| `Waiting.BlockingEventRead` | lib/internal/src/PosixEventFlowReader.cpp:102-138 | the retry loop of the event reader, which looks at the deadline after every attempt, computes the specified read in every world |
| `Waiting.EventReadMeans` | lib/internal/src/PosixEventFlowReader.cpp:102-138 | its result is that of its last attempt, and too early only if the deadline was found passed after it, or passed, or a sleep failed, while the counter had the value loaded before it |
| `Waiting.EarlierEventAttempts` | lib/internal/src/PosixEventFlowReader.cpp:102-138 | every earlier attempt was too early and was followed by a change of the counter |
| `Waiting.NoMissedEvent` | lib/internal/src/PosixEventFlowReader.cpp:102-138 | data announced before the deadline is never answered with too early |
| `Waiting.EventReadEnds` | lib/internal/src/PosixEventFlowReader.cpp:133-137 | it ends within one attempt of its deadline, however often the counter changes |
| `SampleWaits.AsleepBehind` | lib/internal/src/PosixContinuousFlowReader.cpp:163-182 | a reader that was too early, and whose counter has not changed since, has missed less than one batch of samples past the index asked for, unless the writer is between storing the head and its batch test |
| `SampleWaits.MissedSamples` | lib/internal/src/PosixContinuousFlowReader.cpp:176-179 | so much at most can be there when a blocking read of samples ends by saying too early |
| `SampleWaits.BoundReached` | lib/internal/src/PosixContinuousFlowWriter.cpp:195-221 | the bound is sharp: for every batch size from two on a read is told too early although all samples but one of a batch are there |
| `SyncGroup.TurnKeepsPlace` | lib/internal/src/FlowSynchronizationGroup.cpp:100-129 | both iterators name nodes: after every turn, with or without a splice after `prev`, at the first node or later, `prev` precedes the next node, and the list is the one in which the visited entry moved |
| `SyncGroup.WalkVisitsEachOnce` | lib/internal/src/FlowSynchronizationGroup.cpp:77-132 | although the list is rearranged while it is walked, its readers are visited in their original order, each exactly once: all of them on success, up to the first failure otherwise |
| `SyncGroup.WalkStatus` | lib/internal/src/FlowSynchronizationGroup.cpp:82-131 | success exactly if for every reader the head has reached the expected index or the wait succeeded; otherwise the result of the first reader that failed |
| `SyncGroup.WalkPermutes` | lib/internal/src/FlowSynchronizationGroup.cpp:106-121 | the walk permutes the entries and changes nothing of them but the observed delay; no reader appears twice, and the front keeps the largest observed delay |
| `SyncGroup.WalkDelays` | lib/internal/src/FlowSynchronizationGroup.cpp:100-118 | after a walk that succeeds each reader has the larger of its old delay and the time from its expected index's timestamp to its visit, or its old delay if its head had been reached |
| `SyncGroup.WalkArranges` | lib/internal/src/FlowSynchronizationGroup.cpp:100-129 | the exact list after any walk: those that proved slower than the front at their visit, the latest first, then the other visited ones in their order, then those not reached |
| `SyncGroup.AddKeeps` | lib/internal/src/FlowSynchronizationGroup.cpp:32-61 | adding a reader, once or again, adds exactly this reader and keeps readers distinct and the slowest in front |
| `SyncGroup.AddedExactly` | lib/internal/src/FlowSynchronizationGroup.cpp:32-61 | a new reader comes last with its requested slices and no delay; a known discrete one gets the new slices and nothing else |
| `SyncGroup.RemovedExactly` | lib/internal/src/FlowSynchronizationGroup.cpp:63-75 | removal keeps every other entry in its place |
| `SyncGroup.RemoveKeeps` | lib/internal/src/FlowSynchronizationGroup.cpp:63-75 | removal takes exactly this reader out and keeps the slowest in front unless it was the front |
| `SyncGroup.RemovingFront` | lib/internal/src/FlowSynchronizationGroup.cpp:63-75 | removing the front keeps the slowest in front exactly if the second entry is the slowest of the rest |
| `SyncGroup.WaitReads` | lib/internal/src/FlowSynchronizationGroup.cpp:92-98 | a wait for a grain that returns success has just read it with the requested slices |
| `SyncGroup.SlicesAfterWalk` | lib/internal/src/FlowSynchronizationGroup.cpp:84-98 | after a successful walk every discrete reader that was waited for has read its grain with its slices, and all have exactly if those have them whose head had already been reached |
| `SyncGroup.SlicesCanBeMissing` | lib/internal/src/FlowSynchronizationGroup.cpp:84-87 | for every group and every discrete reader in it that asks for a slice there is a world in which the walk succeeds without its slices |
| `SyncGroup.FlowSynchronizationGroup.AddReader` | lib/internal/src/FlowSynchronizationGroup.cpp:32-61 | the search loop adds or updates as the specification says |
| `SyncGroup.FlowSynchronizationGroup.RemoveReader` | lib/internal/src/FlowSynchronizationGroup.cpp:63-75 | the search loop removes as the specification says |
| `SyncGroup.FlowSynchronizationGroup.WaitFor` | lib/internal/src/FlowSynchronizationGroup.cpp:82-105 | the wait for one reader: success and observed delay, or the result of the wait |
| `SyncGroup.FlowSynchronizationGroup.VisitReader` | lib/internal/src/FlowSynchronizationGroup.cpp:82-129 | the body of the loop: wait, delay, splice of the node after `prev` to the front, and which node `prev` is afterwards |
| `SyncGroup.FlowSynchronizationGroup.WaitForDataAt` | lib/internal/src/FlowSynchronizationGroup.cpp:77-132 | the call terminates with the status, the list and the visits of the specified walk |
| `SyncGroup.FlowSynchronizationGroup.WalkList` | lib/internal/src/FlowSynchronizationGroup.cpp:80-132 | its loop over the two iterators keeps `prev` before the current node and completes the walk |
| `IndexConversion.RoundTrip` | lib/internal/include/mxl-internal/IndexConversion.hpp:12-34 | index to timestamp and back is the identity for rates of at most one grain per nanosecond and timestamps that fit 63 bits |
| `IndexConversion.CodeRoundTripIff` | lib/internal/include/mxl-internal/IndexConversion.hpp:12-34 | the code's conversions round-trip every index whose timestamp fits 63 bits exactly if a grain lasts at least a nanosecond |
| `IndexConversion.Reduced` | lib/internal/include/mxl-internal/IndexConversion.hpp:12-34 | for every positive rate and every index or time from zero on the code computes the rounded quotients cut down to 64 bits |
| `IndexConversion.SharedTimestamp` | lib/internal/include/mxl-internal/IndexConversion.hpp:25-34 | for shorter grains two neighbouring indices share a timestamp |
| `IndexConversion.TimestampError` | lib/internal/include/mxl-internal/IndexConversion.hpp:12-34 | in the code, where the results fit, timestamp to index and back is off by at most half a grain plus half a nanosecond |
| `IndexConversion.Exact` | lib/internal/include/mxl-internal/IndexConversion.hpp:12-34 | inside the machine widths the code computes the rounded quotients |
| `IndexConversion.ConversionsMonotone` | lib/internal/include/mxl-internal/IndexConversion.hpp:12-34 | both conversions are monotone as long as the larger result fits |
| `IndexConversion.CodeScaleInvariant` | lib/internal/include/mxl-internal/IndexConversion.hpp:12-34 | rates that are equal as fractions convert alike in the code: every timestamp at every rate, and every index at a rate whose parts have the same sign, also where results do not fit |
| `IndexConversion.MixedSigns` | lib/internal/include/mxl-internal/IndexConversion.hpp:30-31 | with parts of different signs indices at equal rates can convert differently |
| `IndexConversion.BeforeZero` | lib/internal/include/mxl-internal/IndexConversion.hpp:16-17 | a time before zero converts to index zero up to half a grain back, and further back to the rounded number of grains counted down from 2^64 |
| `IndexConversion.CutDown` | lib/internal/include/mxl-internal/IndexConversion.hpp:16-31 | cutting a wide result down to 64 bits changes it by a multiple of 2^64 |
| `IndexConversion.ZeroParts` | lib/internal/include/mxl-internal/IndexConversion.hpp:14-34 | a rate with a zero part converts every time to the reserved index and every index to time zero |
| `IndexConversion.IndexNeverOverflows` | lib/internal/include/mxl-internal/IndexConversion.hpp:16-17 | the 128-bit intermediate of the first conversion fits for every 64-bit rate and timestamp |
| `IndexConversion.TimeOverflowsIff` | lib/internal/include/mxl-internal/IndexConversion.hpp:30-31 | that of the second conversion fits for all 64-bit indices exactly if the denominator is at most 9,223,372,036 |
| `VideoProbe.NoFewerBreaks` | tools/mxl-video-probe/main.cpp:230-256 | no way of placing the received frames in the reference has fewer breaks than the probe counted, and an optimal one ends at a candidate |
| `VideoProbe.CountAttained` | tools/mxl-video-probe/main.cpp:230-256 | some placement has exactly the counted number of breaks, and can be chosen to lead to any candidate |
| `VideoProbe.ErrorsCounted` | tools/mxl-video-probe/main.cpp:203-252 | grain errors are the rejected grains and byte errors the complete frames that occur nowhere in the reference |
| `VideoProbe.CandidatesExist` | tools/mxl-video-probe/main.cpp:230-256 | candidates remain exactly after a frame that occurs in the reference |
| `VideoProbe.OrderErrorsAreFewestCuts` | tools/mxl-video-probe/main.cpp:230-256 | without byte errors the order errors are the smallest number of cuts that splits the frames into pieces occurring cyclically in the reference |
| `VideoProbe.CleanIffCyclic` | tools/mxl-video-probe/main.cpp:230-256 | both counts are zero exactly if the frames are the cyclic reference from some start on |
| `VideoProbe.CollapseKeepsCounts` | tools/mxl-video-probe/main.cpp:219-223 | collapsing an all-equal reference to one frame changes no count |
| `VideoProbe.ShiftDetectsEqual` | tools/mxl-video-probe/main.cpp:220-220 | comparing the reference with itself shifted by one frame holds exactly if all frames are equal |
| `VideoProbe.NothingUsable` | tools/mxl-video-probe/main.cpp:203-209 | before the first usable grain nothing but grain errors is counted |
| `VideoProbe.Examine` | tools/mxl-video-probe/main.cpp:230-256 | one received frame has the effect of one step of the matcher on candidates and counters |
| `VideoProbe.Continue` | tools/mxl-video-probe/main.cpp:230-237 | one inner loop keeps exactly the successors of the matching candidates |
| `VideoProbe.ContinueAnywhere` | tools/mxl-video-probe/main.cpp:240-247 | the fallback loop keeps exactly the successors of all matching positions |
| `VideoProbe.VerdictMeans` | tools/mxl-video-probe/main.cpp:203-218 | the verdict in terms of the grains: a mismatch exactly if the size of the first usable grain does not divide the reference; the grain errors are the grains that are not intact or not of that size |
| `VideoProbe.FrameSizeIs` | tools/mxl-video-probe/main.cpp:209-212 | the frame size is that of the first intact grain with a payload |
| `VideoProbe.VerifyPayload` | tools/mxl-video-probe/main.cpp:178-257 | the whole loop over flat memory, with late frame size, collapsed reference and candidate sets, reports the counts over the frames of the whole reference, or the size mismatch |
| `AncPacking.ParseInvertsPacking` | tools/mxl-data-probe/main.cpp:187-238 | for every list of packets packed as in RFC 8331 section 2.1, whatever bytes follow, the parser returns the line, DID, SDID, data count and low eight bits of every user data word of each |
| `AncPacking.ParsePackets` | tools/mxl-data-probe/main.cpp:208-235 | encoded packets one behind the other are found at their 32-bit boundaries, wherever they start |
| `AncPacking.PacketAt` | tools/mxl-data-probe/main.cpp:216-233 | the fields of one packed packet are read back from its bits |
| `AncPacking.NextStart` | tools/mxl-data-probe/main.cpp:210-213 | skipping one word at even offsets leads exactly to the next packet |
| `AncPayload.BigEndianWordReader.constructor` | tools/mxl-data-probe/main.cpp:106-109 | a reader starts at the first byte |
| `AncPayload.BigEndianWordReader.Read` | tools/mxl-data-probe/main.cpp:112-122 | a read returns the next sixteen bits and advances, or fails exactly if fewer than two bytes remain |
| `AncPayload.UdwUnpacker.Refill` | tools/mxl-data-probe/main.cpp:153-157 | a refill appends one word; the accumulator stays below 2^25 |
| `AncPayload.UdwUnpacker.Read` | tools/mxl-data-probe/main.cpp:151-163 | a read returns the next ten bits, or fails exactly if the words run out |
| `AncPayload.AccumulatorFits` | tools/mxl-data-probe/main.cpp:153-162 | at most 25 accumulated bits stay below 2^25 |
| `AncPayload.ReadUserWords` | tools/mxl-data-probe/main.cpp:227-233 | the user data loop and the checksum read return the low bytes of the words, or fail exactly if they do not fit the payload |
| `AncPayload.ParseElement` | tools/mxl-data-probe/main.cpp:210-234 | a packet is parsed from the next odd word offset on, with the fields at their bit positions |
| `AncPayload.ParseElements` | tools/mxl-data-probe/main.cpp:208-235 | the element loop collects exactly the packets found one after another, or the first failure |
| `AncPayload.FrameHeader` | tools/mxl-data-probe/main.cpp:187-206 | the refusals by the first bytes: too small below six bytes, length too large exactly if the length field exceeds what follows; otherwise length, count and number of packets as those bytes say |
| `AncPayload.ElementNeeds` | tools/mxl-data-probe/main.cpp:208-234 | a packet cut short anywhere is out of bounds, and with more bits it is the same packet |
| `AncPayload.ParseAncFrame` | tools/mxl-data-probe/main.cpp:187-238 | the parser computes the bit-level reading of the payload, with the three errors exactly where it says |
| `AncBits.WordAt` | tools/mxl-data-probe/main.cpp:119-119 | two bytes joined by the reader are sixteen consecutive bits of the payload |
| `AncBits.ShiftIsDivision` | tools/mxl-data-probe/main.cpp:159-161 | shifting and masking are division and remainder by powers of two |
| `AncBits.ShrValue` | tools/mxl-data-probe/main.cpp:159-159 | shifting right drops the last bits |
| `AncBits.LowValue` | tools/mxl-data-probe/main.cpp:159-161 | masking keeps the last bits |
| `AncBits.ShlValue` | tools/mxl-data-probe/main.cpp:155-155 | shifting left and joining appends bits |
| `AncBits.ToFromBytes` | tools/mxl-data-probe/main.cpp:103-138 | bytes made from bits have these bits |
| `Captions.OneCaptionPerPip` | rust/gst-avsynctest-rs/src/captions.rs:55-68 | over contiguous frames no longer than the interval the captions shown are TICK, TOCK, TICK, ..., one for every pip |
| `Captions.FrameCaption` | rust/gst-avsynctest-rs/src/captions.rs:55-68 | a frame shows the caption of the pip it contains, and nothing if it contains none |
| `Captions.CeilingIsQuotient` | rust/gst-avsynctest-rs/src/captions.rs:61-61 | the smallest k with k * P >= pts is the rounded-up quotient |
| `Captions.MultipleIsProduct` | rust/gst-avsynctest-rs/src/captions.rs:62-62 | the time of pip k is the product k * P |
| `Captions.ShowsItsPipsIff` | rust/gst-avsynctest-rs/src/captions.rs:55-68 | a frame of any length shows every pip in it exactly if there is at most one, or none if the frame starts at zero |

## Left out

- EventRuns.NoLostWakeup: the counter of the model does not wrap, only its comparison does; what wrapping does to a sleeping reader is `EventRuns.WrapLosesWakeup`.
- EventFlow.EventFlowReader.GetEvent: one pass over the mapping with the deadline reached and no concurrent store; the retry loop is `Waiting.BlockingEventRead`, with the result of a pass as part of the environment, and interference is a matter of `EventProtocol`.
- EventFlow.EventFlowWriter.Recover: the time written next to the head is a parameter; what the watcher does is not modelled; waking sleepers is a count of calls here and a step of `EventProtocol`.
- EventRing.EventRingBuffer.Publish: stores are sequential here; their interleaving with readers is modelled in `EventProtocol`.
- ContinuousFlow.ContinuousFlowWriter.OpenSamples: within one ring length of 2^64 the ring invariant is not promised after a successful open; what the offset formula does there is `ContinuousRing.StartNearTheLimit`.
- ContinuousFlow.ContinuousFlowWriter.Commit: the first commit of a writer that joined a flow in use clears no gap, so its streams are only said to be what the rings then show.
- ContinuousFlow.ContinuousFlowReader.GetSamples: the non-blocking read; the retry loop around it is `Waiting.BlockingRead`, with the result of an attempt as part of the environment. That a blocking read takes a finite number of rounds is assumed there, and exactly when it does not is `Waiting.AfterTheDeadline`.
- DiscreteFlow.DiscreteFlowReader.GetGrain: the non-blocking read, as one step: a reader that is overtaken between its loads is not modelled; for the retry loop see `Waiting.BlockingRead`.
- DiscreteTail.ReadsCommitted: with a partial head the next open is for this grain or a later one within the boundary; opens of earlier ones, and gaps left by a writer that has completed no grain, are covered by the runs of `DiscreteRing` and by `DiscreteGaps.JoiningGap`.
- SampleWaits.AsleepBehind: the counter does not wrap, and heads do not move back.
- SyncGroup.FlowSynchronizationGroup.WaitForDataAt: heads, results of waits and times come from a function of the reader; the list is a sequence whose nodes are named by their readers, which are distinct.
- IndexConversion.RoundTrip: rates with a positive numerator and denominator; negative operands are only modelled (truncating division), not characterised.
- VideoProbe.VerifyPayload: reading from the flow, latency and rate statistics are not modelled; a grain arrives with the result of its header checks; an empty reference, which the tool refuses, is excluded.
- AncPayload.ParseAncFrame: exceptions are error results; the class of the accumulator is a natural number bounded by 2^25 instead of a 32-bit word.
- Weak memory ordering: steps interleave sequentially; the release and acquire pairs of the code are taken to give that.
- Payload bytes of grains, and the sample word size of continuous flows (sizes count samples).
- Files, mappings, locks, inode checks, access files, the domain watcher, JSON and path handling: operating system and library calls; whether a flow is still valid is an arbitrary answer.
- Clocks, sleeping and the futex calls: the wait is a step enabled when the counter differs or the deadline passes.
- Fragment continuity of events, which the code leaves to producers.
- The C interface, instances and factories, GStreamer elements, Rust bindings, fabrics, caption encoding, parity helpers and floating-point statistics: plumbing or easy members.
