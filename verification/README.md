# laminaFS, modelled and verified in Dafny

laminaFS is a virtual overlay filesystem: paths are normalised, matched against a list of mounts
newest first, and handed to devices by one processing thread that takes work items from a ring
buffer. This project models that logic in Dafny 4.11 and proves what it is meant to guarantee.
`dafny verify dfyconfig.toml` checks all of it.

| file | what it holds |
|---|---|
| `Paths.dfy` | what a path means: split, name stack, render; normal forms |
| `PathLaws.dfy` | laws of the normal form that determine it |
| `PathNormalizer.dfy` | `normalizePath` as an in-place array method, proved to compute that meaning |
| `MountMatching.dfy` | the character test for mounts, proved to be a test on path components |
| `MountTable.dfy` | interfaces and mounts as values; registering, mounting, releasing as events |
| `Overlay.dfy` | the mount searches, newest-first lookup, permissions and dispatch |
| `WorkItems.dfy`, `FileContext.dfy` | the mount half of `FileContext` as a class: its fields, its searches, the switch of the processing loop |
| `DeviceStores.dfy` | devices with a state, and a map of files as the simplest of them |
| `ReadAfterWrite.dfy` | reading back through the overlay what was written through it |
| `PoolAllocator.dfy`, `RingBuffer.dfy`, `Semaphore.dfy` | the three utilities as classes, down to the bitmap words and the circular positions |
| `Protocol.dfy` | the work queue as a transition system: submitters, processing thread, clients, stop and restart |
| `ProtocolInvariants.dfy`, `ProtocolPreservation.dfy`, `ProtocolSafety.dfy` | its inductive invariant, group by group, for every reachable state |
| `ProtocolTheorems.dfy` | what follows: ownership, order, callbacks, wakeups, shutdown |
| `ProtocolAnswers.dfy` | both halves together: which answer a completed item carries |
| `ProtocolRuns.dfy`, `ProtocolRace.dfy`, `ProtocolLimits.dfy` | where the guarantees end, with runs that show it: the callback field, the counter, the ring, the stop |
| `ProtocolRelease.dfy` | what a release of a mount waits for |
| `ProtocolProgress.dfy` | a measure that every internal step lowers: left alone, the queue drains |
| `WorkQueue.dfy` | the queue half of `FileContext` as a class over the three utilities; every locked block is proved to be a step of `Protocol.dfy` |

How the parts meet: `NormalizePath` is proved against `Paths.Normalized`, an independent
definition by splitting, popping and joining. That definition obeys laws which speak of paths only
(`PathLaws.NormalizedIsLawful`: an empty field or "." goes, ".." takes a name along, normal forms
stay), and no other function does (`PathLaws.LawsDetermine`). Matching works on such normal forms and is proved
to compare components, so `Overlay.ResolvesByComponents` speaks of resolution from the raw path on.
The methods of `FileContext` are proved against functions of the mount list, and the lemmas about
those functions carry the meaning: a newest-first lookup, one winner for all reading operations,
and, over devices that keep a map of files, which bytes each read gets and what each kind of write
leaves. The methods of `WorkQueue` are proved to take steps of the transition system, and
a run is any sequence of labelled steps, so a theorem about reachable states holds for every
interleaving of locked blocks and of reads and writes outside a lock, every number of submitters and
clients, and every sequence of stops and restarts. Submitters are told apart even where a lost race
gives two of them one slot; clients are told apart by their slots. `ProtocolAnswers` runs both halves at once: the context as a whole is
a sequential file system, in which the k-th push is answered as if the pushes before it had been
processed one after the other, and a client reads exactly that answer off its item.

Some results say that something does not hold, and exactly when it does:

- The processing thread publishes a completion under a lock and then reads the callback field without
  it. In between a client may release the item and its slot may go to another submission. If all
  submissions of a context have a callback, or none has, everything below holds in every run; if
  both kinds occur, some run breaks it. That is shown for ownership of slots, order, callbacks and
  slot returns (`ProtocolRace.BooksKeptExactly`), for what clients rely on
  (`ProtocolRace.ClientsServedExactly`: a completed item means that earlier ones are done, each
  request gets one callback, whoever sleeps on a completed item is woken), for the answers
  (`ProtocolAnswers.SequentialExactly`), and for the ring: with both kinds no ring is large enough
  (`ProtocolLimits.RingFullExactly`). The theorems that need it ask for `Sound`: one kind of
  submission, or at least a run so far in which the race was not lost.
- The semaphore counts in 32 bits. As long as its counter does not wrap no wakeup is lost, in runs
  of any length; within `n` increments a wakeup can get lost if and only if `n` reaches 2^32
  (`ProtocolLimits.LostWakeupExactly`, with a reachable state that shows it).
- Segment writes are missing from the permission test. They go where an ordinary write goes exactly
  when the newest matching mount grants writing (`Overlay.SegmentWriteDispatch`); otherwise they may
  meet an interface without a write function (`Overlay.SegmentWriteWithoutFunction`).
- `writeFile` queues a segment write and makes it a truncating one afterwards. The processing thread
  may see that late, or between choosing the mount and the mode; `ReadAfterWrite.WriteFileOvertaken`
  says for all outcomes when they are the same.
- Mount points are stored as given. One that is not in normal form never matches a normalised path
  (`MountMatching.ReachableMountPoints`); the empty mount point acts as the root
  (`MountMatching.MatchesIsComponentPrefix`).

Where code and documentation disagree the model follows the code: `src/FileContext.h:155` says that
releasing a mount finishes all work items, while the code lets the thread complete the current item
at most and leaves the rest queued (`ProtocolTheorems.StopIsPrompt`). Everything pushed before is
done exactly if the ring was empty when the stop was requested, or held one item that the thread was
about to pop (`ProtocolRelease.ReleaseFinishesExactly`). What makes the release safe all the same is
`ProtocolTheorems.MountEditIsExclusive`.

## Model

| member | source | states |
|---|---|---|
| PathNormalizer.NormalizePath | src/FileContext.cpp:347-404 | for every C string whose length fits the 32-bit cursors, absolute or relative, the in-place two-cursor loop leaves the normal form of the input; it terminates, no cursor overflows, every lookahead stays within the NUL-terminated buffer, and nothing behind the NUL changes; a longer path whose cut-off length is 0 is left as it is |
| PathNormalizer.Rewrite | src/FileContext.cpp:347-391 | the outer loop leaves in front of the write cursor exactly what the rewriting rules produce from the whole input, followed by NUL; the bytes from the old end on are untouched |
| PathNormalizer.CollapseAt | src/FileContext.cpp:354-381 | the inner do-while stops where none of the rules for "//", "/.." and "/." applies, without changing what the cursors will still produce |
| PathNormalizer.RunNormalizes | src/FileContext.cpp:347-404 | the character rules compute the split / pop / join meaning of the path, for every nonempty string |
| PathNormalizer.NormalizedShrinks | src/FileContext.cpp:422-425 | the normal form is never longer than the input and has no NUL, so a buffer of the input's size suffices |
| PathNormalizer.NormalizedCopy | src/FileContext.cpp:419-427 | a work item's filename is the normal form of the caller's path in a fresh buffer of that path's size, or a plain copy where the length is cut off to 0 |
| Paths.NormalizedAbsolute | tests/tests_cpp.cpp:24-50 | for a path starting with '/', the normal form is "/" and the join of its components, none of them empty, "." or ".." |
| Paths.NormalizedIdempotent | src/FileContext.cpp:347-404 | normalising twice is normalising once, also for relative paths that a ".." turns absolute |
| Paths.NormalizedFixedPoint | src/FileContext.cpp:347-404 | the strings normalisation leaves alone are exactly those without empty, "." or ".." fields behind the first, and "" and "/" |
| Paths.NormalizedCanonical | src/FileContext.cpp:347-404 | two absolute paths get one normal form if and only if they descend through the same names |
| PathLaws.NormalizedIsLawful | src/FileContext.cpp:354-381 | wherever they stand, in absolute and relative paths: an empty field or "." goes without a trace, ".." goes together with the proper name in front of it, ".." behind the first field leaves the root, and normal forms stay as they are |
| PathLaws.LawsDetermine | src/FileContext.cpp:347-404 | any function on paths that obeys these laws is normalisation |
| MountMatching.MatchesIsComponentPrefix | src/FileContext.cpp:305-306 | for a normalised absolute path and every mount point the strstr-and-boundary test succeeds if and only if the mount point is the root, spelled "/" or "", or an absolute normal form whose components are a proper prefix of the path's |
| MountMatching.MatchesIsFieldPrefix | src/FileContext.cpp:305-306 | on any two strings the test compares fields: the mount point's are a proper prefix of the path's; only behind a single character the boundary is not looked at |
| MountMatching.DevicePathIsRemainder | src/FileContext.cpp:307 | for every matching mount point, prefix and device path make up the path; the device path is absolute, in normal form, and holds exactly the components below the mount |
| MountMatching.ReachableMountPoints | src/FileContext.cpp:248-251 | some normalised path matches a mount point if and only if the mount point is itself a normal form |
| MountMatching.SpellingDoesNotMatter | src/FileContext.cpp:419-427 | corollary of NormalizedCanonical: two spellings of one location match the same mount points and reach the device under the same path |
| MountTable.ReplayConsistent | src/FileContext.cpp:203-289 | over every history of registrations, mounts and releases, stored permissions are a nonempty subset of what the interface implements and mounts stay distinct |
| MountTable.ReleaseUndoesCreate | src/FileContext.cpp:269-289 | creating a mount, doing anything else and releasing it leaves the table, and so all later resolution, as if the mount had never existed |
| Overlay.ResolvesByComponents | README.asciidoc:9-11 | for every mount list, a path resolves to the newest readable mount whose point is the root or a proper ancestor of its location |
| Overlay.MatchesBelow | src/FileContext.cpp:305-307 | a mount matches a normalised path exactly if the raw path lies below its point, and its device is asked for the names below that point |
| Overlay.FindNextBelow | src/FileContext.cpp:291-314 | a search restarted at a mount looks at exactly the older mounts, also if newer ones were appended since |
| Overlay.CursorGone | src/FileContext.cpp:291-314 | a search restarted at an address that no readable mount has any more finds nothing |
| Overlay.CandidateExactly | src/FileContext.cpp:331-334 | a mount takes part in a search exactly if it matches, the permission was asked for when it was created, and the interface has the function; segment writes are not checked |
| Overlay.LookupIsWinner | src/FileContext.cpp:663-705 | the newest-first lookup gives the answer of the newest readable match that does not say not-found, or not-found if there is none |
| Overlay.LookupFails | src/FileContext.cpp:677-705 | if every match says not-found, the byte count left is that of the oldest match, and with no match nothing changes |
| Overlay.OperationsAgree | src/FileContext.cpp:663-705 | for devices whose answers agree on what exists, EXISTS, SIZE and READ of a path are answered by the same mount |
| Overlay.DispatchAlwaysSound | src/FileContext.cpp:316-345 | over every history, write, append, delete, create-dir and delete-dir go to the newest matching mount that grants them, and the device function is there |
| Overlay.SegmentWriteDispatch | src/FileContext.cpp:331-334 | a segment write goes to the newest matching mount whatever it permits; that is the mount of an ordinary write if and only if it grants writing |
| Overlay.SegmentWriteWithoutFunction | src/FileContext.cpp:331-334 | a reachable table where a segment write is sent to an interface without a write function |
| FileContexts.FileContext.RegisterDeviceInterface | src/FileContext.cpp:203-218 | an interface is appended exactly if its create, destroy, exists, size and read functions are set, and the result is its index, else -1 |
| FileContexts.FileContext.CreateMount | src/FileContext.cpp:220-267 | appends a mount with the given point, device and interface, and with exactly the permissions asked for (all, if none is named) that the interface has functions for; says when it fails and with which error code |
| FileContexts.FileContext.ReleaseMount | src/FileContext.cpp:273-288 | takes out the mount with that address if there is one, keeps the order of the rest, destroys its device, and reports whether it was there |
| FileContexts.FileContext.FindNextMountAndPath | src/FileContext.cpp:291-314 | the loop with its restart cursor returns the newest readable match below the cursor and its device path |
| FileContexts.FileContext.FindMutableMountAndPath | src/FileContext.cpp:316-345 | the loop returns the newest match that is not denied and its device path |
| FileContexts.FileContext.ProcessExists | src/FileContext.cpp:663-676 | the item is found exactly if some readable matching mount has the file, even if mounts are appended between searches |
| FileContexts.FileContext.ProcessSize | src/FileContext.cpp:677-690 | code and size are those of the newest-first lookup in the list at the first search |
| FileContexts.FileContext.ProcessRead | src/FileContext.cpp:691-705 | code, byte count and buffer are those of the newest-first lookup in the list at the first search |
| FileContexts.FileContext.ProcessMutation | src/FileContext.cpp:706-767 | without a granting mount the item is unsupported, and a write has no bytes; otherwise the function of that operation is called on the device of the newest granting match, with the path below it and the item's own fields and the write mode of the operation, and its answer is stored |
| FileContexts.FileContext.ProcessItem | src/FileContext.cpp:662-768 | for each of the nine operations, what the switch leaves in the work item and the device call it makes are functions of the request, the mounts and the devices' answers |
| ReadAfterWrite.ReadBack | src/FileContext.cpp:691-705 | a mount is the one that answers a read of any offset and length if and only if it is readable and every newer readable match says not-found; and then the item gets just its answer |
| ReadAfterWrite.ReadsThePart | src/FileContext.cpp:691-705 | over a map of files, a read item gets the bytes of the file from its offset on, at most as many as it asks for, with their count, and a terminator if it wants one |
| ReadAfterWrite.TellsOfTheFile | src/FileContext.cpp:663-690 | over a map of files, EXISTS and SIZE tell of that same file |
| ReadAfterWrite.NothingThere | src/FileContext.cpp:663-705 | where no readable match has the file all three end with not-found, without bytes |
| ReadAfterWrite.WritesTheFile | src/FileContext.cpp:706-735 | over a map of files a write item changes one file: a truncating write leaves the data, an append the old content and the data, a segment write the data at its offset, the old bytes around it and zeros in a gap |
| ReadAfterWrite.DeletesTheFile | src/FileContext.cpp:736-767 | over a map of files a delete item takes out the file at the newest granting match, and nothing else |
| ReadAfterWrite.OtherPathsUnchanged | src/FileContext.cpp:663-735 | with distinct devices, a change of one device file changes no answer for any other path |
| ReadAfterWrite.WriteThenRead | src/FileContext.cpp:691-735 | processing a write item over devices backed by a file map and then, perhaps with other mounts, a read of any offset and length: it gets its part of what that kind of write made of the file while the mount is visible, and other paths are answered as before |
| ReadAfterWrite.WriteFileOvertaken | src/FileContext.cpp:496-504 | the three outcomes of a `writeFile` item whose operation is overwritten before, during or after its processing: same device and path if and only if the newest matching mount grants writing or none matches; then same files in the second case, and in the third if and only if the old content was not longer than the new; and what is written where if not |
| PoolAllocators.PoolAllocator.constructor | src/util/PoolAllocator.h:29-49 | all slots are free at first and no bit behind the capacity is set, for every capacity |
| PoolAllocators.PoolAllocator.Alloc | src/util/PoolAllocator.h:58-83 | takes the lowest free slot, and none only if no slot is free |
| PoolAllocators.PoolAllocator.FreeSlot | src/util/PoolAllocator.h:85-96 | makes exactly that slot free; a pointer outside the pool is ignored |
| PoolAllocators.BitsAfterClear | src/util/PoolAllocator.h:72 | clearing one bit of a 32-bit word changes that bit only |
| PoolAllocators.LowestBit | src/util/PoolAllocator.h:64-69 | finds the lowest set bit of every nonzero word |
| RingBuffers.ItemsCount | src/util/RingBuffer.h:90-103 | read position, write position and full flag are a unique code of the number of items |
| RingBuffers.RingBuffer.TryPush | src/util/RingBuffer.h:46-60 | appends to the queue unless it is full, and asks for a notification exactly if it was empty |
| RingBuffers.RingBuffer.Pop | src/util/RingBuffer.h:69-82 | removes the oldest item, or reports that there is none |
| RingBuffers.RingBuffer.GetCount | src/util/RingBuffer.h:90-103 | the number of queued items, with and without wraparound |
| Semaphores.Semaphore.Increment | src/util/Semaphore.h:18-23 | counts up modulo 2^32 |
| Semaphores.Semaphore.TryDecrement | src/util/Semaphore.h:26-33 | takes a token exactly if there is one |
| ProtocolSafety.ReachableInv | src/FileContext.cpp:658-791 | in every reachable state the pool bounds, the stop protocol and the signal counts agree; without a wrap of the counter wakeups are pending; and unless the race about the callback field was lost, ownership, order, callbacks and sleepers are in order |
| ProtocolTheorems.SlotsConserved | src/FileContext.cpp:406-458 | every slot is in exactly one of free, being filled, queued, with the processing thread, awaiting release, and the counts add up to the pool, in every run with one kind of submission and in any other as long as the race about the callback field is not lost |
| ProtocolTheorems.ProcessedInOrder | src/FileContext.cpp:658-791 | completed, in-progress and queued items make up the pushes in order, none twice; a completed item has all earlier ones completed |
| ProtocolTheorems.CompletedMeansDone | tests/tests_cpp.cpp:188-193 | a client that sees its item completed may rely on every item pushed before it |
| ProtocolTheorems.CallbacksExact | src/FileContext.cpp:770-785 | callbacks are made in push order, for exactly the completed callback items but the one now due, never twice and never for a refused request |
| ProtocolTheorems.OneCallbackEach | src/FileContext.cpp:436-458 | once the queue has settled every callback request has had exactly one callback: at once for lack of a work item, or after processing |
| ProtocolTheorems.SlotReturnedOnce | src/FileContext.cpp:406-417 | a slot goes back at most once per submission and never before completion, for callback items right after the callback |
| ProtocolTheorems.NoLostWakeup | src/util/RingBuffer.h:46-62 | if the processing thread is parked while work is queued, a token is there or on its way, across any stop and restart, in every run in which the counter never wraps |
| ProtocolTheorems.QueuedWorkMoves | src/FileContext.cpp:787-789 | as long as work is queued and the thread has not ended, some thread can move by itself, unless the counter wrapped |
| ProtocolTheorems.NoLostCompletion | src/FileContext.cpp:131-138 | a client asleep on a completed item is about to be woken for that very item; one asleep on an open item waits for a queued or current one |
| ProtocolTheorems.StopNeverStuck | src/FileContext.cpp:195-201 | a requested stop can always proceed, and once signalled the thread never faces an empty semaphore, unless the counter wrapped |
| ProtocolTheorems.StopIsPrompt | src/FileContext.cpp:658-661 | while it is joined, the thread makes at most six moves and completes at most one more item, whatever all others do |
| ProtocolTheorems.RestartKeepsWork | src/FileContext.cpp:188-201 | corollary of the five steps: stopping and restarting touches neither the ring nor any slot or log of items |
| ProtocolTheorems.MountEditIsExclusive | src/FileContext.cpp:269-289 | while mounts are destroyed and removed no item is being processed |
| ProtocolTheorems.PushNeverBlocks | src/util/RingBuffer.h:43-44 | in a sound run a ring at least as large as the pool is never found full by a submitter |
| ProtocolProgress.EffortFalls | src/FileContext.cpp:658-791 | every step of the processing thread, and every step that finishes what a submission or a stop has begun, lowers one measure, so no schedule loops among them |
| ProtocolProgress.QuietMeansDone | src/FileContext.cpp:787-789 | where none of these steps can be taken and no stop is under way, no submission is half made, the ring is empty and the processing thread asleep; every pushed item is completed and no client sleeps |
| ProtocolProgress.LeftAloneDrains | src/FileContext.cpp:658-791 | under any schedule only boundedly many of these steps follow one another, and where they come to rest every submission made is refused or done, in push order, every waiting client woken, and every callback asked for made exactly once |
| ProtocolProgress.RequestedStopEnds | src/FileContext.cpp:195-201 | from a requested stop on, only boundedly many of these steps follow one another, and where they come to rest the processing thread has ended and can be joined |
| ProtocolAnswers.AnswersAreSequential | tests/tests_cpp.cpp:182-193 | in every run, with mounts coming and going, the answer to the k-th push is that of its request on the devices as the pushes before it, processed in push order, left them |
| ProtocolAnswers.ClientSeesItsAnswer | src/FileContext.cpp:770-785 | a completed item shows its client, or its callback, the answer to that very push until it is given back, although slots are reused |
| ProtocolAnswers.PipelinedWriteRead | src/FileContext.cpp:691-735 | a read of any offset and length processed right after a write to the same path (in a sound run: pushed right after it) gets its part of what the write makes of the file, without waiting in between, as long as the mount written to is still visible to the read |
| ProtocolAnswers.SequentialExactly | tests/tests_cpp.cpp:182-193 | requests are answered in push order, and clients see the answers to their own, in every run if and only if the submissions are of one kind |
| ProtocolRace.BooksKeptExactly | src/FileContext.cpp:770-785 | slot ownership, push order, callbacks and slot returns are kept in every run if and only if the submissions are of one kind, all with a callback or all without |
| ProtocolRace.ClientsServedExactly | src/FileContext.cpp:770-785 | the same for the promises to clients: a completed item means that all earlier ones are done, each request has one callback once things settle, and whoever sleeps on a completed item is woken |
| ProtocolRace.LoseRace | src/FileContext.cpp:770-785 | from any state at rest, with both kinds of submission, the race can be lost: a callback is made and a slot returned for a submission not processed, which leaves one more entry in the ring than slots in use |
| ProtocolLimits.LostOnlyByWrap | src/util/Semaphore.h:18-33 | a lost wakeup means that the counter wrapped, after at least 2^32 increments and as many pushes and stops |
| ProtocolLimits.LostWakeupExactly | src/util/Semaphore.h:18-33 | a wakeup can get lost within n increments of the semaphore if and only if n reaches 2^32 |
| ProtocolLimits.RingFullExactly | src/FileContext.cpp:142-148 | a submitter can find the ring full if and only if the ring is smaller than the pool, or there are slots and both kinds of submission, and then whatever the size of the ring |
| ProtocolLimits.JoinedWithWorkQueued | src/FileContext.cpp:269-289 | the thread can be joined with items still in the ring, whatever the comment on releasing a mount says |
| ProtocolRelease.ReleaseFinishesExactly | src/FileContext.cpp:188-201 | everything pushed before a stop is requested is done in every run up to the join if and only if the ring is empty at the request, or holds one item that the thread is about to pop |
| WorkQueues.WorkQueue.TakeSlot | src/FileContext.cpp:436-455 | the locked block of alloc is a submission step of the protocol; without a slot a requested callback is told "out of work items" at once |
| WorkQueues.WorkQueue.ConstructItem | src/util/PoolAllocator.h:78-80 | the constructor, run outside the lock, is a step that clears the callback field |
| WorkQueues.WorkQueue.InitWorkItem | src/FileContext.cpp:419-434 | filling in the item is a step of its own; with it the submission is ready to be pushed |
| WorkQueues.WorkQueue.TryPush | src/util/RingBuffer.h:46-60 | a pass through the locked block is a push step, or changes nothing when the step is not enabled; it notifies exactly if that step leaves a signal to give |
| WorkQueues.WorkQueue.PopItem | src/FileContext.cpp:660 | popping is the processing thread's step: to work on the oldest item or to the semaphore |
| WorkQueues.WorkQueue.PublishItem | src/FileContext.cpp:770-773 | publishing a completion is the processing thread's step, and sets that one flag |
| WorkQueues.WorkQueue.ReadCallback | src/FileContext.cpp:775-784 | reading the callback field is a step of its own; it finds the callback of the completed submission in every sound run |
| WorkQueues.WorkQueue.IsCompleted | src/FileContext.cpp:122-138 | in a sound run a client is told "completed" exactly if its submission has been processed |
| WorkQueues.WorkQueue.ReturnItem | src/FileContext.cpp:782 | returning the slot after the callback is the processing thread's step |
| WorkQueues.WorkQueue.TakeToken | src/FileContext.cpp:788 | a look at the semaphore is the processing thread's step: a token, or sleep |
| WorkQueues.WorkQueue.ReleaseWorkItem | src/FileContext.cpp:406-417 | a client's release is a release step of the protocol |
| WorkQueues.WorkQueue.RequestStop | src/FileContext.cpp:195-198 | clearing the flag is the first step of a stop |

## Left out

- PathNormalizer.NormalizePath: the source cuts the string length off to 32 bits. Lengths of 2^32 and more are covered only where that leaves 0 (the path stays as it is); for the others the cursors can wrap and the loop need not end.
- PathNormalizer.NormalizedCopy: the same limit on the string length.
- ProtocolTheorems.SlotsConserved: asks for `Sound`, as do `PushNeverBlocks`, `ProcessedInOrder`, `CompletedMeansDone`, `CallbacksExact`, `OneCallbackEach`, `SlotReturnedOnce`, `NoLostCompletion`, and `AnswersAreSequential` and `ClientSeesItsAnswer` in `ProtocolAnswers`. `ProtocolRace.BooksKeptExactly`, `ProtocolRace.ClientsServedExactly`, `ProtocolLimits.RingFullExactly` and `ProtocolAnswers.SequentialExactly` show for each of them that contexts with both kinds of submission fail it and no others do. What the source does after the race is lost is followed as far as slots, submitters and logs go: a file name freed twice is not modelled, and of two clients that share a slot one is followed.
- ProtocolRelease.ReleaseFinishesExactly: for contexts with one kind of submission, and a counter not about to wrap.
- ProtocolTheorems.NoLostWakeup: holds as long as the counter does not wrap, like the other results on progress and stopping; `ProtocolLimits.LostOnlyByWrap` and `ProtocolLimits.LostWakeupExactly` show that this is exact.
- ReadAfterWrite.ReadBack: takes a contract of the device as premise; `src/device/Directory.cpp` and its system calls are not part of this model, and its POSIX read leaves a zero-byte file "not found".
- ReadAfterWrite.WriteThenRead: the file map has no directories; `ProtocolAnswers.AnswersAreSequential` holds for devices with any state.
- FileContexts.FileContext.ProcessItem: the devices' answers do not change while one item is processed; other threads may append mounts between two searches but each search is one atomic step, although one of the two takes no lock.
- `writeFile` overwrites the operation of an item it has already pushed; in `ProtocolAnswers` a submission's request is fixed. `ReadAfterWrite.WriteFileOvertaken` says what the difference comes to.
- The protocol assumes that clients release an item without callback once, after its completion and not while they sleep on it, and that calls of `releaseMount` do not overlap.
- A callback that submits work is a submitter whose steps fall inside the callback; one that blocks there on a full ring is not modelled.
- Fairness: that an enabled step is eventually taken is not assumed; `ProtocolProgress.LeftAloneDrains` bounds every schedule instead. The spin on a full ring shows up only as a push that is not enabled.
- Condition variables are sleeping and waking steps, with spurious wakeups; weak memory order and races inside a locked block are not modelled.
- Raw memory: allocator functions, alignment, buffer freeing, placement new. Addresses are numbers the allocator does not reuse while they are in use.
- `WorkItemGetResult`, `WorkItemGetBuffer` and the other accessors, logging, the C wrappers, and the destructor, which is a stop without restart.
