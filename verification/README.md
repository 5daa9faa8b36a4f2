# A verified model of sigfs

sigfs is a file system of signal files. Publishers write signals into a file, every subscriber that
has the file open reads all of them, and a circular queue behind each file lets slow subscribers
fall behind at the price of a counted loss. This project models the three parts whose correctness
is not visible from any single function, and proves what they guarantee.

**The queue** (`Words`, `Ring`, `Dequeue`, `Queue`, `Streams`, `Wakeup`). `Ring` is the circular
queue as a value: slots, next id, head and tail. `Dequeue` is the critical section of a dequeue,
with an arbitrary callback that answers from everything it was told so far. `Queue` holds the
objects that are updated in place; their methods are proved equal to the values. `Streams` runs any
number of publishers and subscribers in any interleaving of critical sections and relates what each
subscriber processed to the log of everything published. `Wakeup` splits waiting and notifying into
separate steps, because publishers notify after they have released the mutex.

**The bytes around the queue** (`Wire`, `Reading`, `Writing`, `EndToEnd`, `Steps`,
`Scenarios`). Frames are
parsed out of a written buffer, records are batched into the reply of a read, and a reader decodes
them again. `EndToEnd` composes all of it with the ring: writers whose frames interleave, readers
whose reply is copied out after the mutex was released, from pointers into blocks that publishing
overwrites or frees. `Steps` says what each step does and that writers and readers get on;
`Scenarios` gives runs that end badly.

**The inode tree** (`Access`, `Inodes`, `Config`, `FileSys`). Access rights cascade down the tree
until they are reset; an inode stores what it inherited the first time it is asked. `Access` compares
that with a recursive definition over all histories of queries, `Inodes` is the walk on objects,
`Config` is building the tree, its numbering and writing the configuration back, and `FileSys` does
that step by step.

## What was found

Where the code and its documentation disagree the model follows the code. These are theorems below.

- A ring of N slots retains N-1 signals (`queue.cc:130-132`), not N-2 as `queue.hh:176` says.
- A subscriber that lags by a positive multiple of N sees nothing to read until one more signal is
  published (`Ring.ReadyIsAvailable`, `Ring.StallEndsAtNextPublish`). It can end up parked with N
  unread signals and no publisher left to wake it (`Wakeup.StallIsReachable`).
- Slots store ids in 32 bits. From id 2^32 on `signal_available_` announces signals that the blocking
  wait never sees (`Ring.TruncatedIdIsNeverReady`, `Ring.WaitMissesSignals`). The theorems about runs
  are for at most 2^32 - 1 signals.
- The repository's `README.md:137` promises that data loss is tracked. A loss reaches the reader
  exactly when the first retained signal fits the read; otherwise the cursor has already moved past
  the lost signals and no later read reports them (`Reading.LossReachesReader`).
  `Scenarios.LossIsDropped` is a run in which a reader decodes ids from 3 on and no loss.
- The room left in a read is never decreased, so only single records are compared with it. A reply
  stays within the request exactly when, of the records waiting, those that fit together are twenty,
  or all, or stop at one that does not fit alone (`Reading.ReplyWithinRequest`). It can have up to
  twenty times the requested size (`Reading.ReplyBound`), and that is reached for every request from
  the 16 bytes of an empty record up to the largest record (`Reading.ExcessIsReachable`).
- A reply is copied out after the mutex was released, through raw pointers into the slots' blocks. If
  `m` signals are published before that, the reply is certain to carry the published payloads exactly
  when each of its signals is empty or at most a ring's worth was published from it on
  (`Reading.AlwaysFaithfulExactly`). A pointer to an overwritten signal still leads into the slot's
  block exactly when every payload put there since was at least twelve bytes shorter than the block
  (`Ring.PointerLiveExactly`); with payloads of one size it always leads into freed memory
  (`Ring.OneSizeDangles`). Where it is live, the record has the old id and the later payloads laid
  over the old one (`Reading.OvertakenReply`); a reader can decode a payload that nobody ever
  published (`Scenarios.TornReplyIsReachable`).
- Inherited rights are stored once per inode and not once per caller. Only the ids that an inode was
  first asked about ever inherit there (`Access.FirstIdIsStored`, `Access.SecondCallerIsDenied`). With
  other callers around, a caller gets what the configuration defines exactly when it inherits nothing
  (`Access.OthersAreNoticed`).
- An entry with both "reset" and "cascade" passes on rights it should have stopped, once it was asked
  about itself (`Access.ResetCascadeLeaks`). `Access.MemoisationExactly` gives the exact condition on
  the configuration for the rights stored for one id, `Access.OneCallerIsTransparent` for the answers
  to one caller, which joins two ids.
- The repository's `README.md:330-335` says that "reset" deletes inherited rights at the directory
  that has it. The walk never looks at the inode's own flag (`Access.OwnResetIsIgnored`,
  `Access.DocumentedExactly`, `Access.ResetDirectoryInherits`).
- Of several directory entries with one name the first is found; the others are numbered and
  registered, but unreachable by name (`Config.FoundExactly`, `Config.SecondIsHidden`).

## Model

| member | source | states |
|---|---|---|
| Words.PowerOfTwoTest | queue.cc:32 | `n & (n-1)` is zero for the powers of two and for no other positive number |
| Words.AndMask | queue.hh:166-170 | masking an id of any size with N-1 is its remainder by N, for every power of two |
| Words.WrapIsRemainder | queue.hh:166-170 | going around the ring, taking N off for as long as possible, ends at the remainder by N; `Words.Wrap` is how the other modules write it |
| Queue.SizeAcceptedExactly | queue.cc:27-35 | the constructor accepts exactly the powers of two from 4 on |
| Ring.IndexNext | queue.hh:182-185 | stepping a masked index and masking again is the index of the next id |
| Ring.Slot.Set | queue.hh:251-265 | whatever the slot held, it then holds the new payload inside its block under the id cut to 32 bits; the block is kept exactly when the payload and a record header fit its allocation count, which never claims more than the block has |
| Queue.Signal.Set | queue.hh:251-265 | the same overwrite on a heap block: in place exactly when the payload and a record header fit the allocation count, on a fresh block otherwise |
| Ring.InitialRefines | queue.cc:19-26 | a new queue of any accepted size is the window over the empty log |
| Ring.PublishWellFormed | queue.cc:117-136 | a publish keeps the ring invariant: head is the slot of the next id and has id 0, tail the slot of the oldest retained id, each of the last N-1 ids is in its own slot, unused slots are empty |
| Ring.PublishRefines | queue.cc:117-136 | a publish appends to the log of which the ring is a window: the slot of each of the last N ids holds what was published under it |
| Ring.PublishAllRefines | queue.cc:117-136 | a series of publishes appends its payloads to the log of which the ring is a window |
| Ring.PointerLiveExactly | queue.hh:251-260 | after any publishes, a payload pointer taken from a slot is into the slot's present block if and only if every payload put into that slot since fitted the block |
| Ring.RetainedPointerIsLive | queue.cc:121 | as long as at most N signals were published from a signal on, the pointer to it is live |
| Ring.OneSizeDangles | queue.hh:251-260 | from a new queue on, with payloads of one size, the pointer to a signal is live exactly until the signal is overwritten |
| Ring.StoredIds | queue.cc:130-135 | the non-zero ids in the slots are exactly the retained ones, each at its own index |
| Ring.AvailableExactly | queue.cc:162-187 | `signal_available_` holds exactly when the lag is not a multiple of N |
| Ring.ReadyExactly | queue_impl.hh:63 | the wait predicate, for ids of any size: available, and the latest id that shares the cursor's slot, cut to 32 bits, is not below the cursor |
| Ring.ReadyIsAvailable | queue_impl.hh:63-66 | with no id truncated, the wait predicate and `signal_available_` agree |
| Ring.TruncatedIdIsNeverReady | queue.hh:240-269 | a retained signal is always announced as available, but the wait sees it exactly when its id fits in 32 bits |
| Ring.WaitMissesSignals | queue_impl.hh:63 | in every new queue that gets more than 2^32 - 1 signals, whatever they are, each retained signal with an id from 2^32 on is announced and not seen by the wait |
| Ring.StallEndsAtNextPublish | queue_impl.hh:63-66 | a cursor that sees nothing is ready after one more publish |
| Dequeue.CatchUpExactly | queue_impl.hh:114-126 | tail catch-up loses exactly max(0, lag - (N-1)) signals, reports that number, and stops at a retained signal |
| Dequeue.DeliveryIsLogged | queue_impl.hh:144-149 | the callback gets the payload published under the id it is told, and the number of later signals, both exact despite the 32-bit fields |
| Dequeue.LoopStops | queue_impl.hh:128-166 | for any callback the loop makes consecutive calls, at most as many as there are signals, and stops at the first answer other than "call again" or after the newest signal |
| Dequeue.RunDelivers | queue_impl.hh:93-167 | an uninterrupted dequeue delivers consecutive log entries from the first retained one on; the cursor moves past exactly the processed ones, so an unprocessed one is delivered again |
| Dequeue.ReportedIdIsStored | queue_impl.hh:144-149 | every call that an uninterrupted dequeue makes, for any callback, passes a pointer into the slot that stores the reported id, whose block holds exactly the passed bytes |
| Dequeue.RunInterrupted | queue_impl.hh:102-105 | a dequeue is cut short exactly when interrupted: one call with a null payload, cursor untouched, the flag left set exactly if that call does not clear it; no other call passes a null payload, not even for empty signals |
| Queue.Subscriber.constructor | subscriber.hh:47-58 | a new subscriber is placed after everything published so far, not interrupted |
| Queue.SignalQueue.constructor | queue.cc:19-37 | an accepted size gives an empty queue of that size |
| Queue.SignalQueue.Index | queue.hh:166-170 | the masked index in every state of the queue is the position around the ring |
| Queue.SignalQueue.QueueSignal | queue.cc:117-136 | the critical section in place: the new state is the published ring, and the log grew by the payload |
| Queue.SignalQueue.SignalAvailable | queue.cc:162-187 | true exactly when the lag is not a multiple of the queue length |
| Queue.SignalQueue.InterruptDequeue | queue.cc:189-204 | sets the flag and nothing else of the subscriber |
| Queue.SignalQueue.DequeueSignal | queue_impl.hh:93-167 | subscriber, calls and result are those of the run that `Dequeue.RunDelivers` and `Dequeue.RunInterrupted` characterise |
| Queue.SignalQueue.CallbackLoop | queue_impl.hh:128-166 | the loop on the subscriber's own cursor terminates and makes the calls of `Dequeue.LoopStops` |
| Streams.StepKeepsInv | queue_impl.hh:93-167 | every publish, open, dequeue and interrupt keeps the ring a window over the log and every subscriber's account complete |
| Streams.EverySubscriberStream | queue_impl.hh:93-167 | over every interleaving and all callbacks: what the subscriber's callbacks processed in the run is a strictly increasing part of the log from the opening on, each id with its own payload, gaps only at the start of a dequeue and of exactly the reported size, and processed plus lost equals the distance travelled |
| Streams.OpensAfterPublished | queue.cc:206-210 | wherever a run opens a subscriber and however it goes on, that subscriber starts right after what was published before, and processes nothing from before |
| Streams.AnyoneMayGoOn | queue_impl.hh:98 | below the bound on ids anyone may publish, open or interrupt at any time, and a subscriber whose lag is not a multiple of N may dequeue |
| Streams.KeepingUpLosesNothing | queue_impl.hh:114-126 | a subscriber whose dequeues start at most N-1 behind gets every signal, in order |
| Streams.RunLogs | queue.cc:117-136 | the log at the end of a run is what its publish steps published, in order, and the ring kept its size |
| Streams.InterruptCutsShort | queue.cc:189-204 | after an interrupt the next dequeue need not wait and processes nothing; everything but the flag is as before, and the flag stays set exactly if the callback does not clear it |
| Streams.InterruptsAreNeutral | queue.cc:189-204 | deleting all interrupts and interrupted dequeues from a run leaves a legal run with the same ring, log, cursors and reports |
| Wakeup.StepKeepsInv | queue.cc:117-147 | publishing, notifying, checking, parking, spurious wake-ups and interrupts keep the wake-up invariant |
| Wakeup.CheckExactly | queue_impl.hh:93-105 | a reader that checks ends its read at the same cursor if interrupted, delivers as `Dequeue.RunDelivers` says if there is something to read, and otherwise parks where it is; nothing else changes |
| Wakeup.NotifyWakesAll | queue.cc:147 | a notification leaves nobody parked and moves nobody |
| Wakeup.InterruptGetsThrough | queue.cc:198-203 | after an interrupt nobody is parked, and the interrupted reader may check at once and then ends its read at the same cursor, for every callback |
| Wakeup.PendingIsCounted | queue.cc:145-147 | the pending notifications are the publishes of the run less its notifications |
| Wakeup.OpensAtTheEnd | queue.cc:206-210 | a reader may open at any time, and is placed after everything the run has published |
| Wakeup.NoLostWakeup | queue.cc:145-147 | in every reachable state a parked reader is not interrupted, and if it has something to read some publisher has yet to notify |
| Wakeup.ParkedAtRest | queue_impl.hh:98 | with all publishers done, a parked reader lags by a multiple of N |
| Wakeup.StallIsReachable | queue_impl.hh:63-66 | for every accepted size some run ends with a parked reader, all publishers done, and N unread signals |
| Wire.DecodeEncode | sigfs_common.h:20-23 | a number that fits a little-endian field is read back from it |
| Wire.EncodeDecode | sigfs_common.h:20-23 | the bytes of a field are those of the number read from it, which fits |
| Wire.ParseExactly | sigfs.cc:641-682 | parsing is the one split of a buffer into whole frames and a rest that starts with none |
| Wire.WholeBufferAccepted | sigfs.cc:640-692 | nothing is left over exactly for concatenations of frames |
| Wire.RecordsRoundTrip | sigfs_common.h:30-51 | decoding gives a list of records exactly for the encoding of that list |
| Wire.DecodeRecords | example/sigfs_subscribe.cc:162-192 | the reader's loop returns the records whose encoding the buffer is; none stands for a loop that would step past the bytes received, which happens exactly for all other buffers |
| Reading.ReplyBuffer.Receive | sigfs.cc:537-602 | one callback: interrupted, too large, last or wanting more; the arrays stay in bounds with two pieces for each signal |
| Reading.BatchLaw | sigfs.cc:529-602 | an uninterrupted read takes consecutive signals up to the twentieth, the newest or the first that alone exceeds the request; header, payload pointer and 32-bit total are those of exactly these, and the next one stays at the cursor |
| Reading.DoRead | sigfs.cc:510-617 | the read on objects: an interrupted one clears the flag, keeps the cursor and batches nothing, any other obeys the batch law |
| Reading.ReplyIsReread | sigfs.cc:624 | a reply copied out at any later time is the encoding of whole records with the ids, losses and sizes of the batch, and the bytes then found behind its pointers |
| Reading.ReplyIsFaithful | sigfs.cc:624 | after any further publishes the reply is the encoding of exactly the batched records if at most N signals were published from its first one on; when that is needed is said by the next two |
| Reading.AlwaysFaithfulExactly | sigfs.cc:587-590 | after m further publishes, whatever they and freed memory are, the reply is the encoding of the batched records, if and only if each of its signals is empty or at most N signals were published from that one on |
| Reading.ReplyFaithfulExactly | sigfs.cc:587-590 | for given further publishes the same holds, whatever freed memory is, if and only if each payload is empty, or all later ones put into its slot reused the block and, laid over it, leave it as it was |
| Reading.OvertakenExactly | queue.cc:121 | the slot of a signal still belongs to it exactly while at most N signals were published from it on; after that it holds the payload of a known later one |
| Reading.OvertakenReply | queue.hh:251-265 | after any further publishes each record of the reply has the old id and size; its bytes are the later payloads of that slot laid over the old one in turn if all of them reused the block, and otherwise whatever freed memory holds |
| Reading.TotalIsLength | sigfs.cc:593 | the 32-bit total is the number of bytes in the reply, if and only if that is below 2^32, and so for every request below a twentieth of that |
| Reading.LossReachesReader | queue_impl.hh:124-125 | a loss is in the reply, in each of its records, exactly when the first retained signal fits; afterwards the cursor is past it in any case |
| Reading.ReplyBound | sigfs.cc:558 | a reply has at most twenty times the requested bytes |
| Reading.ReplyWithinRequest | sigfs.cc:558 | for every state and request: the reply is no longer than requested, if and only if the records that fit the request together, counted in the log from the first retained signal, are at least twenty, reach the newest, or are followed by one that does not fit alone |
| Reading.ReplyExceedsRequest | sigfs.cc:534 | whenever twenty signals are waiting after catch-up whose records are each exactly as long as the request, the reply is twenty times as long |
| Reading.ExcessIsReachable | sigfs.cc:531 | for every request of the size of some record, twenty publishes into a new queue of 32 lead to such a reply |
| Writing.DoWrite | sigfs.cc:640-692 | terminates, queues the payloads of the longest prefix of whole frames in order also when the tail is malformed, and succeeds exactly when the buffer is a concatenation of frames |
| EndToEnd.StepKeepsInv | sigfs.cc:510-692 | beginning a write, queueing a frame, opening, taking signals, copying a reply out and interrupting keep the invariant between writers, ring and readers |
| EndToEnd.IntactReaderDecodes | example/sigfs_subscribe.cc:160-194 | a reader whose replies were copied out in time, however far it lags, decodes from all bytes of all its reads strictly increasing ids with the payloads published under them; decoded and lost signals account for all; no read lost something without taking something, if and only if each gap in the ids is the loss field of the record after it and no ids are missing at the end |
| EndToEnd.PunctualReaderDecodes | example/sigfs_subscribe.cc:160-194 | if besides no read started more than N-1 behind, it decodes every signal since its opening once, in order, without loss |
| EndToEnd.WrittenIsSubmitted | sigfs.cc:631-682 | the frames that the state holds a writer to are those of the buffers that the run submitted for it, in order |
| EndToEnd.OpensAfterPublished | queue.cc:206-210 | wherever a run opens a reader and however it goes on, that reader starts right after the frames published before, and while its replies are copied out in time decodes none from before |
| EndToEnd.EveryRun | sigfs.cc:641-682 | in every run all readers decode as stated, and however writers interleave, for every writer what it has published followed by what is left in its buffer is what the run submitted for it |
| EndToEnd.EverythingArrives | test/sigfs_test_fuse.cc:264-281 | in every run whose writers are all done, a reader as in `EndToEnd.PunctualReaderDecodes` that was there from the start and has read to the end decodes an interleaving of exactly the frames submitted for each writer, in its order |
| Steps.BeginEffect | sigfs.cc:631-641 | an idle writer, whichever it is, may begin with any buffer and has all of it before it; nobody else is affected |
| Steps.WriteFrameEffect | sigfs.cc:641-682 | each step of a writer with something left is possible, publishes the first frame left under its name, if there is one, and brings it one step closer to its end |
| Steps.WriterFinishes | sigfs.cc:640-692 | in every run a writer gets through its buffer in one step for each frame and one for a malformed rest, and then all that was submitted for it is published |
| Steps.TakeEffect | sigfs.cc:529-602 | any reader with a lag that is not hidden may read, moves to where the batch law puts it, and holds a batch of exactly these records; nothing else changes |
| Steps.CopyEffect | sigfs.cc:624 | copying out appends to what the reader received; exactly if at most N signals were published from its first one on, that counts as in time, and then it appends the records of the signals the read took |
| Steps.InterruptCutsShort | sigfs.cc:549-555 | after an interrupt the next read need not wait, takes nothing, and clears the flag |
| Scenarios.TornReplyIsReachable | sigfs.cc:587-590 | for every accepted queue size a run in which a reader decodes one well-formed record whose payload nobody published |
| Scenarios.LossIsDropped | queue_impl.hh:124-125 | for every accepted queue size a run in which a reader open from the start decodes records from id 3 on that report no loss |
| Access.WalkAdds | fs_inode.cc:105-157 | the upward walk adds exactly what the recursive definition passes on, and changes no flag |
| Access.RightsStayBounded | fs_inode.cc:75-224 | after any queries by anyone, every entry keeps its flags, includes its configured rights, and exceeds them at most by what cascades down to it without meeting a "reset" that does not cascade itself |
| Access.TopDownFills | fs_inode.cc:105-157 | that bound is reached: after one caller asked about the path from the root down, every inode on it stores all of it |
| Access.FirstIdIsStored | fs_inode.cc:79-97 | in every configuration and after any history, the entry for an id that an inode was not first asked about is the configured one, and for the id it was first asked about has at least the rights of the recursive definition |
| Access.AnswersAreFinal | fs_inode.cc:79-80 | nothing stored at a non-root inode changes after its first query |
| Access.MemoisationExactly | fs_inode.cc:112-156 | the rights stored for an id where an inode was first asked about it are the recursive definition in every history, if and only if no inode can come to inherit more than the definition entitles it to |
| Access.WithoutResetCascade | fs_inode.cc:144-146 | a configuration in which no entry for the id has both flags meets that condition |
| Access.StoredExactly | fs_inode.cc:112-156 | the same for one inode and for any rights between its own and the definition's that one may expect to be stored |
| Access.AnswerExactly | fs_inode.cc:248-273 | in every configuration, for all histories and callers: an answer is the inode's own rights, and only for the ids first asked about also inherited ones, between the recursive definition's and all that can come down |
| Access.OneCallerIsTransparent | fs_inode.cc:248-273 | all answers to one user and group, while only they ask, in any order, are the recursive definition, if and only if nowhere the two ids together can come to inherit more than the definition grants the caller |
| Access.OthersAreNoticed | fs_inode.cc:79-80 | the same with any other callers in between, if and only if nowhere anything can be inherited beyond the inode's own rights |
| Access.SecondCallerIsDenied | fs_inode.cc:79-80 | a configuration and two queries where the second caller is denied what the definition grants |
| Access.ResetCascadeLeaks | fs_inode.cc:126-146 | a configuration and two queries where one caller is granted what the definition stops at a "reset" |
| Access.OwnResetIsIgnored | fs_inode.cc:105-157 | in every configuration and history, a directory with "reset" that inherits beyond its own rights stores other than documented rights for the id it was first asked about |
| Access.OnlyOwnResetDiffers | fs_inode.cc:105-157 | where resets are harmless: in every history the documented rights are stored for that id if and only if the inode is a file, or has no "reset", or inherits nothing beyond its own rights |
| Access.DocumentedExactly | fs_inode.cc:105-157 | in every configuration: an inode stores the documented rights in every history, if and only if it can come to inherit nothing beyond them |
| Access.ResetDirectoryInherits | fs_inode.cc:105-157 | a directory whose "reset" should leave the caller nothing, and which grants it what the root cascades |
| Inodes.INode.constructor | fs_inode.cc:16-28 | a new inode has its configured maps, no parent pointer and nothing cached |
| Inodes.InodeTable.ParentEntry | fs_inode.cc:61-72 | the lazily stored pointer is the inode registered under the parent's number |
| Inodes.InodeTable.Inherit | fs_inode.cc:159-214 | one upward loop over parent pointers terminates, writes only the inode's own entry, and leaves the result of the walk there |
| Inodes.InodeTable.PullCascadedAccessRights | fs_inode.cc:75-224 | both loops, the inserted entries and the flag together are the pull that `Access` reasons about; no other inode's rights change |
| Inodes.InodeTable.GetAccess | fs_inode.cc:248-273 | the answer is the union of the user's and the group's stored rights after the pull |
| Config.TokensSetFlags | fs_access.cc:24-43 | the flags of an entry are exactly the tokens that occur, unknown ones ignored |
| Config.TokensRoundTrip | fs_access.cc:46-63 | reading the tokens of an entry gives the entry |
| Config.FirstGrantWins | fs_access.cc:108-113 | of several grants for one id the first counts |
| Config.GrantsReflected | fs_access.cc:108-113 | a map built from grants has exactly the ids they name, each with the flags that the tokens of the first grant for it name |
| Config.GrantsRoundTrip | fs_access.cc:141-154 | reading the grants of a map back adds exactly that map |
| Config.BuildNumbers | fs_filesys.cc:30-40 | building registers exactly the numbers of one gap-free range, its own before its children's, each with a smaller parent from there |
| Config.NumbersAreDistinct | fs_filesys.cc:37-40 | no number occurs twice in a built tree, and all come from that range |
| Config.BuildIsPlaced | fs_dir.cc:25-39 | the table holds every inode of the tree under its number, with its maps and the number of the directory it is in |
| Config.BuiltTreeIsWellFormed | fs_filesys.cc:15-20 | the root is 1, exactly the assigned numbers resolve, every other inode has a smaller registered parent, so upward walks end |
| Config.BuildRealises | fs_dir.cc:16-40 | every built inode is what its configuration says: name, kind, queue length or the default, both access maps, and recursively under each configured name the first entry of that name, and nothing else |
| Config.LookupInserted | fs_dir.cc:31 | inserting into a directory changes what is found under one name, and only if there was nothing |
| Config.FirstNameWins | fs_dir.cc:64-76 | looking a name up in a built directory finds the first entry configured under it, if any |
| Config.FoundExactly | fs_dir.cc:31 | the inode built for a directory entry is the one found under its name, if and only if no entry before it has that name |
| Config.SecondIsHidden | fs_dir.cc:35-37 | a directory of two files with one name: the second is numbered and registered, the directory has only the first |
| Config.BuildIsCanonical | fs_dir.cc:25-39 | all directories of a built tree are strictly sorted by name |
| Config.RoundTrip | fs_dir.cc:44-62 | building from the written configuration of any canonical tree gives the same names, shape and maps, wherever it is put |
| Config.ConfigurationRoundTrip | fs_filesys.cc:22-28 | the same for every built file system; from the first rewriting on, writing and building is a fixed point including inode numbers |
| Config.BuiltTreeIsWritten | fs_inode.cc:30-39 | what is written for a built file system describes it entry by entry: name, kind, own number, the number written around it as parent, and each id once in ascending order with the tokens of its flags; the root is 1 in 1, and no number is written twice or was never assigned |
| FileSys.ReadAccess | fs_access.cc:24-43 | the loop over tokens sets the flags that `Config.TokensSetFlags` describes |
| FileSys.ReadGrants | fs_access.cc:108-113 | the loop of inserts computes the map of `Config.FirstGrantWins` |
| FileSys.WriteGrants | fs_access.cc:141-154 | the list in order of ids, from which the map can be read back |
| FileSys.WriteConfig | fs_inode.cc:30-39 | the written configuration is the one of `Config.RoundTrip`, and describes the tree entry by entry as in `Config.BuiltTreeIsWritten` |
| FileSys.Builder.GetNextInode | fs_filesys.cc:37-40 | hands out the next number and moves on |
| FileSys.Builder.RegisterInode | fs_filesys.cc:30-35 | adds to the table without replacing |
| FileSys.Builder.NewEntry | fs_dir.cc:16-40 | the constructed inode is what its configuration says, as in `Config.BuildRealises`; tree, counter and table are those that the numbering results are about |
| FileSys.Builder.BuildFileSystem | fs_filesys.cc:15-20 | fails exactly for a root without entries; otherwise the table is well-formed and resolves exactly the assigned numbers |
| FileSys.Builder.LookupInode | fs_filesys.cc:42-52 | after building, exactly the numbers from 1 to the last one assigned are found, and every inode but the root leads to a smaller number that is found again, so upward steps never fail |

## Left out

- FUSE requests and replies, open flags, mode bits, `stat` and `readdir` buffers, `main` and options: foreign plumbing around the logic modelled here.
- `do_poll` and poll handles: only the `signal_available_` decision is modelled; checking and subscribing is not one atomic step in the source and depends on libfuse.
- The set of read notifiers, `active_subscribers_`, the commented-out priority lock, logging and `Queue::dump`: no part in what subscribers read.
- The JSON parser: the model starts from configuration values. A missing name or an ill-typed element raises an exception there and has no counterpart.
- Termination of the program on a bad queue size, a root without entries or an unknown inode number: a precondition, or a result without a value.
- The 64-bit wrap-around of `next_sig_id_`: ids are unbounded numbers. Runs are bounded by 2^32 signals, where the 32-bit slot ids would truncate.
- Blocking itself: a dequeue is enabled when its wait predicate holds. Parking, notifying and re-checking are steps of `Wakeup`; fairness and timing are not modelled.
- Callbacks with effects of their own: a callback answers as a function of all calls made to it, and may clear the interrupt flag. `Reading.Fill` replays what the read's callback does to its arrays.
- Queue.SignalQueue.QueueSignal: slots are values in the array, as the source's vector holds them by value, with a number that tells a slot's blocks apart; the overwrite of a block in place is `Queue.Signal.Set` on one slot, and that no two slots share a block is not modelled.
- Reading.OvertakenReply: what a pointer into freed memory yields is an arbitrary function of the pointer, chosen anew for each reply; that the read may instead fail or end the program is not modelled.
- Copying a reply out is one step. Publishes that run while it is being copied, and other effects of the C++ memory model below the mutex, are not modelled.
- Wire.DecodeRecords: the source's loop has no bounds check and never fails. Where the model returns none the source goes on reading bytes left in its buffer from before, or behind it.
- Access queries are taken one at a time: `pull_cascaded_access_rights` takes no lock, and queries that overlap on one inode are not modelled.
- Writing.DoWrite: the method is one writer alone; writers whose frames interleave are steps of `EndToEnd`.
- Concurrent reads on one open file: a reader has one reply in flight.
- FileSys.Builder.RegisterInode: the table maps numbers to node values; `Inodes` models the same nodes as objects with parent pointers.
- Queue lengths in a written configuration: the source drops them and so does the model, which is why the round trip is up to `queue_length`.
- Reading.ReplyBound: bounds single replies by twenty requests, because the source compares each record alone with the requested size; it does not enforce the smaller bound of one request.
- Atomicity of a whole write: the mutex is taken once per signal, so frames of several writers interleave; only each writer's own order is kept.
- Display helpers of the example subscriber, the other examples, scripts and speed tests.
