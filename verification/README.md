# IOT Drive: a verified model

A Dafny model of IOT Drive, a network block device that stripes and mirrors a 12 MB device
over three storage nodes ("minions"), and proofs about it. `dafny verify dfyconfig.toml`
checks everything.

## What is modelled

**The mirrored device as a distributed protocol** (`Raid`, `ResponseManager`, `Protocol`,
`ProtocolInvariant`, `ProtocolRuns`, `ProtocolLimits`, `ProtocolPolls`, `Processes`). The master, the three minions and the
datagrams between them form a state machine with one action per command, datagram or poll.
The network loses and reorders datagrams; it does not duplicate them. The classes of
`Processes` and `ResponseManager` are the running objects; each of their methods performs
exactly one action of the machine. The main results hold for every run from the start:

- Every byte a read ever delivered is the last value reported as written (or 0), unless a
  write reported as given up had covered it, and no request is answered twice
  (`ProtocolRuns.DeviceRefinesFlatArray`). Runs may have any number of requests outstanding
  as long as they do not conflict, so issuing one at a time is a special case
  (`ProtocolRuns.OneAtATimeHasNoConflicts`).
- An acknowledgement that is in flight or registered, and a write reported as successful,
  mean that the minions applied exactly that write (`ProtocolRuns.AcksAreSound`).
- The two copies of a byte agree unless a pending or abandoned write covers it, and any one
  minion can be rebuilt from the other two (`CopiesAgree`, `AnyMinionCanBeLost`).
- A write is reported as successful exactly when one poll, made while it was pending, found
  both acknowledgements. The stronger claim, that every doubly acknowledged write is reported
  as successful, is false of the code: a poll that finds one acknowledgement throws it away.
  `BothAnswersInVain` is a run in which both are registered and no continuation ever reports
  success; `SuccessIffBothSincePreviousPoll` says exactly when a poll succeeds: both were
  registered since the previous poll of that write.
- A read that was not answered yet can still be answered exactly if its request or its answer
  is on its way (`ReadCanBeAnsweredIff`); one lost datagram is enough for it never to be
  (`OneLossLosesTheRead`).
- Whatever is lost, N outstanding writes are decided within 99 N polls (`PollingEnds`).

**The scheduler, the polling tasks and the thread pool as step machines** (`Queue`,
`Scheduler`, `Ai`, `ThreadPool`): inductive invariants over every interleaving of critical
sections, timer expiries and queue operations. No wake-up is lost, tasks run least deadline
first, every polling task has exactly one occurrence until its function returns true. While
a Pause holds, no worker can take a step, whatever an earlier shrink had left in the queue.
That a returned Pause always is a barrier is false of the code: it is one exactly if the pool
had a thread to pause or no kill pill was left (`PauseIsBarrierIff`), and it stays one exactly
while m_pause_ready accounts for every thread that is to be left and every queued kill pill
(`BarrierStandsIff`); a pool of no threads and a pool grown while held show the failures by
runs from the start. A Pause can return, and the destructor can end, exactly if nobody is
paused or m_resume is set when they are called (`PauseCanReturnIff`, `DestructorEndsIff`).

**The wire formats** (`Bytes`, `Message`, `ErrorDetection`, `InputProxy`, `NbdWire`, `Buse`):
the six messages are written and read through a cursor into byte arrays, with round trips in
both directions, the framing of the TCP stream, the strength of the XOR checksum, and the NBD
server loop over a socket that transfers as little or as much per call as it likes.

**Double-checked locking** (`Singleton`): any number of calls on any number of threads, one
step per read, write or lock operation, constructors that may throw.

Where the code and what is said about it differ, the model follows the code:

- The repository's README calls the server fault-tolerant. The copies do survive the loss of
  a minion, but a read is sent to the primary copy only (src/command.cpp:29) and is never sent
  again, so it is answered only if its request and its answer get through.
- src/buse.cpp:145 says that an unimplemented read returns zeros; the chunk comes from malloc
  and is sent as it is. The model leaves its content undetermined, so the bytes are surely
  zero exactly if none were asked for (`Buse.UnsuppliedReadSendsZerosIff`).
- src/buse.cpp stores the value an operation returns in the reply without converting it to
  network byte order, and sends the data of a read even when it failed. The NBD protocol
  ("Simple reply message") asks for the opposite on both points. `NbdWire` states exactly
  when the difference shows. The operations of src/raz_nbd.cpp always return 0, so it does
  not show in this system.

## Model

| member | source | states |
|---|---|---|
| Raid.CopiesLeadBack | src/raid01.cpp:19-24 | For any number of minions and any stripe size, both copies of a logical byte exist and lead back to it: each map is injective, and primary and backup never share a byte. |
| Raid.EveryPhysicalByteOnce | src/raid01.cpp:19-24 | Every physical byte is the primary or the backup copy of exactly one logical byte, never both. |
| Raid.CopiesOnDifferentMinions | src/raid01.cpp:24 | The two copies live on different minions if and only if there are at least two minions. |
| Raid.ContiguousIffInsideStripe | src/raid01.cpp:16-25 | Sending a whole request to where its first byte lives puts every byte in place if and only if the request stays inside one stripe. |
| Raid.RequestHits | src/raid01.cpp:16-25 | With the deployed layout, the two ranges of a request hold exactly the copies of the bytes it covers, in order, and lie in the lower and the upper half of the stores. |
| ResponseManager.KeysRepeatEvery32Bits | src/message.cpp:402-405 | Two UIDs share a counter value if and only if a multiple of 2^32 constructions lies between them. |
| ResponseManager.UidCounter.Construct | src/message.cpp:402-405 | The signed 32-bit atomic, read back unsigned, hands out the n-th counter value to the n-th construction, across its wrap-around. |
| ResponseManager.ResponseManager.RegisterCommand | src/response_manger.cpp:5-12 | A fresh UID is entered as being processed. |
| ResponseManager.ResponseManager.RegisterResponse | src/response_manger.cpp:13-17 | The UID is marked as done, overwriting whatever was there. |
| ResponseManager.ResponseManager.HasResponseReceived | src/response_manger.cpp:18-26 | True exactly for a done UID, which it erases; asking for any other UID leaves it in the table as being processed. |
| ResponseManager.WritePoller.Run | src/command.cpp:184-217 | One poll of a write: the new table, the new shared counters and the verdict, including which of the two failures is reported. Success leaves the counters alone, another round adds one for each missing side, and only a give-up sets both to 0. |
| ResponseManager.PollDecides | src/command.cpp:184-217 | A poll succeeds if and only if both responses are there, and gives up if and only if a side is missing whose counter stands at 49; the first side is reported first. |
| ResponseManager.PollCounts | src/command.cpp:190-214 | What a poll leaves in the counters, for each of its verdicts. |
| ResponseManager.PollLowersMeasure | src/command.cpp:184-217 | From counters in 0..49 a poll leaves them there and lowers 99 times the undecided writes less the counters. |
| Processes.Minion.GetBinFile | src/command.cpp:125-140 | The first command to touch the store finds 8 MB of zeros, later ones what was written since. |
| Processes.Minion.Write | src/command.cpp:107-112 | Exactly the addressed bytes of the store change. |
| Processes.Minion.Read | src/command.cpp:79-87 | Returns the addressed bytes and leaves the store unchanged. |
| Processes.Minion.Execute | src/command.cpp:73-123 | What a minion stores and answers is the protocol's step for that datagram. |
| Processes.Master.WriteCommand | src/command.cpp:41-70 | Two different UIDs, two datagrams to the addresses of the two copies, and a polling function for both: the protocol's step, which keeps the invariant. |
| Processes.Master.ReadCommand | src/command.cpp:14-39 | One UID and one datagram, to the primary copy: the protocol's step. |
| Processes.Master.OtherMessage | src/message.cpp:404-405 | A UID constructed for any other message belongs to no request. |
| Processes.Master.ReceiveResponse | src/inputproxy.cpp:170-214 | An acknowledgement is registered; the answer to a read is also passed on, as exactly one reply. |
| Processes.Master.PollOneWrite | src/command.cpp:184-217 | The polling function ends exactly when the write is decided, with exactly one reply: success if both responses are there, otherwise the failure of the side that was missed for the 50th time, the first side first; the log carries it. |
| Processes.Master.PollOneRead | src/command.cpp:167-177 | The polling function of a read answers exactly whether its response was there, consumes it and sends nothing. |
| ProtocolPolls.ReadPollingEndedIff | src/command.cpp:167-177 | Over every run: the polling of a read has ended if and only if its response was registered and is no longer in the table. |
| ProtocolPolls.ReadPollEndsItIff | src/command.cpp:167-177 | Over every run: a poll of a read ends its polling if and only if the response was registered before. |
| ProtocolInvariant.EveryActionKeeps | src/command.cpp:14-123 | Every command, execution, delivery, loss and poll keeps the invariant that ties keys, datagrams, executed requests, both copies of every byte, the replies and the last confirmed content together. |
| ProtocolInvariant.SuccessIsSound | src/command.cpp:188-195 | A poll that finds both responses finds both minions to have applied the write. |
| ProtocolRuns.EveryReachableStateOk | src/command.cpp:14-217 | The invariant holds in every state of every run. |
| ProtocolRuns.DeviceRefinesFlatArray | src/command.cpp:14-123 | Over every run: each byte of each answer to a read that no given-up write covered is the last value reported as written, or 0; no request is answered twice. |
| ProtocolRuns.AnswersAreCorrect | src/inputproxy.cpp:194-209 | At delivery, an answer goes to the one read it was asked for, has its length, and is right in every byte that is not uncertain. |
| ProtocolRuns.OneAtATimeHasNoConflicts | src/command.cpp:14-70 | With nothing outstanding any request may be issued: the runs considered include all that issue one request at a time. |
| ProtocolRuns.ConfirmationRestoresCertainty | src/command.cpp:190-195 | A confirmed write that was issued with no abandoned datagram in flight to its bytes makes them certain again, in both copies. |
| ProtocolRuns.AcksAreSound | src/response_manger.cpp:5-26 | Over every run: an acknowledgement in flight or registered, or a success, implies that the addressed minion executed exactly that write; a registered one is not in flight again. |
| ProtocolRuns.CopiesAgree | src/command.cpp:58-59 | Over every run: both copies of a byte hold the last confirmed value unless a pending write covers it or it is uncertain. |
| ProtocolRuns.AnyMinionCanBeLost | src/raid01.cpp:19-24 | With no write pending and no byte uncertain, any two minions determine the whole device and the third one's store. |
| ProtocolRuns.PollingEnds | src/command.cpp:184-217 | With no new writes, N outstanding ones take at most 99 N polls, whatever is acknowledged, lost or delivered; fewer while one is still outstanding. |
| ProtocolPolls.CountersCountMisses | src/command.cpp:186-214 | Over every run: each shared counter is the number of unsuccessful polls, of any writes, that did not find that side, since a write was last given up (or the start), and is below 50. |
| ProtocolRuns.SuccessStep | src/command.cpp:184-217 | A step turns a pending write into a successful one if and only if it polls that write and both responses are there; it then removes both keys and replies once. A poll that finds one consumes it. |
| ProtocolRuns.SuccessIffOnePollFoundBoth | src/response_manger.cpp:18-26 | Over every run: a write is confirmed if and only if one poll, while it was pending, found both responses; no two polls do. |
| ProtocolRuns.SpentStays | src/response_manger.cpp:18-26 | A consumed response is never found again. |
| ProtocolRuns.DoneStaysUntilPolled | src/response_manger.cpp:13-26 | Nothing but a poll of the write itself takes its responses out of the table. |
| ProtocolRuns.HalfAnswerIsLost | src/command.cpp:188-216 | After a poll that found exactly one response, the write is never reported as successful. |
| ProtocolRuns.BothAnswersBetweenPolls | src/command.cpp:188-195 | Two responses registered between consecutive polls of a write are both found by the second, which reports success once and removes both keys. |
| ProtocolLimits.SuccessIffBothSincePreviousPoll | src/command.cpp:184-217 | Over every run: a poll of a pending write reports success if and only if both responses were registered since the previous poll of that write, or since its issue if there was none. |
| ProtocolLimits.PreviousPoll | src/command.cpp:184-217 | Every poll has such a previous poll or issue. |
| ProtocolLimits.BothAnswersInVain | src/command.cpp:188-216 | A run from the start in which both minions apply a write and both responses are registered while it is pending, and no continuation ever reports success. |
| ProtocolLimits.ReadCanBeAnsweredIff | src/command.cpp:26-31 | In every state of every run: an unanswered read can still be answered if and only if its request or its answer is in flight, and then two steps can do it. |
| ProtocolLimits.LostReadStaysUnanswered | src/command.cpp:26-31 | Once neither is, every later state of the run has the read unanswered. |
| ProtocolLimits.OneLossLosesTheRead | src/command.cpp:29 | A run from the start that loses the one request datagram, after which the read cannot be answered. |
| Queue.TopExists | include/priority_queue.hpp:83-92 | A non-empty queue whose comparator follows a rank has a top, even if the comparator is not strict on ties. |
| Queue.WaitableQueue.Push | include/priority_queue.hpp:31-40 | Adds exactly the item. |
| Queue.WaitableQueue.IsEmpty | include/priority_queue.hpp:75-80 | Whether nothing is queued. |
| Queue.WaitableQueue.Pop | include/priority_queue.hpp:65-73 | Takes out an item no other is preferred to. |
| Queue.WaitableQueue.TryPop | include/priority_queue.hpp:41-64 | 0 with a top item, -1 when nothing came, -2 when the lock was not got; otherwise nothing changes. |
| Scheduler.DeadlineIsThatInstant | src/scheduler.cpp:81-85 | Seconds and nanoseconds of a deadline add up to exactly the milliseconds asked for. |
| Scheduler.EncodingOrdersLikeMilliseconds | include/scheduler.hpp:13-15 | Seconds and nanoseconds (below 10^9) compare exactly as the milliseconds they came from. |
| Scheduler.TopIsLeast | include/scheduler.hpp:38-48 | The top of the heap is a task that no queued task precedes, although the comparator answers true on ties. |
| Scheduler.EveryStepKeeps | src/scheduler.cpp:38-109 | AddTask's locked part, its later SetTime, an expiry and its handling each keep the invariant. |
| Scheduler.NothingLostAndLeastFirst | src/scheduler.cpp:38-109 | Over every interleaving: added = executed + current + queued as bags; the current task is missing only if nothing waits, is due no later than any other, and has somebody to attend to it; every handled expiry runs a least-deadline task. |
| Scheduler.NoLostWakeUp | src/scheduler.cpp:62-109 | When no thread has anything left to do, a waiting task has the timer armed for the least waiting deadline. |
| Scheduler.TimesAreThoseAskedFor | src/scheduler.cpp:62-108 | Over every run: the timer is only ever armed, and a task only waits, for a point in time that some AddTask asked for, to the nanosecond. |
| Scheduler.NothingHandledTwice | src/scheduler.cpp:38-109 | Over every run: expiries handled plus those left to handle are those that happened, and timers armed by AddTask plus those owed are the AddTasks. |
| Scheduler.ArmedBetweenExpiries | src/scheduler.cpp:62-73 | Over every run: the timer is one-shot, so it expires again only after it was armed again. |
| Scheduler.CurrentTaskGetsRun | src/scheduler.cpp:38-60 | From every reachable state with a current task, at most an owed SetTime, an expiry and its handling run it. |
| Scheduler.EveryWaitingTaskGetsRun | src/scheduler.cpp:38-109 | From every reachable state some continuation without new tasks runs every waiting task, each once, in the order of their deadlines, and leaves nothing waiting. |
| Scheduler.Scheduler.AddTask | src/scheduler.cpp:76-107 | The locked part of AddTask, on the real fields, is the machine's step: one more task waits, for the very point in time asked for. |
| Scheduler.Scheduler.ArmTimer | src/scheduler.cpp:62-73 | The timer is set for whatever is current by then, and disarmed if nothing ever was. |
| Scheduler.Scheduler.PromoteNext | src/scheduler.cpp:46-54 | Either a top of the heap becomes current and the timer is set for it, or there is no current task. |
| Scheduler.Scheduler.ThreadFunc | src/scheduler.cpp:38-60 | Hands out the current task and promotes a least queued one. |
| Ai.EveryStepKeeps | src/ai.cpp:10-29 | Creation, enqueueing, timer steps and returns keep every AI in exactly the place recorded for it. |
| Ai.ExactlyOneOccurrence | src/ai.cpp:10-29 | An AI that was not deleted is being added, waiting or executing, exactly once in all; a deleted one is nowhere. |
| Ai.NeverExecutedAgain | src/ai.cpp:18-29 | Over every run: after its function returned true, no timer thread ever takes the AI up again. |
| Ai.DeletedIff | src/ai.cpp:18-29 | Over every run: an AI is deleted if and only if its function has returned true once. |
| Ai.PerformIsReturn | src/ai.cpp:18-29 | What Perform does to the scheduler is what the machine does after the function's return: nothing and deletion, or one AddTask. |
| Ai.AI.constructor | src/ai.cpp:10-16 | A new AI is handed to the scheduler once. |
| Ai.AI.Perform | src/ai.cpp:18-29 | It is handed back once if its function returned false, and deleted otherwise. |
| ThreadPool.TopJob | include/threadpool.hpp:77-80 | A worker takes a pause pill only when no kill pill is queued, a user's task only when no pill is, and of users' tasks one of the highest priority. |
| ThreadPool.TasksAreConserved | src/threadpool.cpp:32-50 | Over every run: each submission of a task is started at most once, and is in the queue until then. |
| ThreadPool.EveryStepKeeps | src/threadpool.cpp:11-90 | Every step of every worker, submitter and of the controller keeps the accounting and the pause discipline. |
| ThreadPool.PauseReturns | src/threadpool.cpp:58-68 | When Pause returns, all live workers are inside PauseTask if and only if there was a thread to pause or no kill pill is queued; in the first case m_thread_num workers live and no pill is left. |
| ThreadPool.PauseIsBarrierIff | src/threadpool.cpp:58-68 | The same over every run, for every return of Pause. |
| ThreadPool.BarrierStandsIff | src/threadpool.cpp:51-90 | Over every run, while Pause has returned and Resume was not called, whatever the pool was resized to: every thread is blocked or ended if and only if m_pause_ready equals the queued kill pills plus the threads to be left; then no worker can step. |
| ThreadPool.PauseCanReturnIff | src/threadpool.cpp:58-68 | In every state of every run from the call of Pause on: some continuation lets it return if and only if it is past its first spin, or m_resume is set, or m_pause_ready is 0. |
| ThreadPool.SpinEnds | src/threadpool.cpp:63-67 | Once the pause pills are queued the workers take a bounded number of steps, whatever is submitted, and when they cannot take another Pause returns. |
| ThreadPool.SecondPauseNeverReturns | src/threadpool.cpp:60 | A run from the start into a Pause of a held pool, which no continuation lets return. |
| ThreadPool.PauseBarrier | src/threadpool.cpp:51-73 | Over every run: until Resume or growth, every thread stays blocked or ended and no worker can step. |
| ThreadPool.PauseOfNoThreadsIsNoBarrier | src/threadpool.cpp:58-68 | The condition on threads is needed: a run in which Pause has returned while a user's task runs. |
| ThreadPool.GrownPoolRuns | src/threadpool.cpp:77-82 | So is the one on growth: a run from the start in which Pause has returned, the pool was grown to two threads, nobody resumed it, and a user's task runs. |
| ThreadPool.GrowthBreaksTheBarrier | src/threadpool.cpp:79-82 | From any held pool with an empty queue that is about to add a thread, adding it, a submission and a Pop put a user's task on that thread. |
| ThreadPool.WorkersAccountedFor | src/threadpool.cpp:77-90 | Over every run: between operations live workers = queued kill pills + m_thread_num; each ended worker took one pill; after the destructor neither worker nor pill is left. |
| ThreadPool.PillsRunOut | src/threadpool.cpp:18-50 | If m_resume is set or no more workers are paused than are to be left, kill pills are consumed within a bounded number of worker steps, whatever is submitted; then exactly m_thread_num workers live, and the destructor's join ends. |
| ThreadPool.PillsStay | src/threadpool.cpp:18-57 | If m_resume is clear and more are paused, some kill pill stays queued for as long as the controller does nothing. |
| ThreadPool.PoolNotHeldSettles | src/threadpool.cpp:18-90 | Over every run: a pool that is not held meets that condition, so it settles, and its destructor ends, within a bounded number of worker steps. |
| ThreadPool.DestructorEndsWithLastPill | src/threadpool.cpp:18-30 | The join ends if and only if the last pill is gone. |
| ThreadPool.DestructorEndsIff | src/threadpool.cpp:18-30 | In every state of every run from the destructor's call on: some continuation ends it if and only if m_resume is set or m_pause_ready is 0. |
| ThreadPool.HeldPoolNeverGone | src/threadpool.cpp:18-30 | A run from the start into the destructor of a held pool of one thread, which no continuation ends. |
| ThreadPool.DestructorOfHeldPoolHangs | src/threadpool.cpp:18-30 | If a held pool had a thread to pause and was not grown, nothing but submissions can happen once its destructor joins; they change no worker, and a kill pill stays queued. |
| ThreadPool.ThreadPool.AddTask | src/threadpool.cpp:32-40 | A user's task is queued with its priority. |
| ThreadPool.ThreadPool.WorkerTurn | src/threadpool.cpp:42-50 | One turn of a worker's loop is the machine's step, and a timed-out Pop is none. |
| ThreadPool.ThreadPool.FinishTask | src/threadpool.cpp:45-49 | A worker whose task has ended is back in its loop. |
| ThreadPool.ThreadPool.PauseTaskEnter | src/threadpool.cpp:51-57 | A pausing worker is counted and waits, or passes straight through if the flag is already set. |
| ThreadPool.ThreadPool.PauseTaskLeave | src/threadpool.cpp:55-57 | A woken worker is no longer counted. |
| ThreadPool.ThreadPool.Resume | src/threadpool.cpp:69-73 | Sets the flag the paused workers wait for. |
| ThreadPool.ThreadPool.ClearResume | src/threadpool.cpp:61 | Clears it, once no worker is paused any more. |
| ThreadPool.ThreadPool.PauseTurn | src/threadpool.cpp:63-66 | One pause pill per thread. |
| ThreadPool.ThreadPool.ResizeTurn | src/threadpool.cpp:77-90 | One new thread or one kill pill per turn, and m_thread_num only at the end. |
| ThreadPool.ThreadPool.DestructorTurn | src/threadpool.cpp:20-24 | One kill pill per thread. |
| Message.SizesAgree | src/message.cpp:302-341 | What a sender passes to its socket and what the receiver computes from kind and size field are both the length of the encoding; for MinionReadMsg GetBufferSize leaves out the data. |
| Message.Layout | src/message.cpp:71-170 | Where every field of every kind lies in the bytes sent: key, size, the four parts of the UID, offset or success byte, data, and the checksum over all before it. |
| Bytes.FourBytesInOrder | src/message.cpp:74-77 | Integers are laid out least significant byte first. |
| Message.CalculateChecksum | src/message.cpp:390-398 | The loop computes the XOR of the bytes. |
| Message.ToBuffer | src/message.cpp:71-170 | Exactly the bytes of the encoding are overwritten, and the returned cursor is GetBufferSize further on (for MinionReadMsg the start of the data). |
| Message.FromBuffer | src/message.cpp:181-292 | The message read through the cursor, or a checksum mismatch, and a cursor at the end of the frame. |
| Message.RoundTrip | src/message.cpp:71-292 | For all six kinds FromBuffer after ToBuffer gives back every field, whatever follows in the buffer. |
| Message.DecodingIsExact | src/message.cpp:181-292 | Conversely an accepted frame is the encoding of what it was decoded to: for an answer if and only if its success byte is 0 or 1, for the other kinds always. |
| Bytes.XorFoldConcat | src/message.cpp:390-398 | The checksum of a concatenation is the XOR of the checksums. |
| ErrorDetection.AcceptedIffErrorFoldsToZero | src/message.cpp:193-230 | A frame with an error pattern XORed into it is accepted if and only if the pattern's bytes XOR to zero. |
| ErrorDetection.BurstIsRejected | src/message.cpp:193-230 | Any nonzero burst within 8 consecutive bits, in either bit order, across a byte boundary or in the checksum byte, in a frame of any length, is rejected, as long as the size field of a WriteMsg is intact. |
| InputProxy.NBDProxy.GetArgsKey | src/inputproxy.cpp:58-96 | Peeking and receiving give the request that the first frame spells, field by field, and consume exactly that frame. |
| InputProxy.StreamRoundTrip | src/inputproxy.cpp:58-96 | Any sequence of NBD messages sent back to back is cut into exactly those requests and exactly their bytes. |
| InputProxy.EveryRequestIsWhatWasSent | src/inputproxy.cpp:58-96 | The k-th request cut from any such stream is a write, or a read, of exactly the offset, size and data of the k-th message. |
| InputProxy.DatagramRoundTrip | src/inputproxy.cpp:129-325 | A datagram whose numbers fit the fields of its message survives the wire: its receiver computes the length sent, picks the right kind, accepts it and acts on the same request or answer with the same UID. |
| InputProxy.WhateverIsInFlightArrives | src/inputproxy.cpp:129-325 | In every state with the protocol's invariant, hence in every reachable one, every datagram in flight fits and so survives. |
| InputProxy.DatagramLayout | src/inputproxy.cpp:129-325 | The bytes each datagram travels as: its key, its UID, its address, size and data, and success = true in an answer. |
| NbdWire.NtohllReverses | src/buse.cpp:52-59 | Swapping the halves and byte-swapping each reverses all eight bytes. |
| NbdWire.NtohllIsItsOwnInverse | src/buse.cpp:52-60 | htonll may be ntohll. |
| NbdWire.RequestRoundTrip | src/buse.cpp:128-137 | The header fields decoded are those the client encoded. |
| NbdWire.RequestIsExact | src/buse.cpp:128-137 | A header that decodes is the encoding of the request it decodes to. |
| NbdWire.HeaderBytes | src/buse.cpp:128-137 | The bytes of a header: 25 60 95 13, the command, the handle, offset and length, most significant byte first. |
| NbdWire.ReplyBytes | src/buse.cpp:125-153 | The bytes of a reply: 67 44 66 98, the error, the request's handle, then the data. |
| NbdWire.WalkFindsWhatWasSent | src/buse.cpp:128-198 | A stream of whole requests is walked into exactly those requests, up to its end or a disconnect. |
| NbdWire.WalkIsExact | src/buse.cpp:128-198 | Conversely the requests found in any stream account for every byte up to where they stop. |
| NbdWire.EveryRequestAnsweredOnce | src/buse.cpp:143-194 | The replies are understood by a client that reads one per request: same handle, in order, and exactly len bytes after a read, with nothing left over. |
| NbdWire.StandardClientStaysInStepIff | src/buse.cpp:147-154 | A client that follows the NBD protocol understands them if and only if no failed read asked for any bytes. |
| NbdWire.OneFailedReadLosesStep | src/buse.cpp:147-154 | One read of one byte from a server without a read operation makes such a client fail. |
| NbdWire.OperationErrorsArriveReversed | src/buse.cpp:147-193 | A value an operation returns reaches the client as meant if and only if its four bytes read the same from both ends, so of the one-byte values only 0 does; the server's own EPERM, for a read or a write, does, and a missing flush or trim reports 0. |
| Buse.ReadAll | src/buse.cpp:62-75 | However little each read returns, exactly count bytes end up in the buffer, if they come at all. |
| Buse.WriteAll | src/buse.cpp:77-90 | However little each write takes, exactly the buffer is sent. |
| Buse.TakeRequest | src/buse.cpp:129-137 | The converted fields are the request the client encoded, or the magic or the command is wrong. |
| Buse.ServeRead | src/buse.cpp:143-157 | One call of the operation with the request's arguments, one reply, then exactly len bytes. |
| Buse.ServeWrite | src/buse.cpp:158-170 | The payload is consumed and passed on, then one reply. |
| Buse.ServeFlushOrTrim | src/buse.cpp:178-195 | One reply, with error 0 if the operation is missing. |
| Buse.ServeOne | src/buse.cpp:130-195 | Whatever the previous reply was, this one starts with error 0 and this request's handle; the right branch is taken. |
| Buse.NextRequest | src/buse.cpp:128-137 | Reads one header and checks its magic and command, or says why the loop ends. |
| Buse.ServeNext | src/buse.cpp:128-199 | One turn of the loop answers the first request of the remaining stream, or stops as the code does. |
| Buse.ServeNbd | src/buse.cpp:117-205 | For every input and every pattern of partial transfers: a prefix of the client's requests is answered, once each and in order; all of them, stopping where they stop, unless reading a header fails or falls short. |
| Buse.ClientGetsOneAnswerEach | src/buse.cpp:117-205 | Of a stream of whole requests the server consumes everything up to its end or past the disconnect, and the client gets exactly one understood reply per request. |
| Buse.OperationsGetWhatWasSent | src/buse.cpp:143-195 | If all operations are supplied, each request of such a stream leads to one call, in order: with the offset, the length and the payload the client sent; what a read operation gave is what the client receives, and what an operation returned is its error, with the bytes reversed. A disconnect leads to one more call, the last. |
| Buse.OnlySuppliedAreCalled | src/buse.cpp:147-192 | An operation that was not supplied is never called. |
| Buse.UnsuppliedReadSendsZerosIff | src/buse.cpp:145-154 | Without a read operation a read may be sent any bytes of the right length; they are zero in every conversation if and only if no bytes were asked for. |
| Singleton.EveryStepKeeps | include/singleton.hpp:57-90 | Every step of every call keeps: at most one object, a set flag means a stored instance, the mutex is held by exactly the call inside it. |
| Singleton.FlagMeansReady | include/singleton.hpp:57-90 | Over every interleaving: the flag implies a non-null instance, at most one object is ever built, from its builder's arguments, and its destruction is registered at most once. |
| Singleton.EveryCallReturnsTheSameObject | include/singleton.hpp:57-90 | Over every interleaving: any two calls that return, at any two points, return the same non-null pointer to the same object. |
| Singleton.NoDeadlock | include/singleton.hpp:64-84 | Some call can step if and only if some call is unfinished. |
| Singleton.EveryCallEnds | include/singleton.hpp:57-90 | N calls are over within 10 N steps. |
| Singleton.Singleton.GetInstance | include/singleton.hpp:57-61 | A call on its own builds the object if there is none and otherwise changes nothing; it returns the instance. |
| Singleton.Singleton.Init | include/singleton.hpp:64-84 | The same from the first load of m_instance on. |
| Singleton.Singleton.InitLocked | include/singleton.hpp:71-82 | The section under the mutex: the second load decides whether to build. |
| Singleton.Singleton.Build | include/singleton.hpp:75-80 | Builds, stores, sets the flag and registers the destruction, in this order. |

## Left out

- Sockets, UDP and TCP calls, select, the reactor: an abstract set of datagrams and abstract byte streams. Datagrams are not duplicated, and a recv on TCP delivers the full count.
- The texts and lengths of the notifications for a decided write (NotifySucces and its default arguments): the model keeps which of the three it is.
- NBD ioctls, fork, signals, mkfs, mount and argument parsing in src/buse.cpp and src/raz_nbd.cpp.
- src/raz_nbd.cpp: NBDWrite returns 0 whatever the reply to it says, so a failed write is not seen by the kernel. Confirmation is stated at the reply the master sends.
- fstream behaviour and restarts: a minion's file is an 8 MB array. A restarted minion overwrites its file with zeros, so nothing is claimed about persistence.
- Requests outside the device or across two stripes: the map sends them whole to where their first byte lives (`Raid.ContiguousIffInsideStripe` says exactly which ones come out right). Writes that overlap an outstanding request, and reads that overlap an outstanding write, are not issued in the runs considered.
- More than 2^32 UID constructions in one process, after which identifiers repeat (`ResponseManager.KeysRepeatEvery32Bits`).
- Unlocked data races: the fstream and the watch list shared by worker threads, the shared static counters, and the pool's flags set without the mutex. Each command, poll, delivery and queue operation is one atomic step.
- A minion's own task queue: a datagram it has received but not executed counts as still in flight.
- Negative acknowledgements: a minion of this repository always sends success = true, and the protocol's acknowledgements carry no flag.
- A build with NDEBUG, in which the checksum is computed but not compared. The Makefile does not define it.
- Message constructors with a null data pointer, and an unknown key in a peeked message (the model stops there).
- The exact order of std::priority_queue on ties, the values of timeouts, and the passage of time. The scheduler's machine has no clock, so nothing is said about when a task runs relative to its deadline.
- Allocation failures, and exceptions thrown by tasks or by timer_settime.
- Errors of read and write in the middle of a payload or a reply of the NBD server, which fail an assertion.
- Several controllers of one thread pool at a time, and its destruction during a Pause.
- Weak memory orders in the singleton: every load and store is sequentially consistent. Nothing is said about calls that begin after the destructor registered with atexit has run.
- The spin loops of Pause and the join of the destructor are steps that wait for their condition, in `ThreadPool.Enabled`; the class has no method for them.
- The link between the scheduler and the polling functions of commands: in the protocol, polls come in any order and at any time, which covers every order the scheduler can produce.
- Logger, Factory, Dispatcher, the ArgsKey classes, DirMonitor, DLLLoader, DataBase, configuration and scripts.
