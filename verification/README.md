# EVPath connection manager: a verification model

The Connection Manager (CM) of EVPath turns partial and interruptible transport calls into exact
sequences of framed messages. This project models that layer in Dafny and proves what it is relied on
for. The code is C that works by changing connections, queues, vectors and tables in place, so most of the
model is classes and loops proved against specification functions, and the main theorems are lemmas about
those functions. Protocols between two parties are state machines, and their properties hold in every run.

Transports, kernels, clocks and other threads are oracles. A socket moves any number of bytes a call may
move; a handler, or another thread while a lock is given up, may do any sequence of the operations open to
it; the time of day is a parameter. A region protected by a lock is one step.

| Module | What it is about |
|---|---|
| `Bytes`, `Collections` | bytes, words in native and swapped order, concatenation, checksums; shared notions |
| `Frames` | the headers of the five kinds of frame that are both written and read |
| `Framing`, `Streams` | what it means to cut a byte stream into frames, one piece at a time |
| `Reader` | the reading half of a connection and the socket read under it |
| `Writers` | the headers, vectors and checksum of a written message |
| `Vectors`, `WriteQueue` | queueing what a short non-blocking write left over, and draining the queue |
| `SocketWrite`, `LongWrite` | the blocking vector write under a kernel's schedule, and the write of more than one system call may carry |
| `EndToEnd` | short writes at one end, short reads at the other, whole messages throughout |
| `Handshake` | the exchange of CManager identifiers |
| `Gather`, `PullQueue`, `PullProtocol` | the fabric transport's bulk writes: request, remote reads, response |
| `PullSchedule` | when the pull thread may read, and when it wakes |
| `Lifecycle`, `BufferPool`, `Conditions` | reference counts, buffers and conditions |
| `Dispatch`, `Deadlines`, `EpollMask` | one pass of the event loop, its timeouts, and epoll as a form of select |
| `ManagerId` | the mixing function behind CManager identifiers |

## Where the code and its intent differ

The contracts named here say what the code does and, where it falls short of what it is for, exactly when.

- `CMWriteQueuedData` leaves `rem_header_len` and `rem_attr_len` as they were when a section has gone out, so
  a later call sends it again. `WriteQueue.DrainConservesIffOneSection`, `WriteQueue.ShortWriteSurvivesIff`
  and `WriteQueue.DrainRepeatsHeader` say when that shows; with the lengths cleared, conservation holds always.
- `long_writev` adds to the split entry's base after the callee may have moved it. With the saved base put back
  every byte that goes out is the message's. As written, for every schedule of the kernel, bytes are taken from
  wrong addresses if and only if a call ended strictly inside an entry that was cut and bytes from behind the cut
  went out (`LongWrite.WrongIffSplitEntered`, `LongWrite.BytesRightIff`); a message is safe under every schedule if and only if it
  fits in one call or all its cuts are shorter than two bytes (`LongWrite.AlwaysSafeIff`); and a buffer of 2 GiB whose
  first call takes one byte is not (`LongWrite.TwoGigabytesLost`).
- `INT_CMwrite_raw_notify` looks at `closed` before it waits for a pending write and not after, and a close by the
  application ends the wait with the write still pending. `PullProtocol.WriteAfterWaitSafeIff` is the exact condition and
  `PullProtocol.EarlyCallback` a run in which a write is called complete before it was read. A wait that wakes without
  being signaled clears `write_pending` of an open connection, with the same effect (`PullProtocol.SpuriousWakeSafeIff`).
- `in_pull_period` and `delay_until_wake` take their offset before the base is brought up to date. `PullSchedule.RightIff` is
  the exact condition, `PullSchedule.UpdatedIsRight` the intended form, and `PullSchedule.SingleWindowNeverOpens` a
  consequence: a pull thread woken only by its timer misses the first window of every period, and with
  one window it never finds the schedule open again.
- `INT_CMinstall_pull_schedule` sorts a copy of the windows but checks the order in which they were given:
  `PullSchedule.OtherOrdersAreRefused`. A negative field makes it return 0, as success does. The copy's
  terminating entry is allocated and never written; the model takes it as written.
- Registering a direction again while it alone is armed makes `epoll` watch both: `EpollMask.ExactIff`. No
  handler is called because of it: `EpollMask.SameHandlers`.
- A wait ends by destroying whatever condition its number finds. A condition that is waited on stays in the list
  until its own wait ends if and only if the waits of others on its number never outnumber the times that was given out
  again (`Conditions.StaysIff`); and it is the one that goes then if and only if no live newer condition has its
  number (`Conditions.ControlList.Wait`).
- `INT_CManager_close` takes the first connection until none is left. A turn on a connection whose failure is
  already under way leaves the loop where it was (`Lifecycle.Manager.CloseFirst`), so that the loop ends if and only if no
  failure is under way (`Lifecycle.Manager.CloseAll`); `Lifecycle.CloseDuringFailure` is a run in which it does not.

## Model

| member | source | states |
|---|---|---|
| Frames.HeaderReadBack | cm.c:3400-3448 | a written header parses back to the kind, data length, padded attribute length, stone and checksum it was made from, in native and swapped order |
| Frames.HelloReadBack | cm.c:1531-1570 | the same for handshake frames |
| Frames.AnnouncedSizeExact | cm.c:2429-2556 | a header announces exactly its frame's size if and only if the message meets CanCarry (for a swapped 64-bit length, a low word below 2^31; for events, a length of 31 bits) |
| Frames.RoundTrip | cm.c:2351-2578 | what is delivered from an encoded message is the message, its checksum accepted, for either byte order |
| Frames.TagLetters | cm.c:2351-2424 | a tag is known if and only if its two middle bytes are an M and one of six letters, which gives the kind; which of them comes first gives the sender's byte order |
| Frames.TagOnTheWire | cm.c:3400-3448 | the first four bytes of a written frame hold the letters of its kind in the sender's order, whichever that is |
| Frames.CorruptionShows | cm.c:2563-2578 | a frame short enough to be summed, its sum not 0, with any one byte behind the header changed is refused as corrupt |
| Streams.AnnouncedIsWhole | cm.c:2348-2556 | CMact_on_data asks for more until the size the header announces is there, and then for nothing |
| Streams.AsksToNextStage | cm.c:2348-2556 | from any prefix of such a frame, the tag included, the request ends at the tag, at the header or at the frame, whichever comes next |
| Framing.SplitLosesNothing | cm.c:2100-2269 | the frames cut from a stream and the unfinished rest are the stream |
| Framing.ReadStep | cm.c:2158-2245 | one read keeps collected bytes and outstanding request in step with the cut of everything read so far |
| Framing.SplitWhole | cm.c:2100-2269 | a concatenation of whole frames is cut into those frames |
| Framing.SplitPrefix | cm.c:2100-2269 | any prefix of it is cut into a prefix of those frames |
| Framing.WantStaysInFrame | cm.c:2158-2178 | a read asks for more than nothing and never past the end of the current frame |
| Streams.ScanIsFirstFrame | cm.c:2348-2556 | collecting 4 bytes, a header, then the rest ends at the size the frame's own header announces |
| Streams.StageAdvances | cm.c:2238-2243 | each completed request is the next of at most three for a frame |
| Streams.StreamOfMessages | cm.c:2100-2556 | the stream of any list of messages is cut into exactly those frames and delivers exactly those messages |
| Streams.PrefixOfMessages | cm.c:2100-2556 | any prefix of that stream delivers a prefix of those messages |
| Reader.Socket.ReadToBuffer | cmsockets.c:935-1012 | whatever read(2) does, the count returned is the number of stream bytes now in the caller's buffer, and anything else in it is unchanged; -1 is answered if and only if the first read brought nothing and its error was serious or the call was to block; a count cut short has its cause in a later read that brought nothing |
| Reader.Connection.Checksum | cm.c:2563-2567 | the receiver's loop is the sum of the bytes behind the tag, modulo 256 |
| Reader.Connection.Target | cm.c:2127-2141 | the partial frame survives the move from header buffer to message buffer and its growth |
| Reader.Connection.Turn | cm.c:2114-2252 | one turn takes the next bytes of the stream, advances its cut and leaves state from which the next turn resumes |
| Reader.Connection.DataAvailable | cm.c:2060-2270 | no byte of the stream is lost or reordered, deliveries are always those of the frames in all bytes read so far, saved state resumes exactly, a call makes at most 3*(limit+1) reads; it fails only for a serious error, a read that blocked and brought nothing, or a handler that failed the connection, and ends otherwise only for the reasons the code has; it blocks in all reads under a read thread, in those of the resumed frame if asked to, and in none otherwise |
| Reader.Connection.Session | cm.c:2060-2270 | the same over any number of calls, under any limits; a connection read without blocking, with no serious error and no handler that fails it, has not failed |
| Reader.DeliversWhatWasSent | cm.c:2060-2270 | fragmentation independence: a connection on a stream of messages has handed up a prefix of them, and all of them once no byte is left |
| Reader.ReadMessages | cm.c:2060-2270 | so it is for a fresh connection after any number of calls |
| Writers.StampHeader | cm.c:3220-3236 | the checksum loop over all vectors stamps the frame the vectors make up |
| Writers.WriteAttr | cm.c:3400-3454 | header and vectors together are the encoding of the message, attributes padded to 8 |
| Writers.WriteEvent | cm.c:3560-3616 | the same for events with a four-byte stone |
| WriteQueue.BlockedConserves | cm.c:2841-2915 | a drain call that blocks conserves the queue if and only if it leaves no finished section with a length |
| WriteQueue.ClearingDrainConserves | cm.c:2834-2927 | with finished sections cleared, under every schedule the queued bytes leave once and in order |
| WriteQueue.DrainConservesIffOneSection | cm.c:2834-2927 | as written, a queue survives every schedule if and only if at most one section holds bytes |
| WriteQueue.DrainRepeatsHeader | cm.c:2841-2862 | a concrete run in which the header goes out twice |
| WriteQueue.SplitConserves | cm.c:2980-3109 | header rest, attribute rest and data rest are the message less the bytes sent, for every short count |
| WriteQueue.ShortWriteThenDrain | cm.c:3256-3268 | a short write and a clearing drain put the message on the wire once, in order |
| WriteQueue.ShortWriteSurvivesIff | cm.c:2834-3109 | as written, a message with data survives every schedule if and only if the short write got past header and attributes |
| WriteQueue.CopyCounted | cm.c:3074-3079 | the data vectors copied into the queue's buffer are the unsent data |
| WriteQueue.Connection.QueueRemainingWrite | cm.c:2980-3109 | trimming both vectors in place and copying, with and without attributes, in both branches, leaves the queue SplitConserves speaks of |
| WriteQueue.Connection.WriteQueuedData | cm.c:2834-2940 | for whatever the transport takes, queue, wire and write_pending are as the drain function says; it fails or stays pending only if the transport failed or refused bytes |
| WriteQueue.TrimmedInPlace | cm.c:2900-2910 | trimming the sent part off a null-terminated vector leaves exactly the unsent bytes |
| SocketWrite.UnsentStep | cmsockets.c:1143-1162 | dropping whole vectors and moving one base keeps "what remains is the unsent suffix" |
| SocketWrite.ChunkHasBytes | cmsockets.c:1120-1125 | a system call on at most IOV_MAX vectors has bytes to send, unless that many empty ones come first |
| SocketWrite.WriteLoop | cmsockets.c:1107-1164 | for every schedule of the kernel: sent bytes and unsent vectors make up the message at every turn; returning the count means all of it was sent once, in order; an error return counts the vectors that are complete; and where the last entry's base is left |
| SocketWrite.FailsOnlyOnError | cmsockets.c:1107-1164 | a write comes short if and only if it fails, which it does only if the kernel fails a call |
| LongWrite.LongWritev | cmsockets.c:1055-1097 | it does what its specification does under every schedule, in sub-writes of at most MAX_RW_COUNT - 1024 bytes of which none re-enters it; with the saved base put back every byte out is the message's |
| LongWrite.WritevFunc | cmsockets.c:1099-1164 | the same for either path of the call |
| LongWrite.WrongIffSplitEntered | cmsockets.c:1055-1097 | as written, for every schedule: wrong bytes go out if and only if a call ended strictly inside a cut entry and bytes behind the cut are out |
| LongWrite.WholeWrongIff | cmsockets.c:1055-1097 | for a write that completes: if and only if a call ended strictly inside a cut entry |
| LongWrite.BytesRightIff | cmsockets.c:1055-1097 | the same of the bytes on the wire after the call |
| LongWrite.AlwaysSafeIff | cmsockets.c:1067-1083 | a message is safe under every schedule if and only if it fits in one call or every cut is shorter than two bytes |
| LongWrite.TwoGigabytesLost | cmsockets.c:1067-1083 | a buffer of 2 GiB and a kernel whose first call takes one byte: the write completes and is wrong from the first cut on |
| EndToEnd.SendAllConserves | cm.c:3256-3268 | frames written one after another under any schedule reach the wire as a prefix of their concatenation, and whole once the queue is empty |
| EndToEnd.MessagesArrive | cm.c:2060-2270 | a connection on that wire has handed up a prefix of the messages written, and all of them once all were sent and read |
| EndToEnd.Exchange | cm.c:2060-2270 | so it is for a fresh connection after any number of calls, under every schedule of short writes and short reads |
| Handshake.HiTravels | cm.c:1531-1548 | the flag and the identifier share a word and are told apart at the other end |
| Handshake.Connection.SendAndMaybeWait | cm.c:1531-1570 | which frame is sent and whether the sender waits |
| Handshake.Connection.DoHandshake | cm.c:2272-2322 | what is recorded, who is woken and what is answered, as the step function says |
| Handshake.RecordedIdsAreTrue | cm.c:2272-2322 | in every run recorded identifiers, of the manager and of its format server, are 0 or the peer's own |
| Handshake.AnswersAreFlagged | cm.c:2308-2321 | flagged frames are never answered, unflagged ones once, with a flagged frame |
| Handshake.WaitersAreServed | cm.c:1550-1570 | whenever either side waits, a frame that ends the wait is on its way or its peer has still to answer |
| Handshake.WaitsIff | cm.c:1550-1570 | in every run an end waits if and only if its transport is reliable, it has sent its frame and it does not know its peer |
| Handshake.OneExchange | cm.c:2272-2322 | one opening from either end is enough: a question, waited on over a reliable transport, and one answer, after which both know each other's identifiers |
| Handshake.AgreementAtRest | cm.c:2272-2322 | with empty channels both ends know each other and nobody waits |
| Handshake.FramesInAll | cm.c:2308-2321 | at most two frames for each opening, exactly two with one initiator |
| Handshake.DeliveriesRunOut | cm.c:2308-2321 | the exchange ends: deliveries without a new opening are bounded |
| Gather.CountPiggybacked | cmfabric.c:475-483 | the number of leading vectors that fit is the largest for which the message stays below PIGGYBACK |
| Gather.WriteRequest | cmfabric.c:459-509 | the request carries that prefix and lists the remaining vectors in order |
| Gather.GatherRoundTrip | cmfabric.c:484-505 | prefix and remote list reassemble to the concatenation of the vectors |
| Gather.PerformPull | cmfabric.c:632-738 | the immediate path yields the reassembled message |
| PullQueue.LandKeepsHolds | cmfabric.c:966-972 | a piece that lands where it was told to leaves every other piece alone, in any order of completions |
| PullQueue.AccountedIsWhole | cmfabric.c:1021-1034 | with every piece accounted for the buffer is the message |
| PullQueue.MsgItem.constructor | cmfabric.c:606-630 | a queued message starts with the prefix and no piece |
| PullQueue.MsgItem.Account | cmfabric.c:1021-1030 | exactly the completed pieces become accounted, and the answer is whether all are; then the buffer is the reassembled message |
| PullQueue.MsgItem.TakeRegion | cmfabric.c:961-974 | every piece gets its place behind the prefix and the pieces before it |
| PullQueue.MsgItem.Submit | cmfabric.c:977-1019 | reads not yet posted are posted unless refused, refused ones stay to be posted, the others stay what they are; the answer is whether any was posted |
| PullQueue.MsgItem.Advance | cmfabric.c:920-1034 | after a visit: reads not refused are posted, completed ones accounted for, reads under way stay so; with none refused all are posted; it is done if and only if all had been completed; nothing changes when no memory can be registered |
| PullQueue.Engine.ReturnCompletedPull | cmfabric.c:773-804 | the message leaves one queue and joins the end of the other, everything else in place |
| PullQueue.Engine.CanDoSomething | cmfabric.c:913-1038 | a pass moves, in order and each once, exactly the messages it visited all of whose reads had been completed when it came; it visits all of them unless one has no memory and may not register any, which is answered -1; a visited message with no read refused has all its reads posted |
| PullQueue.Engine.CheckCompletedPull | cmfabric.c:2449-2478 | what the connection reads is the same bytes the immediate path would have given |
| PullProtocol.AtMostOneUnanswered | cm.c:3213-3219 | in every run at most one request is unanswered, last_write describes it, and write_pending holds the connection unless that has failed |
| PullProtocol.NotifiedMeansDelivered | cmfabric.c:2285-2428 | in every run, a bulk write whose callback ran, or that last_write no longer describes, was handed over whole, whatever was done to memory given back |
| PullProtocol.CallbacksRun | cmfabric.c:531-554 | in every run callbacks run only for writes that asked for one, and have run for all of those once nothing is pending on an open connection |
| PullProtocol.WakesOnlyWhenRead | cmfabric.c:531-554 | a step that runs a bulk write's callback, or ends a pending write otherwise than by failure, takes a response to a write that has been read completely |
| PullProtocol.WriteAfterWaitSafeIff | cm.c:3160-3219 | in every run, a write that goes ahead after waiting leaves one request unanswered if and only if it finds write_pending clear, or set only because the last write was given up with -1; it can leave two only on a closed connection |
| PullProtocol.SpuriousWakeSafeIff | cm.c:3173-3185 | in every run, a write after a wait that ended without a signal leaves one request unanswered under the same condition |
| PullProtocol.PendingIff | cm.c:3160-3219 | on a connection that has not failed, write_pending is set exactly while a request is unanswered or given up |
| PullProtocol.NeverRefused | cmfabric.c:544-547 | without such an answer write_pending alone decides |
| PullProtocol.EarlyCallback | cm.c:3160-3219 | a run in which the application closes the connection while a second write waits, and that one is called complete before a byte of it was read |
| PullSchedule.Schedule.Install | cm.c:4050-4113 | which schedules are refused, with which code and no change, and what is installed otherwise |
| PullSchedule.EntriesEnd | cm.c:4058-4076 | the windows given are the entries before the first of which both times are zero |
| PullSchedule.FittingWindows | cm.c:4080-4094 | accepted windows are ordered, apart and inside the period |
| PullSchedule.FitsIff | cm.c:4080-4094 | windows are accepted if and only if each lies inside the period and each closes before every later one opens |
| PullSchedule.SortingKeeps | cm.c:4077-4079 | sorting an accepted schedule changes nothing |
| PullSchedule.OtherOrdersAreRefused | cm.c:4077-4094 | any other order of an accepted schedule is refused |
| PullSchedule.Schedule.UpdatePeriodBase | cmfabric.c:815-830 | it ends for a positive period with the refreshed base |
| PullSchedule.RefreshIsCurrent | cmfabric.c:815-830 | a base before now is moved by whole periods to base < now <= base + period |
| PullSchedule.Schedule.InPullPeriod | cmfabric.c:832-850 | the answer and the new base for any time |
| PullSchedule.OneWindow | cmfabric.c:832-850 | a time is inside at most one window of one period |
| PullSchedule.RightWhileCurrent | cmfabric.c:832-850 | yes is always right, and on a base at most a period old so is no |
| PullSchedule.RightIff | cmfabric.c:832-850 | the answer is right if and only if the base was current or no window is open |
| PullSchedule.UpdatedIsRight | cmfabric.c:832-850 | measured from the updated base it would be right always |
| PullSchedule.Schedule.DelayUntilWake | cmfabric.c:852-880 | the delay and the new base for any time |
| PullSchedule.WakesAtNextStart | cmfabric.c:852-880 | on a current base the wake time is the first opening not past |
| PullSchedule.MissesFirstWindow | cmfabric.c:1088-1096 | after a sleep into the next period the answer is no |
| PullSchedule.SingleWindowNeverOpens | cmfabric.c:1088-1096 | with one window and only timed wakes it is no for ever |
| PullSchedule.Schedule.Turn | cmfabric.c:1088-1096 | the sleep of a turn is measured from the base its question refreshed |
| Lifecycle.Connection.Dereference | cm.c:1317-1352 | the count drops by one and the record is freed when it reaches zero |
| Lifecycle.Manager.Create | cm.c:1060-1069 | a new connection is in the list, held by transport, list and, if initiated, its user |
| Lifecycle.Manager.DropReference | cm.c:1317-1352 | the record is freed exactly when the last user and handler go after the failure is over, once |
| Lifecycle.Manager.Remove | cm.c:1071-1091 | copying down removes exactly the one connection and its reference |
| Lifecycle.Manager.BeginFailed | cm.c:1354-1375 | the first failure gives up the transport's reference, later ones do nothing |
| Lifecycle.Manager.FinishFailed | cm.c:1390-1392 | the connection leaves the list, and is freed exactly if nobody else holds it |
| Lifecycle.Manager.CloseFirst | cm.c:976-982 | a turn of the closing loop shortens the list exactly if its first connection was not failing already |
| Lifecycle.Manager.CloseAll | cm.c:976-982 | from any state: the connections in front of the first whose failure is under way are disposed of; the loop ends if and only if there is none, with every connection failed, the list empty, and freed those nobody holds |
| Lifecycle.CloseDuringFailure | cm.c:976-982 | a run in which it does not end |
| Lifecycle.ListShrank | cm.c:1071-1091 | the list without one entry holds exactly the others, once each |
| Dispatch.SelectData.SocketSelect | cmselect.c:272-552 | calls made are the first of those owed by the tables as they were when the sets were copied; a completed pass made them all and changed the number, and only a close, an interrupted select or a change of the tables keeps a pass from completing; a pass in which nobody changes anything completes and leaves tables and sets but for bad descriptors |
| Dispatch.SelectData.Invoke | cmselect.c:465-494 | a handler is called only while it is the registered one |
| Dispatch.SelectData.Handlers | cmselect.c:458-495 | the loop goes on only while the tables are unchanged, whatever handlers do |
| Dispatch.CallsAreOwed | cmselect.c:458-495 | the calls a pass owes are those of ready descriptors with handlers, and no other |
| Dispatch.OwedByWakeup | cmselect.c:340-495 | for each way select returns: a handler is owed a call if and only if its descriptor was in the set and reported ready, or, after a select to be repeated or one with bad descriptors, was left in the set |
| Dispatch.SelectData.RunOp | cmselect.c:555-820 | what each operation of a handler does to sets, tables, number and the closed flag |
| Dispatch.CallsInOrder | cmselect.c:458-495 | upward by descriptor, writing before reading, each once |
| Dispatch.SelectData.Add | cmselect.c:555-604 | registration for reading: sets, tables and number |
| Dispatch.SelectData.Write | cmselect.c:607-662 | registration for writing, and its removal |
| Dispatch.SelectData.Remove | cmselect.c:806-820 | removal of the reading side |
| Deadlines.BeforeIsLess | cmselect.c:227-233 | comparison by fields is comparison of times |
| Deadlines.Task.IncrementTime | cmselect.c:258-267 | the time grows by the interval and stays normalized |
| Deadlines.Task.Service | cmselect.c:512-536 | a task due less than a period ago is due next exactly one period after its deadline, one due longer ago a period from now, one not due when it was; it runs if it was due and is not running |
| Deadlines.OncePerPeriod | cmselect.c:513-523 | over any run of passes a task comes due at most once a period, and never later than a period after the last pass |
| Deadlines.NoDrift | cmselect.c:513-523 | over any run of passes of which those that find the task due come less than a period late, the deadline moves by whole periods, one for each time it came due |
| Deadlines.OnTime | cmselect.c:513-523 | how often it came due is then the number of deadlines past |
| Deadlines.SetSoonestTimeout | cmselect.c:235-256 | the result bounds every idle task's delay and the timeout given, and is one of them |
| Deadlines.ChooseTimeout | cmepoll.c:248-288 | the sleep is the least of the caller's timeout and the idle tasks' delays, and whole milliseconds never exceed it |
| BufferPool.Pool.Get | cm.c:1846-1928 | the buffer was free or is new, is large enough and less than ten times too large; a free buffer that fits is taken as it is before any is resized, and a new one made only if none was free; every other buffer is unchanged |
| BufferPool.Pool.Return | cm.c:1946-1973 | the last return of a buffer with a callback unlinks it and runs the callback once |
| BufferPool.Pool.Extend | cm.c:1930-1943 | grows, never shrinks, fails only for want of memory |
| BufferPool.Pool.Take | cm.c:2767-2781 | one more holder |
| BufferPool.Pool.FindReusable | cm.c:1871-1919 | the three searches prefer a buffer that fits, and fail only if no buffer is free |
| BufferPool.Pool.Fresh | cm.c:1920-1926 | a buffer is made only when all are held, so there are never more than were held at once |
| Conditions.SameNumberIff | cm_control.c:67-72 | two allocations get one number if and only if a multiple of 0xffffff separates them |
| Conditions.DistinctIff | cm_control.c:59-72 | live numbers are distinct if and only if no such pair is live |
| Conditions.YoungAreDistinct | cm_control.c:59-72 | they are while fewer than 0xffffff allocations separate the live conditions |
| Conditions.FindsItsOwnIff | cm_control.c:44-56 | every number finds its own condition if and only if the numbers are distinct |
| Conditions.ControlList.Allocate | cm_control.c:59-81 | numbers follow one another and start over; on a closed connection the condition has failed |
| Conditions.ControlList.Find | cm_control.c:44-56 | the first condition with the number |
| Conditions.NumbersFollow | cm_control.c:67-72 | the first condition is number 1; each number is one more than the last, and 0xfffffe is followed by 0 |
| Conditions.ControlList.SignalNumber | cm_control.c:314-333 | only the condition found is signaled |
| Conditions.ControlList.FailNumber | cm_control.c:123-136 | only the condition found is failed |
| Conditions.ControlList.FailConditions | cm_control.c:103-121 | exactly the connection's conditions are failed |
| Conditions.ControlList.Destroy | cm_control.c:138-169 | only the condition found is removed |
| Conditions.ControlList.Happen | cm_control.c:103-333 | what one act of others does to the flags: a condition is signaled if and only if a signal found it, failed if and only if a failing found it or its connection failed |
| Conditions.ControlList.Await | cm_control.c:246-304 | the condition waited on is signaled, or failed, exactly as the events seen say: by a signal or failing that found it, by the failing of its connection or, for the server thread, by the closing of the list; the wait goes on until the first of them and no further |
| Conditions.ControlList.Wait | cm_control.c:209-312 | early answers remove nothing; a wait ends with the first event that signals or fails its condition, and its answer is 1 if and only if a signal found the condition; it then removes it if and only if no live newer condition has its number, the condition having stayed in the list until then exactly under the condition of StaysIff |
| Conditions.StaysIff | cm_control.c:59-169 | over any events, waits of others ending among them: a condition its number finds stays in the list if and only if the ended waits on its number never outnumber the times that was given out again |
| Conditions.GoneIff | cm_control.c:138-169 | of live conditions with one number the newest is removed |
| EpollMask.EpollData.AddSelect | cmepoll.c:470-528 | tables and interest after registering for reading |
| EpollMask.EpollData.WriteSelect | cmepoll.c:530-598 | tables and interest after registering for writing or removing it |
| EpollMask.EpollData.RemoveSelect | cmepoll.c:741-770 | tables and interest after removing reading |
| EpollMask.AlwaysCovers | cmepoll.c:508-592 | in every run the kernel watches every direction with a handler and no descriptor without one |
| EpollMask.ExactIff | cmepoll.c:568-596 | a call keeps the interest exact if and only if it does not register anew the only direction armed |
| EpollMask.ExactAllAlongIff | cmepoll.c:508-596 | a run is exact all along, equal to select's two sets, if and only if no call in it does |
| EpollMask.SameHandlers | cmepoll.c:381-406 | for the same ready descriptors the handlers called are those of the select-based loop |
| ManagerId.MixIsBijective | cm.c:730-739 | mix64 is a bijection on 64-bit words |
| ManagerId.FirstOutput | cm.c:730-739 | its value at the golden-ratio increment is the first output of SplitMix64 |
| ManagerId.StateIsBijective | cm.c:750-756 | with the other inputs fixed, the state is a bijection of the process number |
| ManagerId.PidsApart | cm.c:750-756 | distinct process numbers give distinct states |
| ManagerId.Identifier | cm.c:757-759 | the identifier is between 1 and 2^31 - 1 |
| ManagerId.IdentifiersClashIff | cm.c:757-759 | states share an identifier if and only if their low 31 bits, as a mask takes them, agree or are 0 and 1 |

## Left out

- Reader.Connection.ActOnData: what a handler does is to take the message, fail the connection or stop read-ahead; it does not re-enter CMDataAvailable on its own connection.
- Reader.Connection.DataAvailable: models transports with read_to_buffer_func; the read_block_func path, which hands over whole messages, is not modelled, and message buffers are allocated where the code takes them from the pool.
- Frames.RoundTrip: CMG, EVC and CMP frames have no bodies here; the first is written and never parsed, the second has tags the reader's mask cannot match, the third carries floating-point probes. Frames of other kinds are handed to foreign handlers after their tag, and the format-exchange protocol then reads the transport itself.
- Frames.AnnouncedSizeExact: an event longer than its 31-bit length field, or a swapped 64-bit length whose low word is 2^31 or more, is not carried; the lemma's condition says so.
- Writers.WriteAttr: encoding by FFS and of attribute lists yields opaque bytes; read and write hooks and trace output are left out.
- WriteQueue.Connection.WriteQueuedData: NBwritev takes some prefix of what it is given; its own summing loop beyond IOV_MAX vectors is not modelled, nor is buffer_to_free, which a drain returns and does not clear.
- SocketWrite.WriteLoop: ends unless IOV_MAX empty vectors in a row precede a non-empty one, for which the code would not end.
- LongWrite.LongWritev: C integer overflow of sums is left out. A byte is identified by its address, so that bytes taken from a wrong address count as wrong though they might be equal.
- Handshake.WaitersAreServed: channels are reliable and first-in first-out, and neither connection fails.
- PullProtocol.NotifiedMeansDelivered: one connection; a response of -1 leaves the write pending for good, as in the code, and the run then stays as it is. Reuse of memory registrations is not modelled.
- PullProtocol.AtMostOneUnanswered: its runs hold writes that start on an open connection with nothing pending; WriteAfterWaitSafeIff and SpuriousWakeSafeIff are about the others.
- PullProtocol.WriteAfterWaitSafeIff: a write that waited while its connection failed finds the transport's record freed, and is not modelled.
- Conditions.ControlList.Wait: of a condition that another's wait destroyed nothing is promised but that it is gone; the code then reads freed memory.
- PullQueue.MsgItem.TakeRegion: the receiving buffer belongs to one message; sharing of registered regions between messages is not modelled, nor are completion descriptors.
- PullSchedule.Schedule.Install: fields are normalized, as the comparison of times by their fields requires; the period need not be positive for a schedule to be accepted; refreshing the base does not end if it is not. Windows of no duration are accepted too, and end the list that the transport sees; the lemmas about accepted windows are for positive durations.
- Lifecycle.Manager.BeginFailed: what close handlers do is whatever the other operations allow between BeginFailed and FinishFailed; the calls themselves, pending writes of a dying connection and the bandwidth task are left out.
- Dispatch.SelectData.Tasks: tasks are scripts here and have no list of their own; a task that removes itself while it runs is not modelled. Errors of select that end the process are left out.
- Deadlines.ChooseTimeout: overflow of the millisecond count is left out.
- BufferPool.Pool.Take: the lookup of a buffer by an address inside it is left out.
- EpollMask.EpollData.RemoveSelect: the kernel forgetting a closed descriptor by itself is left out.
- cm_perf.c, cm_formats.c, cm_evol.c, the format exchange of cm_pbio.c and the remaining transports are not part of this model.
- Sockets, epoll, libfabric, pthreads, environment variables, dynamic loading, host lookup and port choice are left out or are oracles.
