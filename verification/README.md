# Verified model of the codechiev threading and event framework

codechiev is a small POSIX thread and epoll framework.  This project models three of its parts and
proves what every run of them keeps:

* the **timer queue** (`TimerQueue.dfy`, `TimerTheorems.dfy`): a sorted multimap of deadlines over one
  one-shot timer with a slack of 30 ms;
* the **job queue** and the **counting latch** (`Conditions.dfy`, `BlockingQueue.dfy`,
  `BlockingTheorems.dfy`, `CountLatch.dfy`): worker threads around a mutex and a condition variable;
* **framed byte streams** (`ByteOrder.dfy`, `Fields.dfy`, `CStrings.dfy`, `FixedBuffer.dfy`,
  `Incremental.dfy`, `LengthFrames.dfy`, `HeaderSections.dfy`, `Channel.dfy`, `Link.dfy`,
  `Connection.dfy`): a fixed buffer filled in arbitrary chunks, drained by a length-prefix decoder and
  by an empty-line splitter, and the path of an RPC message from sender to receiver.

`dafny verify dfyconfig.toml` checks everything.

## How it is modelled

The source's classes are classes here, their critical sections are methods over the source's fields.
In the timer queue, the job queue, the latch and the two ends of a connection each section is proved
against one step of a transition system: the state after it is `Apply` of the state before it and the
step.  The buffer and the channel below the connection are proved against functions on byte sequences.
A step carries every choice the environment makes (clock readings, which waiters a signal wakes, how
many bytes a system call takes), so `Apply` is a function and runs are sequences of steps
(`Runs.dfy`).  The theorems are about all runs.  Fields that the source does not have (what ran, what
was sent, where a thread stands) record history or the state of the kernel.

Assumptions, all of them about what surrounds the code:

* A mutex excludes; each section under one is a single step.  `addTask` reads the first deadline before
  it takes the mutex; check and insertion are one step here, and `StaleJoinIff` and `StaleArmIff` say
  exactly when doing them apart does no harm.  `AppendInt32` and onRead's update of the registration
  run outside the mutex and are one step each, too; one caller at a time is between header and body on
  a channel, and `InterleavedIff` says what two of them at once would deliver.
* `pthread_cond_signal` unblocks at least one waiter if there is any and may unblock several; waits may
  end spuriously (System Interfaces volume of POSIX.1-2017).
* The clock does not run backwards and starts at zero or later; an absolute one-shot timer fires no
  earlier than its time; setting a timer clears an unread expiry.  Milliseconds are split into seconds
  and nanoseconds with integers, the floating-point product of `Time.hpp` is taken to be exact.
* `write(2)` never fails and takes nothing only when asked for nothing.  With a failure, line 81 of
  `TcpServer.cpp` would move the reader back.
* The network delivers the bytes written on a connection once and in order, and the peer does not
  close it: bytes read in the call of onRead that sees the close are never handed to onData.
* onWrite is entered only for an EPOLLOUT event, so only while EPOLLOUT is registered.
* A job does not itself throw `QueueBreak`; one that did would end its worker outside `takeJob`
  (line 100 of `BlockingQueue.hpp`).
* `append` on a full buffer changes nothing and returns 0 (the C++ runs off the end of the function).
  `move` copies upwards byte by byte (the C++ calls `memcpy` on regions that may overlap).
* A declared length of 2^32 - 4 or more makes the 32-bit sum in `decode` wrap and the code read past the
  content; the model stops there with the outcome `Overread`.

## Model

| member | source | states |
|---|---|---|
| TimerQueues.ExpireAtArms | codechiev/net/Timer.cpp:77-89 | the split into seconds and nanoseconds loses nothing: a positive time arms for exactly that time, zero disarms, a negative one is rejected |
| TimerQueues.TimerQueue.AddTask | codechiev/net/Timer.cpp:101-120 | the four outcomes of addTask (join, run now, arm from empty, re-arm earlier) as one step, invariant kept |
| TimerQueues.AddOutcome | codechiev/net/Timer.cpp:105-119 | a task due less than 30 ms before a queued one, or later, joins; else one less than 30 ms away runs at once; any other becomes the earliest and is armed for |
| TimerQueues.TimerQueue.DrainDue | codechiev/net/Timer.cpp:126-141 | the drain loop, asking the clock once for each task it looks at, takes a prefix of due tasks and re-arms for the first that is not |
| TimerQueues.TimerQueue.Expire | codechiev/net/Timer.cpp:121-148 | undisturbed, expire runs what it drains in queue order, at least one task, and leaves the rest queued |
| TimerQueues.TimerQueue.PollEvent | codechiev/net/Timer.cpp:183-204 | the scheduler runs something for every unread expiry and does nothing without one |
| TimerQueues.ArmIsEarliest | codechiev/net/Timer.cpp:105-119 | addTask arms only for a task 30 ms or more before all others, and never while an expiry is unread or being handled |
| TimerQueues.KeepsInv | codechiev/net/Timer.cpp:101-148 | every step keeps: sorted, timer coupled to the queue, nothing early, nothing lost or doubled |
| TimerQueues.ScheduleStep | codechiev/net/Timer.cpp:101-148 | the sequence of ran, drained and queued tasks changes only by the insertion of a new one |
| TimerTheorems.ArmedIffQueued | codechiev/net/Timer.cpp:101-148 | in every reachable state an expiry is due exactly when a task is queued, at a queued deadline, and after any of them by at most 29 ms per queued deadline from that one on below it |
| TimerTheorems.Lateness | codechiev/net/Timer.cpp:128-140 | a drained task is late by at most the time since the armed time plus 29 ms per queued deadline from its own on below it |
| TimerTheorems.LatenessIsTight | codechiev/net/Timer.cpp:105-119 | for every n some run adds n + 1 tasks, none due yet, and drains each exactly that late with the clock at the armed time, the first 29 n ms, so no fixed bound such as 30 ms holds |
| TimerTheorems.DrainTakesDue | codechiev/net/Timer.cpp:128-140 | each expire takes every task due by 29 ms after the armed time, one or more, and re-arms for the next or leaves the timer off |
| TimerTheorems.NoExpiryLost | codechiev/net/Timer.cpp:101-120 | addTask never overwrites an expiry that has fired |
| TimerTheorems.EachTaskOnce | codechiev/net/Timer.cpp:101-148 | in every run each added task is run, drained or queued, in one place, once |
| TimerTheorems.NeverEarly | codechiev/net/Timer.cpp:111-131 | no callback runs more than 29 ms before its deadline |
| TimerTheorems.DeadlineOrder | codechiev/net/Timer.cpp:128-147 | of two tasks queued together, when the later has run the earlier ran before it, whatever happens in between |
| TimerTheorems.QuietProgress | codechiev/net/Timer.cpp:121-148 | without further adds every step but the clock's strictly lowers what is left to do |
| TimerTheorems.NeverStuck | codechiev/net/Timer.cpp:121-148 | while a task is queued or drained some such step is possible, at the latest at the due time |
| TimerTheorems.StaleJoinIff | codechiev/net/Timer.cpp:105-109 | inserting on a join decided earlier keeps the invariant if and only if the queue is not empty and the task is within 29 ms per queued deadline below the armed time, its own included; deciding again suffices |
| TimerTheorems.StaleJoinWitness | codechiev/net/Timer.cpp:105-110 | a concrete run in which the queue empties between the check and the insertion, and addTask queues a task that nothing will wake |
| TimerTheorems.StaleJoinLate | codechiev/net/Timer.cpp:105-110 | concrete runs in which the queue is never empty and the stale join still leaves a task waiting for one arbitrarily far ahead |
| TimerTheorems.StaleArmIff | codechiev/net/Timer.cpp:105-119 | inserting and arming on a decision taken earlier keeps the invariant if and only if expire is not about to drain and every queued task is within its slack of the new deadline; it discards a fired expiry |
| TimerTheorems.TwoArmsIff | codechiev/net/Timer.cpp:105-119 | of two callers that both find the queue empty, the second does no harm if and only if its deadline is at most 29 ms after the first one's |
| TimerTheorems.StaleArmOutlives | codechiev/net/Timer.cpp:117-141 | an arming that overtakes expire before its drain can leave the timer armed with nothing queued |
| Conditions.Condition.Notify | codechiev/base/Condition.cpp:31-36 | a signal takes the waiters the kernel picks, at least one if there is any, out of the wait |
| Conditions.Condition.NotifyAll | codechiev/base/Condition.cpp:38-43 | a broadcast takes all of them out |
| BlockingQueues.BlockingQueue.AddJob | codechiev/base/BlockingQueue.hpp:55-61 | appends the job and signals, as one step |
| BlockingQueues.BlockingQueue.TakeJob | codechiev/base/BlockingQueue.hpp:63-89 | one pass: waits on an empty running queue, breaks when stopped, else takes the front job and signals if more are queued |
| BlockingQueues.BlockingQueue.FinishJob | codechiev/base/BlockingQueue.hpp:91-109 | the worker returns to takeJob; a job that calls stop has stopped the pool |
| BlockingQueues.BlockingQueue.Commence | codechiev/base/BlockingQueue.hpp:111-129 | starts the worker threads once, nothing if already running |
| BlockingQueues.BlockingQueue.Stop | codechiev/base/BlockingQueue.hpp:131-139 | stops and wakes everybody, once |
| BlockingQueues.BlockingQueue.JoinNext | codechiev/base/BlockingQueue.hpp:141-148 | one turn of the destructor's join loop |
| BlockingQueues.KeepsInv | codechiev/base/BlockingQueue.hpp:55-148 | every step keeps: each thread in one condition, FIFO, each job at one place once, enough workers awake |
| BlockingQueues.DequeueKeepsWorkConserving | codechiev/base/BlockingQueue.hpp:80-86 | taking a job keeps enough workers awake whatever takeJob's own signal does, even none |
| BlockingTheorems.AddOutcome | codechiev/base/BlockingQueue.hpp:55-61 | the job is last in the queue, at least one sleeper is out of its wait, nothing else changes |
| BlockingTheorems.TakeNothing | codechiev/base/BlockingQueue.hpp:67-76 | a worker that finds the running queue empty goes to sleep, one that finds it stopped leaves, whatever is queued |
| BlockingTheorems.TakeFront | codechiev/base/BlockingQueue.hpp:78-88 | otherwise it has the front job, and if more are queued at least one sleeper is out of its wait |
| BlockingTheorems.FinishOutcome | codechiev/base/BlockingQueue.hpp:91-109 | a job that ends, normally or not, has finished once more and its worker is ready; only the job that calls stop stops the pool |
| BlockingTheorems.CommenceOutcome | codechiev/base/BlockingQueue.hpp:111-129 | a pool that does not run gets exactly the given number of new ready threads, one that runs gets none |
| BlockingTheorems.StopOutcome | codechiev/base/BlockingQueue.hpp:131-139 | from any state the pool is down and every sleeper out of its wait, with queue and workers as they were |
| BlockingTheorems.NoLostWakeup | codechiev/base/BlockingQueue.hpp:55-89 | in every run a worker sleeps only if the pool runs and the queued jobs number no more than the awake workers, one of whom can take the front job now |
| BlockingTheorems.NoIdleWithWork | codechiev/base/BlockingQueue.hpp:63-89 | with work queued and nobody awake, every worker is busy or has exited |
| BlockingTheorems.ExactlyOnce | codechiev/base/BlockingQueue.hpp:55-109 | the queue is the rest of the added jobs; a job has been dequeued if and only if one worker runs it or it has finished once |
| BlockingTheorems.TakesOldest | codechiev/base/BlockingQueue.hpp:78-83 | takeJob returns the oldest job not yet returned |
| BlockingTheorems.JoinedIsSettled | codechiev/base/BlockingQueue.hpp:131-148 | when all threads are joined every dequeued job has finished once and the others never ran |
| BlockingTheorems.PoisonRunsEverything | codechiev/base/tests/blockingqueue_test.cpp:46-57 | with stop enqueued as the last job, after the destructor's joins every job has run exactly once |
| BlockingTheorems.PoisonCanFinish | codechiev/base/tests/blockingqueue_test.cpp:46-57 | from every state of such a run some continuation takes the destructor to its end |
| BlockingTheorems.DownStep | codechiev/base/BlockingQueue.hpp:67-76 | after stop no worker sleeps, nothing is dequeued, each worker step uses up one of those remaining |
| BlockingTheorems.ShutdownBound | codechiev/base/BlockingQueue.hpp:67-109 | over any run after stop the worker steps number exactly what the remaining measure has dropped |
| BlockingTheorems.StopShutsDown | codechiev/base/BlockingQueue.hpp:67-139 | over any run after a call of stop in any state nobody sleeps, nothing is dequeued, and the workers take at most two steps for each busy one and one for each other |
| BlockingTheorems.ShutdownProgress | codechiev/base/BlockingQueue.hpp:91-148 | the measure is zero if and only if all workers have exited, and above zero a worker step is possible |
| CountLatches.PassedMeansReduced | codechiev/base/Condition.cpp:50-68 | with any callers and any reductions, latch returns only after the reductions total the initial count |
| CountLatches.CallersKept | codechiev/base/Condition.cpp:50-59 | in every run each caller is about to test the count, asleep, woken, or has returned |
| CountLatches.CheckOutcome | codechiev/base/Condition.cpp:50-59 | a caller returns if the count is at or below zero and sleeps otherwise |
| CountLatches.ReduceOutcome | codechiev/base/Condition.cpp:61-68 | the value is taken off and at least one sleeper is out of its wait |
| CountLatches.SleepersBound | codechiev/base/Condition.cpp:50-68 | with n callers and positive reductions, k reduce calls since the count came down leave at most n - k asleep |
| CountLatches.LastButOneSleep | codechiev/base/Condition.cpp:61-68 | for every n some run leaves n - 1 callers asleep at count zero |
| CountLatches.OneCallerOnly | codechiev/base/Condition.cpp:45-68 | nobody is ever left asleep at or below zero if and only if there is at most one caller |
| CountLatches.CountLatch.Latch | codechiev/base/Condition.cpp:50-59 | one pass: returns if the count is at or below zero, else waits |
| CountLatches.CountLatch.Reduce | codechiev/base/Condition.cpp:61-68 | takes off the value and signals once |
| ByteOrder.Network32 | codechiev/net/Internet.h:58-61 | what is stored after htonl is big-endian on either host, and the swap is its own inverse |
| ByteOrder.Network64 | codechiev/net/Internet.h:19-22 | the expression built from two 32-bit swaps stores 64-bit values big-endian on either host |
| ByteOrder.BigEndian | codechiev/net/Internet.h:58-81 | byte i of n in network order is the digit of weight 256 to the n - 1 - i |
| ByteOrder.RoundTrip64 | codechiev/net/Internet.h:63-81 | converting, storing, loading and converting back restores every 64-bit value |
| Fields.ColumnRoundTrip | codechiev/db/orm.h:55-101 | the bytes of a column hold the value in two's complement, and reading them back restores every value, negative ones included |
| Fields.Field32.GetNetValue | codechiev/db/orm.h:85-89 | yields the big-endian two's complement of the value in four bytes |
| Fields.Field32.ToField | codechiev/db/orm.h:92-96 | reads four such bytes; a null pointer changes nothing |
| Fields.Field64.GetNetValue | codechiev/db/orm.h:61-65 | the same in eight bytes |
| Fields.Field64.ToField | codechiev/db/orm.h:68-72 | the same in eight bytes |
| Fields.CarryColumn32 | codechiev/db/orm.h:85-96 | getNetValue on one host followed by toField on another restores every 32-bit value |
| Fields.CarryColumn64 | codechiev/db/orm.h:61-72 | the same for 64-bit values |
| FixedBuffers.FixedBuffer.constructor | codechiev/base/FixedBuffer.h:24-27 | an empty buffer with its sentinel |
| FixedBuffers.FixedBuffer.Append | codechiev/base/FixedBuffer.h:47-63 | appends as much as fits after the content, nothing for a length of zero or less, sentinel kept |
| FixedBuffers.FixedBuffer.AppendText | codechiev/base/FixedBuffer.h:43-46 | appends the part of a text before its first NUL |
| FixedBuffers.FixedBuffer.Read | codechiev/base/FixedBuffer.h:65-68 | moves the reader by any amount; the buffer stays valid if and only if no more is read than is there and no more taken back than was read, and then bytes are dropped from the front |
| FixedBuffers.FixedBuffer.ReadAll | codechiev/base/FixedBuffer.h:70-75 | empties and zeroes the buffer |
| FixedBuffers.FixedBuffer.Move | codechiev/base/FixedBuffer.h:84-91 | the forward copy keeps the content and frees the room before it, overlapping or not |
| FixedBuffers.AppendTwice | codechiev/base/FixedBuffer.h:47-63 | two appends take what one append of both takes, also when the buffer overflows |
| FixedBuffers.AppendOutcome | codechiev/base/FixedBuffer.h:47-63 | data that fits is taken whole, of longer data exactly what fills the buffer but for the sentinel |
| Incremental.DrainIff | codechiev/net/protobuf/protoServer.cpp:38-45 | draining is the one division of a stream into whole items and a rest holding none |
| Incremental.ChunkingIrrelevant | codechiev/net/protobuf/protoServer.cpp:38-45 | draining after each of any chunks gives the items and the rest of the whole stream |
| Incremental.Sufficient | codechiev/base/FixedBuffer.h:47-63 | items of at most m bytes and bursts of at most b never overflow m + b - 1 bytes, over any number of chunks |
| LengthFrames.DecodeIff | codechiev/net/TcpLengthCoder.h:26-60 | a stream decodes to messages and a rest if and only if it is their frames followed by that rest, which holds no frame |
| LengthFrames.DecodedAreFramed | codechiev/net/TcpLengthCoder.h:26-53 | whatever the stream, what is decoded are messages whose frames it begins with |
| LengthFrames.ChunkedDecode | codechiev/net/TcpLengthCoder.h:26-53 | a bounded buffer fed in any small enough chunks decodes as the whole stream does, to the first messages sent |
| LengthFrames.CapacityIff | codechiev/net/Channel.hpp:24-26 | no chunk is ever cut short if and only if the largest frame plus the largest burst is at most the capacity plus one |
| LengthFrames.RoundTripIff | codechiev/net/Channel.cpp:15-20 | the messages sent are decoded if and only if none contains a NUL, because the body goes through c_str |
| LengthFrames.InterleavedIff | codechiev/net/protobuf/Rpc.cpp:40-41 | two calls whose headers both precede their bodies, in either order of the bodies, arrive as the two messages if and only if the first is empty |
| LengthFrames.OversizedBlocks | codechiev/net/TcpLengthCoder.h:30-47 | a header declaring more than fits lets no later append or decode ever produce a message |
| LengthFrames.BlockedIffOversized | codechiev/net/TcpLengthCoder.h:30-47 | a complete header whose length does not wrap lets some continuation through if and only if its frame fits the buffer |
| HeaderSections.HeaderProper | codechiev/net/http/HttpServer.cpp:34-41 | the leftmost delimiter is found as soon as it is complete and stays where it is, whatever follows |
| HeaderSections.DelimAtIff | codechiev/net/http/HttpServer.cpp:32-35 | the four comparisons find exactly CR LF CR LF |
| HeaderSections.SplitIff | codechiev/net/http/HttpServer.cpp:31-54 | splitting yields exactly the leftmost non-overlapping delimited sections and a rest without a visible delimiter |
| HeaderSections.ChunkedSplit | codechiev/net/http/HttpServer.cpp:31-54 | sections and bursts that together fit the buffer are split in any chunks as in one piece, into the first of the sections sent |
| HeaderSections.NulBlocks | codechiev/net/http/HttpServer.cpp:34-35 | a NUL in the buffer before any delimiter lets no later chunk bring out a section |
| Channels.Channel.AppendInt32 | codechiev/net/TcpLengthCoder.h:55-60 | appends the length big-endian, on either host |
| Channels.Channel.Write | codechiev/net/TcpServer.cpp:123-133 | appends the message up to its first NUL and registers for output if any is pending |
| Channels.WriteOutcome | codechiev/net/TcpServer.cpp:123-133 | the message up to its first NUL stands behind what was pending, or fills the buffer; registered exactly if it was or something is pending |
| Channels.Channel.FlushOnce | codechiev/net/TcpServer.cpp:68-111 | one turn under the mutex: asks for up to 256 bytes, sends what is taken, empties the buffer when nothing is left, updates the registration |
| Channels.FlushOutcome | codechiev/net/TcpServer.cpp:72-108 | with nothing pending all 8191 bytes of room are back and EPOLLOUT is off; else n bytes have gone and the registration changes only on EAGAIN, to what the rest needs |
| Channels.AnswerIff | codechiev/net/TcpServer.cpp:72-77 | a turn may send any number of pending bytes up to 256, and none only if none is pending |
| Channels.Channel.OnWrite | codechiev/net/TcpServer.cpp:65-112 | terminates, conserves the output, leaves EPOLLOUT registered exactly when output is pending, and unless errno stops it sends everything and gives the room back |
| Channels.Channel.OnRead | codechiev/net/TcpServer.cpp:30-63 | appends all that is read before the call ends; onData is due unless the peer closed, which leaves the input undelivered |
| Channels.BurstIs | codechiev/net/TcpServer.cpp:38-41 | what is appended is all the data read, in order, whatever errno is after each read |
| Channels.EndsIff | codechiev/net/TcpServer.cpp:42-61 | a call goes on exactly after a result that is neither end of file nor followed by EAGAIN |
| Channels.Channel.Decode | codechiev/net/TcpLengthCoder.h:26-53 | takes out the front message if and only if it is complete, moves the rest to the front, else changes nothing |
| Channels.Channel.OnData | codechiev/net/protobuf/protoServer.cpp:34-47 | the in-place loop makes jobs of exactly the messages of the one-shot parser and leaves its rest at the front of the buffer |
| Channels.Channel.StrStr | codechiev/net/http/HttpServer.cpp:34-37 | finds the leftmost delimiter before the first NUL, never reading past the sentinel |
| Channels.Channel.OnMessage | codechiev/net/http/HttpServer.cpp:25-60 | the in-place loop takes out exactly the sections of the one-shot splitter, each without its delimiter, leaves the rest at the front, and shuts the connection if and only if the buffer is full |
| Channels.Channel.OnReadMessages | codechiev/net/TcpServer.cpp:30-63 | onRead with onData as its callback is one turn of the bounded feed, the whole burst as one chunk; a close leaves the input undelivered |
| Channels.Channel.OnReadSections | codechiev/net/TcpServer.cpp:30-63 | the same with the HTTP server's onMessage as the callback |
| Channels.FlushConserves | codechiev/net/TcpServer.cpp:72-94 | each turn of onWrite moves n bytes from readable to sent, in order |
| Links.OutputConserved | codechiev/net/TcpServer.cpp:65-133 | over every interleaving, bytes sent followed by bytes readable are the bytes accepted by append |
| Links.DeliveredIff | codechiev/net/protobuf/Rpc.cpp:26-28 | when all has arrived and nothing was cut short, the receiver has the messages called if and only if none contains a NUL |
| Links.EndToEnd | codechiev/net/protobuf/Rpc.cpp:20-45 | with frames and bursts that together fit the buffer nothing is ever cut short, what is decoded is always a prefix of the messages called, and all of them once everything has arrived |
| Links.DeliverableIff | codechiev/net/TcpServer.cpp:54-112 | from every state of such a run some continuation without further calls delivers everything if and only if pending output is registered for or a body is still to come |
| Links.StalledStays | codechiev/net/TcpServer.cpp:204-221 | output that is pending unregistered stays so over any run without a further call, and nothing more is sent |
| Links.ReclaimableIff | codechiev/net/TcpServer.cpp:65-133 | from every such state some continuation without a further call delivers everything and frees the whole write buffer if and only if EPOLLOUT is registered, or the call under way will register it, or the buffer is free already |
| Links.WatchedStep | codechiev/net/TcpServer.cpp:54-133 | pending output keeps EPOLLOUT registered in every step except onRead's update, which keeps it if and only if no output is pending or a body is still to come; once lost, only a new call restores it |
| Links.WatchedThroughout | codechiev/net/TcpServer.cpp:65-133 | in every run whose onRead updates meet no pending output, pending output is registered for, except between header and body |
| Links.InOnlyStalls | codechiev/net/TcpServer.cpp:54-54 | any call followed by onRead's update leaves its frame pending with EPOLLOUT unregistered |
| Links.InOnlyStrands | codechiev/net/TcpServer.cpp:54-54 | such a call of a short NUL-free message is never delivered unless another call follows |
| Connections.Connection.Begin | codechiev/net/protobuf/Rpc.cpp:26-27 | appending the header on the real channel is the link's step |
| Connections.Connection.End | codechiev/net/protobuf/Rpc.cpp:28-28 | so is sending the body |
| Connections.Connection.Flush | codechiev/net/TcpServer.cpp:68-111 | so is one turn of onWrite |
| Connections.Connection.ReadReplies | codechiev/net/TcpServer.cpp:30-63 | so is onRead on the caller's channel, as far as its output goes |
| Connections.Connection.Receive | codechiev/net/TcpServer.cpp:30-63 | so is onRead with onData on the callee's channel, and its jobs are the messages the link has received |

## Left out

- BlockingQueues.BlockingQueue.TakeJob: one pass of the waiting loop; the loop is repeated Take steps of the transition system, because spurious wakeups keep it from having a termination measure.
- CountLatches.CountLatch.Latch: one pass of the waiting loop, for the same reason.
- Channels.Channel.Decode: what the C++ does after a length that wraps 32 bits is undefined and not modelled; the outcome is only reported.
- Channels.Channel.OnRead: a call whose reads fail for ever with an error other than EAGAIN does not end and is not modelled.
- TimerQueues.TimerQueue.Expire: is stated for an undisturbed call; interference between callbacks is in the step relation, where each callback is its own step.
- Exceptions that are not `std::exception` end the process and are not modelled; an empty job is a job that does nothing.
- A second `commence` after a stop is a step of the model, but the shutdown and last-job theorems are about runs without one.
- `Timer::every` and `Timer::after`: the timer queue does not use them.
- epoll, sockets, accept, connect, close, and the lifetime of channels: only their results appear, as byte counts and events.
- Protobuf serialisation, OpenSSL wrappers, the database client, logging, random numbers and the thread class: library wrappers or plumbing.
- Which of several equal deadlines comes first: any placement the multimap order allows is covered.
- 64-bit overflow of deadlines: deadlines and the clock are unbounded integers.
