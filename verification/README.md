# ML GridEngine executor: a verified model

The executor runs a user program, keeps the end of its output in memory, serves that output to
polling clients, saves it at the end, kills the program on request and reports to a callback API.
This project models the parts where that is difficult, and proves what they promise.

* `Bytes`, `Ring`, `Growth`: byte strings, circular storage, and how the ring grows.
* `StreamSpec`, `Readers`, `BufferSpec`, `OutputBuffer` (module `Buffering`): the output buffer, a
  class over an array, and its waiting list of blocked readers. Every method is one critical section
  of the source, and its contract equates the new abstract state (`View()`) with one step on the
  abstract state: the whole stream ever written, the retention limit, the closed flag, the queue.
* `BufferRuns`, `Lingering`: all runs of these steps, what each blocked call is told and returns, and
  how many cancelled entries linger.
* `Traffic`: the buffer object together with all calls under way. Each critical section is one event
  of its history, and the requests and arrays of the calls hold what the history says.
* `Polling`, `Frame`, `Client`: the poll handler, the framing of its response, and the polling
  client, while other threads write, close, start reads, give them up (even after they have been
  served) and finish them between any two calls.
* `SaveOutput`: the pump from the program to the buffer, the close after it, and the saved file,
  while clients go on polling.
* `KillProtocol`, `FinalStatus`, `ProgramExecutor` (module `Executor`): any number of threads that
  wait for or kill the program, step by step over two mutexes and a condition; what becomes of the
  final status; and the code of `wait`, `kill` and the reaper as one thread runs it while all others
  take any steps of that protocol. The code takes only steps of the protocol itself, so that what is
  proved of all its schedules holds of the code.
* `Callback`: retries with growing pauses, and the suppression of repeated documents.

## What the proofs say

The ring always holds exactly the last min(total, limit) bytes of the stream. A blocked reader is
served by the first write that passes its position, with the bytes of that write, even where the
ring no longer holds them. Whatever happens between the calls of a poll, the body sent is one slice
of the stream; what a client shows tiles the stream from 0 to the position it has reached, so that
when it is told that the output is over, bytes received and bytes announced as discarded add up to
everything written. The signals ever sent form a prefix of SIGINT, SIGINT, SIGKILL, the
two mutexes never deadlock, and every schedule ends.

Some statements one might expect are false of the code; each has its exact condition here:

* The counters of the waiting list. A reader whose wait times out cancels its request even if it
  has been served in the meantime (`src/OutputBuffer.cpp:280-282`, after line 110), and then
  `_activeCount` is decremented twice. It is right exactly when the number of such timeouts on
  record is 0 (modulo 2^64), and `_heapSize` exactly when that number was 0 at the last rebuild of
  the heap (`CountExactIff`). No answer depends on them.
* The bound on cancelled entries in the heap. It is kept on all continuations in which no such timeout
  happens, if and only if the buffer is closed or none is on record (`BoundKeptIff`). A single one can
  keep the heap from being rebuilt (`OneLateTimeOutDefeatsCompaction`).
* A blocked read returns what its reader has been given. It does unless its wait has timed out by the
  time it wakes; then it returns a timeout, even if the bytes are in its array (`ReturnsOnce`,
  `ServedButTimedOut`).
* A published exit status. A killer whose last wait has timed out sets CANNOT_KILL without looking
  again (`src/ProgramExecutor.cpp:229-233`). The published status stays for good exactly if no
  killer has come that far by then (`ExitKeptIff`, `ExitOverwritten`).
* CANNOT_KILL. A late reap replaces it by the real status (`src/ProgramExecutor.cpp:157-170`). It stays
  for good exactly if the end had been published before (`GivenUpKeptIff`, `GivenUpReplaced`).
* Signals go to the child only. Between `waitpid` and the publication of its result the status is still
  RUNNING, and a `kill` then signals a process number that is no longer the child's
  (`src/ProgramExecutor.cpp:155-158`, 200-204; `ReapedIsSignalled`, `ReapedIsSignalledIff`). After the
  publication no signal is sent (`SilentOncePublished`).
* The number of attempts to post. With 4294967295 retries, which the environment may ask for
  (`src/PersistAndCallbackManager.cpp:88-93`), the 32-bit counter wraps and the loop never ends by
  itself. At most `maxRetry` + 1 attempts are made while all fail, exactly if `maxRetry` is smaller
  than that (`RetriesEndIff`, `ReturnsIff`).
* The pauses between retries are computed in 32 bits. The pauses taken are the intended ones exactly
  if at most 43 retries are allowed (`ArithmeticExactIff`).
* Negative positions count from the end of the stream exactly while the sum fits a signed 64-bit
  integer (`NegativeBeginCountsFromEnd`).
* A write to an open buffer. It divides by zero at `src/OutputBuffer.cpp:164` exactly if the ring,
  once grown, has no cell: always with a limit of 0 (`--buffer-size=0` is accepted on the command
  line), and for an empty write while there is no cell yet (`WritableIff`).

Where code and comments disagree the model follows the code: `write` to a closed buffer throws
IllegalStateException, not RuntimeError (`src/OutputBuffer.h:141`); `kill` of a program that has not
been started returns instead of throwing (`src/ProgramExecutor.h:123`); `wait` also returns true when
the program has been given up (`src/ProgramExecutor.h:109`).

Preconditions that stand for the platform or the caller: fewer than 2^63 bytes are written in all;
a target array is as long as the count asked for, is not the ring, and is not shared by two calls
under way; a poll reads at least one byte at a time (`requestBufferSize >= 1`) from a buffer with at
least one cell. A condition wakes only those that have been signalled or have timed out.
Transport delivers every response completely, in chunks of any sizes.

## Model

| member | source | states |
|---|---|---|
| StreamSpec.NegativeBeginCountsFromEnd | src/OutputBuffer.h:103-111 | a negative position counts from the end, and from 0 at the earliest, if and only if the sum fits 63 bits |
| StreamSpec.TwosComplement | src/OutputBuffer.h:103-111 | -1 as a size_t and back, and the ends of ssize_t, in numbers |
| StreamSpec.AnswerMeaning | src/OutputBuffer.cpp:250-263 | a read starts at the requested position or at the oldest byte kept, brings at least one byte when asked for one, all there are if fewer than asked for; closed or waiting exactly when the position is not written yet |
| Ring.StoredAppends | src/OutputBuffer.cpp:161-176 | a wrapped copy behind the content appends the data to what the ring holds |
| Ring.DropMovesHead | src/OutputBuffer.cpp:196-200 | moving the head forgets exactly the oldest bytes |
| Ring.CopyIn | src/OutputBuffer.cpp:167-172 | one or two memory copies store the data across the end of the ring |
| Ring.CopyOut | src/OutputBuffer.cpp:148-154 | one or two memory copies take the bytes out in order and touch nothing behind them |
| Growth.CellsIff | src/OutputBuffer.cpp:178-182 | a write finds a cell exactly if the limit allows one and there is one already or something to grow for; never with a limit of 0 |
| Growth.WriteBalances | src/OutputBuffer.cpp:178-206 | old size plus count is new size plus bytes overwritten; the invariant of growth is kept by a write of any size |
| Growth.GrowthIsAmortised | src/OutputBuffer.cpp:144-206 | over any writes: capacity within the limit, nothing lost and head 0 before full capacity, losses sum to total minus size, and all expansions together copy fewer than twice the limit |
| Buffering.OutputBuffer.constructor | src/OutputBuffer.cpp:118-129 | an empty, open buffer without readers |
| Buffering.OutputBuffer.ExpandBuffer | src/OutputBuffer.cpp:144-159 | the content stays, from any head position, wrapped or not; capacity at least doubles up to the limit; the head is 0 after a copy |
| Buffering.OutputBuffer.CircularWrite | src/OutputBuffer.cpp:161-176 | appends as much of the data as there is room for |
| Buffering.OutputBuffer.Replace | src/OutputBuffer.cpp:184-202 | holds the last bytes of old content and data, as many as the capacity; counts the ones dropped |
| Buffering.OutputBuffer.Overwrite | src/OutputBuffer.cpp:178-206 | the ring is again exactly the end of the longer stream; overwritten bytes are conserved; the books follow `After` |
| Buffering.OutputBuffer.CircularRead | src/OutputBuffer.cpp:208-228 | copies the requested part of the content and leaves the rest of the target alone |
| Buffering.OutputBuffer.Write | src/OutputBuffer.cpp:230-248 | refused when closed; otherwise extends the stream and answers exactly the readers it passes, with the bytes of the stream from their positions, whether or not the ring still holds them |
| Buffering.OutputBuffer.TryReadAt | src/OutputBuffer.cpp:250-263 | answers as the stream, the limit and the closed flag prescribe, with the bytes of the stream |
| Buffering.OutputBuffer.TryRead | src/OutputBuffer.cpp:292-295 | the same for signed positions |
| Buffering.OutputBuffer.BeginRead | src/OutputBuffer.cpp:265-274 | answers at once, or leaves a request in the queue exactly when there is nothing to answer |
| Buffering.OutputBuffer.EndRead | src/OutputBuffer.cpp:275-289 | a timed-out reader cancels its request and gets a timeout, any other gets its result |
| Buffering.OutputBuffer.Close | src/OutputBuffer.cpp:297-304 | turns every queued reader away, empties the queue, once |
| Buffering.WritableIff | src/OutputBuffer.cpp:161-165 | the division by the capacity is defined for a write to an open buffer if and only if the grown ring has a cell; for no write with a limit of 0 |
| Buffering.SameStreamSameContents | src/OutputBuffer.h:51-61 | buffers with the same limit and stream hold the same bytes, whatever their initial capacities and however the bytes arrived |
| Readers.ReaderList.Top | src/OutputBuffer.cpp:37-41 | some entry with the least position |
| Readers.ReaderList.Add | src/OutputBuffer.cpp:69-73 | queues a reader and counts it |
| Readers.ReaderList.Cancel | src/OutputBuffer.cpp:75-91 | drops the reader from those waiting, rebuilding the heap from exactly the waiting ones if it has become too large |
| Readers.ReaderList.Close | src/OutputBuffer.cpp:93-101 | marks every entry closed, signals it, empties the heap, resets the counters |
| Readers.ReaderList.Process | src/OutputBuffer.cpp:103-115 | pops exactly the entries before the new total, answers exactly the waiting ones among them, keeps the rest unanswered |
| BufferSpec.WriteKeepsPromise | src/OutputBuffer.cpp:242-243 | after a write no entry, cancelled or not, waits for bytes that are there; this is the assertion at the next write |
| BufferRuns.StepIsSound | src/OutputBuffer.cpp:230-304 | each step leaves every blocked reader waiting or told exactly one right thing |
| BufferRuns.AnsweredExactlyOnce | src/OutputBuffer.cpp:230-304 | over all runs each blocked reader still waits or has left the queue once, by timeout, close or one write of the run, the first whose total passes its position, the last with min(count, total - position) bytes of the stream; fates never change; no lost wake-up |
| BufferRuns.ServedByAWrite | src/OutputBuffer.cpp:230-248 | that write: the reader waited right up to it, no total before it passed the position, and the totals on record are those before and after it |
| BufferRuns.ReturnsOnce | src/OutputBuffer.cpp:275-289 | over all runs the call of a blocked reader returns at most once: a timeout if and only if its wait timed out, even after it was served, and otherwise what the one way it left the queue says |
| BufferRuns.CountersOverRuns | src/OutputBuffer.cpp:69-115 | over all runs the counters equal the true sizes modulo 2^64, less a lag each: for the active count the timeouts of readers that had left, for the heap size their number at the last rebuild |
| BufferRuns.CountExactIff | src/OutputBuffer.cpp:75-89 | over all runs from the start, the active count is the number of waiting readers, and the heap size that of entries, if and only if the lag of each is 0 modulo 2^64 |
| Lingering.CancelBoundsCounters | src/OutputBuffer.cpp:75-90 | right after each `cancel`, in any state, the counter of entries is at most max(1000, 8 times the active count) |
| Lingering.RebuiltIff | src/OutputBuffer.cpp:78-87 | `cancel` rebuilds the heap if and only if it has more than 1000 entries and more than eight for each reader that still waits, and then from exactly those |
| Lingering.SmallHeapStays | src/OutputBuffer.cpp:78 | a heap of at most 1000 entries is never rebuilt, whatever the counters |
| Lingering.TimeOutBounds | src/OutputBuffer.cpp:78-87 | and so is the true number of entries, and the counters are exact, while no late timeout is on record |
| Lingering.DeadEntriesBounded | src/OutputBuffer.cpp:69-115 | over all runs that end with no late timeout on record, at most max(1000, 7 P) cancelled entries linger, P the most readers ever waiting at once |
| Lingering.PeakIsExact | src/OutputBuffer.cpp:69-73 | P is the largest number of readers waiting at any moment of the run |
| Lingering.BoundKeptIff | src/OutputBuffer.cpp:75-91 | from every reachable state, that bound is kept on all continuations without late timeouts if and only if the buffer is closed or none is on record |
| Lingering.OneLateTimeOutDefeatsCompaction | src/OutputBuffer.cpp:75-82 | after one reader was served and then timed out, any number of cancelled entries can pile up with one reader waiting at a time |
| Lingering.ServedButTimedOut | src/OutputBuffer.cpp:275-289 | a run from the start in which a reader is served and its call returns a timeout |
| BufferRuns.CompactionIsInvisible | src/OutputBuffer.cpp:78-91 | runs with and without rebuilding allow the same events, keep the same readers waiting and tell them the same |
| BufferRuns.RunStream | src/OutputBuffer.cpp:230-248 | the stream of a run is what was offered before the close, and nothing else |
| BufferRuns.ChunkingIsInvisible | src/OutputBuffer.cpp:250-263 | the same bytes in other portions, with other readers, with or without rebuilding, give the same answer to every read |
| Traffic.Write | src/OutputBuffer.cpp:230-248 | the buffer with all its calls goes on as its history: readers passed find their bytes, readers that had left keep theirs |
| Traffic.BeginRead | src/OutputBuffer.cpp:265-274 | the same for the first half of a read, beside any calls under way |
| Traffic.TimeOut | src/OutputBuffer.cpp:280-282 | the same for a wait that times out, whether or not its reader has been served |
| Traffic.Return | src/OutputBuffer.cpp:288-289 | a call that wakes in time returns what its history says, with exactly those bytes of the stream in its array |
| Traffic.Close | src/OutputBuffer.cpp:297-304 | the same for the close |
| Traffic.EveryCallIsAnswered | src/OutputBuffer.cpp:230-304 | at every moment of every run, each blocked call waits for bytes that are not there, or finds its answer and its bytes in its request and array, or has returned once |
| Polling.Perform | src/OutputBuffer.cpp:230-304 | any actions of other threads, late timeouts among them, extend the history, extend and close the stream exactly as they say, and leave every other call as it is |
| Polling.Await | src/OutputBuffer.cpp:272-289 | others do exactly what is planned for the wait, and then a blocked reader gets a piece of the stream at its position, or is told the end; a timeout if and only if its wait timed out or nothing had come |
| Polling.FirstRead | src/WebServerFactory.cpp:84-87 | the first read of a poll: which of the four outcomes it has, from the state it finds and what others do while it waits, exactly; a piece starts at the position or at the oldest byte kept when the poll started |
| Polling.SendCounted | src/WebServerFactory.cpp:117-128 | sends a longer slice of the stream, all of the first piece included; others act before each read as planned; it stops only at the count, a connection that is not good, the end or a gap |
| Polling.SendAvailable | src/WebServerFactory.cpp:129-139 | the same without a count; ends once the others pause |
| Polling.HandleRequest | src/WebServerFactory.cpp:56-141 | one poll: the body is one slice of the stream from the announced position, which is the requested one or that of the oldest byte kept as the poll starts; nothing read is thrown away; 410 if and only if the output is over, 204 if and only if it waits in vain; when and why it stops; the count is respected |
| Frame.HexParses | src/WebServerFactory.cpp:108 | a position in hexadecimal parses back to itself and contains no newline |
| Frame.FindUnique | examples/poll_output.py:16 | find gives the first occurrence |
| Frame.HeaderEndsAtNewline | examples/poll_output.py:16-18 | the header is the text before the first byte 10, the content what follows it |
| Frame.NoHeader | examples/poll_output.py:16-21 | without a byte 10, or with one at the start, all is content |
| Frame.ReadFirstLine | examples/poll_output.py:13-20 | the header is that of the whole text, however it is cut, and nothing behind it is lost |
| Frame.YieldContent | examples/poll_output.py:8-26 | for every text and every way to cut it: the position it announces, then chunks that join to the rest |
| Frame.FrameRoundTrip | src/WebServerFactory.cpp:107-113 | parsing a framed response gives its position and exactly its body |
| Frame.FrameShape | src/WebServerFactory.cpp:108 | a frame is the position in lower-case hexadecimal digits without leading zeros, a byte 10, and the body |
| Frame.FrameExample | src/WebServerFactory.cpp:107-113 | "1f", a newline and "abc" are the frame of position 31 and "abc", and are taken apart so |
| Frame.OtherLines | examples/poll_output.py:18 | "1F" is 31 too, and "x" is an exception |
| Client.ShowChunks | examples/poll_output.py:50-54 | chunks shown one by one extend the tiling of the stream by their total length |
| Client.Show | examples/poll_output.py:42-55 | a response extends the tiling and all its bytes are shown, after an announcement of exactly the positions skipped, none of which is kept any more; the position advances |
| Client.PollOnce | examples/poll_output.py:37-57 | one poll keeps the account and reacts to 410, 204 and 200; there is no content only if nothing was there for the client, and otherwise it shows all the bytes from its position or the oldest kept |
| Client.Follow | examples/poll_output.py:33-57 | over any polls among any actions of others: what is shown tiles the stream up to the position reached and holds every byte received, only positions no longer kept are announced as lost; as many polls as there were bytes reach them all; it stops only at the end of a closed stream, and after the close it does stop |
| Client.TilesAddUp | examples/poll_output.py:45-55 | bytes received plus bytes announced equal the position; without announcements the bytes are the stream itself |
| Client.NothingUnaccounted | examples/poll_output.py:36-55 | at the end, received plus discarded equals everything written; all of it was received if the limit was never exceeded |
| SaveOutput.Pump | src/IOController.cpp:30-36 | the stream grows by exactly what the pipe gave before its end, whatever polls go on between the writes |
| SaveOutput.ReadClosed | src/OutputBuffer.cpp:265-271 | a blocking read of a closed buffer never waits |
| SaveOutput.SaveBody | src/main.cpp:212-217 | the loop ends and writes exactly the retained bytes, while clients go on polling |
| SaveOutput.Discarded | src/main.cpp:204-205 | the header counts the bytes no longer kept |
| SaveOutput.Save | src/main.cpp:196-217 | the retained bytes are saved behind a header with exactly the number of the others |
| SaveOutput.PumpCloseSave | src/main.cpp:189-217 | from the program's output to the file, clients polling all the while: its last bytes up to the limit, and the count of all others |
| Executor.ProgramExecutor.Wait | src/ProgramExecutor.cpp:181-194 | throws before the start; afterwards its run, interleaved with any steps of others, is a schedule of the protocol, and ends if the program does or at the timeout; true, or any return without a timeout, means the status is not RUNNING; if it was not RUNNING at the call the result is true, and it is false only if this wait has timed out |
| Executor.ProgramExecutor.Kill | src/ProgramExecutor.cpp:207-240 | its run, interleaved with any steps of others, is a schedule of the protocol and ends; then the status is not RUNNING, the signals sent are a prefix of SIGINT, SIGINT, SIGKILL, all of it if the status is CANNOT_KILL, and none of them is new if it was not RUNNING before |
| Executor.ProgramExecutor.WaitInBackground | src/ProgramExecutor.cpp:153-170 | its run is a schedule of the protocol; at its end the status is how the child ended and nobody is left asleep |
| Executor.ProgramExecutor.GoneForGood | src/ProgramExecutor.cpp:200-205 | whatever runs on the object, a status that is not RUNNING stays so and no signal is sent any more |
| KillProtocol.SomebodyElse | src/ProgramExecutor.cpp:153-240 | whoever sleeps or queues for a mutex can rely on another thread, the reaper or the end of the child to go on |
| KillProtocol.Broadcast | src/ProgramExecutor.cpp:164 | every sleeping thread wakes, no other moves |
| KillProtocol.StepKeepsInv | src/ProgramExecutor.cpp:153-240 | every step of every thread keeps the invariant over locks, status and signals |
| KillProtocol.EscalationIsSafe | src/ProgramExecutor.cpp:207-240 | for any threads and schedule: signals are a prefix of SIGINT, SIGINT, SIGKILL; CANNOT_KILL only after all three; a returned `kill`, or a `wait` that returned true, left the program not running; nobody sleeps unless it runs |
| KillProtocol.OnlyTimeOutsEscalate | src/ProgramExecutor.cpp:181-240 | over all schedules: a `wait` returns false if and only if it has timed out; a killer makes its next attempt, and gives up, only after every wait before has timed out |
| KillProtocol.TimesOutIff | src/ProgramExecutor.cpp:213-228 | a sleeping killer may time out if and only if there is a timeout for the wait that follows the last signal sent: the first SIGINT, the second, or SIGKILL |
| KillProtocol.EndedIsNotKilled | src/ProgramExecutor.cpp:208 | a `kill` that finds the status not RUNNING is over at once: no mutex, no signal, nothing changed |
| KillProtocol.EndedIsNotAwaited | src/ProgramExecutor.cpp:191-193 | a `wait` that finds it so returns true without sleeping |
| KillProtocol.NeverRunsAgain | src/ProgramExecutor.cpp:200-205 | once not running, never running again, and no further signal is sent |
| KillProtocol.OnlyTheProgramIsAwaited | src/ProgramExecutor.cpp:181-194 | where no thread can step, all are finished, asleep, or queue behind a sleeping killer, and then the program still runs: no deadlock and no stuck waiter |
| KillProtocol.RunTakesItsLength | src/ProgramExecutor.cpp:153-240 | every step uses up one of a bounded number |
| KillProtocol.EveryScheduleEnds | src/ProgramExecutor.cpp:153-240 | at most 26 steps for each thread and 3 for the reaper; after the child's end every call returns |
| KillProtocol.TimedCallsReturn | src/ProgramExecutor.cpp:207-240 | if every wait has a timeout, then where only the child's end could still happen every call has returned, and after any kill the status is not RUNNING: calls return even if the program never ends |
| FinalStatus.ExitStays | src/ProgramExecutor.cpp:157-170 | a published end stays if no killer has resigned by then |
| FinalStatus.ExitIsLost | src/ProgramExecutor.cpp:229-233 | a killer that has resigned can replace it by CANNOT_KILL |
| FinalStatus.ExitOverwritten | src/ProgramExecutor.cpp:207-240 | a schedule from the start in which that happens: EXITED is published and then replaced |
| FinalStatus.ExitKeptIff | src/ProgramExecutor.cpp:229-233 | from every state with a published end, whoever holds the mutexes, it stays on every continuation if and only if nobody has resigned |
| FinalStatus.GivenUpKeptIff | src/ProgramExecutor.cpp:157-170 | CANNOT_KILL stays on every continuation if and only if the child's end had been published before |
| FinalStatus.GivenUpReplaced | src/ProgramExecutor.cpp:157-170 | a schedule from the start in which EXITED replaces CANNOT_KILL |
| FinalStatus.ReapedIsSignalledIff | src/ProgramExecutor.cpp:155-158 | once the child has been reaped, a step sends a signal if and only if it is that of a killer in `_killIfRunning` while the end is not published and the reaper still wants its mutex |
| FinalStatus.ReapedIsSignalled | src/ProgramExecutor.cpp:200-204 | a schedule from the start in which that happens |
| FinalStatus.SilentOncePublished | src/ProgramExecutor.cpp:200-204 | after the publication no signal is sent any more |
| Callback.PostEvent | src/PersistAndCallbackManager.cpp:100-131 | every call that returns stops at the first success or where the 32-bit counter runs out, and pauses after every other failure; the pauses follow 5, 8, 13, ... modulo 2^32 |
| Callback.RetriesEndIff | src/PersistAndCallbackManager.cpp:109 | while all attempts fail, exactly maxRetry + 1 are made if and only if maxRetry is not the largest 32-bit number, with which they never end |
| Callback.ReturnsIff | src/PersistAndCallbackManager.cpp:109-113 | a call returns if and only if an attempt succeeds or maxRetry is smaller than that |
| Callback.TotalPause | src/PersistAndCallbackManager.cpp:121-126 | the time slept over k pauses is the pause after the next, less 8 |
| Callback.PauseFitsIff | src/PersistAndCallbackManager.cpp:124 | a pause is not wrapped if and only if it is among the first 43 |
| Callback.FirstWrappedPause | src/PersistAndCallbackManager.cpp:124 | the 44th pause is 512559680 seconds instead of 4807526976 |
| Callback.ArithmeticExactIff | src/PersistAndCallbackManager.cpp:107-126 | nothing wraps if and only if at most 41 retries are allowed; no pause taken is wrapped if and only if at most 43 are |
| Callback.CollapsedMeaning | src/PersistAndCallbackManager.cpp:160 | collapsing keeps first and last, leaves no equal neighbours, and changes nothing without any |
| Callback.NoteKeepsUpToDate | src/PersistAndCallbackManager.cpp:157-166 | posting exactly the news keeps the posts of every tag equal to its notifications collapsed |
| Callback.CallbackManager.FileGenerated | src/PersistAndCallbackManager.cpp:157-166 | each notification is taken in, and posted unless it repeats the last one of its tag |
| Callback.LastPostedIsLastSeen | src/PersistAndCallbackManager.cpp:157-166 | for each tag the last document posted is the last one seen, and none is posted twice in a row |

## Left out

- The operating system: fork, exec, pipes, waitpid, signal delivery; they are events of the model (a read from the pipe gives bytes or nothing, the child ends, a signal is sent).
- The inside of the pairing heap: only that its top has the least position; which of several equal ones is open.
- The libraries for HTTP, URIs, JSON, Base64 and files; parsing of the query parameters; the readable size in the header of the saved file.
- Frame.YieldContent: `int(s, 16)` is modelled on plain hexadecimal digits; the signs, blanks, prefixes and underscores Python also takes never occur in a frame.
- Executor.ProgramExecutor.Kill: that it returns relies on the other threads being scheduled, and where it waits without a timeout on the child ending; which threads call what is fixed beforehand, each at any time.
- Lingering.BoundKeptIff: stated for fewer than 2^58 blocked reads in all, and given enough requests to come.
- Real time: a wait with a timeout may time out at any moment.
- Memory management, logging, command line, the response of the kill handler, the signal handler, directory sizes and the watcher for generated files: plumbing or single-branch facts.
