# Proofs about libuv

This project models the parts of the vendored libuv that carry real algorithms and
protocols, and proves what they promise. `dafny verify dfyconfig.toml` checks all of it.

| files | what they model | source |
|---|---|---|
| `Utf8`, `Rfc3492`, `Punycode`, `Idna` | the UTF-8 decoder, a Punycode decoder after its RFC, the encoder in 32-bit arithmetic, international domain names | `idna.c` |
| `Wtf8` | conversion between UTF-16 and WTF-8, with the functions that compute lengths | `idna.c` |
| `ThreadPool`, `ThreadPoolScheduling`, `ThreadPoolItems`, `ThreadPoolRuns`, `ThreadPoolProgress` | workers, the work queue, slow work, cancellation, completion | `threadpool.c` |
| `Queue` | the intrusive queues that link all of these | `queue.h` |
| `Async` | the lock-free wakeup of a loop and its closing | `_darwin/async.c` |
| `Barrier` | the portable reusable barrier | `thread-common.c` |
| `Buffers`, `StreamLedger`, `Stream` | the write side of a stream | `_darwin/stream.c` |
| `InetText`, `InetText6`, `InetPrinted`, `Inet` | IPv4 and IPv6 addresses as text | `inet.c` |
| `Signal` | signal handlers, signal pipes, handles that come and go | `_darwin/signal.c`, `_darwin/core.c` |
| `PowerOfTwo`, `Watchers` | the table of I/O watchers and the dispatch of a batch of events | `_darwin/core.c`, `_darwin/kqueue.c` |
| `Timers` | the timer heap and the two phases of running timers | `timer.c` |
| `PipeFrames`, `PipeReader` | the framing of IPC pipes on Windows | `_win/pipe.c` |

How it is modelled:

- Code that fills buffers and moves cursors is Dafny code that does the same on arrays or
  sequences, proved against functions that say what is written. Those functions have their
  own laws: inverses, grammars, exact lengths.
- Objects that are updated in place are classes (`Queue.Node`, `Stream`, `Watchers.Loop`, `Watchers.Io`,
  `Timers.Loop`, `Timers.Timer`, `PipeReader.Reader`). The kernel and the user's callbacks
  are arbitrary: any number of bytes accepted, any error, any further calls from a callback.
- Code that runs in several threads is a state machine. A step is what one thread does
  while it holds a mutex, or one atomic operation, or one call of a user's function. A
  run is any sequence of enabled steps, for any number of threads, and condition variables
  may wake spuriously. What is proved of runs holds in every state of every run.
- What is computed is also said in other words than the code's: by a decoder of its own, by
  the tables of the RFCs, in plain comparisons, on literal bytes, or by who can move when.

Some results show where the code does not do what one might expect, and exactly when:

- A `uv_cancel` made from, or after, the done callback of a request that was cancelled
  succeeds again, since the node of such a request still looks linked, and done is called
  a second time. All other cancels are safe; the status given to done tells which is which
  (`ThreadPoolRuns.CancelKeepsDoneOnce`, with a run in `ThreadPoolRuns.DoneTwice`). Such a
  cancel also removes a node that is in no queue. That leaves the queues as they are exactly
  if it is made from done and what stood behind the request then still does
  (`Queue.RemoveAgain`); else it may bring a neighbour back (`Queue.RelinksANeighbour`).
- The assertion that a blocking stream has nothing queued fails exactly when a write is
  accepted, the stream is connected, and some request that is not called back yet has a
  byte unsent. A write that failed is such a request until its callback
  (`Stream.Stream.Write2`, `StreamLedger.NothingOwed`, `Stream.BlockingAssertionFails`).
- A shutdown requested while a connection is being made is left without an event if the
  attempt succeeds with nothing queued, or fails, and the watcher is no longer in the
  pending queue; nothing else does that, except a request made in the callback of an attempt
  that fails (`Stream.Stream.StreamConnect`, with a run in `Stream.ShutdownIsStranded`).
- The two 32-bit counters of a signal handle are compared for order. A closing handle is let
  go too early exactly if the first has wrapped and the second has not
  (`Signal.FinishExact`, with a run in `Signal.LetGoTooEarly`).
- `uv__write_req_update` says that it returns 1 when all data has been written. It does
  so only if no empty buffer stands behind the last byte; otherwise the request stays open
  until later writes of no bytes have passed them (`Stream.Advance`, with an input in
  `Stream.EmptyBufferKeepsItOpen`).
- `next_power_of_two` is right for 1 to 2^31 and returns 0 for everything else
  (`PowerOfTwo.NextPowerOfTwoExact`), so starting a watcher on the largest descriptor that
  the assertion in `uv__io_start` admits frees the table of watchers and leaves the loop
  pointing to it (`Watchers.Loop.IoStart`).
- `uv__pipe_write_ipc` counts its buffers before it knows whether it will use them: with
  buffers that hold no data, few enough for the array on the stack, it passes on entries
  it has not set (`PipeFrames.WritesTheFrame`, with an input in
  `PipeFrames.EmptyBufferLeaks`). The size it can send is also smaller than its own limit
  suggests, since the limit is applied once more to the whole frame (`PipeFrames.WriteIpc`).
- If the user has no buffer for the data of an IPC frame, `uv__pipe_read_data` leaves the
  number of bytes read at the number it was asked for. The rest of the frame then counts as
  read, and the reader takes what follows for a header, which no frame that was written has
  there (`PipeReader.ReadOne`, with a run in `PipeReader.ByteIsLost`).
- The UTF-8 decoder takes any two bytes whose top bits are alike for continuation bytes, and
  reads a lead byte with too few bytes behind it as a shorter form. What it accepts is well
  formed exactly if all bytes behind the lead byte are continuation bytes and enough of them
  are there (`Utf8.WellFormedExactly`, with an input in `Utf8.MalformedAccepted`). The WTF-8
  decoder accepts overlong forms of three and four bytes and nothing else that is malformed
  (`Wtf8.DecodedExactly`).
- An ASCII label of 2^31 bytes or more is refused, since its length is returned as an int
  (`Idna.RefusedExactly`, `Idna.LongPlainLabel`).

## Model

| member | source | states |
|---|---|---|
| Utf8.Decode1 | source/main/cpp/idna.c:138-149 | every accepted result is a scalar value, never a surrogate or above U+10FFFF, and the cursor moves on but not past the end |
| Utf8.DecodeSlow | source/main/cpp/idna.c:71-135 | the same for the multi-byte forms, with the fall-through of a lead byte that has too few bytes left |
| Utf8.DecodeInvertsEncode | source/main/cpp/idna.c:71-149 | every well-formed sequence of RFC 3629 decodes to its code point, and the cursor stands exactly behind it |
| Utf8.CodePointsInvertsEncodeAll | source/main/cpp/idna.c:177-187 | the decoding loop reads the UTF-8 form of any list of scalar values back as that list |
| Utf8.EncodeTable | source/main/cpp/idna.c:71-149 | the well-formed sequences meant here are those of the table in section 3 of RFC 3629: their lengths, their byte ranges and the bits each byte carries |
| Utf8.WellFormedExactly | source/main/cpp/idna.c:71-149 | what is accepted is the well-formed sequence of its code point if and only if the lead byte has as many bytes left as its form needs and all of them are continuation bytes |
| Utf8.TopBits | source/main/cpp/idna.c:117 | the test passes exactly if the exclusive or of the three pairs of top bits is 10 |
| Utf8.MalformedAccepted | source/main/cpp/idna.c:117 | E2 41 41 is read as U+2041, whose form is E2 81 81 |
| Punycode.DecodeIntInverts | source/main/cpp/idna.c:261-287 | the variable-length digits of a delta are read by the decoder of RFC 3492 section 6.2 as that delta, from any position and weight, with any input behind them |
| Punycode.PassesDecode | source/main/cpp/idna.c:227-312 | if encoder and decoder are in step, decoding what the remaining outer passes write yields all code points of the label |
| Punycode.ScanDecode | source/main/cpp/idna.c:249-308 | the same from the middle of a pass: delta, bias and the place of insertion agree at every step |
| Punycode.EmissionInserts | source/main/cpp/idna.c:246-308 | a written delta makes the decoder insert the right code point at the right place of what it has so far |
| Punycode.SplitAtDelimiter | source/main/cpp/idna.c:217-220 | the last hyphen splits basic code points from digits, whatever hyphens the label itself has |
| Punycode.RoundTrip | source/main/cpp/idna.c:152-315 | for every label with a code point above 127 that is encoded, the text is `xn--` and lower-case letters, digits and hyphens that a decoder after section 6.2 of RFC 3492, with parameters, digits and delimiter of its own, maps back to exactly its code points |
| Punycode.ShortLabels | source/main/cpp/idna.c:240-246 | every label of at most 3854 code points is encoded, never refused for overflow |
| Punycode.PlainLabel | source/main/cpp/idna.c:197-215 | a label of ASCII is written as it is |
| Punycode.Sample | source/main/cpp/idna.c:152-315 | on bytes: the label "bücher" is written as `xn--bcher-kva` |
| Idna.EmitDigits | source/main/cpp/idna.c:261-287 | the digit loop writes the digits of the delta in order, each one only while there is room, and ends |
| Idna.AdaptBias | source/main/cpp/idna.c:289-306 | in 32-bit arithmetic without guards, the new bias is that of RFC 3492 section 6.1 |
| Idna.CountKinds | source/main/cpp/idna.c:170-187 | fails exactly when the UTF-8 decoder does, and otherwise counts basic and other code points modulo 2^32 |
| Idna.FindMin | source/main/cpp/idna.c:228-238 | the least code point that is not below n |
| Idna.GuardExact | source/main/cpp/idna.c:240-246 | the overflow guard fires exactly when the sum would not fit 32 bits |
| Idna.ScanPass | source/main/cpp/idna.c:249-308 | one pass writes the deltas of all occurrences of n, or fails exactly when the exact arithmetic leaves 32 bits; the count of code points left stays right |
| Idna.PassEnds | source/main/cpp/idna.c:308-312 | the unguarded increments behind a pass cannot wrap, and every pass lowers the number of code points left |
| Idna.EncodePasses | source/main/cpp/idna.c:222-315 | the outer loop ends, succeeds exactly when no exact value leaves 32 bits, and writes the exact encoding as far as there is room |
| Idna.ToAsciiLabel | source/main/cpp/idna.c:152-315 | a label is malformed, overflows, or is written as far as it fits; bytes outside the window are untouched |
| Idna.ToAscii | source/main/cpp/idna.c:318-367 | a result that is not negative means that nothing was skipped: the whole name and its NUL are in the buffer and the result is their length; it is negative exactly for an empty input, a failing label, or a name that does not fit |
| Idna.RefusedExactly | source/main/cpp/idna.c:214-215 | a label that can be encoded is refused exactly if it is ASCII and its length does not fit an int |
| Idna.NameMeaning | source/main/cpp/idna.c:330-360 | the name that is written is the encodings of the labels, joined by one full stop for each of the four separators |
| Idna.LabelRoundTrip | source/main/cpp/idna.c:152-315 | on bytes: what is written for a label decodes to the code points its UTF-8 decodes to |
| Wtf8.Decode1 | source/main/cpp/idna.c:28-68 | a result that is not negative consumed no NUL but its own, so the next read starts inside the string |
| Wtf8.DecodedExactly | source/main/cpp/idna.c:28-68 | what is accepted is the encoding of the code point if and only if it is not an overlong form of three or four bytes |
| Wtf8.LengthAsUtf16 | source/main/cpp/idna.c:370-384 | exactly the number of units the converter writes, terminator included, or -1 for invalid input |
| Wtf8.ToUtf16 | source/main/cpp/idna.c:387-409 | writes exactly the units of the string into the given length and nothing else |
| Wtf8.SurrogateValue | source/main/cpp/idna.c:412-424 | the code point at the front of the text by section 2 of RFC 2781, lone surrogates standing for themselves, for counted and for terminated texts |
| Wtf8.SurrogateExact | source/main/cpp/idna.c:412-424 | in numbers: a high half before a low half gives 0x10000 + (high - 0xD800) * 0x400 + (low - 0xDC00), any other unit itself |
| Wtf8.EncodingStep | source/main/cpp/idna.c:504-534 | the bytes of a text start with those of that number, and go on with those of the text behind its one or two units |
| Wtf8.EncodingIsUtf8 | source/main/cpp/idna.c:427-534 | for any list of scalar values, the encoding of its UTF-16 form is its UTF-8 form |
| Wtf8.LengthAsWtf8 | source/main/cpp/idna.c:427-457 | exactly the length of the encoding the writer produces |
| Wtf8.WriteCodePoint | source/main/cpp/idna.c:504-534 | the bytes of one code point, cut off exactly where the buffer ends |
| Wtf8.ReportedLength | source/main/cpp/idna.c:535-556 | the length reported when the buffer is too small is never too small, and is exact when the capacity is zero or one whole code point was stored |
| Wtf8.FillWtf8 | source/main/cpp/idna.c:460-560 | with a buffer: as much of the encoding as fits and a NUL, nothing beyond, success exactly if all of it fits, and the reported length |
| Wtf8.AllocateWtf8 | source/main/cpp/idna.c:473-492 | without a buffer: exactly the encoding and a NUL, in exactly as much memory |
| Wtf8.RoundTrip | source/main/cpp/idna.c:28-68 | any units without NUL, lone surrogates included, come back from their WTF-8 form unchanged, with the terminator |
| Wtf8.MaximumExcluded | source/main/cpp/idna.c:396-399 | the converter's assertion on the range holds exactly for texts that do not contain the pair DBFF DFFF |
| ThreadPoolScheduling.StepKeepsScheduled | source/main/cpp/threadpool.c:57-161 | every step keeps the counters exact, slow work below its threshold, one message for it while any is pending, and enough awake workers for what can run |
| Queue.EmptyMeans | source/main/include/clibuv/private/queue.h:32-34 | a head looks empty exactly if nothing is queued, and a queued node never does |
| Queue.InsertTail | source/main/include/clibuv/private/queue.h:77-83 | the links of a queue of s become those of s with the node behind it |
| Queue.Remove | source/main/include/clibuv/private/queue.h:85-88 | the links become those of s without the node, whose own links stay |
| Queue.Move | source/main/include/clibuv/private/queue.h:62-67 | all nodes go over in order, and the old head is empty |
| Queue.RemoveAgain | source/main/include/clibuv/private/queue.h:85-88 | a node that was first and was removed is removed once more: the queue stays one exactly if what stood behind the node is first now, and then no link changes |
| Queue.RelinksANeighbour | source/main/include/clibuv/private/queue.h:85-88 | two nodes and two queues, after which neither is a queue any longer |
| ThreadPoolItems.StepKeepsTracked | source/main/cpp/threadpool.c:57-342 | every step keeps each item in the one list or thread its place names, once, with what has happened to it recorded truthfully; a cancel that writes through stale links is marked as the end of the run |
| ThreadPoolRuns.BreaksExactly | source/main/cpp/threadpool.c:292-317 | a cancel writes through stale links exactly if it is one of an item whose done was given UV_ECANCELED, unless it is made from that done and the same item, or none, still stands behind it |
| ThreadPoolRuns.StaleCancel | source/main/cpp/threadpool.c:292-317 | a run that does: submit, cancel, done, cancel again |
| ThreadPoolRuns.NoLostWakeup | source/main/cpp/threadpool.c:66-161 | in no reachable state do all live workers sleep unsignalled while work is queued that may start, slow work counting as such while fewer than half of the workers, rounded up, do some, nor while the exit message is queued |
| ThreadPoolRuns.SlowWork | source/main/cpp/threadpool.c:45-139 | slow work running never exceeds half the threads rounded up, its counter is exact, and pending slow work always has its message queued, once |
| ThreadPoolRuns.NoOvertaking | source/main/cpp/threadpool.c:81-161 | work of each kind starts in the order of submission |
| ThreadPoolRuns.OnePlace | source/main/cpp/threadpool.c:88-342 | unless a cancel has written through stale links, every item is in the one list or thread its place names, once and nowhere else, and its work runs at most once |
| ThreadPoolRuns.DoneCalls | source/main/cpp/threadpool.c:292-337 | unless a cancel has written through stale links, done has been called once if the item is finished, and once more for every cancel made after done had been given UV_ECANCELED |
| ThreadPoolRuns.ExactlyOnce | source/main/cpp/threadpool.c:88-342 | unless a cancel has written through stale links, done has been called exactly if the item is finished, and then once, if and only if no such late cancel was made |
| ThreadPoolRuns.CancelKeepsDoneOnce | source/main/cpp/threadpool.c:292-317 | a cancel keeps that for all items, and the queues whole, if and only if it is not one of an item whose done was given UV_ECANCELED |
| ThreadPoolRuns.DoneTwice | source/main/cpp/threadpool.c:292-337 | a run in which done is called twice, with a cancel from done |
| ThreadPoolRuns.QuietMeansFinished | source/main/cpp/threadpool.c:57-342 | unless a cancel has written through stale links: when all live workers sleep and no loop has completions left, every item ever submitted is finished: run once and reported once as success, or never run and only reported as UV_ECANCELED |
| ThreadPoolRuns.CancelIsHonest | source/main/cpp/threadpool.c:292-342 | after a successful cancel the work never runs and done is only ever given UV_ECANCELED; after UV_EBUSY a worker has the item or its work has run, and done gets 0, once |
| ThreadPoolProgress.MutualExclusion | source/main/cpp/threadpool.c:57-161 | at most one worker has the mutex, and worker, submitter and canceller take it only when none has it |
| ThreadPoolProgress.HolderExactly | source/main/cpp/threadpool.c:66-118 | which step a worker with the mutex takes, by plain conditions on the queue and on how many workers do slow work: when it waits, takes work, leaves, puts the slow message off, drops it, or takes slow work |
| ThreadPoolProgress.SlowWorkStarts | source/main/cpp/threadpool.c:45-118 | a worker with the mutex that finds the slow message first, slow work pending, and fewer than half of the workers, rounded up, at slow work, takes it; it neither waits nor puts it off |
| ThreadPoolProgress.WorkersMove | source/main/cpp/threadpool.c:57-161 | in every reachable state a worker that has the mutex, has picked work or has run it can go on, and one that wants the mutex can have it when it is free |
| ThreadPoolProgress.LoopsMove | source/main/cpp/threadpool.c:292-342 | a loop can always finish its cancel, return from a callback, call the next one or collect completions |
| ThreadPoolProgress.NothingIsStuck | source/main/cpp/threadpool.c:57-342 | if neither a worker nor a loop can move and some worker lives, every item ever submitted is finished |
| ThreadPoolProgress.StartsRecorded | source/main/cpp/threadpool.c:81-118 | an item that a worker has or has run stands in the order of starts, of which no overtaking is proved |
| Async.NoLostWakeup | source/main/cpp/_darwin/async.c:93-210 | a completed send that no callback has answered still has its flag set, and a wakeup is pending, about to be written, or the scan has yet to come to the handle |
| Async.ServedMeansAnswered | source/main/cpp/_darwin/async.c:193-210 | a send counts as served only if, after it saw or set the flag, the loop visited its handle, cleared the flag and called the callback if there is one |
| Async.QuietMeansAnswered | source/main/cpp/_darwin/async.c:93-210 | when the loop polls without a wakeup token and no sender is about to write one, every completed send to an open handle has been answered so |
| Async.OneCallPerRing | source/main/cpp/_darwin/async.c:99-210 | sends coalesce and callbacks are never spurious: an open handle's callback has been called once for each exchange of a sender that set the flag, but for the one still pending |
| Async.StepKeeps | source/main/cpp/_darwin/async.c:74-210 | every atomic step of any sender or of the loop keeps the protocol's invariant |
| Async.BusyIsExact | source/main/cpp/_darwin/async.c:104-112 | the busy counter is the number of senders inside the critical section |
| Async.SafeClose | source/main/cpp/_darwin/async.c:120-157 | after uv__async_close returns no sender, whatever it had read, writes a wakeup for the handle, and no scan visits it |
| Async.SendersMove | source/main/cpp/_darwin/async.c:93-112 | in every reachable state a sender that has not returned can take its next step; it is never made to wait |
| Async.LoopMoves | source/main/cpp/_darwin/async.c:120-210 | the loop can take its next step, unless it closes a handle that some sender is still inside of |
| Async.OneWakeupPerRing | source/main/cpp/_darwin/async.c:93-112 | a send that has returned wrote a wakeup exactly if it set a flag that was clear |
| Async.TokenExactly | source/main/cpp/_darwin/async.c:159-192 | the loop has a wakeup to read exactly if a sender has written since it last read |
| Barrier.StepKeeps | source/main/cpp/thread-common.c:85-120 | every turn of a thread with the mutex keeps rounds apart: one fills or one empties, never both |
| Barrier.Generations | source/main/cpp/thread-common.c:101-119 | nobody leaves a round that was not entered by exactly threshold threads; nobody is counted in a round before all have left every earlier one; each finished round has one winner |
| Barrier.WhoLeaves | source/main/cpp/thread-common.c:114-119 | a call ends only in the round it was counted in, and returns 1 exactly if it is the last of that round to leave |
| Barrier.OneSideAtATime | source/main/cpp/thread-common.c:101-114 | `out` not zero implies `in` zero, and the one that is not zero counts the waiting threads exactly |
| Barrier.OnlyAPartialRoundSleeps | source/main/cpp/thread-common.c:101-112 | if no thread inside the barrier can take a step, spurious wakeups apart, and there is one, then `out` is zero, and those inside are a round that is not full: nobody is left asleep when others have returned |
| Buffers.CountBufs | source/main/cpp/uv-common.c:649-658 | the number of bytes in a list of buffers |
| Stream.Advance | source/main/cpp/_darwin/stream.c:687-711 | what is left of the buffers is exactly the rest of the bytes; the index reaches the end exactly if all bytes are gone and no empty buffer stands behind them |
| Stream.Stream.WriteReqUpdate | source/main/cpp/_darwin/stream.c:687-711 | the accounting goes down by the bytes taken; returns 1 exactly under the condition above |
| Stream.Stream.WriteHead | source/main/cpp/_darwin/stream.c:846-874 | one write attempt: what the kernel takes of the head's unsent bytes, and nothing else, goes onto the wire, and a finished request moves to the completed queue |
| Stream.Stream.Write | source/main/cpp/_darwin/stream.c:839-897 | everything stays booked; what was queued first is offered to the kernel, and what it takes follows on the wire; if anything is left, a write event is armed, or 33 requests have finished, or one has failed, and then the watcher is fed; an error at once fails the head and nothing else |
| Stream.Stream.Write2 | source/main/cpp/_darwin/stream.c:1332-1398 | accepted exactly if the stream is writable and open, appended behind all others with all its bytes, and never stranded; tells exactly when the assertion about blocking streams fails |
| Stream.BlockingAssertionFails | source/main/cpp/_darwin/stream.c:1385-1390 | a blocking stream, a write that fails with UV_EPIPE, and a write before its callback: the assertion fails |
| Stream.Stream.Shutdown | source/main/cpp/_darwin/stream.c:1159-1185 | accepted once, from a writable stream; from then on no write is |
| Stream.Stream.Close | source/main/cpp/_darwin/stream.c:1506-1541 | leaves queues and accounting as they are, and takes the watcher off the loop |
| Stream.Stream.FlushWriteQueue | source/main/cpp/_darwin/stream.c:439-451 | every queued request moves to the completed queue in order, with the error |
| Stream.Stream.WriteCallbacks | source/main/cpp/_darwin/stream.c:900-928 | what was completed is called back in order, each once, with callbacks that may write, shut down or close; unsent bytes are written off first |
| Stream.Stream.Drain | source/main/cpp/_darwin/stream.c:625-658 | with nothing left to write a pending shutdown ends: shutdown(2) is issued once and its answer given to the callback, and the stream is shut down exactly if it succeeded; on a closing stream the callback gets UV_ECANCELED instead; without a request there is neither; after success nothing reaches the kernel |
| Stream.Stream.StreamConnect | source/main/cpp/_darwin/stream.c:1245-1291 | after a connection attempt ends, nothing that was queued is stranded or lost; success strands a shutdown request exactly if it was pending before, with nothing queued and the watcher not in the pending queue; failure exactly if it was pending before, or by the end of the connect callback, and the watcher was not in the pending queue |
| Stream.ShutdownIsStranded | source/main/cpp/_darwin/stream.c:1245-1291 | a run that strands one, unless the connect callback closes the stream |
| Stream.Stream.StreamIo | source/main/cpp/_darwin/stream.c:1188-1237 | any event, with any callbacks, keeps the books and leaves what is queued armed, and a shutdown request too; a write event tries what is queued first, and ends a shutdown request, with its callback, unless something stays queued |
| Stream.Stream.Destroy | source/main/cpp/_darwin/stream.c:454-469 | every accepted request has been called back, in order, those still queued with UV_ECANCELED, and write_queue_size is zero |
| Stream.EveryRun | source/main/cpp/_darwin/stream.c:439-1398 | over any run of calls and events, to destruction: the books are sound, nothing queued is stranded, nor a shutdown request but for the exception above, and at the end nothing is owed and every accepted shutdown has had its callback, once |
| StreamLedger.AcceptSound | source/main/cpp/_darwin/stream.c:687-711 | bytes taken from the head keep the wire equal to the accepted prefixes of all requests in order, and the size equal to what is unsent |
| StreamLedger.AcceptLastSound | source/main/cpp/_darwin/stream.c:713-736 | the same when the head finishes |
| StreamLedger.CallBackSound | source/main/cpp/_darwin/stream.c:910-926 | writing off a request that failed never takes more from the size than is there |
| StreamLedger.PlaceOnTheWire | source/main/cpp/_darwin/stream.c:687-736 | the accepted bytes of each request stand together on the wire, behind those of all earlier requests, and are a prefix of its payload |
| StreamLedger.InOrder | source/main/cpp/_darwin/stream.c:839-897 | if a byte of a request was taken, every earlier request was taken whole or ended with an error; one that ended without an error was taken whole |
| StreamLedger.NothingOwed | source/main/cpp/_darwin/stream.c:1346-1352 | write_queue_size is zero exactly if no request that is queued, completed or about to be called back has a byte unsent |
| StreamLedger.FailedWriteStaysOwed | source/main/cpp/_darwin/stream.c:719-726 | when the only queued request fails, the queue is empty but the size stays what was not sent, until the callback brings it to zero |
| InetText.Pton4Exact | source/main/cpp/inet.c:175-211 | inet_pton4 accepts exactly the texts inet_ntop4 prints, each with the address it is printed from |
| InetText.Pton4Grammar | source/main/cpp/inet.c:175-211 | it accepts exactly the IPv4address grammar of section 3.2.2 of RFC 3986 |
| InetText6.Accepts | source/main/cpp/inet.c:214-298 | every form of section 2.2 of RFC 4291 is accepted with the address it denotes |
| InetText6.OnlyForms | source/main/cpp/inet.c:214-298 | every accepted text is such a form, and the result is its address |
| InetText6.Pton6Exact | source/main/cpp/inet.c:214-298 | both together: acceptance and value of a text are exactly those of the grammar |
| InetPrinted.PrintedDenotes | source/main/cpp/inet.c:62-143 | whichever run of zeros is compressed, and with or without an embedded IPv4 address, the printed form denotes the address and has at most 45 characters |
| InetPrinted.RoundTrip6 | source/main/cpp/inet.c:62-298 | for every address, parsing the printed text gives it back, and the text fits 46 bytes with its NUL |
| InetPrinted.PrintedText | source/main/cpp/inet.c:62-143 | in bytes: IPv4-mapped addresses are printed as ::ffff: and dotted decimal, those of ::/96 whose next word is not zero as :: and dotted decimal, and all others as their words, high byte first, joined by colons, with :: for the chosen run |
| InetPrinted.HexPlain | source/main/cpp/inet.c:133 | a word is printed with the digits 0 to 9 and a to f, most significant first, without leading zeros |
| InetText.XDigitExact | source/main/cpp/inet.c:215-236 | a hexadecimal digit counts for its place in either table, and no other character is one |
| Inet.Strscpy | source/main/cpp/strscpy.c:25-38 | the whole string if it fits, else as much as fits, always terminated; nothing else is touched |
| Inet.InetNtop4 | source/main/cpp/inet.c:48-59 | the text and its NUL, or UV_ENOSPC and nothing, exactly by whether it fits |
| Inet.FindBest | source/main/cpp/inet.c:83-106 | the first of the longest runs of zeros, if it has at least two words (sections 4.2.2 and 4.2.3 of RFC 5952) |
| Inet.ReadWords | source/main/cpp/inet.c:80-82 | the eight words of the address in network order |
| Inet.Format | source/main/cpp/inet.c:111-137 | the cursor loop writes exactly the printed form and stays inside its buffer |
| Inet.InetNtop6 | source/main/cpp/inet.c:62-143 | the text with its best run compressed, or UV_ENOSPC and nothing |
| Inet.InetPton4 | source/main/cpp/inet.c:175-211 | agrees with the function that the grammar was proved of, and writes all four bytes or none |
| Inet.ScanGroups | source/main/cpp/inet.c:229-271 | the token loop, on one buffer with two cursors, agrees with the function that the grammar was proved of |
| Inet.Shift | source/main/cpp/inet.c:283-292 | the shift within one buffer moves the bytes behind the gap to its end and leaves zeros |
| Inet.InetPton6 | source/main/cpp/inet.c:214-298 | agrees with that function, and writes all sixteen bytes or none |
| Inet.UvInetPton | source/main/cpp/inet.c:146-172 | a zone is cut off unless the address before it is too long; unknown families are refused |
| Inet.ZoneRoundTrip | source/main/cpp/inet.c:62-172 | the round trip through the public function, with and without a zone behind the text |
| Signal.StepKeeps | source/main/cpp/_darwin/signal.c:182-578 | every step of handlers, loops and users keeps the accounting, the tree and the dispositions right |
| Signal.Accounting | source/main/cpp/_darwin/signal.c:182-490 | caught signals, plus one for a handler between its write and its count, are the dispatched ones plus the messages under way, modulo 2^32 |
| Signal.Compare | source/main/cpp/_darwin/core.c:337-338 | the counters of a closing handle are equal exactly if no message names it, and the first is below the second exactly if the messages under way carry the second over 2^32 |
| Signal.FinishExact | source/main/cpp/_darwin/core.c:330-342 | whether a closing handle is let go agrees with whether no message in any pipe or batch names it exactly if the first counter is not below the second |
| Signal.CloseIsSafe | source/main/cpp/_darwin/core.c:303-366 | from its close callback on no message ever names the handle again, exactly if it was let go in such a state |
| Signal.LetGoTooEarly | source/main/cpp/_darwin/core.c:337-338 | a run of 2^32 signals that lets a handle go with its message still in the pipe |
| Signal.CallbackOfAnOpenHandle | source/main/cpp/_darwin/signal.c:478-481 | a signal callback runs only for a handle that watches that signal and is not closing, which is the assertion in the code |
| Signal.RegularStaysInstalled | source/main/cpp/_darwin/signal.c:408-422 | while a handle that is not one-shot watches a signal, the handler stays installed, however one-shot handles come and go |
| Signal.ScanIsComplete | source/main/cpp/_darwin/signal.c:190-218 | between taking and releasing the lock a handler writes for each handle that watched its signal once, and for no other |
| Signal.StartInstalls | source/main/cpp/_darwin/signal.c:408-422 | starting a handle installs the handler, once or for all deliveries by its kind, exactly if nobody watched the signal, or only one-shots did and it is none; other signals stay |
| Signal.StopInstalls | source/main/cpp/_darwin/signal.c:558-572 | stopping the last handle restores the default; stopping the last that is not one-shot leaves the handler for one delivery; else nothing changes |
| Signal.MessagesInOrder | source/main/cpp/_darwin/signal.c:190-490 | what a loop has still to dispatch grows only at its end, by a message of the signal being handled, and shrinks only at its front |
| Signal.DispatchStops | source/main/cpp/_darwin/signal.c:478-490 | a dispatched message is counted, modulo 2^32, and stops a one-shot handle |
| Signal.HandlersMove | source/main/cpp/_darwin/signal.c:182-218 | in every reachable state a handler that has the lock can go on, one that waits for it can have it when it is free, and an installed signal can be delivered |
| PowerOfTwo.NextPowerOfTwoExact | source/main/cpp/_darwin/core.c:859-868 | the least power of two that is not smaller exactly for 1 to 2^31, and zero for all other arguments |
| Watchers.Loop.MaybeResize | source/main/cpp/_darwin/core.c:870-903 | all slots and the two hidden ones keep their content, new ones are empty, and the size is the next power of two less the hidden slots; where that does not fit, the table is freed and UV_ENOMEM returned |
| Watchers.Loop.IoStart | source/main/cpp/_darwin/core.c:953-986 | the interest is added, the watcher is queued and its slot taken, other slots stay, and the count of used slots is right; exactly the largest descriptor fails, and costs the loop its table |
| Watchers.Loop.IoStop | source/main/cpp/_darwin/core.c:1005-1033 | the interest is removed; a watcher without any leaves queue and slot |
| Watchers.Loop.InvalidateFd | source/main/cpp/_darwin/kqueue.c:477-494 | through the hidden slots, exactly the events of that descriptor lose it, process events apart |
| Watchers.Loop.IoClose | source/main/cpp/_darwin/core.c:1036-1043 | the watcher is gone from queue and table, and no event of the batch names its descriptor |
| Watchers.Loop.Register | source/main/cpp/_darwin/kqueue.c:190-242 | every queued watcher has an interest and a descriptor in the table, as the assertions say, and all new interests are passed on |
| Watchers.Loop.DispatchEvent | source/main/cpp/_darwin/kqueue.c:332-424 | a callback runs exactly for events that are live, watched and asked for, or in error; it is told of POLLIN for a read event, POLLOUT for a write event, POLLPRI for out-of-band data and the end of file for a read event that carries it, each if and only if asked for; signals are put off |
| Watchers.Loop.Dispatch | source/main/cpp/_darwin/kqueue.c:327-445 | all events are looked at, the signal pipe is read last if an event was for it, and no callback runs for a descriptor that was closed since the batch was read, even if callbacks made the table grow or opened the descriptor again |
| Timers.HasLeast | source/main/cpp/timer.c:37-54 | among any timers started at different times there is one whose timeout is smaller than that of each other, or equal with an earlier start |
| Timers.Loop.Start | source/main/cpp/timer.c:67-94 | due at now plus timeout, or the largest 64-bit value if that is less; in the heap and in no other place; refused when closing or without callback |
| Timers.Loop.Stop | source/main/cpp/timer.c:97-109 | in neither heap nor ready queue, other timers untouched |
| Timers.Loop.Again | source/main/cpp/timer.c:112-122 | a repeating timer starts over, any other stays as it is |
| Timers.Loop.DueIn | source/main/cpp/timer.c:135-140 | now plus the result is the due time, or now if that has passed |
| Timers.Loop.NextTimeout | source/main/cpp/timer.c:143-161 | sleeping that long overshoots no timer, and is as long as the next timer and an int allow |
| Timers.Loop.Collect | source/main/cpp/timer.c:172-184 | the expired timers, and no others, move to the ready queue in the order of timeout and start |
| Timers.Loop.FireOne | source/main/cpp/timer.c:185-193 | a repeating timer is started again before its callback; whatever that does, later timers stay in order and touched ones do not fire |
| Timers.Loop.RunTimers | source/main/cpp/timer.c:164-194 | ends for any callbacks made of timer calls; the expired timers fire in order, each at most once, none after it was stopped, restarted or closed, all others once, and none that was not expired at the start |
| PipeFrames.ParseHeaderInverts | source/main/cpp/_win/pipe.c:73-78 | the sixteen bytes of a header give its four fields back |
| PipeFrames.FrameLayout | source/main/cpp/_win/pipe.c:62-78 | a frame in plain bytes: the three flags, the length lowest byte first, zeros in the reserved fields, then the socket's information and the data |
| PipeFrames.InvalidBytes | source/main/cpp/_win/pipe.c:2056-2084 | which headers are refused, in plain bytes: unknown flags, a connection without a socket, a reserved field that is not zero, a length without data |
| PipeFrames.Coalesce | source/main/cpp/_win/pipe.c:1518-1575 | one buffer with the bytes of all, or UV_ENOBUFS exactly if they exceed 32 bits |
| PipeFrames.WriteIpc | source/main/cpp/_win/pipe.c:1746-1845 | what is written for every list of buffers and transfer, byte by byte, including entries the code leaves unset, and when it is refused |
| PipeFrames.WritesTheFrame | source/main/cpp/_win/pipe.c:1787-1829 | what is written is the frame and nothing else exactly if there is data, or there are no buffers, or too many for the array on the stack |
| PipeReader.Reader.ReadExactly | source/main/cpp/_win/pipe.c:1921-1947 | the next bytes in however many pieces they come, or the end of file, or an error |
| PipeReader.Reader.ReadData | source/main/cpp/_win/pipe.c:1950-2026 | delivers the next bytes, at most as many as asked for, or reports the end of file, an error or the lack of a buffer, and says whether to read on |
| PipeReader.Reader.ReadIpc | source/main/cpp/_win/pipe.c:2029-2113 | for any bytes: invalid headers are refused exactly by the four rules, a socket is queued with its information, payload is counted down by what was read, and an end or error inside it is passed on |
| PipeReader.BeginMessage | source/main/cpp/_win/pipe.c:2043-2097 | the header of a written frame is never invalid, and leaves the reader at the start of the message's data |
| PipeReader.TakePiece | source/main/cpp/_win/pipe.c:2037-2041 | any piece of payload leaves the reader within the message, or behind it when it was the last |
| PipeReader.ReadAll | source/main/cpp/_win/pipe.c:1921-2113 | for every sequence of frames and every schedule of reads with a buffer, the same data, the same sockets at the same places in it, and no payload remaining |
| PipeReader.ReadOne | source/main/cpp/_win/pipe.c:1962-1967 | a read stays within the frames that were written exactly if the user has a buffer or none is asked for |
| PipeReader.ByteIsLost | source/main/cpp/_win/pipe.c:1962-1967 | a frame of one byte and no buffer for it: the pipe ends and the byte is not delivered |
| PipeReader.WriteThenRead | source/main/cpp/_win/pipe.c:1746-2113 | end to end: what the writing calls were given, where they write clean frames, is what the reader delivers under every schedule in which the user has buffers |

## Left out

- System calls, sockets, event queues, tty, process, directory and stat code, and the error
  tables: the kernel is any choice of results.
- The heap and the red-black tree are not part of this model: a heap is a set with a least
  element, the signal tree a set ordered by its comparison. The intrusive queues are
  sequences, as `Queue` justifies.
- The thread pool after a cancel that writes through stale links (ThreadPoolRuns.Breaks): the
  queue these belong to was on the stack of a call that may have returned, so the run ends.
- Punycode.RoundTrip: the decoder is the one of section 6.2 of RFC 3492 in unbounded
  integers, without its "fail on overflow".
- Idna.ToAscii: inputs of more than 2^32 - 1 bytes are not covered, where the counters of
  code points can wrap (Idna.CountKinds says to what).
- Idna.ToAsciiLabel: the same bound on the label.
- Idna.EncodePasses: the same bound on the number of code points, as in all its loops.
- Idna.ScanPass: the same bound.
- Idna.PassEnds: the same bound.
- Idna.RefusedExactly: the same bound.
- Atomic operations and mutexes are sequentially consistent; weaker orders, fork handling
  and reinitialisation are not modelled.
- The thread pool, the wakeup, the barrier and signal delivery are state machines on
  values, not classes: a step changes all it changes at once. Nothing is claimed about
  fairness, so that something eventually happens is not.
- Joining the threads at cleanup, and destroying a barrier that is in use.
- A signal pipe holds fewer than 2^32 - 32 messages. Signal messages are read whole; a partial message, which the code says cannot happen, is
  not modelled. A one-shot handle that is started again keeps its flag, as in the code.
- Signal.RegularStaysInstalled: nothing is claimed for one-shot handles, since a delivery
  resets the disposition while such a handle is still in the tree.
- Write requests are values in the queues: using one uv_write_t for two writes at a time is
  not captured, nor is the handle that may be sent along, nor the select thread of macOS.
- Where the assertion about blocking streams fails, runs go on as in a build without
  assertions.
- On a blocking stream, that uv__write ends rests on a kernel that does not stall forever.
- Reading from streams, listening and accepting are user code that an event may run.
- Nothing is said of a loop after it has lost its table to the largest descriptor: the user
  code of the model does not start one on it. Other allocation failures are not modelled,
  here or elsewhere.
- Two watchers of one descriptor share a slot as in the code; that the second one gets its
  events is not claimed.
- The counter of timer starts does not wrap around.
- The IPC reader on pipes that are not overlapped, whose reads are bounded by a peek.
- PipeFrames.WriteIpc: exporting the socket and everything behind the coalesced buffer is
  left out; what unset entries of the array hold is a parameter.
- The context list of `fs-poll.c`, the batched sending of `udp.c`, and the rest of UDP,
  which repeats the accounting of streams in a simpler form.
