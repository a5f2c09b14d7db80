# Verified model of rtp-over-quic

A Dafny 4.11 model of the algorithms of `github.com/mengelbart/rtp-over-quic` that decide when packets leave, how they
are framed and how their numbers and times are interpreted, with proofs about every run of them.
`dafny verify dfyconfig.toml` checks the whole project.

| module | models |
|---|---|
| `RtpQueue` | the packet queue of the SCReAM sender, a class over its operations' meaning |
| `Pacing` | the pacing loop, its timer goroutines and callbacks, the writers and the environment as one interleaved step system |
| `PacingTimer` | who owns the timer: no double close, no cancelled timer, an armed timer wakes the loop |
| `PacingGoroutines` | each timer goroutine can go on, but for one that looks at the channel too late |
| `PacingFlow` | order, conservation and byte accounting of packets over whole executions |
| `PacingProgress` | no lost wake-up, also for refused packets, and a termination measure for the drain |
| `PacingRespected` | every write was permitted, and no write comes before the delay the controller asked for |
| `PacingDrain` | the drain as the loop it is in the source, and as a run of the step system |
| `Unwrapper` | 16-bit sequence numbers extended to integers |
| `FeedbackWalker` | the walk over raw RFC 8888 feedback against an encoder of the format |
| `Varint`, `GoSlices`, `QuicFraming` | flow identifiers as QUIC integers, Go's `append`, packets over datagrams and streams |
| `TcpFraming` | the two-byte length framing |
| `NtpTime` | the two clocks in units of 1/65536 s |
| `ReceiverLoop` | the receiver's demultiplexing and its feedback rate limit |
| `Words`, `Arithmetic`, `Wrappers` | machine words in big-endian form, uniqueness of division, option and result types |

How to read the step system: `Pacing.State` holds the program counter of the loop, one of each timer goroutine and its
callback, and one of each writer; channels are generations of the variable `timer`, which goroutines and callbacks read
when they get to it, not when they are created. `Pacing.Step` is one atomic step. `IsOkToTransmit` is an
arbitrary real in every `AskController` step, the library's calls to `Clear` are `LibraryClear` steps that may happen
at any time, and an execution is any sequence of enabled steps from `Init` with any number of writers. Packets are named by
the order in which they were enqueued, which stands for the private copies that the write closure makes; the payload is
not looked at. A real-valued answer has no NaN.

Points where the code is not what its own text suggests, and the model follows the code:

- The TCP receiver logs "exiting" when a read fails in the middle of a frame, but continues; it then meets the end of the
  input and returns without delivering anything more.
- Padding an odd number of reports is done in 16 bits, so 65535 wraps to 0 and the walk then reads metric blocks as report
  blocks (`FeedbackWalker.KeepsToBlocks`, `FeedbackWalker.SameStreamsByCounts`, `FeedbackWalker.WrapInventsStream`). A
  packet with such a block has at least 131092 bytes. The TCP and UDP readers of the sender keep at most 1500 bytes of a
  packet (tcp/sender.go:86, udp/sender.go:76) and the QUIC reader takes it from one datagram, so this is a fact about the
  function on byte strings.
- The datagram receiver strips the shortest encoding of the flow identifier instead of the bytes it read, so it disagrees with the
  stream receiver exactly on longer encodings (`QuicFraming.DecodersAgree`, `QuicFraming.DecodersDiffer`).
- The TCP writers truncate the length to 16 bits, so framing is lossless exactly up to 65535 bytes (`TcpFraming.RoundTrip`).
- Successive appends to the one slice `idBytes` overwrite each other while there is spare capacity, so a buffer handed out
  earlier may change (`QuicFraming.MediaStream.AssembleTwice`, `QuicFraming.EarlierPacketOverwritten`); what the transport gets
  at each handoff is right.
- A timer goroutine that evaluates `<-timer` only after the loop has replaced the channel waits for the next timer, for ever if
  none is set (`PacingGoroutines.LateGoroutineWaits`). Neither the loop nor a callback is affected.
- In `unwrap`, `i - lastWrapped` is a subtraction of `uint16`, so `delta` is never negative and the branch that adds 65536 is
  never taken.
- `ntpTime32` scales the fraction by 2^32 - 1 instead of 2^32; the bounds in `NtpTime` are for that factor.

## Model

| member | source | states |
|---|---|---|
| `PacingTimer.TimerOwnership` | scream/sender_interceptor.go:277-335 | in every reachable state, callbacks still to fire plus one if the current channel is closed are exactly the one wake-up owed to the loop (at the select: 1 if `timerSet`, else 0); no closed channel is ever closed again and no callback is ever cancelled |
| `PacingTimer.StopIsHarmless` | scream/sender_interceptor.go:325-332 | whenever a timer goroutine reaches `t.Stop()`, its own callback has fired, whichever channel generation it waited on |
| `PacingTimer.ClosesOpenChannel` | scream/sender_interceptor.go:327-329 | in every execution a callback that runs finds the channel that `timer` holds open and closes that one and no other |
| `PacingTimer.MisuseShows` | scream/sender_interceptor.go:327-332 | closing a closed channel would panic and stopping an armed timer would cancel its callback |
| `PacingGoroutines.TimerGoroutineMoves` | scream/sender_interceptor.go:325-333 | each timer goroutine can always take its next step, unless it waits on the channel that `timer` holds now and that is open |
| `PacingGoroutines.LateGoroutineWaits` | scream/sender_interceptor.go:290-331 | a reachable state in which a goroutine waits for the next timer although its own has fired and no other is set |
| `PacingTimer.ArmedTimerWakesLoop` | scream/sender_interceptor.go:280-294 | while the loop waits with `timerSet`, a step towards the wake-up is enabled and brings it strictly closer, and no other step undoes it |
| `PacingTimer.StepKeeps` | scream/sender_interceptor.go:279-335 | the ownership invariant is kept by every step of every goroutine |
| `PacingProgress.NoLostWakeup` | scream/sender_interceptor.go:234-243 | for each packet queued while the loop waits: a timer is set, or its own writer has still to signal, or the latest controller answer was -1 and came with this packet already queued |
| `PacingProgress.WakeupIsPossible` | scream/sender_interceptor.go:279-298 | the wake-up that is due for an unrefused packet can be taken at once: the next step of the timer, or of that packet's writer, whose last step sends the loop to its queue |
| `PacingProgress.FeedbackRevivesRefused` | scream/sender_interceptor.go:281-303 | in every execution, while the loop waits without a timer, feedback can arrive, and with any packet queued, refused or not, the loop then asks the controller again |
| `PacingProgress.SignalWakesUnlessTimerSet` | scream/sender_interceptor.go:281-289 | a frame or feedback sends the loop to its queue exactly if no timer is set |
| `PacingProgress.AsksIffQueued` | scream/sender_interceptor.go:296-298 | at its queue the loop goes on to ask the controller exactly if there is a packet |
| `PacingProgress.SelectOffersAll` | scream/sender_interceptor.go:280-294 | the select takes each signal, closed timer channel or close that is there, whether or not a timer is set |
| `PacingProgress.EnvironmentIsFree` | scream/sender_interceptor.go:300-303 | every answer is possible, Clear and Close at any time, and any packet of an idle writer |
| `PacingProgress.CloseEndsLoop` | scream/sender_interceptor.go:292-293 | once closed, the waiting loop can return, and after that it writes nothing |
| `PacingProgress.SignalsMatchPackets` | scream/sender_interceptor.go:234-243 | in every execution the packets enqueued are the signals received plus the writers that have still to deliver theirs |
| `PacingProgress.DrainEnds` | scream/sender_interceptor.go:300-336 | over any run that stays in one drain the loop's own steps are bounded by a rank fixed at its start, for every controller and every interleaving |
| `PacingProgress.LoopStepDescends` | scream/sender_interceptor.go:300-336 | each step of the loop in a drain lowers the rank strictly or leaves the drain |
| `PacingProgress.OthersKeepBudget` | scream/sender_interceptor.go:234-243 | no step of another goroutine raises it: a writer that enqueues during the drain is stuck on `newFrame` |
| `PacingProgress.DrainCanAdvance` | scream/sender_interceptor.go:300-336 | inside a drain, in every state whose names are defined (all that executions reach), the loop has a step, whatever the controller would answer |
| `PacingProgress.DrainSendsAtMost` | scream/sender_interceptor.go:296-336 | one wake-up writes at most as many packets as were queued plus one for each writer not yet waiting |
| `PacingRespected.EachWriteIsPermitted` | scream/sender_interceptor.go:300-322 | in every execution no more packets have been written than there were answers up to 1e-3 other than -1 |
| `PacingRespected.WriteFollowsPermission` | scream/sender_interceptor.go:300-316 | each write has an answer of its own before it, at most 1e-3 and not -1, with no other answer and no other write between |
| `PacingRespected.SmallAnswerSends` | scream/sender_interceptor.go:310-316 | conversely, each such answer dequeues and writes the head |
| `PacingRespected.OtherAnswersSendNothing` | scream/sender_interceptor.go:305-335 | -1 makes the loop wait, an answer above 1e-3 makes it set one timer, and neither touches the queue |
| `PacingRespected.FeedbackSendsHead` | scream/sender_interceptor.go:281-316 | from the waiting loop, feedback and one such answer get the head of the queue written |
| `PacingRespected.NothingSentBeforeTimer` | scream/sender_interceptor.go:324-335 | after an answer above 1e-3, in every interleaving, nothing is written before the timer set for that answer has fired |
| `PacingFlow.AttemptsInOrder` | scream/sender_interceptor.go:230-322 | without Clear, write attempts ++ packet in hand ++ queue are all packets in order of enqueuing; with Clear they are still in strictly increasing order |
| `PacingFlow.PacketsConserved` | scream/sender_interceptor.go:230-322 | each enqueued packet is in exactly one place, once: attempted, in hand, queued or cleared |
| `PacingFlow.ReportsFollowAttempts` | scream/sender_interceptor.go:316-321 | the AddTransmitted log describes the write attempts one for one and in order by size, sequence number and marker, with at most the last one outstanding |
| `PacingFlow.PacketsAreEnqueued` | scream/sender_interceptor.go:226-234 | in every state of an execution the packets are those the writers enqueued, as they were enqueued |
| `PacingFlow.BytesConserved` | scream/sender_interceptor.go:230-321 | bytes enqueued are bytes queued, in hand, reported or cleared |
| `PacingFlow.StepIsQueueOperation` | scream/rtp_queue.go:98-132 | each step does to the queue inside the system what one queue operation does, and a dequeued packet is its head |
| `PacingFlow.ExecutionIsQueueRun` | scream/rtp_queue.go:98-132 | in every reachable state the queue is what the operations so far leave in the queue of `RtpQueue` |
| `PacingDrain.Drain` | scream/sender_interceptor.go:300-336 | the undisturbed drain terminates for every sequence of answers, sends exactly the packets before the first answer that is -1 or above 1e-3, from the front, and ends refused, emptied or with the delay in milliseconds as that answer says |
| `PacingDrain.DrainIsRun` | scream/sender_interceptor.go:300-336 | the step system has that drain as a run: same packets, same rest, and a last step that acts on the same answer, with a refusal, an empty queue and a new timer told apart |
| `PacingDrain.SentUntilStopped` | scream/sender_interceptor.go:305-324 | the packets sent are those before the first answer that is -1 or above 1e-3 |
| `PacingDrain.DelayMs` | scream/sender_interceptor.go:326 | the timer duration is at least one millisecond and less than one millisecond short of the answer |
| `RtpQueue.RunConserves` | scream/rtp_queue.go:98-132 | over every run of operations, departed items ++ queued items are the enqueued items, in items and in bytes |
| `RtpQueue.HeadDelayIsWorst` | scream/rtp_queue.go:71-85 | the head's delay is the largest delay of any item at all times exactly when no item is older than the head |
| `RtpQueue.OrderedRunStaysOrdered` | scream/rtp_queue.go:108-132 | enqueuing in order of time keeps every reachable queue in order of time |
| `RtpQueue.Queue.Enqueue` | scream/rtp_queue.go:108-117 | appends the item and keeps the counter equal to the sum of sizes |
| `RtpQueue.Queue.Dequeue` | scream/rtp_queue.go:119-132 | takes the head, or nothing from an empty queue, and keeps the counter |
| `RtpQueue.Queue.Clear` | scream/rtp_queue.go:98-106 | empties the queue and returns how many items it held |
| `RtpQueue.Queue.BytesInQueue` | scream/rtp_queue.go:57-62 | the counter is never negative and is bytes ever enqueued less bytes ever departed |
| `RtpQueue.Queue.SizeOfQueue` | scream/rtp_queue.go:64-69 | the number of items ever enqueued less the number ever departed |
| `RtpQueue.Queue.GetDelay` | scream/rtp_queue.go:71-85 | the worst delay in the queue, if packets were enqueued in order of time |
| `Unwrapper.UnwrapIsNearest` | rtp/unwrapper.go:20-39 | the next value is the non-negative integer congruent to the input that is nearest to the last value, with a definite choice at a tie, and is characterised by that |
| `Unwrapper.UnwrapsRun` | rtp/unwrapper.go:13-39 | for a true numbering with steps below 32768 the output is the true number lifted by 65536 for each cycle the run has gone below zero |
| `Unwrapper.ShiftIsMaximum` | rtp/unwrapper.go:33-35 | that lift is the maximum over the run so far, and zero if the run stays non-negative |
| `Unwrapper.UnwrapsExactly` | rtp/unwrapper.go:20-39 | for a true numbering with steps below 32768, all outputs are the true numbers exactly when none of those is negative |
| `Unwrapper.TrueNumbersExactly` | rtp/unwrapper.go:20-39 | for every true numbering, with ties and jumps: all outputs are the true numbers exactly when the first is below 65536 and each follows the one before |
| `Unwrapper.FollowsIsNearest` | rtp/unwrapper.go:20-39 | following, a condition on two numbers, is being the nearest number that `unwrap` chooses |
| `Unwrapper.RunsNotReturned` | rtp/unwrapper.go:28-35 | two concrete runs that are not returned: 0, -1 and 32768, 65536 |
| `Unwrapper.OutputsBounded` | rtp/unwrapper.go:20-39 | after n calls the output lies in 0..65535 + 32768 (n - 1) and is congruent to the last input |
| `Unwrapper.NoOverflow` | rtp/unwrapper.go:28-38 | in the first 2^48 - 2 calls no value leaves the range of `int64`, even with the largest `delta` added |
| `Unwrapper.IsNewerIsTotal` | rtp/unwrapper.go:13-18 | of two different numbers exactly one is newer, ties included; none is newer than itself |
| `Unwrapper.Unwrapper.Unwrap` | rtp/unwrapper.go:20-39 | the method in place, step by step, returns the nearest value within the bound |
| `FeedbackWalker.ExtractSSRCs` | scream/sender_interceptor.go:164-189 | terminates on every byte string, fails exactly when the walk reads out of bounds, never on lengths divisible by 4, and returns the visited SSRCs without repetitions |
| `FeedbackWalker.DedupIsFirstOccurrences` | scream/sender_interceptor.go:165-175 | the result has no duplicates, the same elements, in the order of first occurrence |
| `FeedbackWalker.ExtractSSRCsReport` | scream/sender_interceptor.go:156-162 | the SSRC of each report block in order |
| `FeedbackWalker.BothBranchesAgree` | scream/sender_interceptor.go:129-133 | on every well-formed packet whose counts do not wrap, the walk sees exactly the report's SSRCs in order, so both branches name the same streams |
| `FeedbackWalker.ReportOfOne` | scream/sender_interceptor.go:168-186 | a packet with one metric block byte by byte, as section 3.1 of RFC 8888 lays it out and the walk reads it |
| `FeedbackWalker.StopsAtTimestamp` | scream/sender_interceptor.go:168-169 | on those packets the walk stops exactly at the report timestamp |
| `FeedbackWalker.KeepsToBlocks` | scream/sender_interceptor.go:177-185 | on every well-formed packet the walk visits exactly the block boundaries if and only if no block counts 65535 reports |
| `FeedbackWalker.SameStreamsByCounts` | scream/sender_interceptor.go:129-133 | for each list of counts that some well-formed report has: all reports with these counts make both branches name the same streams if and only if no count is 65535 |
| `FeedbackWalker.WrapInventsStream` | scream/sender_interceptor.go:180-184 | a concrete well-formed packet of 131092 bytes on which the wrap makes the walk report a stream that is not in it |
| `FeedbackWalker.WrapCanBeHarmless` | scream/sender_interceptor.go:180-184 | a concrete report with a count of 65535 for which both branches still agree, so the condition is about the counts and not about one report |
| `FeedbackWalker.AlignedInBounds` | scream/sender_interceptor.go:168-186 | on lengths divisible by 4 all offsets are too, and every read is in bounds, well-formed or not |
| `FeedbackWalker.PanicsByLength` | scream/sender_interceptor.go:168-186 | the exact set of lengths for which some packet makes the walk read out of bounds |
| `FeedbackWalker.NextOffset` | scream/sender_interceptor.go:177-186 | the offset grows by at least 8 and stays a multiple of 4, even when the count wraps |
| `GoSlices.Append` | quic/sender.go:240-241 | `append` in place within the capacity, into a new array beyond it, and what it leaves untouched |
| `QuicFraming.MediaStream.Assemble` | quic/sender.go:240-241 | the frame is identifier ++ header ++ payload although successive calls write into one array; what that array holds afterwards; when the frame has its own array |
| `QuicFraming.MediaStream.Write` | quic/sender.go:235-274 | the transport gets the frame, in mode ANY on a stream exactly if it is larger than the MTU or must be reliable, and `idBytes` is unchanged; a header that cannot be marshalled, a datagram not taken, a stream not opened or cut short are reported with the byte count and what was left on the connection |
| `QuicFraming.TransportChoice` | quic/sender.go:243-273 | DGRAM means a datagram, STREAM a stream; in mode ANY a stream exactly for a frame above the MTU or a packet marked reliable |
| `QuicFraming.MediaStream.AssembleTwice` | quic/sender.go:240-241 | after two packets the first buffer still holds its frame exactly when it did not fit into the shared array or what the second one put there agrees with it; two that fit and are equally long share one buffer |
| `QuicFraming.EarlierPacketOverwritten` | quic/sender.go:240-241 | a concrete pair of packets, one header byte apart: the first buffer ends up holding the second frame |
| `QuicFraming.FlowIDs.NewFlowID` | quic/sender.go:118-126 | identifiers come out as 0, 1, 2, ... without repetition until all are used |
| `QuicFraming.ReadVarint` | quic/receiver.go:205-206 | reading byte by byte gives the decoded integer and consumes exactly its bytes |
| `QuicFraming.ReceiveDgrams` | quic/receiver.go:155-183 | delivers the decodable datagrams up to the close, in order, dropping the others |
| `QuicFraming.EventsDeliverSeparately` | quic/receiver.go:155-183 | each event is handled by itself: a good datagram delivers one packet, a failure or an incomplete identifier nothing, and only the close stops the rest |
| `QuicFraming.ReadStream` | quic/receiver.go:204-232 | delivers the rest of the stream after the identifier, or nothing if either is cut short |
| `QuicFraming.WriteRTCP` | quic/receiver.go:234-248 | sends one datagram that the other end decodes to the flow and the report; on a report that cannot be marshalled or a datagram not taken nothing is sent |
| `QuicFraming.RoundTrip` | quic/sender.go:229-276 | whatever transport is chosen, the receiver delivers exactly the identifier and header ++ payload |
| `QuicFraming.CutStreamDelivers` | quic/sender.go:220-227 | a stream whose write was cut short is closed all the same and delivers the front of the packet, or nothing if the identifier was cut |
| `QuicFraming.StreamDeliversAll` | quic/sender.go:234-276 | after any sequential run of writes on one media stream, every packet handed over is delivered with its identifier and bytes |
| `QuicFraming.DatagramsDeliverAll` | quic/receiver.go:155-183 | a list of framed datagrams is delivered as that list |
| `QuicFraming.DecodersAgree` | quic/receiver.go:170-231 | on every input both decoders drop the same inputs and read the same identifier, and they deliver the same bytes exactly when it is minimally encoded |
| `QuicFraming.DecodersDiffer` | quic/receiver.go:175-180 | a concrete input on which they deliver different bytes |
| `Varint.DecodeEncodedAs` | quic/sender.go:231-232 | every encoding, shortest or longer, decodes to its number and consumes exactly itself |
| `Varint.EncodeDecoded` | quic/receiver.go:170-175 | every decodable prefix is the encoding, of the length it announces, of what it decodes to |
| `Varint.MinimalIsEncode` | quic/receiver.go:175 | being minimally encoded is starting with what the writer writes |
| `Varint.LenFits` | quic/receiver.go:175 | the length stripped is the shortest that holds the number |
| `Varint.LeadingBits` | quic/sender.go:231-232 | the ranges, lengths and leading bits of the table in section 16 of RFC 9000 |
| `Varint.Examples` | quic/receiver.go:170 | four examples of section A.1 of RFC 9000 |
| `TcpFraming.RoundTrip` | tcp/sender.go:123-126 | decoding the frames of a list of messages gives the list exactly when none is longer than 65535 bytes |
| `TcpFraming.TooLong` | tcp/sender.go:125 | a concrete message of 65536 bytes that is delivered as an empty one |
| `TcpFraming.FrameLayout` | tcp/sender.go:124-126 | a frame is the high byte of the length, the low byte, and the message |
| `TcpFraming.Conn.WriteMessage` | tcp/sender.go:118-126 | writes exactly the frame of header ++ payload, or the part of it before a failure, which delivers nothing; nothing for a header that cannot be marshalled |
| `TcpFraming.Receive` | tcp/receiver.go:116-139 | on any input that ends, the loop returns and has delivered exactly the complete frames at its front |
| `TcpFraming.RunIsMaximal` | tcp/receiver.go:116-139 | re-framing what was delivered gives the bytes consumed, and the rest holds no complete frame |
| `TcpFraming.TruncationDeliversPrefix` | tcp/receiver.go:119-134 | cutting the stream anywhere delivers a prefix of the messages |
| `TcpFraming.DeliveredAreShort` | tcp/receiver.go:126-127 | no delivered message is longer than 65535 bytes |
| `NtpTime.Ntp32IsTicks` | scream/scream.go:24-28 | shift, or and mask compute the tick count modulo 2^32 |
| `NtpTime.TicksAccurate` | scream/scream.go:20-29 | the count is never ahead of the time and behind it by less than 1 + 2^-16 ticks |
| `NtpTime.StampAccurate` | scream/scream.go:20-29 | for each instant before 2036 the result is, modulo 2^32, the 65536ths of a second since 1900 (2208988800 s before 1970), short by less than 1 + 2^-16 |
| `NtpTime.StampOfWholeSeconds` | scream/scream.go:20-29 | at whole seconds the result is the low 16 bits of the seconds since 1900 in the high half, and 0 in the low half |
| `NtpTime.TicksMonotone` | scream/scream.go:20-29 | before reduction the count is monotone in time |
| `NtpTime.ElapsedRecovered` | scream/scream.go:20-29 | differences modulo 2^32 recover elapsed time within 1 + 2^-16 ticks across the wrap, for spans below the period by that margin |
| `NtpTime.TimeBetweenIsTicks` | quic/local_rfc8888.go:40-42 | the mask reduces the local count modulo 2^32 |
| `NtpTime.LocalTicksAccurate` | quic/local_rfc8888.go:36-43 | microsecond truncation and floor together lose less than 1.0656 ticks |
| `NtpTime.TimeBetweenAccurate` | quic/local_rfc8888.go:36-43 | the result is, modulo 2^32, the 65536ths of a second since `t0`, short by less than 1.0656 |
| `NtpTime.TicksAgree` | quic/local_rfc8888.go:36-43 | before reduction both clocks count the same ticks between any two instants up to 2 |
| `NtpTime.ClocksAgree` | quic/local_rfc8888.go:36-43 | the stamps of both clocks agree on the ticks between any two instants, around the circle of 2^32, up to 2 |
| `NtpTime.ClocksCanDifferByTwo` | scream/scream.go:20-29 | two instants for which the difference is 2 |
| `NtpTime.ArrivalAccurate` | quic/local_rfc8888.go:79-81 | the assumed arrival is less than one tick short of sending time plus half a round trip |
| `ReceiverLoop.ReceiverInterceptor.Loop` | scream/receiver_interceptor.go:172-227 | after any sequence of events in which the loop's own steps take turns, each registered receiver has seen exactly its packets, and the feedback rounds are those of `Rounds` |
| `ReceiverLoop.ReceiverInterceptor.AskIfDue` | scream/receiver_interceptor.go:205-221 | after a packet, and after whatever was bound and unbound since: a round to exactly the receivers registered now if more than the interval has passed, else none |
| `ReceiverLoop.ReceiverInterceptor.Receive` | scream/receiver_interceptor.go:178-186 | the packet goes to the receiver of its SSRC if there is one, and to no other |
| `ReceiverLoop.ReceiverInterceptor.BindRemoteStream` | scream/receiver_interceptor.go:93-96 | a newly bound receiver has seen nothing; others are untouched |
| `ReceiverLoop.ReceiverInterceptor.UnbindRemoteStream` | scream/receiver_interceptor.go:126-130 | the receiver is gone; others are untouched |
| `ReceiverLoop.RegistrationIsLatest` | scream/receiver_interceptor.go:93-130 | the registration in force is the Bind that no later Bind or Unbind of the SSRC undoes |
| `ReceiverLoop.ArrivedInOrder` | scream/receiver_interceptor.go:195-203 | what a receiver has seen are all packets of its SSRC since it was bound, in the order of arrival, and nothing else |
| `ReceiverLoop.RoundsExplained` | scream/receiver_interceptor.go:205-221 | each round has the time of one clock reading and the marker of the packet handed on last before it, and asks exactly the streams bound then |
| `ReceiverLoop.RoundsFollowClock` | scream/receiver_interceptor.go:206-221 | when rounds happen depends on the clock readings alone |
| `ReceiverLoop.RateBound` | scream/receiver_interceptor.go:192-221 | the k-th packet-driven round is strictly later than k intervals after the start, which bounds their number |
| `ReceiverLoop.RoundsAreMost` | scream/receiver_interceptor.go:206-221 | with a clock that does not go back, no other choice of packets that keeps rounds more than an interval apart has more rounds |

## Left out

- The SCReAM controller behind cgo: its answers are arbitrary and what it is told is logged.
- NaN answers of `IsOkToTransmit`, for which the inner loop of the source would spin, and answers so large that the timer duration overflows.
- The first write of a stream, which registers it and starts the loop: the step system starts after it, so two concurrent first writes are not modelled.
- Locks of the sender, shutdown order and WaitGroups; no claim is made that the whole program is free of deadlock.
- The duration of a timer inside the step system: a timer may fire at any time after it was started (`PacingDrain.DelayMs` gives the duration).
- The getters of the queue that read one field of its first or last item.
- The doubly linked list of `container/list`: the queue's list is a sequence held in a field.
- RTP and RTCP marshalling: packets and reports are byte strings or records of size, sequence number, marker and SSRC.
- Acknowledgement callbacks of datagrams and log output in the media writer.
- Resets of QUIC streams: a stream whose write fails is closed, as the code does, and read to its end.
- Flow identifiers of 2^62 and more, on which `quicvarint.Write` panics: excluded by the type `uint62`.
- TCP read errors other than the end of the input, on which the receive loop of the source would retry for ever.
- Buffers reused after handoff in tcp/sender.go and udp/sender.go.
- IEEE rounding in the time code: `float64` is read as the reals. Times after the 32-bit range of seconds, and instants before `t0`, are excluded by `InRange` and `After`.
- The ticker-driven feedback rounds of `loopFeedbackSender`, and the order in which a round visits the receivers.
- GStreamer, codecs, command line, logging, UDP, TLS, and the setters and statistics around the modelled parts.
