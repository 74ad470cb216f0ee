# Verified models of the transport and media core

This project models, in Dafny, the parts of the native code that carry data between two
devices, and proves what that code is for. `dafny verify dfyconfig.toml` checks
all of it.

**The KCP protocol** (`app/src/main/cpp/ikcp/ikcp.c`, called the first copy, and
`app/src/main/cpp/common/ikcp/ikcp.c`, the second). The two copies differ in fragment limit,
backoff, fast-resend limit, window growth and the value `ikcp_send` returns; a field of the
configuration selects one, and each theorem says which copies it is about.

- `KcpTypes.dfy`, `KcpSpec.dfy`: every operation as a function, with the arithmetic of sequence
  numbers and times as a parameter (`Serial.dfy`): in `Wrapping` mode both have 32 bits and are
  compared with `_itimediff`, in `Exact` mode sequence numbers never wrap, in `Ideal` mode
  neither does.
- `Kcp.dfy`: the control block as a class with the fields of `IKCPCB`, its loops and its ack
  array, on bytes. Each method is proved to do to its state what the function does with
  `Wrapping` numbers. `IQueue.dfy`: the intrusive list macros on real nodes.
- `Codec.dfy`, `Packing.dfy`, `Datagrams.dfy`: segments to bytes, datagrams, and back.
- `FlushContents.dfy`, `FastResend.dfy`, `Probes.dfy`, `Incoming.dfy`, `Accepting.dfy`,
  `Reading.dfy`: what a flush, an incoming datagram, `ikcp_send` and `ikcp_recv` each do, in
  the terms of header fields, lengths and times, and over runs.
- `System.dfy`: two endpoints and a network. The network is the log of every datagram ever
  emitted; delivering one means inputting any logged datagram, any number of times, at any
  time, so loss, duplication and reordering need no further rules.
- `Endpoint.dfy`, `Delivery.dfy`, `Messages.dfy`, `Streams.dfy`, `Deadlock.dfy`,
  `Progress.dfy`, `Rounds.dfy`: invariants over all runs, what follows from them, and that
  exchange after exchange everything gets through.
- `Refinement.dfy`, `WrapRun.dfy`, `AnyBytes.dfy`: from unbounded to 32-bit sequence numbers,
  for runs of the system and for one endpoint fed arbitrary bytes. `TimeRun.dfy`: from unbounded
  to 32-bit times, and both together. `ByteRun.dfy`: the whole system on bytes.
- `Congestion.dfy`, `Timers.dfy`, `Rto.dfy`, `Overdue.dfy`: windows, the update timer, estimates
  and timeouts, and a run in which a timeout fails.
- `KcpClient.dfy`: the calls of `app/src/main/cpp/kcp_wrapper.cpp` on the object.

**The zero-copy ring** (`app/src/main/cpp/common/ringbuffer/CRingBuf.cpp`):
`RingGeometry.dfy` (circular spans, rotation, merging), `RingJump.dfy` (where the jump lands),
`RingAlloc.dfy` (what a write request is granted), `RingTable.dfy` (the table of black holes),
`RingRuns.dfy` (the ring as a state machine, and all its runs), `RingIndex.dfy` (the frame
index, its searches, and `RequestWriteFrame` as calls of that machine), `RingMoves.dfy` (where
the calls leave the consumers), `RingReads.dfy` (what a reader gets), `RingWitness.dfy` (three
runs that go wrong) and `CRingBuf.dfy` (the object, updated in place).

**Smaller parts**: `Md5.dfy`, `Slice.dfy`, `Crc16.dfy`; `Basics.dfy` is shared.

`hide` statements in proofs only keep definitions that a proof does not need from the
verifier.

## Where the code and its documentation or intent disagree

The model follows the code. These are the points, each with the member that shows it.

- First copy: `ikcp_send` accepts up to 255 fragments, but a message of more fragments than
  the peer's `rcv_wnd` stops the peer's receive queue for ever (`BasicGetsStuck`, `StuckRun`).
- First copy: a stream-mode send that returns -2 may already have queued bytes
  (`ReportIsExact`, `FailedSendLeavesBytes`).
- `sendData` takes messages of up to 255 segments, but `receiveData` reads into 1500 bytes: a
  longer message and all that follow it are never returned (`LongMessageBlocks`).
- Second copy: doubling the timeout passes 2^31 at the sixteenth timeout from 60000 ms; the
  segment then looks overdue at once (`SecondCopyFutureExactly`, `SixteenTimeoutsFail`).
- Second copy: `cwnd` is not `incr / mss` rounded down (`FlooredExactly`, `SecondCopyRoundsUp`).
- With fast resend off, the window after a fast resend would be one below the threshold,
  because the disabled count is 2^32 - 1 (`FastWindow`).
- The ring: a request can be granted bytes of a frame a consumer still holds. That cannot
  happen while the byte before the write offset is in no hole (`GrantIsFree`), and otherwise
  exactly as `GrantsFreeExactly` says. Three calls can put that byte into a hole: overtaking the
  consumer that holds it, typically the reader of the newest frame (`OvertakeClearExactly`,
  `NewestHeldOverlaps`); a reset while the last byte of the ring is held or in a hole
  (`ResetClearExactly`, `ResetOverlaps`); and a request that jumps over a hole and is then
  discarded or repeated (`RequestClearExactly`, `DiscardOverlaps`). Runs that avoid the three
  are always granted free bytes (`OrderlyExactly`, `OrderlyGrantsFree`).
- MD5: the test `i + 63 < inputLen` wraps when buffered bytes and input reach 2^32 together
  (`LoopStops`).
- Slices: the number of slices is stored in 16 bits (`RoundTrip`).

## Assumptions

- Allocation succeeds, pointers are not null, the two endpoints use the same `conv`, and
  windows, mtu and modes are set before traffic starts.
- Sizes handed to `ikcp_input` are below 2^31 and `long` is wider than 32 bits, so the extra
  `(int)len < 0` test of the second copy never decides. `IKCP_FASTACK_CONSERVE` is not defined.
- Signed 32-bit arithmetic in `ikcp_update_ack` wraps around; `EstimateBounds` says when nothing
  overflows.
- The ring has at most 2^31 - 4096 bytes, so that no 32-bit sum of an offset, a size and an
  alignment wraps; an alignment divides the ring size, as 512 does; consumer names differ and
  the time of creation of a hole is never 0. `GrantsInRunsExactly` and `FullInRuns` are about runs
  in which no commit overwrites the index slot of a frame that is held. `RequestWriteFrame` sees
  to that when each grant is committed or discarded before the next request
  (`AttemptsGuarded`, `GuardedSlotsFree`); the public `RequestWritePtr` does not.
- Slice headers are laid out for a little-endian machine with natural alignment: 64 bytes.

## Model

| member | source | states |
|---|---|---|
| `Serial.TimeDiffExact` | app/src/main/cpp/ikcp/ikcp.c:135-138 | _itimediff on 32-bit values is the true signed distance if and only if that distance is in [-2^31, 2^31) |
| `Serial.LiftUnique` | app/src/main/cpp/ikcp/ikcp.c:135-138 | a number within 2^31 of a reference is recovered from its low 32 bits and the reference |
| `KcpTypes.DefaultConfig` | app/src/main/cpp/ikcp/ikcp.c:233-293 | a fresh control block: mtu 1400, windows of 32, in the second copy 128 to receive, interval 100, minimum rto 100, no fast resend, fastlimit 5, dead_link 20; it satisfies what every later proof needs of the configuration |
| `KcpTypes.SetMtu` | app/src/main/cpp/ikcp/ikcp.c:1199-1212 | an mtu below 50 is refused with -1 and changes nothing; any other is set, with mss = mtu - 24, and 0 returned |
| `KcpTypes.SetWindows` | app/src/main/cpp/common/ikcp/ikcp.c:1243-1253 | a positive argument sets its window and any other leaves it; the second copy never lets rcv_wnd fall below 128; nothing else changes |
| `KcpTypes.SetNoDelay` | app/src/main/cpp/ikcp/ikcp.c:1222-1245 | a negative argument leaves its field; interval is brought into [10, 5000], the minimum rto becomes 30 with nodelay and 100 without; nothing else changes |
| `Delivery.InOrderExactlyOnce` | app/src/main/cpp/ikcp/ikcp.c:676-736 | in every run over a network that drops, duplicates and reorders, what was ever moved to rcv_queue is the first rcv_nxt fragments the peer numbered: in order, exactly once, unaltered |
| `Delivery.NothingForgotten` | app/src/main/cpp/ikcp/ikcp.c:558-605 | in every run each number given out is in the sender's snd_buf, in the peer's rcv_buf, or below the peer's rcv_nxt |
| `Delivery.RunOk` | app/src/main/cpp/ikcp/ikcp.c:742-880 | the invariant behind both holds in every state of every run: queues in shape, histories agree, every ack, una and push ever emitted tells the truth |
| `Delivery.InputKeeps` | app/src/main/cpp/ikcp/ikcp.c:742-857 | one incoming datagram whose segments are truthful, however old, keeps the invariant and only extends what was received |
| `Delivery.FlushKeeps` | app/src/main/cpp/ikcp/ikcp.c:911-1114 | one flush numbers a prefix of the queue, keeps the invariant and emits only truthful segments |
| `Messages.MessagesArePrefix` | app/src/main/cpp/ikcp/ikcp.c:356-535 | message mode: the messages ikcp_recv returned are a prefix of the messages the peer's ikcp_send accepted |
| `Messages.WholeMessage` | app/src/main/cpp/ikcp/ikcp.c:502-532 | the fragments made of a message are numbered count - 1 down to 0; peeking, merging and counting them give exactly the message, its length and its fragments |
| `Messages.PeekIsComplete` | app/src/main/cpp/ikcp/ikcp.c:439-461 | on every queue that starts on a message boundary ikcp_peeksize is non-negative if and only if the whole message is there, and then size, bytes and fragment count are the message's |
| `Messages.QueueOnBoundary` | app/src/main/cpp/ikcp/ikcp.c:412-461 | in every run, at either end, for a sender in message mode: rcv_queue is a prefix of the fragments of the messages not yet returned, so it starts on a message boundary; ikcp_peeksize is non-negative if and only if the whole next message is queued, and then it is that message's length |
| `Streams.BytesArePrefix` | app/src/main/cpp/common/ikcp/ikcp.c:439-513 | in either mode and with any two configurations, the bytes ikcp_recv returned are a prefix of the bytes the peer's ikcp_send took |
| `Streams.SendTakes` | app/src/main/cpp/ikcp/ikcp.c:467-535 | ikcp_send adds to the queued bytes exactly a prefix of the message: all of it, or what filled up the last segment when the rest is refused |
| `Streams.ReportIsExact` | app/src/main/cpp/ikcp/ikcp.c:475-508 | the value ikcp_send returns tells how many bytes it took if and only if it is not the first copy refusing the rest of a stream-mode send whose head was already queued |
| `Streams.FailedSendLeavesBytes` | app/src/main/cpp/ikcp/ikcp.c:480-508 | that case exists in every stream-mode configuration the setters produce: after one byte has been sent, a send of more than 255 segments beyond the rest of that segment returns -2, and its first mss - 1 bytes stay queued |
| `Accepting.AcceptsExactly` | app/src/main/cpp/ikcp/ikcp.c:467-535 | in lengths and bytes alone: stream mode fills up the last queued segment; with nothing left over nothing is added; a rest of more than 255 * mss bytes, in the second copy of more than 127 * mss, is refused; any other adds max(1, ceil(rest / mss)) fragments that hold exactly the rest, all but the last full and in message mode numbered down to 0. The value returned is named in each case |
| `Accepting.RefusesExactly` | app/src/main/cpp/common/ikcp/ikcp.c:483-486 | the limit on the number of fragments is that limit on the bytes left over |
| `Reading.NextRead` | app/src/main/cpp/ikcp/ikcp.c:356-434 | in every run, for a sender in message mode: ikcp_recv returns -1 on an empty rcv_queue, -2 while the next message is not complete, -3 if it is longer than the buffer, and otherwise its length and bytes, taking out its fragments unless the length is negative; it sets the flag to report the window exactly when it made room in a full queue, and leaves no segment in rcv_buf that could be moved |
| `Reading.ReadIs` | app/src/main/cpp/ikcp/ikcp.c:356-434 | the same for any receiver whose queue starts with some or all of the fragments of a message |
| `Deadlock.ExtendedNeverStuck` | app/src/main/cpp/common/ikcp/ikcp.c:483-486 | second copy, in message and in stream mode, at both ends: in no reachable state is the receive queue full without something ikcp_recv can return |
| `Deadlock.StuckWhen` | app/src/main/cpp/ikcp/ikcp.c:508 | for any copies and modes, at either end of every run, a full receive queue has nothing to return if and only if what is to be read next (a message, or in stream mode one fragment) has more fragments than the window |
| `Deadlock.StuckRun` | app/src/main/cpp/ikcp/ikcp.c:356-434 | an endpoint that is stuck, in whatever state of the system, returns no further message in any continuation |
| `Deadlock.BasicGetsStuck` | app/src/main/cpp/ikcp/ikcp.c:508 | first copy: a concrete run in which a two-fragment message fills a window of one and the receiver is stuck |
| `AnyBytes.ShapeHolds` | app/src/main/cpp/common/ikcp/ikcp.c:535-598 | for every sequence of API calls with arbitrary input bytes: snd_buf ascends in [snd_una, snd_nxt), snd_una is its head or snd_nxt, at most snd_wnd numbers are in flight, rcv_buf ascends in [rcv_nxt, rcv_nxt + rcv_wnd), no queue exceeds its window |
| `AnyBytes.UnaNeverGoesBack` | app/src/main/cpp/common/ikcp/ikcp.c:535-578 | no call, whatever bytes it is given, moves snd_una back, or past snd_nxt |
| `AnyBytes.AnyCallsOk` | app/src/main/cpp/common/ikcp/ikcp.c:710-854 | every state reached by calls with arbitrary bytes is, seen modulo 2^32, a well-formed state of the machine with unbounded numbers |
| `AnyBytes.AnyCall` | app/src/main/cpp/common/ikcp/ikcp.c:710-854 | one call on 32-bit numbers, of any kind and with any bytes, is the same call on unbounded numbers, taken modulo 2^32, when each incoming number is read as the nearest one; it keeps the queues in shape and moves neither snd_una nor rcv_nxt back |
| `Datagrams.FlushRoundTrip` | app/src/main/cpp/ikcp/ikcp.c:937-1090 | after any calls, for a flush by ikcp_flush or by ikcp_update: its datagrams concatenate to the acks, the probes and the due segments, the last in the order of _itimediff also across the wrap; each has between 1 and mtu bytes; and the parse loop of ikcp_input recovers each segment list and returns 0 |
| `Datagrams.PushWiresExact` | app/src/main/cpp/ikcp/ikcp.c:1030-1078 | a flush transmits exactly the segments that are new, timed out or fast-acked |
| `Datagrams.PushWiresSerial` | app/src/main/cpp/ikcp/ikcp.c:1030-1078 | the 32-bit machine transmits them in the order of _itimediff, also when the numbers wrap inside snd_buf |
| `Datagrams.PackRoundTrip` | app/src/main/cpp/ikcp/ikcp.c:937-948 | packing, encoding and parsing any encodable segments gives them back |
| `Packing.PackLossless` | app/src/main/cpp/ikcp/ikcp.c:1062-1071 | cutting segments into datagrams loses, adds and reorders nothing |
| `Packing.PackBounded` | app/src/main/cpp/ikcp/ikcp.c:1062-1090 | no datagram is empty or longer than the mtu when every segment fits |
| `Codec.ParseEncode` | app/src/main/cpp/ikcp/ikcp.c:754-783 | the parse loop of ikcp_input inverts ikcp_encode_seg on every list of segments |
| `Codec.ParseSound` | app/src/main/cpp/ikcp/ikcp.c:754-853 | on arbitrary bytes the parse loop reads only what is there: re-encoding what it accepted gives a prefix of the input, and it returns 0 if and only if less than a header is left |
| `Packing.PackFills` | app/src/main/cpp/ikcp/ikcp.c:942-946 | a datagram is closed only when the next segment would make it longer than the mtu |
| `Codec.ParseStops` | app/src/main/cpp/ikcp/ikcp.c:754-780 | the value returned: 0 when less than a header is left; otherwise -1, -2 or -3 for the connection number, the length or the command of the first segment that is not accepted, looked at in that order |
| `Codec.EncodedLayout` | app/src/main/cpp/ikcp/ikcp.c:886-896 | the 24 bytes of the header, little-endian: conv at 0, cmd at 4, frg at 5, wnd at 6, ts at 8, sn at 12, una at 16, len at 20; then the data |
| `FlushContents.FlushNumbers` | app/src/main/cpp/ikcp/ikcp.c:996-1023 | a flush numbers as many queued fragments as the smallest of snd_wnd, rmt_wnd and, unless switched off, cwnd has room for beyond what is in flight, the oldest first, from snd_nxt on; it transmits each, and what was in snd_buf stays there |
| `FlushContents.AdmittedIs` | app/src/main/cpp/ikcp/ikcp.c:1002-1023 | the same for the numbering alone: new segments are appended with consecutive numbers |
| `FlushContents.FlushAcks` | app/src/main/cpp/ikcp/ikcp.c:925-949 | every segment put out carries rcv_nxt and the free part of the receive window; the pending acks come first, in order, each with the number and the time stamp of the segment acked, and there are no others |
| `FlushContents.FlushSends` | app/src/main/cpp/ikcp/ikcp.c:1030-1078 | a data segment is put out if and only if it is one of snd_buf that is new, has reached its resendts, or has been skipped fastresend times (in the second copy at most fastlimit transmissions); it is stamped with the time of the flush |
| `FlushContents.FlushLeaves` | app/src/main/cpp/ikcp/ikcp.c:1034-1057 | each segment after a flush: transmissions, timeout, next resendts and skip count, for a new, a timed-out, a skipped and any other segment |
| `FlushContents.OneBackoff` | app/src/main/cpp/common/ikcp/ikcp.c:1016-1027 | the timeout after a timeout, with and without nodelay, in both copies |
| `FlushContents.FlushWindow` | app/src/main/cpp/ikcp/ikcp.c:1093-1113 | after a timeout cwnd is 1 and ssthresh is half the window the flush sent in, at least 2; after a fast retransmission alone ssthresh is half of what is in flight, at least 2, and cwnd that plus fastresend; any other flush changes neither, but for a cwnd of 0, which becomes 1 |
| `FlushContents.FlushClears` | app/src/main/cpp/ikcp/ikcp.c:1074-1077 | the connection is given up if and only if it was or a transmitted segment reaches dead_link transmissions; acks and probe flags are used up |
| `FastResend.InputSkips` | app/src/main/cpp/ikcp/ikcp.c:607-624 | in every state of the C code: with top the newest number acked in a datagram without a parse error, each segment left in snd_buf has its skip count one higher modulo 2^32 if top is in flight and the segment before it, and is unchanged otherwise |
| `FastResend.InputSkipsNone` | app/src/main/cpp/ikcp/ikcp.c:855-857 | without an ack, or after a parse error, no segment left is changed |
| `FastResend.NewestFound` | app/src/main/cpp/ikcp/ikcp.c:791-798 | the comparisons of ikcp_input find the newest number acked, if one is newer than all others |
| `FastResend.LeftExactly` | app/src/main/cpp/ikcp/ikcp.c:569-605 | a segment is left after a datagram if and only if no una in it is past the segment and no ack names it |
| `FastResend.SkippedIsResent` | app/src/main/cpp/ikcp/ikcp.c:1050-1057 | a segment neither new nor timed out that fastresend datagrams have skipped since the last flush is put out by the next one, in the second copy within fastlimit, as long as the 32-bit skip count has not wrapped; its skip count starts over, and its next resendts is one timeout away |
| `Probes.FlushProbes` | app/src/main/cpp/ikcp/ikcp.c:951-994 | a flush puts out IKCP_CMD_WASK if and only if rmt_wnd is 0 and the running probe time has been reached, and IKCP_CMD_WINS if and only if a report is owed; a closed window starts the timer at 7 seconds, each probe grows it by half, to at most two minutes, and an open window stops it |
| `Probes.KeepsAsking` | app/src/main/cpp/ikcp/ikcp.c:951-973 | in every run: after a flush that found the window closed and started the timer, or asked, another flush asks no later than 7 seconds, or two minutes, while every flush finds the window closed |
| `Probes.AsksInTime` | app/src/main/cpp/ikcp/ikcp.c:951-973 | the same from any state with a running timer, for the wait the timer shows |
| `Probes.AnswersNext` | app/src/main/cpp/ikcp/ikcp.c:831-835 | after an IKCP_CMD_WASK has come in, or ikcp_recv has made room in a full rcv_queue, the next flush puts out IKCP_CMD_WINS with the window then free |
| `Incoming.InputGrows` | app/src/main/cpp/ikcp/ikcp.c:859-877 | in every run: rmt_wnd is what the last segment of the datagram told; the windows grow only after a datagram without a parse error that moved snd_una, and only below rmt_wnd; by one segment below ssthresh, and above it incr by mss * mss / incr + mss / 16, with cwnd following once that makes another segment, in the first copy by one, in the second to incr rounded up but not past rmt_wnd |
| `Incoming.InputEstimates` | app/src/main/cpp/ikcp/ikcp.c:786-788 | the round-trip estimate is updated by the ages of the acks that are not from the future, in order, and by nothing else |
| `Progress.ExchangeProgresses` | app/src/main/cpp/ikcp/ikcp.c:1030-1084 | if all datagrams of one flushing call (ikcp_flush, or an ikcp_update that is due) of either side reach the peer and all datagrams of the peer's next flushing call come back, in any order and with anything in between, updates that are not due included, every segment sent whose number was inside the peer's window has left snd_buf |
| `Progress.PushLeaves` | app/src/main/cpp/ikcp/ikcp.c:1059-1073 | a segment that a flushing call transmits is in a datagram it emits |
| `Progress.AckLeaves` | app/src/main/cpp/ikcp/ikcp.c:937-949 | a pending ack is in a datagram the next flushing call emits, in a segment that carries the rcv_nxt of that moment as una |
| `Rounds.EverythingArrives` | app/src/main/cpp/ikcp/ikcp.c:911-1114 | from any state of any run: after as many working exchanges as there are segments waiting, all that ikcp_send had queued is acknowledged, and once the peer has room every byte taken has been returned by its ikcp_recv or waits in its queue, whatever else happens in between; an exchange works if its flush transmits the oldest segment, the peer has room, and the datagrams of the flush and of the reply arrive |
| `Rounds.ExchangesForward` | app/src/main/cpp/ikcp/ikcp.c:558-605 | each such exchange acknowledges at least one more segment |
| `Rounds.HeadComesDue` | app/src/main/cpp/ikcp/ikcp.c:1034-1057 | a segment in flight always comes due: ikcp_update transmits the oldest one at its resendts, or at ts_flush if that is a little later |
| `Rounds.AckedArrived` | app/src/main/cpp/ikcp/ikcp.c:682-736 | while rcv_queue has room, all the sender has seen acknowledged has arrived in order |
| `WrapRun.RunWraps` | app/src/main/cpp/ikcp/ikcp.c:569-624 | the machine on 32-bit sequence numbers goes through exactly the states of the machine on unbounded ones, taken modulo 2^32, in every run whose delivered datagrams are less than 2^31 numbers old |
| `WrapRun.MessagesArePrefixOnU32` | app/src/main/cpp/ikcp/ikcp.c:356-535 | so message delivery holds for the 32-bit machine |
| `WrapRun.ShortRunsAreRecent` | app/src/main/cpp/ikcp/ikcp.c:569-624 | the age condition holds in every run that numbers fewer than 2^31 segments each way |
| `TimeRun.RunRefines` | app/src/main/cpp/ikcp/ikcp.c:135-138 | the C code, on 32-bit numbers and 32-bit times, goes through exactly the states of a machine on which neither wraps, taken modulo 2^32, in every run in which compared numbers and compared times are less than 2^31 apart |
| `TimeRun.RunClocks` | app/src/main/cpp/ikcp/ikcp.c:1002-1195 | the same for times alone: every decision on echoed time stamps, retransmission times, the probe timer and the flush timer agrees |
| `TimeRun.ShortRunsAreTimely` | app/src/main/cpp/ikcp/ikcp.c:1026-1147 | the condition on times holds in every run whose clocks stay two minutes, and the longest timeout and an eighth of it, below 2^31 |
| `TimeRun.TickClocks` | app/src/main/cpp/ikcp/ikcp.c:1122-1147 | ikcp_update decides the same, and sets the same ts_flush modulo 2^32, when its time is near ts_flush |
| `TimeRun.FlushClocks` | app/src/main/cpp/ikcp/ikcp.c:911-1114 | a whole flush agrees: verdicts, new retransmission times, probe timer, segments put out |
| `TimeRun.InputClocks` | app/src/main/cpp/ikcp/ikcp.c:742-880 | a whole datagram agrees, round-trip samples included |
| `TimeRun.CheckClocks` | app/src/main/cpp/ikcp/ikcp.c:1159-1195 | ikcp_check names the same time modulo 2^32 |
| `ByteRun.BytesRunInStep` | app/src/main/cpp/ikcp/ikcp.c:742-1114 | two control blocks that exchange the byte strings ikcp_flush puts out, parsed by ikcp_input, go in every run through the states of the 32-bit machine on segments, and put out its datagrams encoded |
| `ByteRun.MessagesArePrefixOnBytes` | app/src/main/cpp/ikcp/ikcp.c:356-535 | so message delivery holds on bytes: what ikcp_recv returned is a prefix of what the peer's ikcp_send accepted |
| `ByteRun.BytesArePrefixOnBytes` | app/src/main/cpp/ikcp/ikcp.c:356-535 | and so does the byte pipe, in either mode |
| `ByteRun.BytesRefine` | app/src/main/cpp/ikcp/ikcp.c:135-138 | from the bytes down to the machine on which neither numbers nor times wrap |
| `KcpClient.UpdateKcp` | app/src/main/cpp/kcp_wrapper.cpp:93-96 | updateKcp makes one step of that system |
| `KcpClient.SendData` | app/src/main/cpp/kcp_wrapper.cpp:99-107 | so does sendData; the message is accepted if and only if the value returned is not negative |
| `KcpClient.ReceiveData` | app/src/main/cpp/kcp_wrapper.cpp:110-131 | receiveData makes two: a datagram goes in, and the next message, if it is whole and fits, comes out |
| `KcpClient.LongMessageBlocks` | app/src/main/cpp/kcp_wrapper.cpp:121-131 | a message longer than the 1500 bytes of the receive buffer is never returned, nor is any sent after it, in any run |
| `Refinement.InputSndWraps` | app/src/main/cpp/ikcp/ikcp.c:569-605 | una and ack processing on 32-bit numbers agrees with the unbounded one whenever true differences are below 2^31 |
| `Refinement.InputRcvWraps` | app/src/main/cpp/ikcp/ikcp.c:682-725 | so do the window test, the sorted insertion across the wrap, and the move to rcv_queue |
| `Refinement.InsertWraps` | app/src/main/cpp/ikcp/ikcp.c:688-703 | the insertion scan with _itimediff inserts at the same place as the comparison of unbounded numbers |
| `Refinement.FastackWraps` | app/src/main/cpp/ikcp/ikcp.c:607-624 | fast-ack counting agrees |
| `Refinement.AdmitWraps` | app/src/main/cpp/ikcp/ikcp.c:1002-1023 | the window edge at which the numbering of new segments stops agrees |
| `Refinement.FlushWraps` | app/src/main/cpp/ikcp/ikcp.c:911-1114 | a whole flush agrees: same state, same segments |
| `CongestionWindow.CongestionInvariant` | app/src/main/cpp/ikcp/ikcp.c:859-877 | with fixed mss and no product past 2^32: in every state reached by calls with arbitrary bytes ssthresh >= 2 and cwnd agrees with incr (cwnd = floor(incr / mss) in the first copy, abs(incr - cwnd * mss) < mss in the second), and every flush leaves cwnd >= 1 |
| `CongestionWindow.GrowKeeps` | app/src/main/cpp/common/ikcp/ikcp.c:829-851 | one growth step keeps that, raises cwnd by at most two and never takes it above rmt_wnd |
| `CongestionWindow.SlowGrowth` | app/src/main/cpp/ikcp/ikcp.c:866-870 | congestion avoidance alone: cwnd grows by at most two, incr by less than two segments, and no 32-bit product or sum wraps |
| `CongestionWindow.AfterFlushKeeps` | app/src/main/cpp/ikcp/ikcp.c:1093-1113 | the window after a fast resend or a timeout agrees with its byte count, with cwnd >= 1 and ssthresh >= 2 |
| `CongestionWindow.FastWindow` | app/src/main/cpp/ikcp/ikcp.c:1026-1099 | with fast resend off, ssthresh + 0xffffffff wraps to ssthresh - 1, which is still at least 1 |
| `CongestionWindow.CwndStaysPositive` | app/src/main/cpp/ikcp/ikcp.c:1110-1113 | once cwnd is positive no call makes it zero |
| `CongestionWindow.FlooredExactly` | app/src/main/cpp/common/ikcp/ikcp.c:829-851 | second copy: after a growth step cwnd = floor(incr / mss) if and only if nothing grew or slow start did and it held before; or cwnd stayed and incr has reached cwnd segments; or cwnd was raised and the new incr is a multiple of mss or past the peer's window |
| `CongestionWindow.SecondCopyRoundsUp` | app/src/main/cpp/common/ikcp/ikcp.c:838-844 | it does fail: a run from ikcp_create with an mss of 100 after which cwnd is 4 and incr 301 |
| `Timers.CheckIsSafe` | app/src/main/cpp/ikcp/ikcp.c:1159-1195 | at every time before the one ikcp_check names, ikcp_update would not flush and no segment is past its resendts |
| `Timers.CheckIsTight` | app/src/main/cpp/ikcp/ikcp.c:1159-1195 | at the time it names there is work, or a whole interval has passed |
| `Timers.CheckIsNear` | app/src/main/cpp/ikcp/ikcp.c:1186-1194 | its result is within [current, current + interval] |
| `Timers.TickExactly` | app/src/main/cpp/ikcp/ikcp.c:1122-1147 | ikcp_update flushes if and only if it is called for the first time, ts_flush has been reached, or is more than ten seconds away; ts_flush then is one interval on, or one interval from now on the first call and when that would have been reached too |
| `Timers.FlushIsScheduled` | app/src/main/cpp/ikcp/ikcp.c:1122-1147 | after a flush by ikcp_update ts_flush is in the future by at most interval; after an update without one, by at most ten seconds |
| `Timers.NextResendIsLeast` | app/src/main/cpp/ikcp/ikcp.c:1178-1188 | the scan of snd_buf finds the time to the first retransmission, or that one is due |
| `Retransmission.EstimatesBoundedInRuns` | app/src/main/cpp/ikcp/ikcp.c:541-556 | over runs: with samples in [0, R] and 8R < 2^31, rx_srtt and rx_rttval never exceed R |
| `Retransmission.EstimateBounds` | app/src/main/cpp/ikcp/ikcp.c:541-556 | under those bounds the 32-bit arithmetic of ikcp_update_ack computes what it would on unbounded integers |
| `Retransmission.RtoClampedInRuns` | app/src/main/cpp/ikcp/ikcp.c:554-555 | rx_minrto <= rx_rto <= 60000 in every run, whatever bytes arrive and whatever the estimator overflows |
| `Retransmission.SegmentTimeoutsBounded` | app/src/main/cpp/ikcp/ikcp.c:1041-1049 | in every run a segment's rto is at most 60000 * xmit in the first copy and 60000 * 2^(xmit - 1) in the second |
| `Retransmission.FlushSchedules` | app/src/main/cpp/ikcp/ikcp.c:1034-1057 | after a flush in any run, by ikcp_flush or by an ikcp_update that is due, every segment in snd_buf has xmit >= 1 (unless its count of 2^32 - 1 wraps), and its resendts is in the future while its rto limit is at most 2^31 |
| `Retransmission.FutureExactly` | app/src/main/cpp/common/ikcp/ikcp.c:1011-1036 | resendts is in the future after a visit if and only if the segment was left alone or its new timeout is in (0, 2^31] |
| `Retransmission.TouchTransmits` | app/src/main/cpp/ikcp/ikcp.c:1034-1057 | a visited segment has xmit >= 1 if and only if the 32-bit count did not just wrap |
| `Retransmission.SecondCopyFutureExactly` | app/src/main/cpp/common/ikcp/ikcp.c:1016-1027 | second copy without nodelay: after k timeouts in a row resendts is in the future if and only if rx_rto * 2^k <= 2^31 |
| `Overdue.SixteenTimeoutsFail` | app/src/main/cpp/common/ikcp/ikcp.c:1020-1026 | so it happens: in every configuration without nodelay there is a run from ikcp_create, of one late ack, one send and ikcp_update calls at the times the segment falls due, after which it has timed out sixteen times, its rto is 60000 * 2^16 and its resendts already looks past |
| `Retransmission.LimitsReached` | app/src/main/cpp/common/ikcp/ikcp.c:1020-1026 | the limits: 35791 transmissions in the first copy, 16 in the second |
| `KcpClass.Kcp.constructor` | app/src/main/cpp/ikcp/ikcp.c:233-293 | a new control block is in the initial state of the model, with nothing put out |
| `KcpClass.Kcp.CountersExact` | app/src/main/cpp/ikcp/ikcp.h:165-183 | between two calls nsnd_buf, nrcv_buf and nrcv_que are the lengths of their lists and within their windows; nsnd_que is, below 2^32 |
| `KcpClass.Kcp.UpdateAck` | app/src/main/cpp/ikcp/ikcp.c:541-556 | the estimator in place computes the estimator function of the model |
| `KcpClass.Kcp.ShrinkBuf` | app/src/main/cpp/ikcp/ikcp.c:558-567 | snd_una becomes the head of snd_buf, or snd_nxt |
| `KcpClass.Kcp.ParseAck` | app/src/main/cpp/ikcp/ikcp.c:569-589 | the loop removes the acknowledged segment and no other |
| `KcpClass.Kcp.ParseUna` | app/src/main/cpp/ikcp/ikcp.c:591-605 | the loop drops exactly the segments before una |
| `KcpClass.Kcp.ParseFastack` | app/src/main/cpp/ikcp/ikcp.c:607-624 | the loop counts a skip for exactly the segments before the acknowledged one |
| `KcpClass.Kcp.GrowAcks` | app/src/main/cpp/ikcp/ikcp.c:634-655 | the doubling growth of the ack array keeps every pair and makes room for one more |
| `KcpClass.Kcp.AckPush` | app/src/main/cpp/ikcp/ikcp.c:630-664 | one pair is appended to the ack array, grown or not |
| `KcpClass.Kcp.InsertSegment` | app/src/main/cpp/ikcp/ikcp.c:688-706 | the tail scan and insertion put the segment where the sorted insertion of the model does, or drop a repeated one |
| `KcpClass.Kcp.MoveReady` | app/src/main/cpp/ikcp/ikcp.c:714-725 | the loop moves exactly the in-order segments the window allows |
| `KcpClass.Kcp.ParseData` | app/src/main/cpp/ikcp/ikcp.c:676-736 | window test, insertion and move together |
| `KcpClass.Kcp.GrowWindow` | app/src/main/cpp/common/ikcp/ikcp.c:829-851 | the window growth in place, for both copies |
| `KcpClass.Kcp.Input` | app/src/main/cpp/ikcp/ikcp.c:742-880 | ikcp_input on arbitrary bytes: the new state and the value returned, including each error |
| `KcpClass.Kcp.PeekSize` | app/src/main/cpp/ikcp/ikcp.c:439-461 | the peek loop returns the size the model gives the next message |
| `KcpClass.Kcp.Recv` | app/src/main/cpp/ikcp/ikcp.c:356-434 | ikcp_recv: new state, bytes, value returned, for reads and peeks |
| `KcpClass.Kcp.MergeFragments` | app/src/main/cpp/ikcp/ikcp.c:382-407 | the merge loop copies exactly one message and takes off exactly its fragments |
| `KcpClass.Kcp.Send` | app/src/main/cpp/ikcp/ikcp.c:467-535 | ikcp_send: new queue and value returned, for both copies, both modes and negative lengths |
| `KcpClass.Kcp.CutIntoQueue` | app/src/main/cpp/ikcp/ikcp.c:513-532 | the fragment loop appends exactly the pieces of the model |
| `KcpClass.Kcp.EmitAcks` | app/src/main/cpp/ikcp/ikcp.c:937-949 | every pending ack goes out once, in order, and the scratch segment keeps the last one |
| `KcpClass.Kcp.RunProbeTimer` | app/src/main/cpp/ikcp/ikcp.c:951-971 | the probe timer in place |
| `KcpClass.Kcp.AdmitSegments` | app/src/main/cpp/ikcp/ikcp.c:1002-1023 | the loop numbers as many queued segments as the window allows |
| `KcpClass.Kcp.EmitSegments` | app/src/main/cpp/ikcp/ikcp.c:1030-1084 | the transmission loop: new snd_buf, bytes put out, and the fast-resend, loss and dead-link flags |
| `KcpClass.Kcp.Flush` | app/src/main/cpp/ikcp/ikcp.c:911-1114 | ikcp_flush: the whole new state, and the datagrams put out are the packed and encoded segments of the model, byte for byte |
| `KcpClass.Kcp.Update` | app/src/main/cpp/ikcp/ikcp.c:1122-1147 | ikcp_update: the new clock, and a flush when one is due |
| `KcpClass.Kcp.Check` | app/src/main/cpp/ikcp/ikcp.c:1159-1195 | ikcp_check computes the timer the Timers lemmas are about |
| `KcpClass.CallOk` | app/src/main/cpp/common/ikcp/ikcp.c:710-854 | every call keeps what holds between two calls |
| `IQueue.Add` | app/src/main/cpp/ikcp/ikcp.h:165-167 | IQUEUE_ADD on a ring of nodes inserts right after any node |
| `IQueue.AddTail` | app/src/main/cpp/ikcp/ikcp.h:169-171 | IQUEUE_ADD_TAIL appends at the end of the ring |
| `IQueue.Del` | app/src/main/cpp/ikcp/ikcp.h:175-178 | IQUEUE_DEL takes out exactly one node, the others keep their order |
| `IQueue.DelInit` | app/src/main/cpp/ikcp/ikcp.h:180-181 | IQUEUE_DEL_INIT does so and leaves the node a ring of its own |
| `IQueue.IsEmpty` | app/src/main/cpp/ikcp/ikcp.h:183 | IQUEUE_IS_EMPTY holds exactly for a ring of one |
| `IQueue.InsertByNumber` | app/src/main/cpp/ikcp/ikcp.c:688-706 | on the linked list itself, the tail scan and iqueue_add give the sorted insertion of the model, and a repeated number leaves the list alone |
| `RingAlloc.GrantIsFree` | app/src/main/cpp/common/ringbuffer/CRingBuf.cpp:1252-1388 | every byte granted by __RequestWritePtr, after jump and alignment, is in no black hole and unread by no installed consumer, for every ring size, consumer set and table sorted by start, when the write offset is in no hole's (start, end] |
| `RingAlloc.CommitKeepsClear` | app/src/main/cpp/common/ringbuffer/CRingBuf.cpp:1020-1090 | after a grant that condition holds again if and only if bytes are committed or no hole was jumped over |
| `RingAlloc.GrantsFreeExactly` | app/src/main/cpp/common/ringbuffer/CRingBuf.cpp:1198-1388 | for every write offset, in or outside holes, no request can be granted a byte of a hole if and only if: the byte before the offset is in no hole; or some byte is free, one byte would go to a free place or finds no room there, and somewhere as many bytes in a row are free as the readers would let be written behind the holes that hold the byte before the offset; or no byte is free and the least room any request needs is not writable |
| `RingAlloc.NothingGrantedExactly` | app/src/main/cpp/common/ringbuffer/CRingBuf.cpp:1314-1346 | nothing at all can be granted if and only if the least room any request needs, found in one pass over the merged holes, is not writable |
| `RingAlloc.FullRing` | app/src/main/cpp/common/ringbuffer/CRingBuf.cpp:1198-1388 | when every byte is in a hole, that is also when no grant takes a byte of a hole |
| `RingAlloc.MergedHangs` | app/src/main/cpp/common/ringbuffer/CRingBuf.cpp:1092-1154 | seen from an offset that is not clear, the merged holes hang over it by exactly as much as the table's do |
| `RingAlloc.ClearAfter` | app/src/main/cpp/common/ringbuffer/CRingBuf.cpp:1020-1090 | the offset is in no hole's (start, end] if and only if the byte before it is in no hole |
| `RingAlloc.GrantedExactly` | app/src/main/cpp/common/ringbuffer/CRingBuf.cpp:1314-1346 | a request is granted if and only if the bytes to skip, the alignment and the size are together less than the smallest writable size, and it is not a blocking one without consumers |
| `RingAlloc.NamedExactly` | app/src/main/cpp/common/ringbuffer/CRingBuf.cpp:1277-1330 | whom a refusal names: if some installed reader leaves no more room than the bytes themselves, all that do not; otherwise all that leave no more than the bytes, the alignment and what has to be skipped |
| `RingAlloc.GrantedWhereVacant` | app/src/main/cpp/common/ringbuffer/CRingBuf.cpp:1198-1388 | at a clear offset a request is granted if and only if there are, within what is writable, as many bytes in a row as it needs, alignment included, that are in no hole; it is given the first such place, so nothing is skipped in vain |
| `RingAlloc.LeapIsLeast` | app/src/main/cpp/common/ringbuffer/CRingBuf.cpp:1198-1250 | the jump goes no further than it must |
| `RingAlloc.RefusalNamesBlockers` | app/src/main/cpp/common/ringbuffer/CRingBuf.cpp:1277-1346 | a refusal names exactly the installed consumers that leave too little room, and none if and only if nobody is installed |
| `RingAlloc.GrantFacts` | app/src/main/cpp/common/ringbuffer/CRingBuf.cpp:1352-1371 | the granted bytes start less than one alignment after the new write offset, on a multiple of it |
| `RingAlloc.RoomIsEnough` | app/src/main/cpp/common/ringbuffer/CRingBuf.cpp:1352-1377 | once there is room the two later refusals in the code cannot happen |
| `RingAlloc.JumpedIsFree` | app/src/main/cpp/common/ringbuffer/CRingBuf.cpp:1198-1250 | the bytes behind a jump miss every hole |
| `RingGeometry.SortMergeKeepsBytes` | app/src/main/cpp/common/ringbuffer/CRingBuf.cpp:1092-1154 | for every write offset, unless the holes cover the whole ring: rotation and merging keep exactly the covered bytes, and the results follow each other with gaps |
| `RingGeometry.MergeFromHere` | app/src/main/cpp/common/ringbuffer/CRingBuf.cpp:1125-1146 | merging circular spans is merging intervals measured from the write offset |
| `RingGeometry.RotateAscends` | app/src/main/cpp/common/ringbuffer/CRingBuf.cpp:1100-1122 | the rotated table ascends from the write offset |
| `RingGeometry.LastStartsBefore` | app/src/main/cpp/common/ringbuffer/CRingBuf.cpp:1134-1136 | the assertion of the merge loop holds |
| `RingJump.StopsExactly` | app/src/main/cpp/common/ringbuffer/CRingBuf.cpp:1214-1246 | the loop stops if and only if it is outside the hole and not at its end, the hole is not empty, and the bytes fit in front of it |
| `RingJump.JumpLands` | app/src/main/cpp/common/ringbuffer/CRingBuf.cpp:1198-1250 | where the whole loop lands: at the first gap between merged holes where it stops, or at the end of the last hole |
| `RingJump.LandingIsFree` | app/src/main/cpp/common/ringbuffer/CRingBuf.cpp:1198-1250 | when no hole reaches a whole turn, all positions behind the landing are free |
| `RingJump.AllLandExactly` | app/src/main/cpp/common/ringbuffer/CRingBuf.cpp:1198-1250 | when the last hole hangs over the offset: all landings are followed by free positions if and only if one byte lands free or has no room, and a free stretch as long as the room behind the overhang exists |
| `RingJump.LeastNeedExactly` | app/src/main/cpp/common/ringbuffer/CRingBuf.cpp:1198-1250 | one pass over the holes finds the least room any request needs, its jump included |
| `RingRuns.TableInRuns` | app/src/main/cpp/common/ringbuffer/CRingBuf.cpp:1541-1867 | for uniquely named consumers, in every run of consumer calls, moves, resets, requests and commits: the table is sorted by (start, end), its holes belong to different blocked consumers (so one that holds a frame owns none), and there are never more holes than consumers |
| `RingRuns.AssertionHoldsInRuns` | app/src/main/cpp/common/ringbuffer/CRingBuf.cpp:1771-1772 | so whenever a holder is overtaken the assertion of InsertBlackHole holds and the hole goes in |
| `RingRuns.ConsumerKeepsClear` | app/src/main/cpp/common/ringbuffer/CRingBuf.cpp:634-681 | no consumer call moves the write offset into a hole's (start, end] |
| `RingRuns.OvertakeClearExactly` | app/src/main/cpp/common/ringbuffer/CRingBuf.cpp:1816-1867 | overtaking keeps the offset out of every (start, end] if and only if it is not in that of the span the consumer holds |
| `RingRuns.ResetClearExactly` | app/src/main/cpp/common/ringbuffer/CRingBuf.cpp:1492-1521 | a reset does if and only if no hole and no held span has offset 0 in its (start, end] |
| `RingRuns.RequestClearExactly` | app/src/main/cpp/common/ringbuffer/CRingBuf.cpp:1327-1346 | a request does if and only if it is refused or jumps over no hole |
| `RingRuns.SettledExactly` | app/src/main/cpp/common/ringbuffer/CRingBuf.cpp:1020-1090 | call by call: after it the offset is clear, or the bytes of the grant that is out are in no hole, if and only if the condition of that call holds; a commit of bytes always keeps this |
| `RingRuns.OrderlyExactly` | app/src/main/cpp/common/ringbuffer/CRingBuf.cpp:1252-1867 | the runs in which that holds after every call, with requests made at clear offsets only, are exactly those in which no call breaks its condition |
| `RingRuns.OrderlyGrantsFree` | app/src/main/cpp/common/ringbuffer/CRingBuf.cpp:1252-1388 | in those runs every byte of every grant is in no hole and unread by no installed consumer |
| `RingRuns.GrantsInRunsExactly` | app/src/main/cpp/common/ringbuffer/CRingBuf.cpp:1198-1388 | after any run that overwrites no frame still held: no request can be granted a byte of a hole if and only if the offset is safe in the sense of GrantsFreeExactly |
| `RingRuns.FullInRuns` | app/src/main/cpp/common/ringbuffer/CRingBuf.cpp:1841-1852 | in such runs no hole is empty |
| `RingWitness.NewestHeldOverlaps` | app/src/main/cpp/common/ringbuffer/CRingBuf.cpp:1816-1867 | a run from an empty ring without reset or discard: the offset is clear until its last call overtakes the consumer of the newest frame, and then 3000 bytes are granted right through a frame another consumer holds; the last calls are those of one non-blocking RequestWriteFrame that finds no newer I frame |
| `RingWitness.ResetOverlaps` | app/src/main/cpp/common/ringbuffer/CRingBuf.cpp:1492-1521 | a run without discard or overtaking: the offset is clear until its last call, a reset while a frame that goes round the end of the ring is held, and the next 15 bytes granted are in that frame |
| `RingWitness.DiscardOverlaps` | app/src/main/cpp/common/ringbuffer/CRingBuf.cpp:1040-1090 | a run without reset: the offset is clear until its last two calls, a request that jumps over a hole and its discarding, and the next grant overlaps another hole |
| `RingIndex.NextFrameExactly` | app/src/main/cpp/common/ringbuffer/CRingBuf.cpp:716-786 | IndexFindNextFrame finds a frame if and only if it is the first of that type from the read index on, going round, before the producer's |
| `RingIndex.BlockersFound` | app/src/main/cpp/common/ringbuffer/CRingBuf.cpp:932-951 | IndexFindBlocker finds exactly the consumers whose index is the slot after the producer's, each once |
| `RingIndex.ClearedFree` | app/src/main/cpp/common/ringbuffer/CRingBuf.cpp:1816-1867 | moving those with MoveAllBlockers leaves nobody in that slot |
| `RingIndex.AttemptsGuarded` | app/src/main/cpp/common/ringbuffer/CRingBuf.cpp:1877-1954 | every call RequestWriteFrame makes is careful, and a grant leaves nobody in the way of the slot after the one it will be given |
| `RingIndex.ReadIsCareful` | app/src/main/cpp/common/ringbuffer/CRingBuf.cpp:1541-1626 | so is a read request: it finds a frame between its own index and the producer's |
| `RingIndex.GuardedSlotsFree` | app/src/main/cpp/common/ringbuffer/CRingBuf.cpp:974-1000 | in every run of careful calls no commit overwrites the index entry of a frame a consumer holds |
| `RingIndex.GrantsInGuardedRuns` | app/src/main/cpp/common/ringbuffer/CRingBuf.cpp:1198-1388 | so in those runs no request can be granted a byte of a hole if and only if the offset is safe in the sense of GrantsFreeExactly |
| `RingMoves.BlockersLand` | app/src/main/cpp/common/ringbuffer/CRingBuf.cpp:1816-1867 | one MoveAllBlockers: a blocker ends at the first I frame strictly after its own index and before the producer's, if there is one, and otherwise at the frame before the producer's, with that frame's offset; it waits for an I frame if and only if none was found for it or for a blocker before it; the others stay |
| `RingMoves.ClearedLands` | app/src/main/cpp/common/ringbuffer/CRingBuf.cpp:1917-1926 | RequestWriteFrame puts ahead exactly the consumers whose index is the slot after the producer's |
| `RingMoves.RefusalLands` | app/src/main/cpp/common/ringbuffer/CRingBuf.cpp:1938-1950 | when it is refused it puts ahead exactly the consumers that leave no more room than needed, before it asks again |
| `RingMoves.TriesExactly` | app/src/main/cpp/common/ringbuffer/CRingBuf.cpp:1910-1954 | a caller that may block makes one request, or none if somebody is in the way, and moves nobody; any other asks until it is granted bytes, and gives up only after all its attempts |
| `RingMoves.MoveLands` | app/src/main/cpp/common/ringbuffer/CRingBuf.cpp:592-632 | what a moved consumer becomes; one that was given something is marked as moved and blocked |
| `RingMoves.OvertakenKeeps` | app/src/main/cpp/common/ringbuffer/CRingBuf.cpp:1841-1852 | a consumer that holds frames when it is moved gets a hole around exactly their bytes, one that holds none gets none, and all other holes stay |
| `RingMoves.ConsumerStands` | app/src/main/cpp/common/ringbuffer/CRingBuf.cpp:634-681 | where each call of a consumer leaves it: a commit takes it behind the frames it held, or leaves it where the producer put it; a discard takes it to the producer; every call gives up its own holes and moves nobody else |
| `RingMoves.ResetStands` | app/src/main/cpp/common/ringbuffer/CRingBuf.cpp:1486-1521 | a reset puts every consumer and the producer at the start, and the consumers wait for an I frame |
| `RingReads.ReadsInOrder` | app/src/main/cpp/common/ringbuffer/CRingBuf.cpp:1541-1626 | in every run a reader that starts at the write offset and is not moved, reset or told to discard, with RequestReadFrame of type ANY and CommitRead of its length, gets the frames the producer commits from then on, in order, each once; it is as many index entries behind the producer as frames are left |
| `RingReads.ReadsNext` | app/src/main/cpp/common/ringbuffer/CRingBuf.cpp:1541-1626 | such a reader's request gives the next of those frames, all bytes of which are there, whenever there is one |
| `RingReads.CommitGivesBack` | app/src/main/cpp/common/ringbuffer/CRingBuf.cpp:634-681 | its commit takes it one frame on, and every byte of the frame, unread before, is free again: the writable size grows by its length |
| `RingReads.ReadsFirst` | app/src/main/cpp/common/ringbuffer/CRingBuf.cpp:1541-1626 | in any state RequestReadFrame gives a frame if and only if it is the first of the wanted type between the reader's index and the producer's and all its bytes have been written |
| `RingTable.StepKeeps` | app/src/main/cpp/common/ringbuffer/CRingBuf.cpp:634-681 | every consumer call, every move of a blocker and the reset keep the table in order |
| `RingTable.InsertKeeps` | app/src/main/cpp/common/ringbuffer/CRingBuf.cpp:1771-1814 | an owner without a hole gets exactly one, and the table stays sorted |
| `RingTable.DeleteKeeps` | app/src/main/cpp/common/ringbuffer/CRingBuf.cpp:1743-1752 | deleting by owner keeps the order and takes out that owner's hole only |
| `RingTable.OwnersFit` | app/src/main/cpp/common/ringbuffer/CRingBuf.cpp:1771-1772 | there are no more holes than blocked consumers |
| `RingTable.TableFeedsAllocator` | app/src/main/cpp/common/ringbuffer/CRingBuf.cpp:1198-1204 | the table is what the allocator relies on: spans on the ring, sorted by start |
| `RingBuffer.CRingBuf.constructor` | app/src/main/cpp/common/ringbuffer/CRingBuf.cpp:336-346 | a ring of the given size with nothing written; its consumers are handed in already installed |
| `RingBuffer.CRingBuf.DeleteByIdx` | app/src/main/cpp/common/ringbuffer/CRingBuf.cpp:1727-1741 | the shift in place removes one hole |
| `RingBuffer.CRingBuf.DeleteOwnedBy` | app/src/main/cpp/common/ringbuffer/CRingBuf.cpp:1743-1752 | the backward loop removes exactly the owner's holes |
| `RingBuffer.CRingBuf.InsertBlackHole` | app/src/main/cpp/common/ringbuffer/CRingBuf.cpp:1771-1814 | the search and the shift in place insert where the model does, or report an existing hole |
| `RingBuffer.CRingBuf.OvertakeConsumer` | app/src/main/cpp/common/ringbuffer/CRingBuf.cpp:1841-1865 | one turn of MoveAllBlockers, for each consumer state |
| `RingBuffer.CRingBuf.FindNextFrame` | app/src/main/cpp/common/ringbuffer/CRingBuf.cpp:716-786 | the loop of IndexFindNextFrame computes the search |
| `RingBuffer.CRingBuf.FindIndexBlockers` | app/src/main/cpp/common/ringbuffer/CRingBuf.cpp:932-951 | the loop of IndexFindBlocker |
| `RingBuffer.CRingBuf.MoveAllBlockers` | app/src/main/cpp/common/ringbuffer/CRingBuf.cpp:1816-1867 | the whole loop, with its search for an I frame for each blocker, makes the moves of the model |
| `RingBuffer.CRingBuf.ResetAllUser` | app/src/main/cpp/common/ringbuffer/CRingBuf.cpp:1486-1521 | the reset isolates every holder and moves everybody to the start |
| `RingBuffer.CRingBuf.RequestReadFrame` | app/src/main/cpp/common/ringbuffer/CRingBuf.cpp:1541-1626 | a read request gives up the caller's hole, and holds the next frame of the type asked for if there is one with all its bytes written |
| `RingBuffer.CRingBuf.CommitRead` | app/src/main/cpp/common/ringbuffer/CRingBuf.cpp:634-681 | a commit frees the consumer and moves it on unless the producer has already done so |
| `RingBuffer.CRingBuf.DiscardAllData` | app/src/main/cpp/common/ringbuffer/CRingBuf.cpp:1523-1539 | a discard moves the consumer to the producer and frees it |
| `RingBuffer.CRingBuf.MergeRange` | app/src/main/cpp/common/ringbuffer/CRingBuf.cpp:1125-1146 | the merge loop over part of the table |
| `RingBuffer.CRingBuf.BlackHoleSortMerge` | app/src/main/cpp/common/ringbuffer/CRingBuf.cpp:1092-1154 | the rotation in two passes computes the merged table of the model |
| `RingBuffer.CRingBuf.BlackholeJump` | app/src/main/cpp/common/ringbuffer/CRingBuf.cpp:1198-1250 | the loop computes the jump of the model |
| `RingBuffer.CRingBuf.Survey` | app/src/main/cpp/common/ringbuffer/CRingBuf.cpp:1277-1297 | the first loop finds the smallest writable size and who blocks |
| `RingBuffer.CRingBuf.RequestWritePtr` | app/src/main/cpp/common/ringbuffer/CRingBuf.cpp:1252-1388 | __RequestWritePtr decides what the model decides; a refusal changes nothing, a grant moves the write offset by the bytes skipped; it is the request of the runs |
| `RingBuffer.CRingBuf.RequestWriteFrame` | app/src/main/cpp/common/ringbuffer/CRingBuf.cpp:1877-1954 | the retry loop makes exactly the calls of the model: move those in the way of the next slot, request, move the blockers named, up to 100 times |
| `RingBuffer.CRingBuf.PlaceBytes` | app/src/main/cpp/common/ringbuffer/CRingBuf.cpp:1348-1377 | offset, padding and the remembered sizes after a grant |
| `RingBuffer.CRingBuf.CommitWrite` | app/src/main/cpp/common/ringbuffer/CRingBuf.cpp:1020-1090 | a commit indexes the frame behind the padding and moves the write offset past it; 0 discards the request; it is the commit of the runs |
| `Md5.HashPieces` | app/src/main/cpp/common/md5/common_md5.c:108-179 | however a message is cut into MD5Update calls, as long as no call meets the wrap of LoopStops, the digest is the fold of the block function over the padded message, with its length appended, as sections 3.1 to 3.5 of RFC 1321 say |
| `Md5.Context.Update` | app/src/main/cpp/common/md5/common_md5.c:122-151 | MD5Update absorbs exactly its input, for every length its loop can handle |
| `Md5.Context.WholeBlocks` | app/src/main/cpp/common/md5/common_md5.c:143 | the block loop stops after the last whole block of the input |
| `Md5.Context.Final` | app/src/main/cpp/common/md5/common_md5.c:156-179 | MD5Final pads, appends the bit count, returns the digest of everything absorbed and clears the context |
| `Md5.Context.Encode` | app/src/main/cpp/common/md5/common_md5.c:275-286 | Encode writes each word with its low-order byte first |
| `Md5.InitBytes` | app/src/main/cpp/common/md5/common_md5.c:108-116 | the chaining variables start as the bytes 01 23 45 67 89 ab cd ef fe dc ba 98 76 54 32 10 |
| `Md5.OutputReads` | app/src/main/cpp/common/md5/common_md5.c:174-175 | the digest is the four chaining variables in order, each with its low-order byte first |
| `Md5.PaddedReads` | app/src/main/cpp/common/md5/common_md5.c:163-173 | what is hashed is the message, the byte 80, the least zeros that make whole blocks, and the length in bits as two words, the low one first |
| `Md5.FoldsInOrder` | app/src/main/cpp/common/md5/common_md5.c:138-143 | the blocks are folded in one after the other, the oldest first, starting from the constants of section 3.3 of RFC 1321 |
| `Md5.CountStep` | app/src/main/cpp/common/md5/common_md5.c:131-133 | the two-word bit counter with its carry counts bits modulo 2^64 |
| `Md5.CountIndex` | app/src/main/cpp/common/md5/common_md5.c:128-129 | the position in the buffer is the byte count modulo 64 |
| `Md5.LoopStops` | app/src/main/cpp/common/md5/common_md5.c:143 | the 32-bit test of the block loop stops it where it must if and only if nothing was buffered or buffered bytes and input together are below 2^32 |
| `MediaSlice.RoundTrip` | app/src/main/cpp/common/media_packet/Common_media_slice_packet.c:50-174 | unpacking a packed non-empty frame gives back its bytes, and its first header the seven copied fields, if and only if it needs at most 65535 slices |
| `MediaSlice.SliceAt` | app/src/main/cpp/common/media_packet/Common_media_slice_packet.c:142-166 | every slice, header included, fits DATA_MAX_MTU_SIZE and carries at least a byte |
| `MediaSlice.PackFrame` | app/src/main/cpp/common/media_packet/Common_media_slice_packet.c:115-174 | the loop fills the buffer with exactly the slices of the model |
| `MediaSlice.UnpackFrame` | app/src/main/cpp/common/media_packet/Common_media_slice_packet.c:50-113 | the loop returns the payloads, the fields of the first header and the error of the model, on every source in which the slices it looks at are present |
| `MediaSlice.UnpackExactly` | app/src/main/cpp/common/media_packet/Common_media_slice_packet.c:50-113 | on any source with a header: the loop reads all slices the first header counts if and only if they are there, whole, one behind the other, and then gives their payloads in order; it returns its error if and only if the first slice that is not whole claims more than 1312 bytes |
| `MediaSlice.HeaderReads` | app/src/main/cpp/common/media_packet/Common_media_slice_packet.c:143-159 | reading a header gives what was assigned, whatever the unassigned bytes are |
| `MediaSlice.PackedLayout` | app/src/main/cpp/common/media_packet/Common_media_slice_packet.c:131-164 | slice i of a packed frame starts 1376 * i bytes into it; its header has the frame's fields at 2, 4, 10, 12, 24, 32 and 40, the number of slices at 56, i + 1 at 58 and the payload length at 60, low-order bytes first; after 64 bytes come the next 1312 bytes of the frame, or what is left |
| `MediaSlice.SlicesUnpack` | app/src/main/cpp/common/media_packet/Common_media_slice_packet.c:74-108 | unpacking any number of the slices gives the bytes of those slices |
| `Crc16.CrcIsDivision` | app/src/main/cpp/common/api/comm_api.c:983-989 | the table-driven CRC equals the bit-by-bit division by 0x1021 on every buffer |
| `Crc16.CalculateCRC16` | app/src/main/cpp/common/api/comm_api.c:983-989 | so does the loop over the buffer, from 0 |
| `Crc16.EntryIs` | app/src/main/cpp/common/api/comm_api.c:962-981 | every one of the 256 table entries is eight division steps of its index |
| `Crc16.OnlyOwnBytesGiveZero` | app/src/main/cpp/common/api/comm_api.c:983-989 | appending two bytes gives CRC 0 if and only if they are the CRC, high byte first |
| `Crc16.NeighboursDetected` | app/src/main/cpp/common/api/comm_api.c:983-989 | two messages that differ in two neighbouring bytes only have different CRCs |
| `Division.StepIsPolynomial` | app/src/main/cpp/common/api/comm_api.c:962-981 | the division step is the shift with the polynomial 0x1021 |
| `Division.FeedByte` | app/src/main/cpp/common/api/comm_api.c:983-989 | feeding the eight bits of a byte is mixing it in at the top and eight steps |

## Left out

- Segment fields that every transmission sets anew (`ts`, `wnd`, `una` of a queued segment) are not kept between two transmissions.
- The counter `xmit` of the control block, logging, allocator hooks, traffic and loss-rate statistics of KCP.
- Changing mtu, windows or modes in the middle of a run.
- Linked segment lists inside the class `Kcp`: its queues are sequences; `IQueue.dfy` shows the macros and one scan on nodes.
- `KcpClass.Kcp.Recv`: the bytes are returned instead of copied into the caller's buffer.
- `RequestReadContinuousFrames`: its search for frames that start a new stretch; that frames are then held is `RequestRead`, whose frames are arguments.
- `RingBuffer.CRingBuf.constructor`: consumers are handed in already installed, because installing them is not modelled.
- `RingAlloc.GrantIsFree`: relies on the byte before the write offset being in no hole, which the code does not establish by itself.
- `RingAlloc.CommitKeepsClear`, and with it `RequestClearExactly` and `GrantsFreeExactly`: about tables without empty holes; `FullInRuns` says when there are none.
- The ring's memory mapping, locks, accounting, install and uninstall, ageing of holes, continuous-frame bookkeeping, and the latest-frame and time-stamp searches of the frame index.
- `RingBuffer.CRingBuf.RequestWriteFrame`: the alignment is an argument, and no hole is deleted for its age.
- `Md5.HashPieces`: the block function `MD5Transform` is a parameter.
- `MediaSlice.UnpackFrame`: the code has no bounds checks, so a source that lacks a slice it looks at is outside its requires.
- `Rounds.EverythingArrives`: that enough exchanges work is its hypothesis; nothing is said about how likely that is.
- `KcpClient.ReceiveData`: the socket is not modelled; a datagram is what `recvfrom` delivers, uncut.
- Sockets, JNI, media devices, encryption, configuration storage, queues and other table plumbing.
