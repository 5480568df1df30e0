# A user-space TCP/IP stack, in Dafny

This project models the data path of the stack: 32-bit sequence numbers, byte streams, the
reassembler, the TCP receiver and sender, the peer that ties them together, two peers talking over a
bad network, the wire layer under them (checksum, integer parser and serializer, IPv4 and TCP
headers), and the network interface with its timed ARP tables.

Each component that the program updates in place is a class with the program's fields. Its methods
are proved equal to a small specification on values (`StreamData`, `Assembly`, `Receiver`, `Sender`,
`Peer`, `Header`, `WireSegment`, `Interface`), and what the program promises is proved about that
specification, over every run.

| file | what it holds |
|---|---|
| `Words.dfy`, `Buffers.dfy`, `BigEndian.dfy` | integer widths, lists of buffers, big-endian integers |
| `WrappingIntegers.dfy` | `wrap` and `unwrap` |
| `ByteStream.dfy` | the byte stream and `read` |
| `Reassembly.dfy`, `Reassembler.dfy`, `Closing.dfy` | reassembly as a partial map, the sliding vectors that implement it, and when the stream is closed |
| `ReceiverModel.dfy`, `TCPReceiver.dfy` | the receiver |
| `SenderModel.dfy`, `SenderSafety.dfy`, `SenderRuns.dfy`, `Retransmissions.dfy`, `TCPSender.dfy` | the sender on values, its invariant, its runs, its timer against a record of events, and the object with 32-bit numbers |
| `PeerModel.dfy`, `Answers.dfy`, `TCPPeer.dfy` | one endpoint, and when it says something |
| `Link.dfy`, `Connection.dfy` | two endpoints and a network that loses, duplicates and reorders |
| `EarlyClose.dfy`, `Overruns.dfy` | runs in which the obvious claims about closing and the window fail |
| `Checksum.dfy`, `Parser.dfy`, `IPv4Header.dfy`, `TCPSegment.dfy` | the wire layer |
| `InterfaceModel.dfy`, `ArpSafety.dfy`, `ArpRuns.dfy`, `ArpRequests.dfy`, `ArpReplies.dfy`, `NetworkInterface.dfy` | the network interface |

The network is a grow-only set of segments. Every segment ever sent can be delivered any number of
times, in any order, however late, or never. Numbers on the wire have 32 bits, so a segment that comes
late enough can be taken for another one; two conditions say exactly which deliveries do harm.

- Both streams stay right in a step if and only if the data it delivers fits: it is ignored, or every
  byte that the window takes from it is the one sent there (`Connection.NextKeepsInvExactly`). Data
  within 2^31 of the bytes delivered always fits (`Connection.NearRunFits`), and so does a segment
  without data, and a late one that is read as lying beyond the window (`Link.EmptyFits`,
  `Link.OldDataIsIgnored`). Data exactly 2^32 late does not: `Link.OldDataCorrupts`.
- Nothing is forgotten that was not acknowledged if and only if the acknowledgment is harmless: it is
  read as one of something not sent, or covers only messages that arrived
  (`Connection.NextKeepsAcksExactly`). `Link.HarmlessByAge` says that in terms of its age, and one less
  than 2^32 old is always harmless (`Connection.YoungRunIsHarmless`). With an older one a byte can be
  lost for good: `Link.VeryOldAckForgets`.

`Connection.OutstandingStaysFresh` shows that, while a sender has accepted fewer than 2^31 - 65536
zero-window acks, all of its outstanding messages and the newest acknowledgment lie within 2^31.

A sender finds its outstanding messages again from their 32-bit numbers, as the program does, and
every theorem about it holds for any number of them. `SenderSafety.WrappedAcksExactly` says when
that is the same as knowing their places.

Where the code does not meet the obvious claim, the project states when it does:

- A FIN can close the inbound stream early. `Closing.ClosesExactlyAtEnd` gives the exact condition on
  the substring that ends the stream; `Closing.EmptyEndOutOfOrderClosesEarly` and
  `EarlyClose.ByteIsForgotten` are runs in which it goes wrong.
- The unsigned subtraction in the reassembler stays in the window exactly under the condition that
  the receiver's guard establishes (`Reassemblers.LoopStaysInWindow`).
- Every accepted zero-window ack permits one more sequence number, so the flight is bounded by 65535
  plus their number rather than by the window (`SenderRuns.SenderIsSafe`).
  `Overruns.TwoInFlightAgainstZeroWindow` is a run with two numbers in flight against a window of
  zero; `SenderRuns.FlightFitsExactly` says after which acks no run exceeds the window or one probe.
- An ack of nothing that comes before the SYN is accepted and bounds nothing: the SYN goes out with or
  without a FIN (`SenderRuns.WindowIsRespected`, `Overruns.EarlyAckBoundsNothing`).
- A receiver takes every byte of a message that lies in its window, except for the last byte of a message
  placed at number 0 without a SYN, which no sender here makes (`ReceiverModel.TakesExactly`).
- A header with checksum field 0xffff where 0 is meant passes the check of RFC 791 and is refused
  (`IPv4.AcceptedExactly`, `IPv4.OnesAreRefused`), as is one with the reserved bit set
  (`IPv4.ReservedBitRefused`); a header that announces options round-trips only with nothing after it
  (`IPv4.ParseUndoesSerialize`).
- A 32-bit checksum accumulator that overflows gives another checksum
  (`Checksum.OverflowIsVisible`).
- A datagram offered while another one waits for the same neighbour is lost
  (`ArpRuns.LostExactlyWhileWaiting`, `ArpRuns.SecondDatagramIsLost`). A cached address outlives its
  30 seconds exactly if a single tick makes its 32-bit age wrap (`ArpSafety.TickKeepsCacheExactly`,
  `ArpRuns.LongTickKeepsMapping`).
- A comment in `send_datagram` says that a second request is held back for five seconds after a
  request. The code counts from when the datagram was queued and never resets that age, so
  after five seconds every further datagram makes a request: `ArpRequests.TwoRequestsAtOnce` makes two
  in the same millisecond. `ArpRequests.RequestsSpacedExactly` says in which runs all requests for a
  neighbour are five seconds apart; `ArpRuns.OneRequestInFiveSeconds` says what holds in any case, that
  exactly one is made in the first five seconds.

## Model

| member | source | states |
|---|---|---|
| WrappingIntegers.WrapInjective | src/wrapping_integers.cc:6-11 | distinct absolute numbers less than 2^32 apart never get the same 32-bit number |
| WrappingIntegers.UnwrapRepresents | src/wrapping_integers.cc:13-52 | the result always wraps back to the given number, including where an intermediate value wraps in 64 bits |
| WrappingIntegers.UnwrapIsNearest | src/wrapping_integers.cc:13-52 | for every input, no 64-bit number with the same 32-bit form is closer to the checkpoint, and ties go to the lower one |
| WrappingIntegers.UnwrapWrap | src/wrapping_integers.cc:6-52 | unwrapping a wrapped number gives it back if and only if it lies in the half-open interval of width 2^32 around the checkpoint, or its only rival is not a 64-bit number |
| WrappingIntegers.UnwrapOld | src/wrapping_integers.cc:13-52 | a number up to 2^32 + 2^31 behind the checkpoint is read as it was meant while it is in reach, and as 2^32 more beyond that |
| ByteStreams.StreamIsFifo | src/byte_stream.cc:9-74 | over any sequence of pushes and pops, what was buffered and accepted is what was delivered and is still buffered, in order, and the buffer never exceeds the capacity |
| ByteStreams.StepTakesAll | src/byte_stream.cc:9-74 | a push accepts the data from its beginning on, and all of it unless the buffer is full afterwards; a pop takes what it asks for, or nothing and flags an error exactly if there is less |
| ByteStreams.ByteStream.Push | src/byte_stream.cc:9-17 | appends exactly the prefix that fits to everything ever written; the pushing loop refines that |
| ByteStreams.ByteStream.AvailableCapacity | src/byte_stream.cc:37-41 | the capacity minus what was written and not read |
| ByteStreams.ByteStream.Peek | src/byte_stream.cc:48-52 | the whole of what was written and not read |
| ByteStreams.ByteStream.IsFinished | src/byte_stream.cc:54-58 | closed, and everything ever written has been read |
| ByteStreams.ByteStream.Pop | src/byte_stream.cc:65-74 | moves the read position, or flags an error and moves nothing when asked for more than is buffered |
| ByteStreams.Read | src/byte_stream_helpers.cc:10-25 | takes exactly the first min(len, buffered) bytes and pops exactly those |
| Reassembly.InsertKeepsWindowed | src/reassembler.cc:20-61 | stored bytes always lie strictly between the next needed index and the window's edge, the edge does not move, and the stream takes the whole known run (its push never truncates) |
| Reassembly.InsertAgrees | src/reassembler.cc:20-61 | if a piece of a string arrives, what is written stays a prefix of the string and what is stored stays part of it |
| Reassembly.InsertAgreesExactly | src/reassembler.cc:20-61 | for any substring at any index: output and store stay part of a string if and only if each byte the window takes, and that is not known already, is the string's |
| Reassembly.InsertKnown | src/reassembler.cc:20-61 | an insertion makes known exactly the indices of the substring below the window's edge, whatever was known before |
| Reassembly.InsertContents | src/reassembler.cc:24-43 | the first write wins for any substrings, conflicting ones included: no known byte changes, and each byte that becomes known is the one the substring has there |
| Reassembly.BaseIsFirstUnknown | src/reassembler.hh:25-36 | the number of bytes written is the first unknown index: the output is the longest known prefix |
| Reassembly.OrderIndependence | src/reassembler.cc:24-61 | two sequences of pieces that cover the same indices give the same output and the same stored bytes, whatever their order, overlap and duplication |
| Reassembly.CoveredPrefixIsWritten | src/reassembler.cc:24-61 | pieces that cover the first n indices and miss the next one output exactly the first n bytes |
| Reassemblers.FilledIsMerged | src/reassembler.cc:24-43 | filling the vectors inside the window is merging the clipped substring into the partial map, first write winning |
| Reassemblers.FlushIsSettle | src/reassembler.cc:45-61 | sliding the vectors past the leading set flags writes the maximal known run and keeps exactly the rest |
| Reassemblers.LoopStaysInWindow | src/reassembler.cc:20-31 | with 64-bit subtraction the storing loop stays inside the window if and only if the substring begins at or before its edge, or is empty |
| Reassemblers.Reassembler.constructor | src/reassembler.hh:7-18 | starts as the empty partial map over the given stream |
| Reassemblers.Reassembler.Insert | src/reassembler.cc:5-85 | with all indices in range, the vectors, counters and output after an insertion are those of the partial-map specification, including truncation, first write wins and closing |
| Reassemblers.Reassembler.Store | src/reassembler.cc:20-43 | both branches, with the 64-bit subtraction, store the substring at each clear offset of its part of the window and count the new flags |
| Reassemblers.Reassembler.Flush | src/reassembler.cc:45-61 | pushes exactly the leading flagged bytes and slides vectors, counter and base together |
| Reassemblers.Reassembler.BytesPendingCounts | src/reassembler.cc:87-90 | the counter is the number of stored bytes not yet written |
| Closing.ClosesExactlyAtEnd | src/reassembler.cc:77-84 | for the substring that ends the stream: under all later arrivals and reads the output is closed exactly when complete, if and only if the end fits the window, is stored already, or the stream is complete without it |
| Closing.InsertKeepsEnd | src/reassembler.cc:77-84 | once the end is known, any insertion that keeps the contents right keeps closing exact |
| Closing.EmptyEndOutOfOrderClosesEarly | src/reassembler.cc:77-84 | an input for which the stream is closed with nothing delivered |
| ReceiverModel.WindowTestGuardsInsert | src/tcp_receiver.cc:39-50 | whatever passes the window test begins at or before the window's edge, which is the precondition under which all of the reassembler's indices are in range |
| ReceiverModel.ReceiveKeepsOk | src/tcp_receiver.cc:5-51 | for every message: what was written only grows, the window's edge stays, SYN, zero point, FIN and closing are permanent, stored bytes stay in the window |
| ReceiverModel.TakesExactly | src/tcp_receiver.cc:19-50 | while the stream is open, a message anywhere makes known exactly its bytes below the window's edge, out of order included, if and only if it is not placed at number 0 without SYN and FIN with its last byte the next one needed and room for it |
| ReceiverModel.TakesBytes | src/tcp_receiver.cc:19-50 | no known byte changes, and each one that becomes known is the message's |
| ReceiverModel.NotesFinExactly | src/tcp_receiver.cc:39-50 | a FIN is noted if and only if its number is not below the next one needed and the message begins where there is room for unread bytes; a message that lies outside leaves no trace |
| ReceiverModel.AdvertisesRoom | src/tcp_receiver.cc:53-73 | the window sent is the capacity less the unread bytes, or 65535 where that is smaller |
| ReceiverModel.AdvertisedIsTaken | src/tcp_receiver.cc:19-73 | a message inside the advertised window is taken whole, FIN included, and unless the window is 65535 nothing beyond it is ever known |
| ReceiverModel.EdgesNeverRetreat | src/tcp_receiver.cc:53-73 | over any run of receives and reads, neither the acknowledged number nor that number plus the advertised window decreases |
| TCPReceivers.TCPReceiver.Receive | src/tcp_receiver.cc:5-51 | does to the state exactly what the receiver specification does, for every message |
| TCPReceivers.TCPReceiver.Place | src/tcp_receiver.cc:19-50 | recovers the message's place, and calls the reassembler only within its precondition |
| TCPReceivers.TCPReceiver.Send | src/tcp_receiver.cc:53-73 | the acknowledgment of the next needed number, wrapped, with the window clipped to 16 bits |
| SenderSafety.FillOk | src/tcp_sender.cc:82-111 | the draining loop keeps tiling, accounting and payload invariants, queues and keeps every message it creates, and takes from the stream exactly the smaller of what is buffered and what the window budget allows |
| SenderSafety.PushOk | src/tcp_sender.cc:44-123 | a push keeps the invariant, creates no more sequence numbers than the budget, and takes all the bytes it may send |
| SenderSafety.PushSends | src/tcp_sender.cc:44-123 | the first push makes the SYN, with the FIN if the stream is finished; a later one sends the FIN if and only if the stream is closed and the window has a number left when all bytes are sent; all its messages but the last carry 1000 bytes; what is not spent stays in the budget |
| SenderSafety.MaybeSendOk | src/tcp_sender.cc:33-42 | what is handed out is a message of the queue that agrees with the stream; the invariant and the budget stay |
| SenderSafety.AckedRemoves | src/tcp_sender.cc:160-176 | of a contiguous queue, exactly the messages ending at or below the ack are removed, and the rest tiles what remains |
| SenderSafety.AckedBudget | src/tcp_sender.cc:156-181 | an ack understood as meant removes exactly the messages it covers; with window w the budget is then w less the flight, none if that is negative, and one if w is zero |
| SenderSafety.FoundAtOrAfter | src/tcp_sender.cc:146-163 | a message in flight is never found below its place, and exactly there if and only if its place is in reach of the next number |
| SenderSafety.HandledOk | src/tcp_sender.cc:133-182 | however many numbers are in flight, an ack handled with 32-bit numbers keeps the invariant and the budget, and never removes a message it does not cover |
| SenderSafety.WrappedAcksExactly | src/tcp_sender.cc:138-176 | handling wrapped acks equals acting on unbounded ones for every ack and window, if and only if the first unacknowledged number is in reach of the next one |
| SenderSafety.ShortFlightInReach | src/tcp_sender.cc:138-176 | which it is whenever at most 2^31 numbers are in flight |
| SenderSafety.UnacceptableAckIgnored | src/tcp_sender.cc:140-154 | however many numbers are in flight, handling an ack beyond what was sent, or below the front of a non-empty queue, leaves the state unchanged |
| SenderRuns.SenderIsSafe | src/tcp_sender.cc:23-199 | in every run, whatever acks arrive: the flight is tiled by the outstanding messages, the numbers used are SYN, bytes read and FIN, the first transmissions concatenate to the bytes read, each payload is at most 1000 bytes, a FIN is created once, last and after all data, and the flight is at most 65535 plus the zero-window acks |
| SenderRuns.WindowIsRespected | src/tcp_sender.cc:44-121 | between an ack with window w, accepted after the SYN was sent and leaving f in flight, and the next ack, any run creates at most w - f numbers if w > f, none if 0 < w <= f, one if w is zero; after one accepted before the SYN, at most two, and one if bytes are buffered |
| SenderRuns.FlightFitsExactly | src/tcp_sender.cc:44-181 | after an accepted ack with window w, no run up to the next ack has more than max(1, w) numbers in flight, if and only if the flight left and the numbers still permitted fit together |
| Overruns.TwoInFlightAgainstZeroWindow | src/tcp_sender.cc:82-111 | a run with two numbers in flight after two zero-window acks |
| Overruns.EarlyAckBoundsNothing | src/tcp_sender.cc:46-67 | a run with two numbers in flight against any window acknowledged before the SYN, 0 and 1 included |
| SenderRuns.TickResendsOldest | src/tcp_sender.cc:184-199 | a tick resends at most the oldest outstanding message, exactly when the timer expires, and forgets nothing |
| SenderRuns.StepIsInOrder | src/tcp_sender.cc:23-199 | in every step, what was queued and is queued now is what is handed out and remains, in order; nothing is handed out on request exactly if nothing is queued; the messages a push queues are the ones it creates |
| SenderRuns.TransmissionsInOrder | src/tcp_sender.cc:23-199 | in every run from the start, the messages that were actually handed out, followed by those still queued, are in order: the first transmissions as they are created, and the oldest message in flight at each expiry of the timer |
| SenderRuns.TimerOverRuns | src/tcp_sender.cc:171-199 | in every run: an empty queue means a reset timer; the timeout is the initial one times 2 to the consecutive retransmissions, the timer is short of it, and k backed-off retransmissions took at least initial * (2^k - 1) ms |
| Retransmissions.RetransmissionsAreExpiries | src/tcp_sender.cc:133-199 | in every run: the consecutive retransmissions are the expiries, since an ack last took messages out of the flight, that came while the SYN was in flight or the last accepted ack had an open window; the timer shows the time since then or since the last expiry; the window is the last one accepted, or one while it is probed |
| Retransmissions.ExpiresExactly | src/tcp_sender.cc:184-199 | after every run, a tick resends if and only if something is in flight and the recorded time reaches the initial timeout times 2 to the number of those expiries |
| TCPSenders.TCPSender.constructor | src/tcp_sender.cc:9-11 | starts with a window of one and the given zero point |
| TCPSenders.TCPSender.MaybeSend | src/tcp_sender.cc:33-42 | hands out the oldest queued message with its wrapped number |
| TCPSenders.TCPSender.Push | src/tcp_sender.cc:44-123 | with 32-bit numbers and 16-bit windows, does what the unbounded sender does, keeps its invariant, and terminates |
| TCPSenders.TCPSender.SendSyn | src/tcp_sender.cc:46-67 | the SYN, with the FIN of an already finished stream, is the message of the unbounded sender |
| TCPSenders.TCPSender.Drain | src/tcp_sender.cc:82-111 | the loop creates exactly the messages of the unbounded sender's recursion |
| TCPSenders.TCPSender.SendFin | src/tcp_sender.cc:112-122 | the FIN-only message, with the window space wrapping in 16 bits |
| TCPSenders.TCPSender.SendEmptyMessage | src/tcp_sender.cc:125-131 | an empty message that sits at the next sequence number |
| TCPSenders.TCPSender.Receive | src/tcp_sender.cc:133-182 | does to the state what the sender specification does, for every ack and any flight, and keeps the invariant |
| TCPSenders.TCPSender.IsAcceptable | src/tcp_sender.cc:140-154 | accepts exactly the acks from where the front of the queue is found up to the next number |
| TCPSenders.TCPSender.CountAcked | src/tcp_sender.cc:160-170 | the loop stops at the longest prefix of messages found to end at or below the ack, and subtracts exactly their lengths |
| TCPSenders.TCPSender.AdoptWindow | src/tcp_sender.cc:156-181 | what is in flight is taken off the new window, never below zero |
| TCPSenders.TCPSender.Tick | src/tcp_sender.cc:184-199 | with 64-bit time, the timer steps of the specification; the invariant is kept |
| TCPPeers.TCPPeer.constructor | util/tcp_peer.hh:24-24 | five fresh objects that make up a new endpoint |
| TCPPeers.TCPPeer.Push | util/tcp_peer.hh:29-29 | only the sender and the outbound stream move |
| TCPPeers.TCPPeer.Tick | util/tcp_peer.hh:30-30 | only the sender moves |
| TCPPeers.TCPPeer.Active | util/tcp_peer.hh:34-41 | inactive exactly after an error or when both streams are done and nothing is in flight |
| TCPPeers.TCPPeer.Read | util/tcp_peer.hh:27-27 | the application takes bytes from the inbound stream, and everything else stays as it is |
| TCPPeers.TCPPeer.Receive | util/tcp_peer.hh:43-60 | a segment goes to sender and receiver, a reset or earlier error ends the conversation, and anything that occupies numbers or is a keep-alive is answered |
| TCPPeers.TCPPeer.MaybeSend | util/tcp_peer.hh:62-88 | pushes only once the other side's SYN was seen, sends the next queued message or the owed empty one, with the current acknowledgment |
| Answers.SpeaksExactly | util/tcp_peer.hh:62-88 | a peer gives a segment if and only if it owes an answer or has messages after pushing; it carries the oldest message or else an empty one at the next number, the number needed, the room left, and the reset flag of an error |
| Answers.IsAnswered | util/tcp_peer.hh:43-88 | after a segment that occupies numbers or is one below the number needed, the next segment given acknowledges what is needed once it was received, with the room left then; without one, and with nothing owed or queued, none is given |
| Answers.ErrorsSpread | util/tcp_peer.hh:43-88 | the next segment makes the other peer inactive if and only if one of its sender's streams has an error, or it had one itself |
| Answers.AnswersEnd | util/tcp_peer.hh:55-57 | an empty segment demands no answer from a receiver that is less than 2^32 - 1 numbers behind its sender, so acknowledgments are not acknowledged in turn |
| AnswerRuns.SpeaksExactlyWhenAsked | util/tcp_peer.hh:43-88 | in every life of a peer, asked for a segment it gives one if and only if it has messages, or a segment that demands an answer arrived since it was last asked |
| Link.AckArrivesExactly | src/tcp_sender.cc:133-182 | for any ack and any flight: what the sender forgets was acknowledged, if and only if the ack is read as one of something not sent, or every message found to be covered ended at or below what the receiver reached |
| Link.HarmlessInReach | src/tcp_sender.cc:133-182 | with at most 2^31 numbers in flight, that is: the ack, as read, is beyond what was sent, or no message that truly ends at or below it is beyond what the receiver reached |
| Link.HarmlessByAge | src/tcp_sender.cc:133-182 | and for an ack the receiver sent: it is less than 2^32 old, or in reach, or the messages that end at or below it plus 2^32 have all arrived |
| Link.YoungAckIsHarmless | src/tcp_sender.cc:133-182 | whatever the flight, an ack less than 2^32 old makes the sender forget nothing that was not acknowledged |
| Link.VeryOldAckForgets | src/tcp_sender.cc:138-176 | an ack 2^32 before the end of the oldest message, if the receiver has not reached that message, loses a byte: it was taken from the stream, is not delivered, and no outstanding message carries it |
| Link.DataArrivesExactly | src/tcp_receiver.cc:19-50 | for any message in the network, wherever its 32-bit number places it: the receiver's stream stays right if and only if the message is ignored or every byte the window takes from it is the one sent there |
| Link.NearIsReadRight | src/tcp_receiver.cc:19-50 | a message within 2^31 of the bytes delivered is placed where its sender meant it, and fits |
| Link.AdvertisedIsReceived | src/tcp_receiver.cc:19-73 | what a sender sends into the advertised window, in whatever order and with its 32-bit number, is taken whole by the receiver |
| Link.OldDataIsIgnored | src/tcp_receiver.cc:19-50 | one between 2^31 and 2^32 + 2^31 behind changes nothing if, read as 2^32 later, it lies beyond the window; for streams short of 2^64 - 2^32 bytes |
| Link.OldDataCorrupts | src/tcp_receiver.cc:19-50 | one exactly 2^32 before the next number needed is delivered in its place: unless its first byte happens to be the right one, the stream is no longer a prefix of what was written |
| Link.PrefixDelivery | src/reassembler.cc:45-61 | everything in the receiver's stream is a prefix of what the sender took from its own |
| Link.NoByteForgotten | src/tcp_sender.cc:160-176 | a byte taken from the stream and not delivered is carried by an outstanding message, except the next byte of a stream closed without it |
| Link.CurrentMessagesAreFresh | src/wrapping_integers.cc:13-52 | with fewer than 2^31 - 1 numbers in flight, every outstanding message and the newest acknowledgment are unwrapped correctly at the other end |
| Link.AllAcknowledgedIsDelivered | src/tcp_receiver.cc:53-73 | if nothing is in flight and the stream was not closed early, everything sent was delivered |
| Link.AcceptEndExactly | src/tcp_receiver.cc:39-50 | for a message placed where it was meant: closing stays exact if and only if, should it be the first to bring the FIN, its end fits the window, is stored already, or comes in order |
| Link.DataArrivesEnd | src/tcp_receiver.cc:39-50 | while the data fits and each FIN arrives where its end can be placed, the stream is closed exactly when complete |
| Link.OldestIsReceived | src/tcp_receiver.cc:39-50 | the oldest outstanding message, delivered into a window with room for it, is received whole, FIN included |
| Link.RetransmissionGetsThrough | src/tcp_sender.cc:133-199 | with 32-bit numbers both ways, the answer to such a delivery takes the message out of the sender's queue |
| Connection.NextKeepsInvExactly | util/tcp_peer.hh:43-60 | for any step of two peers over a network that loses, duplicates, delays and reorders: both streams stay right if and only if the data delivered fits; resets and segments after an error always do |
| Connection.NextKeepsAcksExactly | util/tcp_peer.hh:43-60 | for any step: neither side forgets what was not acknowledged, if and only if the acknowledgment delivered is harmless, whatever becomes of the data beside it |
| Connection.NearRunFits | util/tcp_peer.hh:43-60 | in a run whose sequence numbers arrive within 2^31 of the bytes delivered, all data fits |
| Connection.YoungRunIsHarmless | util/tcp_peer.hh:43-60 | in a run whose acknowledgments arrive less than 2^32 old, all of them are harmless |
| Connection.PrefixInEveryRun | util/tcp_peer.hh:43-88 | in every run whose data fits, with acknowledgments of any age: each inbound stream is a prefix of what the other application wrote, of the part that was sent, and nothing unsent is acknowledged |
| Connection.ReliableDelivery | util/tcp_peer.hh:43-88 | in every such run whose acknowledgments are harmless, moreover every byte taken is delivered or kept for retransmission, save the next one needed by a stream closed without it |
| Connection.OutstandingStaysFresh | util/tcp_peer.hh:43-88 | in every such run, in each direction whose sender accepted fewer than 2^31 - 65536 zero-window acks, outstanding messages and the newest acknowledgment lie within 2^31 of where the other side stands |
| Connection.CloseInEveryRun | util/tcp_peer.hh:43-60 | in every run whose data fits and whose FINs arrive where their end can be placed, with acknowledgments of any age, an inbound stream is closed exactly when the FIN was seen and the whole stream is there |
| Connection.CloseIsExact | util/tcp_peer.hh:34-60 | if the acknowledgments are harmless, moreover no byte at all is forgotten; without an error a peer is inactive exactly when its inbound stream is complete, its outbound one is closed and read, and nothing is outstanding, and then its whole stream was delivered |
| Connection.RetransmissionsGetThrough | util/tcp_peer.hh:43-88 | in every run with fitting data, harmless acknowledgments and careful FINs, for each peer without errors whose sender accepted few zero-window acks: if the other peer receives its oldest message again and has room for it, the next segment that peer gives takes the message out of the queue |
| EarlyClose.ByteIsForgotten | src/reassembler.cc:77-84 | a run in which the only byte is lost: the empty FIN arrives first, the receiver closes and acknowledges one number too many, and the sender drops the byte |
| Checksum.ByteSumConcat | util/checksum.hh:18-28 | the byte parity carries over a cut at any point |
| Checksum.FoldIsResidue | util/checksum.hh:30-39 | folding gives the representative of the sum modulo 65535, zero only for zero |
| Checksum.FoldIsOnesSum | util/checksum.hh:18-39 | summing bytes in a wide accumulator and folding at the end is the one's complement sum of the 16-bit words of section 1 of RFC 1071, odd byte padded |
| Checksum.StoredChecksumVerifies | util/checksum.hh:30-39 | the checksum over a zero field, stored in it at an even offset, makes the whole verify to zero, for any initial sum |
| Checksum.OnlyStoredChecksumVerifies | util/checksum.hh:30-39 | no other value of the field does, except 0xffff in place of 0 |
| Checksum.OneWordErrorDetected | util/checksum.hh:30-39 | replacing one aligned word of an accepted message is noticed, unless it swaps the two zeros |
| Checksum.OverflowIsVisible | util/checksum.hh:18-39 | exactly when carries lost from the 32-bit accumulator leave the checksum right |
| InternetChecksums.InternetChecksum.Add | util/checksum.hh:18-28 | the loop adds the weighted bytes modulo 2^32 and keeps the parity |
| InternetChecksums.InternetChecksum.AddAll | util/checksum.hh:41-46 | adding a list of buffers is adding their concatenation, wherever the cuts are |
| InternetChecksums.InternetChecksum.Value | util/checksum.hh:30-39 | the fold loop terminates with the complement of the folded sum |
| BigEndian.FromToBytes | util/parser.hh:121-179 | reading back the bytes of a value gives the value if and only if it fits the width |
| BigEndian.ToFromBytes | util/parser.hh:121-179 | writing the value read from some bytes gives those bytes |
| Cursors.TakeWritten | util/parser.hh:121-140 | an integer read in front of any tail is the one written, and leaves the tail |
| Parsers.BufferList.constructor | util/parser.hh:29-34 | the list holds the concatenation of the buffers, and records its size |
| Parsers.BufferList.Peek | util/parser.hh:40-46 | the rest of the first buffer, empty exactly when an empty buffer is in front or nothing is left |
| Parsers.BufferList.RemovePrefix | util/parser.hh:48-60 | drops exactly the first bytes of the flattened list, or all of them, across any buffer boundaries, empty buffers included |
| Parsers.BufferList.DumpAll | util/parser.hh:62-77 | the buffers that are left, which concatenate to the flattened rest; none if there are no bytes |
| Parsers.BufferList.DumpJoined | util/parser.hh:79-92 | the flattened rest, whether or not it is one buffer |
| Parsers.BufferList.Append | util/parser.hh:94-98 | the flattened list grows at the end |
| Codecs.Parser.Integer | util/parser.hh:120-140 | refines a big-endian read of the flattened bytes: all or nothing, with the error flag, as long as no empty buffer is in front |
| Codecs.Parser.RemovePrefix | util/parser.hh:118-118 | drops a prefix of the flattened bytes |
| Codecs.Parser.AllRemaining | util/parser.hh:157-157 | the buffers left concatenate to the rest of the flattened bytes |
| Codecs.Serializer.Integer | util/parser.hh:170-179 | shifting and casting byte by byte appends the big-endian form |
| Codecs.Serializer.Flush | util/parser.hh:194-198 | the bytes written so far do not change when a buffer is cut off |
| Codecs.Serializer.Buffer | util/parser.hh:181-185 | appends the buffer to the bytes written, after the integers before it |
| Codecs.Serializer.Buffers | util/parser.hh:187-192 | appends the concatenation |
| Codecs.Serializer.Output | util/parser.hh:200-204 | the buffers concatenate to everything written |
| IPv4.ReadWritten | util/ipv4_header.cc:12-80 | every field comes back from the twenty bytes; only bits of a length or offset that does not fit are lost |
| IPv4.FieldsInPlace | util/ipv4_header.cc:12-32 | each field is read from the bytes and bits where section 3.1 of RFC 791 puts it |
| IPv4.ParseUndoesSerialize | util/ipv4_header.cc:12-80 | parsing a serialized version 4 header gives it back, without error and with what follows, if and only if the length is 5 to 15 words, the offset fits 13 bits, the checksum is the computed one, and the length is 5 words or nothing follows |
| IPv4.WriteRead | util/ipv4_header.cc:12-80 | writing what was read gives the same bytes if and only if the reserved flag bit was clear |
| IPv4.AcceptedExactly | util/ipv4_header.cc:12-54 | twenty bytes or more parse exactly for version 4, at least five words, and a valid RFC 791 checksum over the twenty bytes with the reserved bit cleared, whose field is not 0xffff |
| IPv4.AcceptedInPlace | util/ipv4_header.cc:12-54 | an accepted header has its fields from the places RFC 791 gives them, and what is left begins after the options |
| IPv4.ReservedBitRefused | util/ipv4_header.cc:22-53 | a header with a valid RFC 791 checksum and the reserved bit set is refused |
| IPv4.OnesAreRefused | util/ipv4_header.cc:48-53 | a header with a valid RFC 791 checksum that is refused for its field of 0xffff |
| IPv4.ShortFails | util/ipv4_header.cc:12-44 | fewer than twenty bytes are an error |
| IPv4.PseudoHeaderSum | util/ipv4_header.cc:98-105 | the pseudo-header's contribution is the byte sum of the twelve bytes of the pseudo-header, without 32-bit overflow |
| IPv4Headers.IPv4Header.Parse | util/ipv4_header.cc:12-54 | reading from chunked buffers does what the specification does to header, error flag and rest |
| IPv4Headers.IPv4Header.Serialize | util/ipv4_header.cc:57-80 | appends the encoding, and refuses any version but 4 |
| IPv4Headers.ParseDatagram | util/ipv4_datagram.hh:16-20 | the payload buffers concatenate to what the header parser leaves |
| IPv4Headers.SerializeDatagram | util/ipv4_datagram.hh:22-28 | the bytes written are the encoded header in front of the payload |
| IPv4Headers.IPv4Header.ComputeChecksum | util/ipv4_header.cc:107-117 | sets the checksum that makes the header parse again, and changes nothing else |
| IPv4Headers.IPv4Header.PayloadLength | util/ipv4_header.cc:82-85 | adds up with the header to the total length if and only if the header is no longer than that |
| IPv4Headers.IPv4Header.PseudoChecksum | util/ipv4_header.cc:98-105 | equals the specification although every step is 32 bits wide |
| TCPFormat.ReadWritten | util/tcp_segment.cc:26-84 | every header field comes back, an absent acknowledgment as absent |
| TCPFormat.FieldsInPlace | util/tcp_segment.cc:26-53 | each field is read from the bytes and bits where section 3.1 of RFC 9293 puts it |
| TCPFormat.ParseUndoesSerialize | util/tcp_segment.cc:11-84 | with no 32-bit overflow, parsing a serialized segment gives it back if and only if its checksum is the computed one, or 0xffff in place of 0 |
| TCPFormat.ComputedChecksumRoundTrip | util/tcp_segment.cc:11-95 | every segment with a payload below 65536 bytes comes back after its checksum was computed, under any IPv4 pseudo-header |
| TCPFormat.PacketRoundTrip | util/tcp_segment.cc:11-95 | a segment inside a datagram comes back through both parsers |
| TCPFormat.AcceptedExactly | util/tcp_segment.cc:11-62 | bytes are accepted exactly when the checksum is right, there are at least twenty, and the data offset is at least five words; the payload is what follows the offset |
| TCPSegments.TCPSegment.Parse | util/tcp_segment.cc:11-62 | checks a copy first, then reads from chunked buffers, as the specification does, scratch variables included |
| TCPSegments.TCPSegment.Serialize | util/tcp_segment.cc:70-84 | header in one buffer after what was pending, payload in the next |
| TCPSegments.TCPSegment.ComputeChecksum | util/tcp_segment.cc:86-95 | sets the checksum over the zeroed field, and changes nothing else |
| TCPSegments.Serialized | util/parser.hh:207-214 | the buffers of a sent segment hold its encoding and have no empty buffer in front of the header's end |
| TCPSegments.Parsed | util/parser.hh:216-223 | parsing a list of buffers is parsing their concatenation |
| ArpSafety.SendKeepsInv | src/network_interface.cc:52-88 | sending keeps: the cache is exactly the mappings learned less than 30 seconds ago, the table is exactly the held datagrams with their ages, datagrams balance, and sent ones went to fresh addresses |
| ArpSafety.UpdateKeepsInv | src/network_interface.cc:111-136 | learning keeps the same |
| ArpSafety.RecvKeepsInv | src/network_interface.cc:139-172 | receiving any frame keeps the same |
| ArpSafety.TickKeepsInv | src/network_interface.cc:175-198 | a tick that makes no cached age wrap keeps the same |
| ArpSafety.TickKeepsCacheExactly | src/network_interface.cc:175-198 | after a tick the cache is still exact if and only if no age that passes 30 seconds wraps around to a young one |
| ArpSafety.ShortTickFits | src/network_interface.cc:175-198 | ticks up to 2^32 - 30000 ms never wrap an age |
| ArpRuns.TablesAreSafe | src/network_interface.cc:52-208 | in every run with such ticks: cached and pending neighbours are disjoint, an address is cached exactly while it was learned less than 30 seconds ago, and every IPv4 frame ever queued goes to the address last learned for its next hop, less than 30 seconds before |
| ArpRuns.OneRequestInFiveSeconds | src/network_interface.cc:62-87 | in every such run a neighbour is pending exactly while a datagram is held for it, alone in its queue, and exactly one request was made in its first five seconds |
| ArpRequests.SendKeepsSpacingExactly | src/network_interface.cc:62-87 | sending keeps all requests ever made for a neighbour five seconds apart, if and only if no request is due by the age of the waiting datagram or the last one was made five seconds ago |
| ArpRequests.RequestsSpacedExactly | src/network_interface.cc:52-198 | over any run with short ticks: all requests for a neighbour are five seconds apart, if and only if each datagram for it is sent under that condition |
| ArpRequests.TwoRequestsAtOnce | src/network_interface.cc:65-71 | a run with two requests in the same millisecond |
| ArpReplies.RepliesAnswerRequests | src/network_interface.cc:139-208 | in every run, the ARP replies given to the network and still queued are the answers to the requests received for this interface's address, one for each, in order, and no others |
| ArpReplies.HandsUpExactly | src/network_interface.cc:139-152 | in every run, the datagrams handed up are those in the IPv4 frames that are for everyone or this interface and parse, in order |
| ArpReplies.ForeignFramesDoNothing | src/network_interface.cc:139-146 | a run ends in the same state without the frames that are for others |
| ArpReplies.LearnsExactly | src/network_interface.cc:52-172 | in every run, an address is learned from every ARP message that is for everyone or this interface, request or reply and whatever its target, and at no other time |
| ArpRuns.EveryDatagramAccountedFor | src/network_interface.cc:52-136 | in every such run, each datagram offered was sent once, is waiting, or was lost |
| ArpRuns.LostExactlyWhileWaiting | src/network_interface.cc:62-78 | a datagram is lost if and only if another one is waiting for the same neighbour |
| ArpRuns.SecondDatagramIsLost | src/network_interface.cc:62-66 | a run in which the second of two datagrams is never sent |
| ArpRuns.LongTickKeepsMapping | src/network_interface.cc:179-185 | a tick of 2^32 ms expires nothing |
| ArpRuns.ExchangeDelivers | src/network_interface.cc:52-172 | between any two interfaces: a datagram for an unknown neighbour, its request, the neighbour's answer and the released frame end with the neighbour receiving that datagram, and each side holding the other's address |
| NetworkInterfaces.NetworkInterface.SendDatagram | src/network_interface.cc:52-88 | tables, queue and log are those of the specification; the copied queue has no effect |
| NetworkInterfaces.NetworkInterface.UpdateMaps | src/network_interface.cc:111-136 | the held queue is sent in order to the learned address and the entry goes |
| NetworkInterfaces.NetworkInterface.RecvFrame | src/network_interface.cc:139-172 | foreign frames are ignored, datagrams handed up, ARP learned from and requests for this address answered |
| NetworkInterfaces.NetworkInterface.Tick | src/network_interface.cc:175-198 | the loops age every entry in 32 bits and drop exactly the mappings that reached 30 seconds |
| NetworkInterfaces.NetworkInterface.AgeCache | src/network_interface.cc:178-185 | every mapping is aged once, and the list holds exactly the expired addresses |
| NetworkInterfaces.NetworkInterface.Expire | src/network_interface.cc:193-197 | exactly the listed addresses leave the cache |
| NetworkInterfaces.NetworkInterface.MaybeSend | src/network_interface.cc:200-208 | frames leave in the order they were queued |

## Left out

- Reassemblers.Reassembler.Insert: requires the substring to begin at or before the window's edge, which the receiver's window test establishes; `Reassemblers.LoopStaysInWindow` says what happens otherwise.
- Reassemblers.Reassembler.StoreLoop: is one method for the two loops of `insert`, which differ only in offsets.
- Parsers.BufferList.DumpAll: does not empty the list; the source leaves a moved-from list that it never uses again.
- Codecs.Parser.Integer: requires that no empty buffer is met before the integer ends; the source has undefined behaviour there. `TCPSegments.Serialized` shows that sent segments meet it.
- 64-bit counters of bytes and sequence numbers are unbounded; their low 64 bits are taken where `unwrap` sees them. Runs write fewer than 2^64 - 2 bytes.
- Application writes after close are excluded from the runs of senders and connections; the writer itself accepts them.
- Sharing of `Buffer` contents by reference: buffers are values here.
- Exceptions of the source (peek on an empty list, a wrong IP version) are results.
- The ARP and Ethernet codecs: a frame's payload is what it parses as, and every other type than IPv4 is read as ARP, as in the source.
- The random initial sequence number and the addresses are arbitrary values.
- `Router`, `Address`, sockets, the event loop, TUN/TAP devices, the adapters and the threads around a peer: system calls and address filters.
- `Parser::string`, the string printers, debug output and configuration defaults: no state of interest.
- Liveness beyond the termination of every loop and the single steps of `Connection.RetransmissionsGetThrough`: whether and when segments are delivered is up to the network.
