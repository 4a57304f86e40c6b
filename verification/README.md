# redp2p: a verified model

redp2p carries TCP streams between two peers over UDP.  This project models the parts whose correctness the
rest depends on, and proves what they promise.  Everything is Dafny 4.11; `dafny verify dfyconfig.toml` checks
all of it.

**KCP (`KcpModel` to `KcpFormat`, `KcpControl`).**  The ARQ as redp2p configures it: stream mode, MTU 1400, send
window 64, receive window 128.  `KcpControl.Kcp` is the control block with its fields, queues and counters, and
every method is proved to compute the functions of `KcpModel`.  These functions take the reading of sequence
numbers as a parameter: `Wrapping` is the 32-bit code with `_itimediff`, `Unbounded` the ideal.  `KcpSystem` puts
two parties on a network that remembers every datagram ever sent and delivers any of them any number of times in
any order.  What to retransmit, the congestion window and when to probe are free choices of each flush, so
nothing proved depends on timing.  `KcpInvariant` proves the invariant of the unbounded protocol, `KcpRefinement`
that the 32-bit code takes the same steps, and `KcpTheorems` states the results about the 32-bit code.  They hold
for runs whose deliveries are clear: `UnaClear`, `AckClear` and `DataClear` name, for each of the three tests that
`ikcp_input` makes on stored numbers, exactly the segments on which it decides as unbounded numbers would
(`UnaExact`, `AckExact`, `DataExact`).  `KcpStale` shows that deliveries younger than half a turn of the numbers are
clear, and gives runs of the code, with older ones, that repeat and that lose data; `TunnelStale` does the same for the
tunnel.  `KcpEffects` says what each operation is for, and `KcpRecovery` that no reachable state is stuck: whatever the
network loses, the two sides can still deliver everything.

**Tunnel (`Tunnel*`, `Envelope`, `Schedule`).**  Handshake, half-close, drain and teardown on top of
KCP, the datagram envelope, and the timer that skips updates until they are due.  `TunnelRecovery` proves that an open
tunnel can always be brought to an orderly end.

**Parson (`Probing`, `ObjectTable`, `ObjectTheorems`, `Json*`).**  The object table with open addressing and
backward-shift deletion over arbitrary hash functions; the parser as a cursor over the text and the serializer
writing into a buffer or only counting.  Deletion keeps every item reachable because the load factor always leaves
an empty cell (`Probing.EmptyCell`), where the shift ends.  `JsonGrammar` describes the accepted texts by a grammar of
their own, and proves that the parser accepts exactly these.

**Index (`Index*`).**  The rendezvous index as a state machine over parsed requests, the C server with its arrays
and the PHP server with its tables, and the proof that they reply alike in every run.  `IndexService` says from the
history of requests and replies alone what every reply must be.

**Arithmetic and hashing (`Limbs`, `Reduction`, `ModL`, `PolyBlock`, `Poly1305`, `Sha256`, `ProofOfWork`).**  Limbs are
range-checked 32-bit and 64-bit types, so that verifying a body includes verifying that no expression overflows.
`Reduction` is written for any modulus with a suitable reciprocal; `ModL` fixes the constants.  The SHA-256
compression function is arbitrary.

**Candidates (`Candidates`).**  Ranking, deduplication and sorting of candidate endpoints.

Where the code and its comments differ, the model follows the code: `multiply` overwrites the high half of `p`
instead of adding to it (`Reduction.Multiply`), and the parser accepts a minus sign behind which
`strtod` finds nothing to convert as 0 (`JsonProofs.BareMinusIsZero`).

## Model

| member | source | states |
|---|---|---|
| `SerialNumbers.DiffExact` | lib/kcp/ikcp.c:136-139 | the signed 32-bit difference of two stored numbers is their true difference if and only if the numbers are within half the circle |
| `SerialNumbers.NormInjective` | lib/kcp/ikcp.c:591-608 | two numbers less than 2^32 apart are equal exactly when their stored forms are, so equality tests on sequence numbers are safe |
| `Bytes.DecodeEncodeLE` | lib/kcp/ikcp.c:68-121 | storing a number little-endian in n bytes and loading it gives the number modulo 256^n |
| `Bytes.EncodeDecodeLE` | lib/kcp/ikcp.c:68-121 | loading and storing again gives back the same bytes |
| `Bytes.EncodeStep` | lib/kcp/ikcp.c:68-121 | the least significant byte comes first |
| `KcpControl.Kcp.Send` | lib/kcp/ikcp.c:479-554 | stream-mode send: the new queue and the returned count are those of the specification, for every length including an oversized one |
| `KcpControl.Kcp.PeekSize` | lib/kcp/ikcp.c:451-473 | the size of the next message, or -1 |
| `KcpControl.Kcp.MoveReady` | lib/kcp/ikcp.c:424-439 | moves in-order segments while the receive queue has room |
| `KcpControl.Kcp.Recv` | lib/kcp/ikcp.c:368-445 | delivers one message, refills the queue, asks for a window update when the queue was full; every error return |
| `KcpControl.Kcp.ParseUna` | lib/kcp/ikcp.c:623-642 | removes the prefix of the send buffer before una |
| `KcpControl.Kcp.ParseAck` | lib/kcp/ikcp.c:591-621 | removes exactly the acknowledged segment, if its number lies in the send window |
| `KcpControl.FindSlot` | lib/kcp/ikcp.c:737-752 | the backward search finds the place of a segment in the sorted receive buffer, or that it is a duplicate |
| `KcpControl.Kcp.ParseData` | lib/kcp/ikcp.c:718-778 | drops out-of-window and duplicate segments, inserts others in order, then refills the queue |
| `KcpControl.Kcp.Input` | lib/kcp/ikcp.c:784-947 | processes every segment of a datagram in order, with the return codes for short, foreign and malformed input |
| `KcpControl.Kcp.Admit` | lib/kcp/ikcp.c:1076-1102 | numbers queued segments while the window is open |
| `KcpControl.Append` | lib/kcp/ikcp.c:1018-1026 | one appended segment: what is buffered goes out first if the segment would exceed the MTU |
| `KcpControl.Kcp.FlushAcks` | lib/kcp/ikcp.c:1016-1028 | acknowledgements are appended in order |
| `KcpControl.Kcp.FlushProbes` | lib/kcp/ikcp.c:1030-1074 | window probes follow when due |
| `KcpControl.Kcp.Transmit` | lib/kcp/ikcp.c:1120-1193 | new and re-sent segments are appended and their transmission counted |
| `KcpControl.Kcp.Flush` | lib/kcp/ikcp.c:978-1236 | the whole flush produces the bytes of the specified datagrams and the specified state |
| `KcpWire.HeaderRoundTrip` | lib/kcp/ikcp.c:953-964 | a segment header decodes to the fields it was made from |
| `KcpWire.InputDecodesEncoding` | lib/kcp/ikcp.c:784-908 | the byte loop of the input, run on the encoding of any list of well-formed segments, returns 0 and has the effect of these segments in order |
| `KcpWire.InputCodes` | lib/kcp/ikcp.c:784-824 | whatever follows the well-formed segments of a datagram, they stay processed, and the result tells what is wrong with the next header; a rest shorter than a header is ignored unless it is all there is |
| `KcpWire.PackSound` | lib/kcp/ikcp.c:1016-1199 | greedy packing loses, adds and reorders nothing; every datagram is non-empty and at most 1400 bytes |
| `KcpControl.EmittedIsPacked` | lib/kcp/ikcp.c:1016-1199 | the segment-by-segment output of the code is the encoding of the packed datagrams |
| `KcpFormat.DatagramsUnderstood` | lib/kcp/ikcp.c:953-1199 | in every run each datagram is non-empty, within the MTU, and the peer's input accepts it with result 0 and decodes exactly the segments packed into it |
| `KcpInvariant.InitOk` | lib/kcp/ikcp.c:238-305 | two new control blocks and an empty network satisfy the two-party invariant |
| `KcpInvariant.SendKeeps` | lib/kcp/ikcp.c:479-554 | sending keeps the invariant and appends exactly the accepted bytes |
| `KcpInvariant.RecvKeeps` | lib/kcp/ikcp.c:368-445 | receiving keeps it and delivers the next bytes of the peer's history |
| `KcpInvariant.UpdateKeeps` | lib/kcp/ikcp.c:978-1236 | flushing keeps it for every choice of what to resend, of the congestion window and of probes |
| `KcpInvariant.ShrinkKeeps` | lib/kcp/ikcp.c:580-589 | taking acknowledged segments out of the send buffer and recomputing snd_una keeps the sending half, and every number is still in flight or held by the receiver |
| `KcpInvariant.InputSegKeeps` | lib/kcp/ikcp.c:827-886 | any segment the peer ever sent keeps it, in whatever order and how often it arrives |
| `KcpInvariant.StepKeeps` | lib/kcp/ikcp.c:368-1236 | every step of either side over the lossy network preserves the two-party invariant |
| `KcpInvariant.RunKeeps` | lib/kcp/ikcp.c:238-1236 | hence it holds after every run |
| `KcpRefinement.StepShadow` | lib/kcp/ikcp.c:136-139 | one step of the 32-bit code is the step of the unbounded protocol, when the datagram delivered (if any) is clear |
| `KcpRefinement.RunRefines` | lib/kcp/ikcp.c:136-1236 | the 32-bit code makes the same decisions as unbounded numbers in every run whose deliveries are clear, however often the numbers wrapped around |
| `KcpRefinement.UnaExact` | lib/kcp/ikcp.c:623-642 | the sender drops what the unbounded protocol drops if and only if una is not behind snd_una, or behind by at most 2^31 modulo 2^32, or nothing is buffered |
| `KcpRefinement.AckExact` | lib/kcp/ikcp.c:591-621 | it drops the same acknowledged segment if and only if the number is not behind snd_una or no buffered segment has the same 32-bit number |
| `KcpRefinement.DataExact` | lib/kcp/ikcp.c:718-778 | the receiver treats a data segment as the unbounded one does if and only if it is not behind rcv_nxt, or behind by 1 to 2^31 - 128 modulo 2^32, or the number it is taken for is already buffered |
| `KcpStale.FreshRunIsClear` | lib/kcp/ikcp.c:784-886 | a run is clear if nothing delivered is too old: una and data 2^31 segments (for data minus the window), acknowledgements 2^32 |
| `KcpStale.ReplayRepeatsData` | lib/kcp/ikcp.c:866-878 | there is a run in which the code hands out more than was sent: 2^32 segments are exchanged and the first datagram arrives once more |
| `KcpStale.OldAckLosesData` | lib/kcp/ikcp.c:623-642 | there is a run in which an acknowledgement more than 2^31 segments old makes the sender forget a byte that nobody holds |
| `KcpEffects.FlushTransmits` | lib/kcp/ikcp.c:1016-1193 | a flush transmits an acknowledgement for each pending one, a question for the window if it is closed and one is due, an answer if one was asked for, and each once and in order exactly the data segments that were never sent or are due again; every header carries the next number expected and the free window |
| `KcpEffects.AdmitExact` | lib/kcp/ikcp.c:1076-1102 | numbering stops exactly at the window or at the end of the queue |
| `KcpEffects.WindowIsLast` | lib/kcp/ikcp.c:827 | in every run, clear or not, a side knows exactly the last window that its peer announced to it |
| `KcpEffects.FlowControl` | lib/kcp/ikcp.c:1076-1102 | in every clear run a flush numbers exactly as many payloads as the congestion window, the send window and the last window announced allow |
| `KcpEffects.ConfirmedLeave` | lib/kcp/ikcp.c:591-642 | a segment leaves the send buffer exactly when a cumulative acknowledgement lies above it or one of its own arrives |
| `KcpEffects.AcknowledgesExactly` | lib/kcp/ikcp.c:866-868 | exactly the data segments inside or behind the window are acknowledged, each with its number and time |
| `KcpEffects.AnswersExactly` | lib/kcp/ikcp.c:887-891 | exactly a question for the window is answered at the next flush |
| `KcpEffects.HoldsExactly` | lib/kcp/ikcp.c:718-778 | the receiver gains exactly the data segment inside its window |
| `KcpEffects.RecvAnnounces` | lib/kcp/ikcp.c:438-442 | taking a message announces the window exactly when it had been closed and is open now |
| `KcpEffects.SendFills` | lib/kcp/ikcp.c:479-554 | sending accepts all bytes that complete the last segment and fill at most 127 more, or else only those that complete it, with -2 for none; only the last segment of the queue is left short |
| `KcpRecovery.AlwaysRecovers` | lib/kcp/ikcp.c:368-1236 | from every state that a clear run reaches, even if everything sent so far is lost, there is a way on after which all accepted bytes are delivered in both directions and nothing waits |
| `KcpTheorems.ReliableStream` | lib/kcp/ikcp.c:368-947 | in every clear run over a network that drops, duplicates and reorders, the bytes received are a prefix of the bytes the peer sent |
| `KcpTheorems.NothingLost` | lib/kcp/ikcp.c:580-778 | in every clear run the accepted stream can be put together, in order, from delivered bytes, the receiver's queues and the sender's queues |
| `KcpTheorems.WindowsBounded` | lib/kcp/ikcp.c:424-778 | in every clear run the receive buffer is strictly ordered inside its window, both receive queues hold at most 128 segments, at most 64 are in flight, and the send buffer is strictly ordered between snd_una and snd_nxt |
| `Envelope.UnpackPack` | src/libredp2p.c:1087-1130 | unpacking a packed well-formed frame returns it |
| `Envelope.PackedBytes` | src/libredp2p.c:1087-1105 | the envelope byte by byte |
| `Envelope.ControlBytes` | src/libredp2p.c:1087-1105 | a control frame byte by byte, with the codes of kinds and roles |
| `Envelope.PackUnpack` | src/libredp2p.c:1087-1130 | every accepted datagram is the packing of the frame it is read as |
| `Envelope.PackedMessage` | src/libredp2p.c:1330-1385 | a frame of the peer is processed as the message in it; the same bytes reflected or from another session change nothing |
| `TunnelControl.StreamState.Drain` | src/libredp2p.c:1298-1324 | hands KCP messages to TCP one by one until none is left or the write fails |
| `TunnelControl.StreamState.ProcessPacket` | src/libredp2p.c:1330-1385 | every control frame and data frame, with the flags, replies, shutdown and failure it causes |
| `TunnelControl.StreamState.PumpTcp` | src/libredp2p.c:1391-1416 | data, would-block, end-of-file and error from the TCP socket |
| `TunnelControl.StreamState.Tick` | src/libredp2p.c:1422-1465 | HELLO, KCP update, CLOSE and keep-alive when due |
| `TunnelProofs.DrainedAll` | src/libredp2p.c:1298-1324 | after a successful drain everything the peer sent before closing has been taken, once its sender waits for nothing |
| `TunnelProofs.TunStepKeeps` | src/libredp2p.c:1298-1500 | every event at either end preserves the tunnel invariant |
| `TunnelTheorems.TunRunRefines` | src/libredp2p.c:1298-1500 | the tunnel over 32-bit KCP behaves as over the unbounded protocol in every run with clear deliveries |
| `TunnelTheorems.WrittenIsPrefix` | src/libredp2p.c:1298-1416 | at every moment each side has written a prefix of what the other side read |
| `TunnelTheorems.EofAfterEverything` | src/libredp2p.c:1368-1374 | a side shuts down its TCP write half only after writing exactly the whole stream the peer read before its end-of-file |
| `TunnelTheorems.DoneMeansDelivered` | src/libredp2p.c:1497-1500 | when either side is done, both directions were delivered in full |
| `TunnelTheorems.BackPressure` | src/libredp2p.c:1398-1413 | at most 130 segments ever wait, and KCP takes every chunk that is read |
| `TunnelTheorems.DataNeverFails` | src/libredp2p.c:1358-1367 | a clear datagram fails the stream only if the local TCP write fails |
| `TunnelTheorems.ControlFailsOnlyOnReset` | src/libredp2p.c:1346-1385 | a control frame fails it exactly on a reset of a ready stream, or when the TCP write fails |
| `TunnelStale.FreshTunRunIsClear` | src/libredp2p.c:1298-1500 | a tunnel run is clear if nothing delivered is too old: una and data 2^31 segments (for data minus the window), acknowledgements 2^32 |
| `TunnelStale.ReplayWritesMore` | src/libredp2p.c:1298-1324 | there is a run in which more is written than the peer read: 2^32 segments are exchanged and the first datagram arrives once more |
| `TunnelStale.OldAckEndsEarly` | src/libredp2p.c:1368-1374 | there is a run in which, after an acknowledgement more than 2^31 segments old, the write half is shut down although a byte the peer read was never written |
| `TunnelRecovery.AlwaysFinishes` | src/libredp2p.c:1257-1500 | from every state that a clear run reaches with both ends open, there is a way on that delivers only what is sent on it, in which both sides read any further input, and which ends with both done |
| `TunnelRecovery.Carries` | src/libredp2p.c:1225-1500 | for any two inputs there is a run that carries each whole to the other side, shuts both write halves down, and ends with both sides done |
| `TunnelRecovery.IgnoredUntilReady` | src/libredp2p.c:1346-1362 | before the handshake everything but the greeting for the own role is ignored |
| `TunnelRecovery.TickSends` | src/libredp2p.c:1422-1465 | exactly when a tick sends the greeting, the close or a keep-alive, and that it sends nothing else |
| `TunnelRecovery.FailureEndsBoth` | src/libredp2p.c:1280-1294 | when one end of an open tunnel fails, or its socket does, it resets the other, and both end without a further reset |
| `TunnelRecovery.RepeatsChangeNothing` | src/libredp2p.c:1346-1385 | a control frame that arrives again changes no flag and repeats the reply |
| `Schedule.EagerIdle` | lib/kcp/ikcp.c:1242-1273 | an update flushes unless the time lies at most 10 seconds before the next flush, and then it changes nothing |
| `Schedule.FlushSchedulesNext` | lib/kcp/ikcp.c:1242-1273 | after a flush the next one lies in the future, at most one interval away, also when the clock jumped |
| `Schedule.FlushKeepsRhythm` | lib/kcp/ikcp.c:1260-1273 | a flush less than one interval late keeps the rhythm, a later one starts a new one |
| `Schedule.Clock.Check` | lib/kcp/ikcp.c:1279-1315 | the loop over the send buffer computes the specified due time |
| `Schedule.CheckMissesNothing` | lib/kcp/ikcp.c:1279-1315 | before the time that check names, and at most one interval away, updating would neither flush nor change the timer |
| `Schedule.TickExact` | src/libredp2p.c:1439-1442 | a tick flushes as an update would if and only if it is not due, or less than half a turn of the clock late, or nothing would be flushed |
| `Schedule.SkippingIsUnobservable` | src/libredp2p.c:1439-1442 | for all ticks and traffic in the order of time, updating only when due flushes at the same times as updating on every tick, if and only if no tick is mistaken in that way |
| `Schedule.SteadyIsPunctual` | src/libredp2p.c:1439-1442 | no tick is mistaken while consecutive ticks are less than 2^31 ms apart |
| `Schedule.HalfTurnMissed` | src/libredp2p.c:1439-1442 | a tick exactly 2^31 ms late is skipped although an update would flush |
| `Schedule.FreshStream` | src/libredp2p.c:1225-1239 | hence from the creation of a stream on, skipping is unobservable while consecutive ticks are less than 2^31 ms apart |
| `Schedule.CheckExact` | lib/kcp/ikcp.c:1279-1315 | the named due time is exactly the earliest of the next flush, the retransmissions and the end of an interval, or now if that is past |
| `Schedule.NeverSleepsPastDue` | src/libredp2p.c:1471-1491 | before the due time the wait lasts until it, at most a second; from then on it is zero if and only if the time past it, modulo 2^32, is at most 2^31 ms |
| `Probing.EmptyCell` | lib/parson/parson.c:455-470 | a table of n cells with fewer than n items has an empty cell |
| `Probing.CodeTestIsOnPath` | lib/parson/parson.c:688-689 | the comparison of cell numbers in the removal loop decides whether the hole lies on the probe path of an item |
| `Probing.ShiftMove` | lib/parson/parson.c:640-698 | moving such an item into the hole keeps all links and moves the hole |
| `Probing.ShiftDone` | lib/parson/parson.c:640-698 | at an empty cell every remaining item is again reachable by probing |
| `ObjectTable.Object.GetCellIx` | lib/parson/parson.c:555-584 | probing finds the key, or the empty cell where it would go, for any hash function |
| `ObjectTable.Object.GetValue` | lib/parson/parson.c:622-638 | looks up the value of a key |
| `ObjectTable.Object.Add` | lib/parson/parson.c:586-620 | fails if the key is present; otherwise appends it, growing first if full |
| `ObjectTable.Object.SetValue` | lib/parson/parson.c:2084-2125 | replaces in place or appends |
| `ObjectTable.Object.Grow` | lib/parson/parson.c:525-553 | doubles the capacity and keeps items and their order |
| `ObjectTable.Object.BackwardShift` | lib/parson/parson.c:679-695 | the removal loop re-establishes reachability of every item |
| `ObjectTable.Object.Remove` | lib/parson/parson.c:640-698 | removes the key, moving the last item into its place; fails if absent |
| `ObjectTheorems.SetLookup` | lib/parson/parson.c:2084-2125 | after an assignment the key yields the new value and all other keys what they did |
| `ObjectTheorems.RemoveLookup` | lib/parson/parson.c:640-698 | after a removal the key is absent and all other keys yield what they did |
| `ObjectTheorems.ItemsAreMap` | lib/parson/parson.c:525-698 | the items left by any sequence of additions, assignments and removals are those of a finite map |
| `ObjectTheorems.LookupAfter` | lib/parson/parson.c:525-698 | for any hash function, a new table put through any sequence of additions, assignments and removals answers a lookup exactly as the finite map |
| `JsonControl.Reader.SkipQuotes` | lib/parson/parson.c:787-804 | finds the closing quote, or fails at the end of the text |
| `JsonControl.Reader.ParseUtf16` | lib/parson/parson.c:806-852 | decodes one escape, including surrogate pairs, and every failure |
| `JsonControl.Reader.ProcessString` | lib/parson/parson.c:857-912 | decodes the contents of a string |
| `JsonControl.Reader.GetQuotedString` | lib/parson/parson.c:916-925 | a quoted string and the position behind it |
| `JsonControl.Reader.ParseNext` | lib/parson/parson.c:927-951 | one value at the cursor, with the nesting limit |
| `JsonControl.Reader.ParseArrayValue` | lib/parson/parson.c:1027-1069 | arrays, with the trailing comma the code admits |
| `JsonControl.Reader.ParseObjectValue` | lib/parson/parson.c:953-1025 | objects; refuses duplicate keys and keys with a zero byte |
| `JsonControl.Reader.ParseNumberValue` | lib/parson/parson.c:1098-1113 | integers without superfluous zeros; hexadecimal and non-finite numbers are refused; if nothing is converted the value is 0 and the cursor stays |
| `JsonControl.ParseText` | lib/parson/parson.c:1383-1391 | parsing a text, behind an optional byte order mark |
| `JsonWriter.SerializeString` | lib/parson/parson.c:1298-1353 | writes the quoted, escaped string and returns its length |
| `JsonWriter.Serialize` | lib/parson/parson.c:1146-1296 | with a buffer writes the text and a terminating zero; without one counts the same length |
| `JsonWriter.SerializationSize` | lib/parson/parson.c:1799-1803 | the size-only pass reports exactly the length of the text plus one |
| `JsonWriter.SerializeToBuffer` | lib/parson/parson.c:1805-1816 | succeeds exactly if the buffer is long enough, and otherwise leaves it unchanged |
| `JsonProofs.QuotedRoundTrip` | lib/parson/parson.c:787-925 | every byte string, once written, is read back, and the cursor stops behind it |
| `JsonGrammar.Utf8Exact` | lib/parson/parson.c:806-852 | the bytes made for a code point are its UTF-8 form as defined in section 3 of RFC 3629, and no others are |
| `JsonGrammar.StringRead` | lib/parson/parson.c:787-925 | a quoted string with any mixture of plain bytes, letter escapes, code points and surrogate pairs, in either case of hexadecimal digits, is read as what it spells |
| `JsonGrammar.StringSound` | lib/parson/parson.c:787-925 | whatever is read as a string is one |
| `JsonGrammar.NumberExact` | lib/parson/parson.c:1098-1113 | an integer is read exactly if it stands there without superfluous zeros and does not go on as a fraction, with an exponent or in hexadecimal |
| `JsonGrammar.ValueRead` | lib/parson/parson.c:927-1124 | what stands in a text, with any white space, is read as its value at any nesting that the limit admits |
| `JsonGrammar.ValueSound` | lib/parson/parson.c:927-1124 | whatever is read as a value stands in the text, within the limit of nesting, with names that differ |
| `JsonGrammar.ParsesExactly` | lib/parson/parson.c:1383-1391 | a text is accepted, and read as v, if and only if it begins, behind an optional mark and white space, with a text of v in the grammar, nests at most 2048 containers and repeats no name in an object |
| `JsonProofs.TextStands` | lib/parson/parson.c:1146-1355 | what the serializer writes is a text of the value |
| `JsonProofs.ShortestText` | lib/parson/parson.c:1146-1355 | no text of a value is shorter than the one that the serializer writes, but for the bare minus sign |
| `JsonProofs.EscapeMeans` | lib/parson/parson.c:1298-1353 | which bytes of a string are written by letter, by digits, and plainly |
| `JsonProofs.RoundTrip` | lib/parson/parson.c:927-1355 | serializing then parsing gives back the same value, keys in order, if and only if at most 2048 containers enclose any value; otherwise it fails; for integers up to 2^53 |
| `JsonProofs.TextInjective` | lib/parson/parson.c:1146-1355 | different values have different texts |
| `JsonProofs.StuckNumber` | lib/parson/parson.c:1098-1113 | a number is accepted without moving the cursor if and only if it is a minus sign behind which strtod finds nothing to convert: no digit, no point with a digit, neither inf nor nan |
| `JsonProofs.BareMinusIsZero` | lib/parson/parson.c:1098-1113 | every text that begins with such a minus sign parses as 0 |
| `IndexC.UnsignedStaleExact` | src/libredp2p.c:3079-3109 | the unsigned expiry test is the intended one if and only if the clock did not run backwards past the record, up to wrap-around |
| `IndexC.Server.FindVip` | src/libredp2p.c:2472-2483 | finds the reservation of an id |
| `IndexC.Server.EvictStale` | src/libredp2p.c:3079-3109 | removes exactly the expired peers, by closing gaps from the end |
| `IndexC.Server.NoSeat` | src/libredp2p.c:3129-3166 | the capacity test with reservations |
| `IndexC.Server.RemoveCallAt` | src/libredp2p.c:3191-3212 | removal by moving the last call into the gap |
| `IndexC.Server.EvictPending` | src/libredp2p.c:3224-3236 | removes exactly the expired calls |
| `IndexC.Server.TakeAll` | src/libredp2p.c:3279-3294 | returns the multiset of calls for one publisher and keeps all others |
| `IndexC.Server.HandleRegister` | src/libredp2p.c:4445-4560 | authentication, eviction, seating and the key returned |
| `IndexC.Server.HandleHeartbeat` | src/libredp2p.c:4566-4640 | renews a live publisher with its key |
| `IndexC.Server.HandleLookup` | src/libredp2p.c:4645-4683 | shows a publisher unless it has expired |
| `IndexC.Server.HandleList` | src/libredp2p.c:4689-4717 | the set of live ids |
| `IndexC.Server.HandleDeregister` | src/libredp2p.c:4723-4769 | removes a live publisher with its key |
| `IndexC.Server.HandlePunchReq` | src/libredp2p.c:4775-4837 | stores a call unless 32 are pending |
| `IndexC.Server.HandlePunchPoll` | src/libredp2p.c:4843-4881 | hands over and forgets the calls for one publisher |
| `IndexC.Server.Dispatch` | src/libredp2p.c:4891-4950 | every request, with its malformed forms, answers and acts as the model |
| `IndexPhp.SamePass` | imp/php/Redp2pIndex.php:367-420 | both servers check a registration against the same password |
| `IndexPhp.Server.AddPublisher` | imp/php/Redp2pIndex.php:637-668 | the seat test and the insertion |
| `IndexPhp.Server.EvictPending` | imp/php/Redp2pIndex.php:757-761 | deletes exactly the expired calls |
| `IndexPhp.Server.HandleRegister` | imp/php/Redp2pIndex.php:367-414 | registration |
| `IndexPhp.Server.HandlePunchPoll` | imp/php/Redp2pIndex.php:594-629 | selects and deletes the calls for one publisher |
| `IndexPhp.Server.Dispatch` | imp/php/Redp2pIndex.php:367-629 | every request answers and acts as the model |
| `IndexEquivalence.ServeBoth` | imp/php/Redp2pIndex.php:19-23 | started with the same configuration and given the same requests, clock and drawn keys, both servers give the same replies in every run, each the one that the history demands |
| `IndexService.EveryReplyRight` | src/libredp2p.c:4445-4881 | in every run each reply is the one that the requests and replies before it demand, told without the tables of the server |
| `IndexService.RecordsStand` | src/libredp2p.c:4445-4769 | the live record of an id is what was last announced for it and not withdrawn, until its time to live after the last sign of life |
| `IndexService.CallsStand` | src/libredp2p.c:4775-4881 | the live calls are those accepted since their target last polled, for 30 seconds |
| `IndexService.CallDelivered` | src/libredp2p.c:4775-4881 | a call accepted for a publisher is handed to its first poll within 30 seconds, with caller, session and candidates |
| `IndexService.CallReachesNobodyElse` | src/libredp2p.c:4843-4881 | it is handed to nobody else, not later, and not a second time |
| `IndexService.AnnouncedIsShown` | src/libredp2p.c:4566-4769 | what a publisher announced is shown until its time to live has passed, and meanwhile exactly the key holder renews or withdraws it |
| `IndexTheorems.SeatsRespected` | src/libredp2p.c:3129-3166 | in every reachable state peers do not exceed the seats, nor ordinary peers the seats left by the reservations |
| `IndexTheorems.FullExact` | src/libredp2p.c:3129-3166 | a newcomer is refused exactly when seating it would exceed the seats or the share left by the reservations |
| `IndexTheorems.PasswordExact` | src/libredp2p.c:2472-2483 | a reserved id has the password of its reservation, every other the shared one |
| `IndexTheorems.ReservedAlwaysAdmitted` | src/libredp2p.c:2472-2544 | with no more reservations than seats an authenticated reserved publisher is never refused |
| `IndexTheorems.OverbookedRefuses` | src/libredp2p.c:2555-2605 | with more reservations than seats some run refuses one |
| `IndexTheorems.HandleAgrees` | src/libredp2p.c:4602-4613 | indexes that agree on everything not expired answer alike and still agree |
| `IndexTheorems.PruningUnobservable` | src/libredp2p.c:5281-5288 | pruning peers and calls at any idle moments between requests, differently in two indexes, changes no reply in any run under a clock that does not run backwards |
| `Limbs.MulRow` | lib/monocypher/monocypher.c:1576-1582 | one row of a product: the sum is exact and no 64-bit accumulation overflows |
| `Reduction.Multiply` | lib/monocypher/monocypher.c:1573-1584 | the product is added to the low half of p; what the comment promises, the product plus all of p, is left if and only if the high half of p was zero |
| `Reduction.IsAbove` | lib/monocypher/monocypher.c:1586-1596 | the carry is 1 if and only if x is at least the modulus |
| `Reduction.Remove` | lib/monocypher/monocypher.c:1602-1611 | subtracts the modulus if it fits, also in place |
| `Reduction.OneSubtractionSuffices` | lib/monocypher/monocypher.c:1598-1601 | that is the remainder if and only if x is below twice the modulus |
| `Reduction.BarrettLeaves` | lib/monocypher/monocypher.c:1614-1633 | the Barrett quotient is at most one too small |
| `Reduction.LowProduct` | lib/monocypher/monocypher.c:1634-1642 | the truncated product is the full one modulo 2^256 |
| `Reduction.LowHalvesSuffice` | lib/monocypher/monocypher.c:1630-1648 | subtracting the low halves gives the whole difference |
| `ModL.ReciprocalOfL` | lib/monocypher/monocypher.c:1616-1619 | the constant table is the 512-bit reciprocal of L |
| `ModL.Reduce512` | lib/monocypher/monocypher.c:1614-1656 | x mod L, fully reduced, for every 512-bit x |
| `ModL.EddsaReduce` | lib/monocypher/monocypher.c:1658-1664 | the same on bytes |
| `ModL.EddsaMulAdd` | lib/monocypher/monocypher.c:1666-1678 | (a b + c) mod L |
| `PolyBlock.Products` | lib/monocypher/monocypher.c:337-342 | the five sums fit their 64 and 32 bits and are (h + c) r modulo 2^130 - 5 |
| `PolyBlock.Carry` | lib/monocypher/monocypher.c:344-357 | the carries preserve the value modulo 2^130 - 5 and leave h below 5 * 2^128 |
| `PolyBlock.Block` | lib/monocypher/monocypher.c:330-358 | one block: h becomes (h + c) r modulo 2^130 - 5 |
| `Poly1305.ClampAgrees` | lib/monocypher/monocypher.c:366-375 | masking the limbs clears the bits named in section 2.5.1 of RFC 8439 |
| `Poly1305.FinalTag` | lib/monocypher/monocypher.c:424-438 | the carry chain decides the last subtraction; the tag is (h mod p + s) mod 2^128 |
| `Poly1305.Context.Update` | lib/monocypher/monocypher.c:377-411 | absorbs any input, aligned or not |
| `Poly1305.Context.Final` | lib/monocypher/monocypher.c:413-440 | the tag of the bytes absorbed |
| `Poly1305.TagOfChunks` | lib/monocypher/monocypher.c:366-450 | for every key, message and chunking the tag is that of section 2.5 of RFC 8439 |
| `Candidates.StrictTotalOrder` | src/libredp2p.c:3477-3489 | the comparison is irreflexive, transitive and total |
| `Candidates.AcceptableMeans` | src/libredp2p.c:3505-3508 | refused are exactly candidates without a port, without a numeric address, or of the proxy kind |
| `Candidates.PreferenceMeans` | src/libredp2p.c:3432-3489 | IPv6 before IPv4, then the kinds in order of preference, then addresses and ports, with the priority numbers |
| `Candidates.RemoveDuplicates` | src/libredp2p.c:3503-3518 | keeps for each endpoint the least candidate; fails exactly on a malformed one |
| `Candidates.Sort` | src/libredp2p.c:3519-3527 | sorts what was kept |
| `Candidates.Normalize` | src/libredp2p.c:3495-3530 | succeeds exactly on at most 16 well-formed candidates and leaves their canonical form |
| `Candidates.OrderIrrelevant` | src/libredp2p.c:3495-3530 | permutations of the input have the same result |
| `Candidates.OnePerEndpoint` | src/libredp2p.c:3495-3530 | no two entries have the same port and the same numeric address |
| `Candidates.NothingLost` | src/libredp2p.c:3495-3530 | every port and address has an entry, not after any input for it |
| `Candidates.NothingInvented` | src/libredp2p.c:3495-3530 | every entry is an input with its priority recomputed |
| `Candidates.Idempotent` | src/libredp2p.c:3495-3530 | normalizing the result again succeeds and changes nothing |
| `Sha256.Context.Update` | src/libredp2p.c:454-462 | absorbs bytes, compressing each full block |
| `Sha256.Context.Final` | src/libredp2p.c:468-495 | the digest is the compression of the padded message of sections 5.1.1 and 6.2 of FIPS 180-4 |
| `Sha256.PadExact` | src/libredp2p.c:468-495 | the padding of section 5.1.1 of FIPS 180-4 |
| `Sha256.InitialAreRoots` | src/libredp2p.c:442-447 | the initial state is the fractional parts of the square roots of the first eight primes |
| `Sha256.OutputAt` | src/libredp2p.c:488-494 | the words of the digest are stored most significant byte first |
| `Sha256.BigEndianAt` | src/libredp2p.c:480-487 | the length and the words are stored most significant byte first |
| `Sha256.DigestOfChunks` | src/libredp2p.c:439-495 | every split of a message gives the same digest |
| `ProofOfWork.HmacSha256` | src/libredp2p.c:505-537 | HMAC as in section 2 of RFC 2104 |
| `ProofOfWork.MaskFlips` | src/libredp2p.c:505-537 | which bits of the key the two masks flip |
| `ProofOfWork.HashRegisterOnce` | src/libredp2p.c:548-571 | the HMAC of challenge, id and solution, cut to 96 bytes |
| `ProofOfWork.MessageParts` | src/libredp2p.c:548-571 | where challenge, id and solution stand in the hashed message |
| `ProofOfWork.CounterSpelled` | src/libredp2p.c:626 | the counter is sent as its eight lower-case hexadecimal digits |
| `ProofOfWork.BytesSpelled` | src/libredp2p.c:581-595 | the digest is sent as two digits for each byte |
| `ProofOfWork.CountLeadingZeroBits` | src/libredp2p.c:671-688 | counts the leading zero bits |
| `ProofOfWork.DifficultyIsBound` | src/libredp2p.c:671-688 | a digest has at least k leading zero bits if and only if its value is below 2^(256 - k) |
| `ProofOfWork.Solve` | src/libredp2p.c:615-640 | returns the first counter that works, in a form the index accepts; fails only if none of the 2^32 works or a stop was requested |
| `ProofOfWork.AcceptedMeans` | src/libredp2p.c:652-669 | a proof is accepted exactly if its 64 digits spell the digest byte for byte in lower-case hexadecimal and the digest is below 2^(256 - bits) |
| `ProofOfWork.Verify` | src/libredp2p.c:652-669 | accepts exactly the right proof of sufficient difficulty |
| `ProofOfWork.SolveThenVerify` | src/libredp2p.c:615-669 | every proof the solver returns passes the verifier |

## Left out

- Sockets, threads, configuration, HTTP, STUN, hole punching, the command line and key files: input and output.
- Round-trip estimation, retransmission timeout, congestion control and fast resend: they choose what a flush resends and are free choices of the model.
- Message mode of KCP, other MTU and window settings, and the fragment counter in it: redp2p uses stream mode with fixed settings.
- Liveness: that data is eventually delivered needs a fair network and timers; proved is that from every reachable state it can be (`KcpRecovery.AlwaysRecovers`, `TunnelRecovery.AlwaysFinishes`).
- Allocation failure, wiping of memory, and intrusive list surgery: queues are sequences.
- Failure of a local UDP send: a control frame or datagram that is sent enters the network, which may lose it.
- Truncation of sizes to `int`: lengths of single messages are modelled unbounded, sequence numbers, clocks and counters are not.
- KcpTheorems.ReliableStream: assumes that every delivery is clear; without that the code repeats data (`KcpStale.ReplayRepeatsData`) or loses it (`KcpStale.OldAckLosesData`).
- TunnelTheorems.EofAfterEverything: assumes the same; without that the code ends a stream early (`TunnelStale.OldAckEndsEarly`) or writes data twice (`TunnelStale.ReplayWritesMore`).
- ObjectTable.Object.GetCellIx: masks with the capacity, a power of two, are written as remainders; key and value memory is not modelled.
- JsonControl.Reader.ParseNumberValue: numbers are integers of any size; a number with a point or an exponent, which the code accepts, is refused by the model, and the rounding and overflow of `strtod` are not modelled.
- JsonWriter.Serialize: integers are printed in full, as the default format does below 10^17, and those beyond 2^53 are not doubles; pretty printing and the parser for texts with comments are not modelled.
- JsonProofs.RoundTrip: for values whose objects have distinct names without zero bytes, the only ones the object functions build, and whose numbers are integers up to 2^53, which a double holds exactly.
- IndexEquivalence.ServeBoth: compares replies before serialization, lists as sets and multisets, under one clock that does not run backwards; the JSON layers, the challenge request, reply-size limits and collisions of random row ids are not modelled.
- IndexC.Server.Dispatch: field parsing is part of the request type; candidates are opaque values.
- ProofOfWork.Solve: buffer capacities passed by the caller are taken to be sufficient.
- Sha256.DigestOfChunks: the compression function is a parameter.
- Candidates.Normalize: `inet_pton` is a parameter; null arguments are not modelled.
- Elliptic curve, Argon2, BLAKE2 and AEAD code of monocypher: not used by redp2p.
