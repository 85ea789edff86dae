# A verified model of sernet

Sernet carries XBee frames from a serial line over UDP to a de-duplicating relay, and from there back to
the sender or on to an OSC receiver. This project models the parts that do the work, in the order in which
a message meets them, and proves what each part promises and what they promise together.

| module | models | about |
|---|---|---|
| `Framing`, `Packet` | `packet.c` | the escaped serial frame: what a frame is, and the byte loops that write and read one |
| `WireErrors` | `packet.c` | which single wrong bytes on the line the decoder notices |
| `SerialReceiver` | `fwd.c` receive loop | reads accumulate in one buffer, frames are cut out of it |
| `Messages`, `Forwarder` | `msg.h`, `fwd.c` sending thread | datagram layouts, and the repackaging of packets into them |
| `Destination`, `AddrCache`, `Dedup` | `dst.c` | the relay's checks, its return-address cache and its duplicate filter |
| `Clock` | `local.h` | `struct timespec` arithmetic through aliased pointers, and round-trip accounting |
| `BoundedQueue` | `dst.c`, `fwd.c`, `osc.c` | the queue between the two threads of each component, as memory and as a step system |
| `Sender` | `src.c` | sequence numbers, the simulated packets, the write loop, the checks on answers |
| `ExactlyOnce`, `Pipeline` | several files | the theorems that span components |
| `Osc`, `TinyOsc`, `OscBridge` | `osc/tinyosc.c`, `osc.c` | the OSC message format, its writer and reader, and the bridge's use of them |
| `ByteOrder` | `local.h` | the two 64-bit byte-order helpers |

Code that changes state in place is modelled by classes and methods with loops over arrays; each method is
proved against a specification function or against the property itself, and the theorems are about those
specifications. Bytes are 0..255, lengths are 16 bits wide with explicit wrap-around where the C code wraps,
and packed sizes are those of a 64-bit Linux build. What the operating system delivers (reads, datagrams,
clock values, the outcome of a write) is an arbitrary input, constrained only by stated preconditions.

## Where the code does not do what it is meant to do

Several natural properties do not hold of the code. The model keeps the code, gives a concrete failing input,
and states exactly when the property does hold.

- The encoder does not escape the checksum (`packet.c:128`) but the decoder unescapes it. A payload survives
  its own encoding exactly when its checksum is not 0x7D (`RoundTrip`, `RoundTripFailsOnEscChecksum`).
- `PKT_ERROR` is 255, not 65535 (`packet.h:7`), so the receive loop ends on a good frame of 255 bytes. A frame
  is delivered exactly when it is not 255 bytes long, its checksum is not 0x7D and its packet is acceptable
  (`FrameDelivered`, `GoodFrameEndsLoop`). So do 255 bytes of noise without SYNC (`NoiseDiscarded`).
- A wrong byte on the line is not always noticed, since it can merge escape sequences. In a frame that fits the
  receive buffer the undetected ones are exactly an ESC in the place of a payload byte 0x3D right before an
  escaped SYNC or ESC, or in the place of the low length byte 0x21 of a payload that starts with 0
  (`WireByteError`, `WireByteErrorMissed`).
- The store that clears a popped queue slot goes one slot too far: after a pop from a full queue it goes to
  slot 16 of 16 (`dst.c:232`). In C that store is outside the array. The model has two layouts: `Padded`,
  where it hits nothing, and `Adjacent`, where it hits the count that follows the slots in the 64-bit struct.
  Messages are conserved exactly when the layout is `Padded` or no pop finds the queue full (`Conserved`);
  otherwise each such pop loses fifteen messages (`OverrunLosesFifteen`).
- The queue is a stack: of two messages queued together, the later one leaves first (`LaterLeavesFirst`,
  `SecondLeavesFirst`). Messages leave in push order exactly when no pop finds two of them queued
  (`SinglesInOrder`). So what the duplicate filter lets through can still be reordered, and lost, by the queue.
- The duplicate filter has sixteen slots but uses fifteen. The sixteenth source evicts another, whose next
  message passes however soon it repeats (`EvictionForgets`, `SixteenSourcesFail`). With any number of sources,
  as long as the evictions stay inside the table,
  a duplicate is recognised exactly when its source has not lost its slot since the earlier arrival
  (`DropsExactlyRemembered`).
- A recorded time with a zero second means "never seen" (`dst.c:161`), so duplicates are recognised exactly
  when, besides, the earlier arrival is not in the clock's second zero (`DropsExactlyDuplicates`,
  `FirstSecondPasses`).
- `htonll` returns its input (`local.h:74`) while `ntohll` reverses it, so 64-bit OSC arguments come back
  byte-swapped: exactly those that read the same backwards come back unchanged (`EchoesFaithful`,
  `LongOneIsNotEchoed`).
- The comment above `tosc_vwrite` promises a multiple of four bytes. The result is one, but unless the capacity
  is a multiple of four too it can exceed the capacity (`LengthCanExceedCapacity`, `CapacityExact`).
- `tosc_vwrite` stores the comma behind the address before it checks that it fits (`osc/tinyosc.c:155`). The
  store is outside the buffer exactly when the address passes the check and its padded size does not; for
  capacities that are multiples of four these are the addresses with four bytes or less to spare
  (`StrayCommas`, `StrayCommaExample`).
- A comma in the address hides the type tags from the OSC reader: parsing finds them exactly when the address
  holds no comma (`ParseFindsHead`), and otherwise takes the rest of the address for the tags
  (`CommaHidesTags`, `CommaExample`).

## Model

| member | source | states |
|---|---|---|
| Framing.FlipIsXor | packet.c:10-14 | the escape transformation used by the model is exclusive-or with 0x20 on all 256 bytes |
| Framing.Sum16LowByte | packet.c:58 | the 16-bit running sum, wrap-around included, has the low byte of the true sum, so the checksum is that of the true sum |
| Framing.UnstuffStuffAll | packet.c:46-53 | reading back stuffed bytes gives the original bytes, with no escape pending |
| Framing.RoundTrip | packet.c:18-130 | decoding an encoded payload of 16-bit length returns it and consumes the frame when the checksum is not 0x7D, and reports it incomplete when it is |
| Framing.RoundTripFailsOnEscChecksum | packet.c:128-128 | the payload 0x82 is not decoded from its own encoding |
| Framing.PrefixIncomplete | packet.c:27-77 | every proper prefix of every encoding is reported incomplete: nothing consumed, length 0 |
| Framing.FrameOnTheLine | packet.c:88-130 | a frame starts with 0x7E; up to its last byte neither 0x7E, 0x11 nor 0x13 occurs again; it is longer than payload plus four by exactly the number of length and payload bytes 0x7E, 0x7D, 0x11 and 0x13; between first and last byte length (high byte first) and payload are read back; the last byte is 255 minus the payload's sum modulo 256 |
| Framing.XoffFrame | packet.c:14-128 | the frame of the payload 0x13 is 7E 00 01 7D 33 EC |
| Framing.StraddlingIncomplete | packet.c:73-74 | a whole frame followed by any bytes of a next one is never decoded, which is why no read may straddle two frames |
| Framing.Resynchronises | packet.c:28-42 | after any SYNC-free prefix one whole frame is delivered, the prefix is not counted, and the frame stands at the front of the buffer |
| Framing.NoSyncTrashed | packet.c:27-39 | four or more bytes without 0x7E are consumed whole with length 0, fewer are left alone |
| Framing.DecoderCharacterised | packet.c:42-83 | on a buffer that starts with SYNC the decoder returns p exactly when the unescaped rest, with no dangling escape, is the length of p, p and its checksum; otherwise it consumes nothing |
| Framing.SingleByteError | packet.c:55-77 | changing any one byte of a valid frame body (length, payload or checksum) makes it invalid |
| Framing.SingleByteErrorRejected | packet.c:43-83 | no buffer that unescapes to a valid body with one byte changed is decoded |
| WireErrors.WireByteError | packet.c:42-83 | for every frame that fits the receive buffer, every position behind SYNC and every wrong byte there: the frame is still decoded exactly when the wrong byte is ESC, the checksum is not, and it stands in the place of a 0x3D before an escaped SYNC or ESC or of the low length byte 0x21 of a payload that starts with 0 |
| WireErrors.WireByteErrorMissed | packet.c:42-83 | the frame of 0x3D 0x7E with one byte changed is decoded, as 0x5D 0x5E |
| WireErrors.SyncByteError | packet.c:28-42 | with a wrong byte in the place of SYNC no payload comes out |
| Packet.EncodeLength | packet.c:94-112 | SYNC and the two length bytes are written, each escaped where needed, and the escapes are counted |
| Packet.EncodePayload | packet.c:114-126 | the payload is written escaped, the sum is the 16-bit sum of the unescaped bytes, the count of escapes accounts for the size, and the rest of the buffer is untouched |
| Packet.FrameEncode | packet.c:88-130 | the buffer starts with exactly the frame, is otherwise unchanged, and the result is the frame size modulo 2^16 |
| Packet.FindSync | packet.c:28-31 | finds the first SYNC, or the end |
| Packet.Resync | packet.c:28-39 | moves everything from the first SYNC on to the front of the buffer and leaves the bytes behind it as they were |
| Packet.TakeByte | packet.c:55-70 | one step of the decoder keeps its counters in agreement with the unescaped bytes seen so far, and stops early only when the announced length cannot fit |
| Packet.ScanFrame | packet.c:42-83 | the decoding loop computes the specification's verdict and payload, never writes beyond the payload buffer, and consumes all or nothing |
| Packet.FrameDecode | packet.c:18-86 | for every buffer, what is returned and stored is the specified decoding of the buffer on entry, and the buffer is left resynchronised |
| Packet.PktDecode | packet.c:132-160 | the packet holds exactly the frame's payload if it is acceptable, and has length 0 otherwise |
| Packet.AcceptableExactly | packet.c:137-157 | acceptable is exactly what is laid out as 0x90, 8 source bytes, 2 reserved, 1 option and any data, or as 0x10, a frame id, 8 destination bytes, 2 reserved, radius, option and any data; the data may be empty |
| Packet.PktEncode | packet.c:162-165 | the buffer starts with exactly the frame of the packet's contents |
| SerialReceiver.Receiver.OnChunk | fwd.c:101-124 | one pass of the loop leaves the buffer, hands on the packets and stops as the specification's step does, also when it stops |
| SerialReceiver.Receiver.Receive | fwd.c:95-124 | whatever read() reports in turn (chunks that fit the room, interruptions, the end), the loop delivers what the specification's run over the chunks before the end delivers |
| SerialReceiver.Accumulates | fwd.c:102-121 | while a frame is incomplete its bytes pile up in order, nothing is handed on and the buffer does not overflow |
| SerialReceiver.FrameDelivered | fwd.c:100-124 | a frame that fits, cut into reads in any way, is handed on with an empty buffer left exactly when it is not 255 bytes long, its checksum is not 0x7D and its packet is acceptable; what happens otherwise |
| SerialReceiver.GoodFrameEndsLoop | fwd.c:118-118 | an acceptable packet of 251 bytes whose frame decodes, is 255 bytes long, and ends the loop undelivered |
| SerialReceiver.StreamReassembled | fwd.c:100-124 | for every list of receivable payloads and every cutting into reads that straddle no two frames, exactly the acceptable ones are delivered, in order, with an empty buffer at the end |
| SerialReceiver.AllAcceptableDelivered | fwd.c:123-123 | when all payloads are acceptable, all of them are delivered, unchanged and in order |
| SerialReceiver.StreamReadable | fwd.c:102-107 | every read of such a stream fits the room the loop offers to read() |
| SerialReceiver.FrameRecovers | fwd.c:102-124 | whatever fills the buffer of 2048 bytes, the next receivable and acceptable frame, cut into reads in any way, is delivered and leaves an empty buffer |
| SerialReceiver.StreamRecovers | fwd.c:102-124 | the same for every stream of such frames: all are delivered, in order, behind what was delivered before |
| SerialReceiver.JunkLeavesBytes | fwd.c:117-121 | a frame completed behind junk without SYNC is delivered, and the buffer keeps as many stale bytes as there was junk |
| SerialReceiver.NoiseDiscarded | fwd.c:117-121 | bytes without SYNC are thrown away from four on and wait below; exactly 255 of them end the loop |
| SerialReceiver.StraddlingWaits | fwd.c:117-121 | a read that runs on into the next frame hands nothing on and everything stays |
| SerialReceiver.ReceivableExactly | fwd.c:102-118 | the frames the loop can take are those of at most 2048 and not 255 bytes whose payload sum is not 0x82 modulo 256 |
| Messages.MagicValue | packet.h:8-8 | the four magic bytes are 0xdeadbeef in little-endian order |
| Messages.RelayRoundTrip | msg.h:30-35 | a relay record is recovered from its 23 bytes, including negative 64-bit fields |
| Messages.RelayFields | msg.h:30-35 | which of the 23 bytes make up the address, the port, the number, the seconds and the nanoseconds |
| Messages.PackedBytes | msg.h:19-54 | a datagram is its size, low byte first, its type 0 or 1, the source, for a relay message the record, and the data; its size is 11 or 34 more than the data |
| Messages.PackedHeader | msg.h:19-23 | a datagram's header states its own size and type, its source and data stand at the packed offsets |
| Messages.PackedInjective | msg.h:37-54 | different messages have different datagrams |
| Forwarder.RepackageBounded | fwd.c:195-219 | given the decoder's minimum-length check no 16-bit subtraction wraps, and the datagram is shorter than the packet |
| Forwarder.RepackageInjective | fwd.c:195-219 | the datagram determines source and data of the packet, whichever of the two kinds it is |
| Forwarder.IndicationRepackaged | fwd.c:195-219 | for every source, option bytes and data: data that is no relay record behind the magic travels whole, in a datagram of 11 more bytes with type 0; otherwise the 23 bytes behind the magic and all that follows do, with type 1 |
| Forwarder.RequestSkipped | fwd.c:195-195 | transmit requests are not sent on |
| Forwarder.Fill | fwd.c:195-223 | the message buffer, filled field by field, holds exactly the specified datagram, and its length is what is sent; nothing is sent for other packet types |
| AddrCache.Cache.GetAddr | dst.c:60-77 | the answer is the rank of the peer among the distinct peers seen, or nothing beyond sixteen, and the cache holds the first sixteen peers in order |
| AddrCache.Cache.GetAll | dst.c:60-77 | over every run of lookups each answer is the rank of its peer, and never changes afterwards |
| AddrCache.SlotsIdentifyPeers | dst.c:60-77 | two answered lookups share a slot exactly when they ask for the same peer, and a lookup goes unanswered exactly when its peer is not among the first sixteen |
| Destination.Classify | dst.c:118-153 | the relay's checks compute the specified key, or discard |
| Destination.MessagesTaken | dst.c:118-153 | every proper datagram is taken, under its own source and sequence number |
| Destination.TakenIsMessage | dst.c:118-153 | whatever is taken is a whole datagram of a known type whose header states its length, up to the flag bits |
| Destination.HandleRelay | dst.c:256-273 | a relay message is sent to the cached entry of the very address and port it names, and to nobody when it names none or the cache is full |
| Clock.DiffIsSubtraction | local.h:28-37 | the difference is the nanosecond difference whatever the operands, and normalised if they are |
| Clock.TsDiff | local.h:28-37 | the result is the difference of the values on entry, even when the destination is one of the operands |
| Clock.TsAdd | local.h:39-48 | the result is the sum of the values on entry, even when the destination is one of the operands, and is normalised exactly when the nanosecond fields do not add up to a negative number |
| Clock.RttStats.Record | src.c:237-240 | one answer adds exactly (receive - stamp) to the sum, whatever the stamp; a normalised sum stays so for normalised times; the count is modulo 2^32 |
| Clock.RttStats.RecordAll | src.c:237-240 | after any run the sum is the total of (receive - stamp) over as many samples as were counted, and is normalised if all times are, also where the clock steps back |
| Dedup.Filter.Admit | dst.c:159-188 | one message changes table, length and eviction counter as the specified step does, and is let through when that lets it through |
| Dedup.RunHonest | dst.c:159-188 | in every run of at most 16 evictions the searched sources are pairwise distinct and each recorded time is zero or the latest arrival |
| Dedup.RunComplete | dst.c:159-188 | with at most 15 sources nothing is evicted and every recorded time is the latest arrival, or zero if there was none |
| Dedup.DropsExactlyDuplicates | dst.c:159-188 | with at most 15 sources a message is dropped exactly when the latest arrival of its source and sequence number is at most 80 ms old and was not stamped in the clock's second zero |
| Dedup.WindowExact | dst.c:161-171 | of two messages with one source and number, the second, d nanoseconds after the first, is dropped exactly when d is at most 80 000 000 |
| Dedup.FirstSecondPasses | dst.c:161-164 | in the clock's second zero an immediate repetition passes, since a zero second means "never seen" |
| Dedup.DropHasCause | dst.c:159-188 | with up to 16 evictions and any number of sources, every dropped message repeats an arrival at most 80 ms before it |
| Dedup.AcceptedApart | dst.c:159-188 | once the clock's second zero is over, two messages with the same source and sequence number, whose source did not lose its slot in between, are more than 80 ms apart if the second is let through |
| Dedup.EvictionsCounted | dst.c:181-184 | the eviction counter is the number of evictions of the run, for all runs whose evictions stay inside the table |
| Dedup.DropsExactlyRemembered | dst.c:159-188 | with any number of sources and up to 16 evictions, a message is dropped exactly when the latest arrival of its source and sequence number is at most 80 ms old, was not stamped in the clock's second zero, and no eviction since has taken the slot of its source |
| Dedup.EvictionForgets | dst.c:180-188 | after every run with fifteen sources, a message of a sixteenth makes the next message of the very first message's source pass |
| Dedup.SixteenSourcesFail | dst.c:180-188 | a run from the empty table: sixteen sources send once, and a duplicate of the first message at the same instant is let through |
| Sender.SeqOfCycles | src.c:165-165 | the k-th send carries k modulo 255, plus one: zero is never sent |
| Sender.SameSeqFarApart | src.c:165-165 | two sends share a sequence number exactly when they are a multiple of 255 apart, so at least 255 |
| Sender.SimFrameFits | src.c:135-167 | the frame of every simulated packet the options allow fits the sender's 4096-byte buffer |
| Sender.StoreFields | src.c:148-159 | the fields stored one after the other into a cleared packet, at their packed offsets, make it the packet that precedes the first send: own address and port in the relay record, number and time zero, padding zero |
| Sender.SimBytes | src.c:148-165 | the bytes of a simulated packet: type, source, reserved bytes, option and magic literally, then a record that reads back as own address, own port, number and time, then zeros |
| Sender.Simulator.constructor | src.c:135-159 | establishes the state from which SendAll puts out the frames of all sends |
| Sender.Simulator.Stamp | src.c:164-165 | stamping in place yields the simulated packet of the next send and changes nothing else in it |
| Sender.Simulator.Prepare | src.c:163-167 | the buffer starts with the frame of the next send's packet |
| Sender.Simulator.WriteAll | src.c:169-181 | however the writes are cut or interrupted, what went out is a prefix of the frame, as long as what was taken, and the loop ends exactly when it is the whole frame |
| Sender.Simulator.SendAll | src.c:163-185 | over any number of sends, what goes out is a prefix of the frames of the packets numbered 1 to 255 in turn and stamped with their times, and all of them when no write fails and each takes its frame |
| Sender.OnDatagram | src.c:208-240 | exactly the whole relay messages that carry our own address and port are counted, each with its round-trip time, whatever its stamp |
| Sender.AnswerCounts | src.c:208-235 | an answer counts exactly when it has at least 34 bytes, its header states its size and type 1, and the bytes of its record name both our address and our port |
| ExactlyOnce.CloseMeansSame | src.c:165-184 | copies with the same source and sequence number that arrive within 80 ms of each other stem from the same send |
| ExactlyOnce.ExactlyFirstCopies | dst.c:158-189 | sends at least 1 ms apart, copies within 80 ms of their send, a clock past its second zero, at most 15 sources: the filter lets a copy through exactly when it is the first of its send |
| ExactlyOnce.EverySendOnce | dst.c:158-189 | under the same assumptions what the filter lets through holds exactly one copy of every send that arrives at all |
| ExactlyOnce.LetThroughArrived | dst.c:158-189 | what the filter lets through is, as a multiset, part of what arrived |
| Pipeline.SendsReceived | src.c:148-167 | however the bytes of the frames are cut into reads that straddle no two frames, the receive loop delivers exactly the simulated packets, in order |
| Pipeline.SendForwarded | fwd.c:195-219 | the forwarder turns each of them into a relay message that carries the original record and trailing bytes |
| Pipeline.EndToEnd | fwd.c:195-219 | that datagram states its own size, is taken by the relay under the sender's source and the send's number, names the sender's address, is deliverable exactly when the sender has a port and an address, and is accepted by the sender with its own address, port, number and time |
| Pipeline.AnswerAddressed | dst.c:256-273 | the lookup for a deliverable one finds a slot exactly when the sender is among the first sixteen peers, and that slot holds the sender's address |
| Pipeline.SensorPacket | fwd.c:195-219 | any packet that is no relay packet becomes a packet message with its source and exactly its data, which the relay files under that source and the third data byte |
| Pipeline.SensorAsOsc | osc.c:137-161 | the OSC message the bridge makes of that datagram spells out the packet's source and data |
| Pipeline.RelayPacket | fwd.c:202-215 | any relay packet, whatever trails its record, is filed under its source and the record's number, and is an answer for exactly the sender it names |
| Pipeline.ArrivesAsCopy | dst.c:141-150 | such a datagram is a copy of its send, in the sense of the exactly-once theorem |
| Pipeline.FilterAdmitsFirstCopies | dst.c:118-189 | over a whole run of such datagrams, read as bytes, the filter lets through exactly the first one of every send; each names the sender's address, passes the guard of handle_relay exactly when that has a port and an address, and is accepted by the sender as that send's answer |
| BoundedQueue.StackLaws | dst.c:198-232 | a push adds on top, a pop removes the top and clears just the slot above it, if there is one, a pop undoes a push |
| BoundedQueue.Queue.Push | fwd.c:150-154 | the queued messages are the old ones followed by the new one |
| BoundedQueue.Queue.Pop | osc.c:124-128 | the newest message is returned, and the others stay in order, unless the queue was full and the count lies behind the slots |
| BoundedQueue.StepKeepsInv | dst.c:196-234 | every step of either thread, spurious wake-ups included, keeps mutual exclusion, the shape of the queue and the wake-up condition |
| BoundedQueue.Exec | dst.c:196-234 | every state a run reaches satisfies that invariant |
| BoundedQueue.NeverStuck | dst.c:196-234 | in every reachable state the threads are not both asleep, a sleeper's condition is false or its signal is due, and a step is enabled unless the queue is empty and no message is offered |
| BoundedQueue.OwnStepsDescend | dst.c:196-234 | each step of the threads' own decreases a measure, so they cannot go on forever without new messages or spurious wake-ups |
| BoundedQueue.Drains | dst.c:196-234 | such a run has bounded length and stops exactly when the queue is empty, no message is held back and the consumer waits |
| BoundedQueue.StepLogs | dst.c:198-232 | each step pushes one message, pops the newest, or moves none; no other change |
| BoundedQueue.Conserved | fwd.c:150-186 | over every run, pushed messages are popped plus queued ones as multisets exactly when the layout is harmless or no pop found the queue full |
| BoundedQueue.LaterLeavesFirst | dst.c:201-231 | over every continuation, what is still queued of an earlier state is its oldest part, in order, below newer messages |
| BoundedQueue.SinglesInOrder | osc.c:92-128 | over every run and both layouts, the push numbers of the popped messages are 0, 1, 2 and so on exactly when no pop finds two messages queued; then what was pushed is what was popped followed by the queue |
| BoundedQueue.SecondLeavesFirst | dst.c:201-231 | a run exists that pushes two messages and pops the second |
| BoundedQueue.OverrunLosesFifteen | fwd.c:185-186 | for any sixteen messages a run exists whose only pop returns the last and loses the fifteen others |
| ByteOrder.Htonll | local.h:64-75 | the result is the input |
| ByteOrder.Ntohll | local.h:77-88 | the result is the argument with its bytes reversed |
| ByteOrder.SwapUndone | local.h:64-88 | reversing twice gives the word back: had htonll reversed too, the reader would undo it |
| ByteOrder.SwapLoaded | local.h:77-88 | ntohll of a little-endian load is a big-endian load |
| Osc.SizeByMask | osc/tinyosc.c:154-159 | adding and clearing two bits is rounding a string with its terminator, or a blob, up to a multiple of four |
| Osc.Aligned | osc/tinyosc.c:147-217 | every argument starts at a multiple of four, and so does the end |
| Osc.PaddingIsZero | osc/tinyosc.c:150-205 | beyond its own bytes an argument is all zeros |
| Osc.ExtentHoldsAll | osc/tinyosc.c:163-206 | what is more than padding is a blob's length and all its data, a string and its terminator, or all of a number |
| Osc.WordBytes | osc/tinyosc.c:172-192 | 32-bit integers and floats go most significant byte first, negative ones in two's complement |
| Osc.SpecificationExample | osc/tinyosc.c:148-218 | the message "/foo" iisff 1000 -1 "hello" 1.234 5.678 of the OSC 1.0 specification examples has the forty bytes given there |
| Osc.ParseGivesUp | osc/tinyosc.c:31-38 | parsing fails with no comma exactly when there is none, and with no terminator exactly when none follows the first comma |
| Osc.StringRefused | osc/tinyosc.c:115-117 | the string getter refuses exactly the strings that do not end inside the message |
| Osc.ParseFindsHead | osc/tinyosc.c:28-47 | parsing a written message finds its tags, and its arguments right behind them, exactly when the address holds no comma; the address is the string at the start |
| Osc.CommaHidesTags | osc/tinyosc.c:29-47 | if the address does hold a comma, the parser takes the rest of the address for the tags and the real tags for the first argument |
| Osc.CommaExample | osc/tinyosc.c:29-47 | of the message for "/a,b" with tag i the tags read are "b" |
| Osc.ReadBack | osc/tinyosc.c:89-135 | where an argument's bytes stand, its getter gives it back and moves the marker just past them |
| Osc.ReadsBack | osc/tinyosc.c:89-135 | the getters for the first k tags give back the first k arguments, in order, and stop where the next one starts |
| Osc.OscRoundTrip | osc/tinyosc.c:28-218 | a written message with a comma-free address parses to its own tags and arguments, with the marker ending at the written length |
| Osc.EchoesFaithful | local.h:64-88 | the arguments come back unchanged exactly when every 64-bit one reads the same backwards; the writer's stores go through Htonll and the reader's loads through Ntohll |
| Osc.LongOneIsNotEchoed | osc/tinyosc.c:193-199 | the 64-bit integer 1 is written 01 00 00 00 00 00 00 00 and comes back as 2 to the power 56 |
| TinyOsc.WriteHead | osc/tinyosc.c:150-159 | the cleared buffer holds address and tags at their padded places, or one of the first two codes says which does not fit, or the comma strays outside the buffer |
| TinyOsc.WriteArg | osc/tinyosc.c:162-214 | an argument is written exactly when its own bytes, padding excluded, fit; the position moves to the next multiple of four |
| TinyOsc.Write | osc/tinyosc.c:148-218 | each failure code is returned in exactly its own case, and the comma strays in exactly its; otherwise the buffer holds the message and zeros, and the result is the message's length |
| TinyOsc.UnknownTags | osc/tinyosc.c:162-213 | the writer returns -4 exactly for a first misfit that is none of the ten letters b f d i h s T F N I |
| TinyOsc.StrayCommas | osc/tinyosc.c:150-155 | the stray comma is at most three bytes outside, and for capacities that are multiples of four it strays exactly for addresses with four bytes or less to spare |
| TinyOsc.StrayCommaExample | osc/tinyosc.c:150-155 | a three-letter address strays in a buffer of four bytes |
| TinyOsc.CapacityExact | osc/tinyosc.c:148-218 | with known tags writing succeeds exactly when everything but trailing padding fits, and for capacities that are multiples of four exactly when the padded message fits; the buffer then carries the whole message exactly when its length is within the capacity |
| TinyOsc.LengthCanExceedCapacity | osc/tinyosc.c:147-159 | a message of eight bytes is reported for a buffer of seven |
| TinyOsc.Message.Parse | osc/tinyosc.c:28-47 | code, tag position and marker are the specified ones; on failure marker and buffer stay |
| TinyOsc.Message.GetNextInt32 | osc/tinyosc.c:89-94 | reads one big-endian 32-bit integer and moves the marker past it |
| TinyOsc.Message.GetNextFloat | osc/tinyosc.c:102-107 | reads one big-endian 32-bit pattern and moves the marker past it |
| TinyOsc.Message.GetNextWide | osc/tinyosc.c:96-113 | reads one 64-bit pattern through ntohll, byte-reversed, and moves the marker past it |
| TinyOsc.Message.GetNextString | osc/tinyosc.c:115-122 | reads the string up to its terminator and moves to the next multiple of four, or leaves the marker when it does not end inside the message |
| TinyOsc.Message.GetNextBlob | osc/tinyosc.c:124-135 | hands out place and length of a blob inside the message, or nothing with the marker unmoved; negative lengths pass the check |
| TinyOsc.Message.ReadAll | osc/tinyosc.c:252-279 | the printing loop's getters yield the specified arguments and marker |
| OscBridge.UnhexUndoes | osc.c:154-157 | hexadecimal text determines the bytes it was made from |
| OscBridge.NumberPrintsBytes | osc.c:142-151 | the number assembled from the address bytes prints as those bytes, two digits each, leading zeros included |
| OscBridge.ExampleTexts | osc.c:142-157 | the source 0013A200400ABCDF is written as the address "/gesture/xbee/0013A200400ABCDF", the data 09 AF as "09AF" |
| OscBridge.RenderData | osc.c:153-157 | the append loop builds the hexadecimal text of all data bytes |
| OscBridge.EmittedSize | osc.c:160-160 | the message takes 36 + ((2n+4) rounded down to a multiple of four) bytes for n data bytes, at most 8192 |
| OscBridge.EmittedDecodes | osc.c:142-161 | an OSC reader gets back the address and one string, and these spell out exactly source and data |
| OscBridge.EmissionInjective | osc.c:142-161 | different sources or data make different OSC messages |
| OscBridge.EmissionFits | osc.c:110-161 | no packet message from a 2048-byte receive buffer makes the writer fail or the comma stray |
| OscBridge.Emit | osc.c:137-161 | exactly the packet messages are written, and the bytes sent are the specified OSC message |

## Left out

- Sockets, serial setup, file descriptors, the clock itself, thread priorities and cancellation, option parsing, logging and scripts.
- The branch of `src_tx_thread` under `SRC_XBEE_API_MODE`, and the raw branch beside it: neither goes through the framing.
- `get_addr` in `fwd.c`: its only call is commented out.
- OSC bundles and time tags, and the meaning of floating-point numbers: `f` and `d` are bit patterns.
- Whether the duplicate filter is present: it is compiled only under `SERNET_DST_DEDUP`, and the model is of a build that has it.
- Overflow of 64-bit seconds: times are mathematical integers, except where they are stored in a relay record.
- The copies inside one buffer (`packet.c:33`, `fwd.c:120`) are overlapping `memcpy` calls; the model takes them as moves.
- Framing.RoundTrip: payloads of less than 2^16 bytes, because the length field has 16 bits.
- Packet.FrameEncode: the destination has room for the frame, which the code leaves to its callers.
- SerialReceiver.StreamReassembled: reads that straddle two frames, and the loop after a resynchronisation, are outside it; `JunkLeavesBytes` and `StraddlingWaits` say what one read does there, and `FrameRecovers` and `StreamRecovers` what follows once the buffer has filled up.
- SerialReceiver.Receiver.Receive: the reason why a read ended or was interrupted is not modelled; a read never returns more than the free room.
- Destination.Classify: a received length of 0, which ends the relay's receive loop, is only said to be discarded; likewise the errors that end the sender's.
- Destination.MessagesTaken: for a packet message with fewer than three data bytes the sequence number is whatever the buffer held before, as in the code; nothing is said about it.
- AddrCache.Cache.GetAddr: the port is not 0, which the only caller has checked.
- Dedup.Filter.Admit: an eviction past the sixteenth, whose store lies outside the table because the counter is never reduced, is not an input of the method, and the theorems about runs with evictions are about runs without one.
- Dedup.DropsExactlyDuplicates: the clock is normalised and never goes back.
- BoundedQueue.Queue.Pop: what the store outside the array hits is one of the two stated layouts; other consequences of undefined behaviour are not modelled. The three queues are one generic model, and the messages' memory management is left out.
- BoundedQueue.NeverStuck: fairness of the scheduler is not modelled; `Drains` bounds every run of the threads' own steps instead.
- Sender.Simulator.Prepare: seconds and nanoseconds fit 64 bits, and the packet size is one the options allow (`main.c:253`).
- WireErrors.WireByteError: frames of at most 2048 bytes, which is what the receive loop can hold.
- Pipeline.FilterAdmitsFirstCopies: the queue behind the filter is not part of it; what that reorders and loses is in `SinglesInOrder` and `Conserved`.
- ExactlyOnce.ExactlyFirstCopies: send times and arrival times are on one clock, while the code stamps them on two.
- TinyOsc.Write: capacities up to 0x7FFFFFF0, so that no 32-bit sum wraps; argument values that match the tags; the caller's terminated strings. After a stray comma the model stops, where the code goes on to return -2.
- TinyOsc.Message.GetNextString: there is a zero byte somewhere in the buffer, since the code looks for it without a bound.
- TinyOsc.Message.GetNextBlob: what a caller does with a negative length is not modelled.
- TinyOsc.Message.GetNextInt32: the getters do not check bounds, so their arguments lie inside the buffer.
- OscBridge.Emit: packet messages of at least eleven bytes whose header states their length, as the relay sends them; the datagram after the write is I/O.
