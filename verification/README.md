# shm_ipc in Dafny

A model of the shared-memory IPC library (header-only C++17) and proofs about it:
the lock-free single-producer single-consumer byte ring, the frames on top of it,
the connection layer, the event loop, the server's accept pipeline and the codecs.

    dafny verify dfyconfig.toml

## What is proved

**The ring under weak memory** (`SpscProtocol`). The producer's and the consumer's
memory accesses are single steps, one byte at a time, in every interleaving. Memory
is a release/acquire machine: a cursor load may return any value not older than the
one seen last, and a byte read may return any store not superseded in the part of
the store log that the acquired cursor releases. Over all runs: the distance of the
cursors stays within 0 and the capacity, the cells being written are never cells
being read, and every read returns the byte published at that stream position. From
every reachable state the consumer alone can read all that was published, and the
producer can write whatever fits the room really left (`RingProgress`).

**Frames end to end** (`FrameProtocol`). On top of that protocol run SendFrame and
SendFrameBatch with arbitrary payload callbacks (too short, too long, throwing) and
any announced length, Flush and Cancel, and FrameReader on the other side. Over all
runs outside the wrap-around gap named below: every published `write_pos` is a frame
boundary, the reader reports each frame sent once and in order, dropped exactly when
the frame straddles the end of the array and its body exceeds the fallback buffer,
which depends on the list of frames alone; it never reports a protocol error; the
payload view of the frame reported stays that frame's until the commit. From every
reachable state a frame that fits can be sent, and all frames sent can be received
(`FrameProgress`).

**The code** (`RingBuffers`, `FrameWriter`, `FrameReaders`, `PodCodec`). The same
operations as classes and methods over a byte array and wrapped 64-bit cursors, each
proved against an unbounded FIFO or against the functions the theorems are about.

**The connection** (`StreamParsing`, `Draining`, `Connections`, `PodStreams`,
`Wakeup`). Decoding and dispatch are independent of how the stream is cut up, over any
number of drain calls; with SimplePodCodec exactly the values sent are delivered; every
heartbeat is answered; the chunked write is all or nothing; the encode retry ends, and
sends every packet the limit allows; no wakeup is lost, and each does its work.

**The event loop** (`EventLoop`, `LoopActions`, `EventLoopClass`). The tombstone scheme
refines a plain list with immediate removal; a round dispatches exactly what it should;
what was added with a callback does fire, a one-shot timer once, what was removed never.

**The server** (`HandshakePipeline`, `PipelineProgress`, `ConnLifecycle`). The client
limit holds across two threads and admits everybody below it, sockets are neither lost
nor reordered and given up only for a reason, close callbacks fire at most
once, removing a connection never touches another one's loop entries, and Stop leaves
nothing behind exactly under the condition below.

## Results that are conditions

- FinishAccept calls the codec factory after the test of `started_` and before the
  insertion into the table. If the factory stops the server and returns a codec, the
  connection stays in the table of a stopped server with both its loop entries, its
  close callback does not fire and Stop does nothing any more
  (`ConnLifecycle.StopInFactory`, `HandshakePipeline.StopInFactory`). Stop leaves no
  connection behind, throughout a run, exactly when no factory call hands over a
  codec on a stopped server (`ConnLifecycle.StopClosesAllIff`,
  `HandshakePipeline.StopCleanIff`).
- SendFrame, SendFrameBatch, EncodeFrame and Encode compute the frame size in 32 bits.
  Announcing 2^32 - 8 bytes or more can get something other than a complete frame
  accepted, exactly when the free space is too small for a header but not for the
  wrapped size (`FrameWriter.AtomicIff`, witness in `FrameWriter.WrapGapBreaks`).
  EncodeFrame writes past the buffer in that same gap, and Encode whenever the wrapped
  size passes the check (`Framing.EncodeFrame`, `Framing.Encode`).
- `count_` is an int. It is exact for every capacity below 2^31; with the largest one,
  2^31 writes of one byte overflow it (modelled as wrapping around) and Flush publishes
  without notifying (`RingBuffers.CountExactIff`, `FrameWriter.FlushAndNotify`).
- PodCodec's Recv is a filter on every stream exactly when a value fits the reader's
  fallback buffer or is too large for the ring anyway (`PodCodec.FilterIff`).
- A ProtoCodec frame decodes back exactly when the type name is shorter than 2^16
  bytes (`ProtoCodec.RoundTripIff`).
- OnVerify(true) puts a connection back to established whatever its state; the close
  callback stays at most once exactly when it is not called on a closed connection
  (`ConnLifecycle.VerifyGuardIff`).
- SendCmd and SendKeepaliveResponse do not compare the codec's answer with the buffer:
  an answer longer than the buffer sends the memory behind it. The contracts of
  `Connections` allow such answers and say which bytes go out.
- A one-shot timer fires at most once, also when its descriptor is registered twice;
  that no other callback runs for the descriptor needs it to be unregistered when the
  timer is added, as a new timerfd is (`LoopActions.OneShotFiresOnce`).
- Decode of SimplePodCodec and TryRecv wait on fewer bytes than a tag or a header,
  whatever they are; beyond that they wait exactly on part of something acceptable
  (`SimplePodCodec.DecodeExact`, `Framing.WaitOrError`).
- The repository's own README.md describes sentinels, 8-byte alignment and
  `force_write`; the code has none of them, and the model follows the code.

## Conventions

- Cursors are unbounded in the protocols and wrapped modulo 2^64 in the classes;
  `SpscProtocol.WrappedCursorsExact` and the lemmas of `RingMath` show that the two
  agree. The capacity is a parameter: a power of two from 2^10 to 2^31.
- u32 values are stored little-endian.
- Callbacks are arbitrary scripts: lists of writes, actions or reactions, quantified
  over. poll results, accept results and descriptor numbers are arbitrary too, except
  that the system never hands out a descriptor number that is open.
- At most one batch writer is active on a ring, and a payload callback only writes
  (TryWrite, or Reserve, fill and CommitReserve).

## Model

| member | source | states |
|---|---|---|
| `RingMath.StaticAssertsIff` | include/shm_ipc/ringbuf.hpp:326-331 | the static assertions admit exactly the powers of two from 2^10 to 2^31 |
| `RingMath.CapacityDivides` | include/shm_ipc/ringbuf.hpp:318-331 | every admitted capacity divides 2^64 |
| `RingMath.MaskIsMod` | include/shm_ipc/ringbuf.hpp:79-83 | masking with 2^k - 1, bit by bit, is the remainder modulo 2^k |
| `RingMath.PhysIsCell` | include/shm_ipc/ringbuf.hpp:79-83 | the masked 64-bit cursor is the cell of the unbounded stream position, also past 2^64 |
| `RingMath.SpaceTestExact` | include/shm_ipc/ringbuf.hpp:185-186 | the wrapped space test and the count of free bytes are those of unbounded cursors |
| `SpscProtocol.WrappedCursorsExact` | include/shm_ipc/ringbuf.hpp:380-439 | in every reachable state all 64-bit counts, tests and cell numbers of the code equal the unbounded ones |
| `SpscProtocol.CursorBounds` | include/shm_ipc/ringbuf.hpp:383-387 | r seen <= r <= w seen <= w <= local w <= r seen + Capacity, whatever stale values the two sides hold |
| `SpscProtocol.WindowsDisjoint` | include/shm_ipc/ringbuf.hpp:373-439 | cells the producer may be writing are never cells the consumer may be reading |
| `SpscProtocol.ReadsPublished` | include/shm_ipc/ringbuf.hpp:419-439 | any store the memory model lets a readable byte return is the byte published at that position |
| `SpscProtocol.ReadPossible` | include/shm_ipc/ringbuf.hpp:483-514 | a readable byte can always be read, so the previous guarantee is not vacuous |
| `SpscProtocol.StepInv` | include/shm_ipc/ringbuf.hpp:152-305 | every load, byte store, rewind, publication, byte read and commit keeps the ring invariant |
| `SpscProtocol.EndWriteInv` | include/shm_ipc/ringbuf.hpp:188-204 | a finished copy appends exactly its bytes to the unpublished ones |
| `SpscProtocol.RewindInv` | include/shm_ipc/ringbuf.hpp:236-258 | Cancel and RewindTo leave exactly the first `pending` unpublished bytes |
| `SpscProtocol.FlushInv` | include/shm_ipc/ringbuf.hpp:211-223 | Flush publishes exactly the unpublished bytes |
| `SpscProtocol.RunInv` | include/shm_ipc/ringbuf.hpp:312-320 | along every run the invariant holds and published and consumed bytes only grow at the end |
| `SpscProtocol.RingIsFifo` | include/shm_ipc/ringbuf.hpp:312-320 | in every run the bytes read are the bytes published, in order, and at most Capacity bytes are in flight |
| `RingProgress.DeliveryPossible` | include/shm_ipc/ringbuf.hpp:419-531 | from every reachable state consumer steps alone can read, byte for byte, all that was published, and bring the read cursor up to the write cursor |
| `RingProgress.WritePossible` | include/shm_ipc/ringbuf.hpp:373-405 | from every reachable state between writes, bytes that fit the room really left can be written and published, however stale the producer's view |
| `RingProgress.EmptyRingTakesHalf` | include/shm_ipc/ringbuf.hpp:373-387 | with everything consumed and nothing pending, Capacity/2 bytes can always be written and published |
| `RingBuffers.RingBuf.CopyIn` | include/shm_ipc/ringbuf.hpp:389-401 | the two-segment copy fills the cells of the next positions and no other cell within the lap |
| `RingBuffers.RingBuf.RingCopyOut` | include/shm_ipc/ringbuf.hpp:92-106 | the two-segment copy out yields the bytes held from that position on |
| `RingBuffers.RingBuf.TryWrite` | include/shm_ipc/ringbuf.hpp:373-405 | accepts exactly a non-null source of 1 to Capacity/2 bytes that fit; appends them to the stream, else changes nothing |
| `RingBuffers.RingBuf.TryRead` | include/shm_ipc/ringbuf.hpp:419-439 | returns the first min(available, max_len) unread bytes and consumes them |
| `RingBuffers.RingBuf.ReadExact` | include/shm_ipc/ringbuf.hpp:448-468 | returns exactly len bytes or, with fewer available, consumes nothing |
| `RingBuffers.RingBuf.Peek` | include/shm_ipc/ringbuf.hpp:483-514 | the two segments together are the unread bytes; the first ends at the end of the array |
| `RingBuffers.RingBuf.CommitRead` | include/shm_ipc/ringbuf.hpp:524-531 | consumes len bytes and nothing else changes |
| `RingBuffers.RingBuf.Available` | include/shm_ipc/ringbuf.hpp:538-544 | the number of unread bytes |
| `RingBuffers.RingBuf.FreeSpace` | include/shm_ipc/ringbuf.hpp:551-554 | the capacity less the unread bytes |
| `RingBuffers.BatchWriter.TryWrite` | include/shm_ipc/ringbuf.hpp:178-205 | accepts against the stale snapshot; appends to the unpublished bytes; nothing becomes visible |
| `RingBuffers.BatchWriter.Flush` | include/shm_ipc/ringbuf.hpp:211-223 | publishes the unpublished bytes at once and returns the number of writes |
| `RingBuffers.BatchWriter.Cancel` | include/shm_ipc/ringbuf.hpp:236-240 | drops all unpublished bytes and the count |
| `RingBuffers.BatchWriter.RewindTo` | include/shm_ipc/ringbuf.hpp:251-258 | keeps exactly the first `pending` unpublished bytes |
| `RingBuffers.BatchWriter.PendingBytes` | include/shm_ipc/ringbuf.hpp:229 | the number of unpublished bytes, from wrapped cursors |
| `RingBuffers.BatchWriter.FreeBytes` | include/shm_ipc/ringbuf.hpp:261 | the room left against the snapshot, from wrapped cursors |
| `RingBuffers.BatchWriter.Reserve` | include/shm_ipc/ringbuf.hpp:273-284 | hands out an area exactly when the write is acceptable and does not wrap |
| `RingBuffers.BatchWriter.CommitReserve` | include/shm_ipc/ringbuf.hpp:290-295 | appends exactly what the caller stored in the reserved area |
| `RingBuffers.BatchWriter.SerializeToBatch` | include/shm_ipc/proto_codec.hpp:294-317 | the direct path and the copy path both have the effect of one TryWrite |
| `RingBuffers.WriteAll` | include/shm_ipc/ringbuf.hpp:178-205 | any run of writes appends exactly the accepted ones and keeps count > 0 iff bytes are unpublished |
| `RingBuffers.BatchRefinesTryWrite` | include/shm_ipc/ringbuf.hpp:126-128 | whatever a batch accepts, TryWrite calls one by one accept too with any newer read position, and the bytes published are the same |
| `RingBuffers.CountExactIff` | include/shm_ipc/ringbuf.hpp:202-204 | count_, an int, is exact whatever a batch writes, for every admitted capacity but 2^31 |
| `Framing.DecodeIff` | include/shm_ipc/codec.hpp:268-289 | Decode returns a frame exactly when the buffer starts with that frame's encoding |
| `Framing.DecodeInRange` | include/shm_ipc/codec.hpp:280-288 | whatever Decode accepts is a frame within the encoder's 32-bit arithmetic and a prefix of the buffer |
| `Framing.HeaderLayout` | include/shm_ipc/codec.hpp:43-49 | the header is four bytes of length, then four of sequence number, least significant byte first |
| `Framing.EncodeFrame` | include/shm_ipc/codec.hpp:106-119 | refuses leaving memory alone, or writes exactly the header; the header stays within the buffer exactly outside the wrap-around gap, the whole frame exactly when the wrapped size does not slip through |
| `Framing.Encode` | include/shm_ipc/codec.hpp:245-254 | refuses leaving memory alone, or memory then starts with the frame, decodes back to it and is untouched behind it; within the buffer exactly when the wrapped size does not slip through the check |
| `Framing.ReceiveFrame` | include/shm_ipc/frame_reader.hpp:68-141 | a complete frame is never waited for nor called an error; it is dropped exactly when it straddles the end and its body exceeds the buffer |
| `Framing.WaitOrError` | include/shm_ipc/frame_reader.hpp:68-102 | TryRecv waits exactly on fewer bytes than a header or on part of a frame that fits the ring, and reports a protocol error exactly when no such frame starts or could go on that way |
| `FrameWriter.FlushAndNotify` | include/shm_ipc/ring_channel.hpp:113-119 | the peer is notified exactly when bytes were published, but for 2^31 one-byte writes in the largest ring, where count_ has overflowed |
| `FrameWriter.SendFrameBatch` | include/shm_ipc/codec.hpp:191-229 | a frame is added as a whole, or earlier pending frames and the count are left as they were, also when the callback throws; any announced length |
| `FrameWriter.SendFrame` | include/shm_ipc/codec.hpp:137-175 | one frame is published and notified, or nothing is |
| `FrameWriter.Send` | include/shm_ipc/codec.hpp:301-311 | succeeds exactly when the payload fits one write and the frame the free space; publishes that frame |
| `FrameWriter.SendBatch` | include/shm_ipc/codec.hpp:318-328 | the same into a batch |
| `FrameWriter.AttemptIsFrame` | include/shm_ipc/codec.hpp:141-171 | with payload_len + 8 < 2^32, whatever any callback gets accepted is a complete frame of the announced length |
| `FrameWriter.AtomicIff` | include/shm_ipc/codec.hpp:141-171 | no callback can get anything but a complete frame accepted, exactly outside the wrap-around gap |
| `FrameWriter.WrapGapBreaks` | include/shm_ipc/codec.hpp:141-171 | a callback that gets a fragment accepted in the gap |
| `FrameWriter.AttemptPieces` | include/shm_ipc/codec.hpp:121-136 | a payload written in pieces goes in as a whole exactly when the frame fits and each piece fits one write |
| `FrameProtocol.HeaderAccepted` | include/shm_ipc/codec.hpp:141-150 | once the free-space check has passed outside the gap, the header's unchecked TryWrite succeeds, also after the read cursor is reloaded |
| `FrameProtocol.RollbackPossible` | include/shm_ipc/ringbuf.hpp:251-258 | the assertion in RewindTo always holds |
| `FrameProtocol.CommitPossible` | include/shm_ipc/ringbuf.hpp:524-531 | the deferred commit never exceeds the readable bytes |
| `FrameProtocol.TryRecvResult` | include/shm_ipc/frame_reader.hpp:54-141 | in every reachable state TryRecv reports no data only when all it can see is consumed, else the next frame, and never -3 |
| `FrameProtocol.StepInv` | include/shm_ipc/codec.hpp:137-229 | every step of writer and reader keeps the framing invariant |
| `FrameProtocol.EndToEnd` | include/shm_ipc/frame_reader.hpp:34-141 | in every run, with any announced lengths outside the gap, the stream is the frames sent, every write_pos a frame boundary, and the reports a prefix of what the list of frames calls for; LastSeq is the last delivered one |
| `FrameProtocol.DrainedMeansAll` | include/shm_ipc/frame_reader.hpp:34-141 | a reader that has consumed everything has reported every frame exactly once |
| `FrameProtocol.ScheduleIndependent` | include/shm_ipc/frame_reader.hpp:110-136 | two runs that sent the same frames report the same outcomes, however they interleaved |
| `FrameProtocol.PayloadStable` | include/shm_ipc/frame_reader.hpp:23-24 | until the commit every read through the payload view returns the byte of the frame TryRecv reported, which is the byte sent, whatever the producer does meanwhile |
| `FrameProgress.ReceptionPossible` | include/shm_ipc/frame_reader.hpp:53-157 | from every reachable state the reader alone can get to where it has reported every frame sent, each as its position calls for |
| `FrameProgress.SendingPossible` | include/shm_ipc/codec.hpp:137-229 | from every reachable state between frames, a frame that fits the room really left can be sent behind whatever is queued |
| `FrameProgress.EndFrameExact` | include/shm_ipc/codec.hpp:152-229 | in every reachable state the frame is kept exactly if the callback did not throw and wrote the bytes announced; else batch and count are as before |
| `FrameProgress.CancelDrops` | include/shm_ipc/ringbuf.hpp:236-240 | after Cancel a Flush sends nothing of what was queued |
| `FrameReaders.FrameReader.TryRecv` | include/shm_ipc/frame_reader.hpp:53-141 | commits the previous frame and answers as `Framing.Receive` of the readable bytes; payload bytes, LastSeq and pending commit included |
| `FrameReaders.FrameReader.Commit` | include/shm_ipc/frame_reader.hpp:149-157 | consumes exactly the frame reported last, once |
| `FrameReaders.FrameReader.CopyFromSegments` | include/shm_ipc/frame_reader.hpp:171-190 | copies the requested range of the two segments taken together |
| `FrameReaders.FrameReader.CheckHeader` | include/shm_ipc/frame_reader.hpp:68-102 | separates waiting, protocol error and complete frame, with the header possibly across the two segments |
| `PodCodec.DecodePayloadIff` | include/shm_ipc/pod_codec.hpp:97-106 | a payload is accepted exactly when it is tag plus a value of the right size |
| `PodCodec.SendIff` | include/shm_ipc/pod_codec.hpp:171-193 | Send and SendBatch write the frame as a whole exactly when it fits, else nothing |
| `PodCodec.Recv` | include/shm_ipc/pod_codec.hpp:204-230 | the next accepted value, or -1 with every frame consumed; terminates; never -3 |
| `PodCodec.RecvOne` | include/shm_ipc/pod_codec.hpp:209-228 | a frame that is not accepted is consumed at once, so every skip advances the read position |
| `PodCodec.RecvAll` | include/shm_ipc/pod_codec.hpp:195-203 | repeated Recv returns exactly the matching values in order when a value fits the buffer |
| `PodCodec.FilterIff` | include/shm_ipc/pod_codec.hpp:195-203 | the exact condition under which Recv is a filter on every stream |
| `SimplePodCodec.Codec.RegisterPod` | include/shm_ipc/simple_pod_codec.hpp:55-78 | from then on the type can be encoded, no other type of its tag can, and no other tag is affected |
| `SimplePodCodec.Codec.Encode` | include/shm_ipc/simple_pod_codec.hpp:84-106 | an unregistered type is refused; else the type registered last under the tag decides the size asked for, and only its values are written, tag first |
| `SimplePodCodec.EncodesAsExpected` | include/shm_ipc/simple_pod_codec.hpp:55-106 | looking up the two maps one after the other does what the history of RegisterPod calls says |
| `SimplePodCodec.RoundTrip` | include/shm_ipc/simple_pod_codec.hpp:84-129 | whatever Encode produced decodes to the same value and length, whatever follows it |
| `SimplePodCodec.EncodableIff` | include/shm_ipc/simple_pod_codec.hpp:55-106 | of the types registered under one tag exactly the last can be encoded |
| `SimplePodCodec.DecoderIsPrefixStable` | include/shm_ipc/simple_pod_codec.hpp:112-129 | appending bytes never changes a definite answer of Decode |
| `SimplePodCodec.DecodeExact` | include/shm_ipc/simple_pod_codec.hpp:112-129 | a value comes out exactly when the bytes start with its packet; more is asked for exactly on fewer bytes than a tag or part of a packet of a registered type; otherwise disconnect |
| `PodStreams.ValuesDelivered` | include/shm_ipc/shm_connection.hpp:300-354 | draining the packets of any values returns their number, finds no heartbeat, consumes exactly them and gives the callback of an open connection exactly the values, in order |
| `ProtoCodec.ParsersAgree` | include/shm_ipc/proto_codec.hpp:51-92 | the one-pass decoder and Decode followed by DecodePayload agree on every buffer |
| `ProtoCodec.RoundTripIff` | include/shm_ipc/proto_codec.hpp:121-178 | a frame decodes back exactly when the type name is shorter than 2^16 bytes |
| `ProtoCodec.SendIff` | include/shm_ipc/proto_codec.hpp:198-238 | Send and SendBatch write the frame as a whole exactly when it, its name and its message fit, else nothing |
| `StreamParsing.ChunkingIndependent` | include/shm_ipc/shm_connection.hpp:300-354 | however the stream is cut and whenever the drain loop runs, it decodes a prefix of one parse of the whole, and all of it once nothing more moves |
| `Draining.DispatchIndependent` | include/shm_ipc/shm_connection.hpp:255-354 | the same for dispatch: over any turns of any drain calls the messages given are a prefix of what one parse calls for, and all of it, with its final state, once nothing more moves |
| `Draining.DrainIsTurns` | include/shm_ipc/shm_connection.hpp:304-354 | one drain call is turns with the same bytes visible, until one moves nothing |
| `Draining.DrainCallsComplete` | include/shm_ipc/shm_connection.hpp:300-354 | any number of drain calls give a prefix of the messages of one parse; a call that sees the whole stream completes it |
| `Draining.DrainIsParse` | include/shm_ipc/shm_connection.hpp:300-354 | the drain loop decodes exactly the packets of one parse, counts messages and heartbeats and dispatches the messages until closed; what is a packet is said by `Draining.DrainByAnswer` |
| `Draining.DrainByAnswer` | include/shm_ipc/shm_connection.hpp:327-352 | what a call does with each of the codec's return codes: end, fail with nothing consumed, take a heartbeat and count no message, take a message, count and dispatch it |
| `Draining.ReactTable` | include/shm_ipc/shm_connection.hpp:132-142 | what closing, removing and verifying inside the callback leave of an open connection |
| `Draining.DeliverStops` | include/shm_ipc/shm_connection.hpp:255-260 | messages reach the callback in order without gaps, none after the state left established/verifing |
| `Connections.SettleBounded` | include/shm_ipc/shm_connection.hpp:100-122 | for any codec the retries end within the distance to the limit; the buffer only grows and stays within it |
| `Connections.SettlePacks` | include/shm_ipc/shm_connection.hpp:100-122 | for a codec that asks for `need` bytes and then writes its packet, the buffer grows to that exactly if the limit allows and the packet comes out; else it keeps its size |
| `Connections.EveryHeartbeatAnswered` | include/shm_ipc/shm_connection.hpp:334-343 | with room for all the replies at the start, every heartbeat of a drain call gets its whole reply, in order |
| `Connections.WriteRaw` | include/shm_ipc/shm_connection.hpp:368-389 | all len bytes are appended and notified or none, with the reader consuming between chunks; the commented unreachable branch is unreachable |
| `Connections.ShmConnection.Close` | include/shm_ipc/shm_connection.hpp:132-142 | open states become closing with an active close and a socket shutdown, others stay; the verify timer is taken out of the loop in any state |
| `Connections.ShmConnection.OnVerify` | include/shm_ipc/shm_connection.hpp:265-272 | established on success, closed as by Close on failure; no verify timer is left |
| `Connections.ShmConnection.OnClose` | include/shm_ipc/shm_connection.hpp:277-290 | closed, the callback fired exactly if it was not closed before; no verify timer is left |
| `Connections.ShmConnection.Linearise` | include/shm_ipc/shm_connection.hpp:307-325 | the codec is given exactly the readable bytes, wrapped or not |
| `Connections.ShmConnection.OnMessage` | include/shm_ipc/shm_connection.hpp:255-260 | the callback, if set, sees the message exactly in the open states |
| `Connections.ShmConnection.SendKeepaliveResponse` | include/shm_ipc/shm_connection.hpp:392-415 | one whole reply if it fits, or nothing, after the bounded retries; notified exactly if sent; any int32 answer; a packet the limit allows is sent exactly if it fits the room |
| `Connections.ShmConnection.Handle` | include/shm_ipc/shm_connection.hpp:332-350 | a heartbeat is answered with one whole reply if it fits, a message dispatched; never both |
| `Connections.ShmConnection.SendCmd` | include/shm_ipc/shm_connection.hpp:92-123 | nothing is sent outside the open states; otherwise skip, disconnect, give-up or the whole packet, as the last answer says; a packet the limit allows is sent whole exactly if it fits the room, one beyond it is not and leaves the buffer alone; notified exactly if sent |
| `Connections.ShmConnection.DrainRing` | include/shm_ipc/shm_connection.hpp:300-354 | consumed bytes, return value, dispatched messages, state and one reply per heartbeat, in order, are those of `Draining.Drain` of the readable bytes |
| `Connections.DrainRingIsCall` | include/shm_ipc/shm_connection.hpp:300-354 | a call of DrainRing is a drain call in the sense of `Draining.DrainCallsComplete` |
| `Connections.DrainRingRefuses` | include/shm_ipc/shm_connection.hpp:330-349 | on 0 the call ends, on -1, any other negative answer, or a length or heartbeat size out of range it returns -1; nothing is consumed, given or sent |
| `Connections.DrainRingHeartbeat` | include/shm_ipc/shm_connection.hpp:334-343 | a heartbeat is consumed, not counted and not given; with keepalive its whole reply goes out if it fits |
| `Connections.DrainRingMessage` | include/shm_ipc/shm_connection.hpp:346-351 | a message is consumed, counted and given to the callback of an open connection; nothing is sent |
| `Wakeup.StepInv` | include/shm_ipc/ring_channel.hpp:302-324 | publishing, notifying, waking and every turn keep the handshake invariant |
| `Wakeup.NoLostWakeup` | include/shm_ipc/shm_server.hpp:405-416 | a parked reader with an empty eventfd and an idle writer has seen everything, and nothing of it is decodable; a reader is gone only for a protocol error |
| `Wakeup.WakeupDelivers` | include/shm_ipc/shm_server.hpp:404-416 | from every reachable state the reader can be woken and come to rest with exactly the packets consumed that a parse of the rest finds, or gone for the error it finds |
| `EventLoop.RoundExact` | include/shm_ipc/event_loop.hpp:144-186 | a round dispatches, in order, exactly the polled entries due whose descriptor no earlier dispatch removed, up to Stop or an exception |
| `EventLoop.RoundInv` | include/shm_ipc/event_loop.hpp:166-186 | dispatch and compaction keep the live entries equal to the plain list and leave no tombstone |
| `EventLoop.LiveBury` | include/shm_ipc/event_loop.hpp:75-80 | tombstoning removes exactly the descriptor's entries from the live ones |
| `EventLoop.LiveCompact` | include/shm_ipc/event_loop.hpp:257-263 | compaction drops exactly the tombstones |
| `EventLoop.NoStaleDispatch` | include/shm_ipc/event_loop.hpp:8-15 | in every run a removed entry never fires, even if its number is reused, an entry fires in no round begun before it was added, an entry registered as one-shot fires at most once |
| `EventLoop.SurvivesUnlessRemoved` | include/shm_ipc/event_loop.hpp:8-15 | in every run an entry is live exactly when it was added and its descriptor not removed since |
| `LoopActions.OneShotFiresOnce` | include/shm_ipc/event_loop.hpp:106-119 | in every run, between an AddOneShotTimer for a descriptor not registered then and its next registration, the callback runs at most once, and no entry is left after it |
| `LoopActions.RemovedIsQuiet` | include/shm_ipc/event_loop.hpp:75-133 | in every run, after RemoveFd or RemoveTimer no entry and no callback for the descriptor until a call registers it again |
| `LoopActions.AddedFires` | include/shm_ipc/event_loop.hpp:61-119 | an entry added with a callback is polled in the next round and fires in it if poll reports events, unless an earlier callback removed it, stopped the loop or threw |
| `LoopActions.RoundRuns` | include/shm_ipc/event_loop.hpp:166-180 | the positions a round dispatches are exactly the callbacks it runs, in that order |
| `LoopActions.TimersOwned` | include/shm_ipc/event_loop.hpp:90-133 | in every run the loop owns exactly the timers added and neither removed nor gone off |
| `LoopActions.BeginRuns` | include/shm_ipc/event_loop.hpp:139-144 | Run followed by a poll that returns is one round |
| `EventLoopClass.Looper.RemoveFd` | include/shm_ipc/event_loop.hpp:75-80 | the loop over the entries tombstones every entry of the descriptor |
| `EventLoopClass.Looper.RemoveTimer` | include/shm_ipc/event_loop.hpp:125-133 | tombstones and gives up ownership of the first matching timer |
| `EventLoopClass.Looper.Invoke` | include/shm_ipc/event_loop.hpp:106-116 | a one-shot timer is removed before its callback runs |
| `EventLoopClass.Looper.CompactDead` | include/shm_ipc/event_loop.hpp:257-263 | keeps the live entries in order |
| `EventLoopClass.Looper.RunOnce` | include/shm_ipc/event_loop.hpp:144-186 | one iteration is one round of the specification, exception included |
| `EventLoopClass.Looper.Run` | include/shm_ipc/event_loop.hpp:139-188 | iterates rounds until stopped, thrown out of, or out of poll results |
| `HandshakePipeline.WithinLimit` | include/shm_ipc/shm_server.hpp:274-402 | in every interleaving connections and sockets in the pipeline, the one in the codec factory included, stay within max_clients_; the over-limit drop in FinishAccept is unreachable |
| `PipelineProgress.AdmittedIff` | include/shm_ipc/shm_server.hpp:274-300 | in every reachable state an accepted socket can get into the line exactly if connections and line are below max_clients_; then it is pushed last, else given up at once |
| `PipelineProgress.GivenUpForAReason` | include/shm_ipc/shm_server.hpp:274-402 | in every run a socket is given up only by a refusal at the limit, a failed or interrupted handshake, a missing codec, a close or a Stop |
| `PipelineProgress.AdoptionPossible` | include/shm_ipc/shm_server.hpp:303-402 | from every reachable state of a started server all sockets in the line can become connections, in order, with none given up |
| `PipelineProgress.ClientServed` | include/shm_ipc/shm_server.hpp:274-402 | from every reachable state with room, the line and one more client can become connections |
| `PipelineProgress.StopReturns` | include/shm_ipc/shm_server.hpp:130-178 | from every reachable state in which Stop waits, the worker alone lets it finish; then there are no connections and only what was being adopted is left |
| `HandshakePipeline.SocketsConserved` | include/shm_ipc/shm_server.hpp:130-366 | every accepted socket is in exactly one place and adopted in order; once Stop has returned the pipeline is empty, and every socket has been given up unless an adoption was late |
| `HandshakePipeline.StopCleanIff` | include/shm_ipc/shm_server.hpp:352-402 | a stopped server has no connections, throughout a run, exactly when no codec factory hands over a codec on a stopped server |
| `HandshakePipeline.StopInFactory` | include/shm_ipc/shm_server.hpp:369-392 | a factory that stops the server and returns a codec leaves its connection in the table of a stopped server |
| `HandshakePipeline.CapacityStep` | include/shm_ipc/shm_server.hpp:274-346 | no step of either thread raises the load beyond the limit |
| `ConnLifecycle.RemoveOnlyOwn` | include/shm_ipc/shm_server.hpp:439-445 | RemoveConn, even repeated or late, tombstones exactly that connection's live entries |
| `ConnLifecycle.TwoEntriesEach` | include/shm_ipc/shm_server.hpp:392-401 | in every run a connection in the table has exactly its two live entries |
| `ConnLifecycle.ClosedExactlyOnce` | include/shm_ipc/shm_connection.hpp:277-290 | in every run the close callback fires exactly once per connection that left the table and never for one in it; for all by the end of Stop if no adoption was late |
| `ConnLifecycle.StopClosesAllIff` | include/shm_ipc/shm_server.hpp:130-178 | every Stop of a run leaves no connection behind exactly when no codec factory hands over a codec on a stopped server |
| `ConnLifecycle.StopInFactory` | include/shm_ipc/shm_server.hpp:369-402 | the run that goes wrong: connection, both loop entries and the pending close callback stay, and Stop does nothing any more |
| `ConnLifecycle.GuardedFiresOnce` | include/shm_ipc/shm_connection.hpp:265-290 | without OnVerify(true) on a closed connection OnClose fires at most once |
| `ConnLifecycle.VerifyGuardIff` | include/shm_ipc/shm_connection.hpp:265-272 | OnVerify(true) keeps the callback at most once exactly when the connection is not closed |
| `ConnLifecycle.AdoptedUnverified` | include/shm_ipc/shm_server.hpp:369-402 | adoption makes a connection with its two descriptors, unverified if there is a verify callback, and then not established in any run before OnVerify(true) |
| `ConnLifecycle.FailedVerificationShuts` | include/shm_ipc/shm_connection.hpp:265-272 | after OnVerify(false) a connection is not open in any run before OnVerify(true) |
| `ConnStates.TransitionTable` | include/shm_ipc/shm_connection.hpp:132-290 | the state transitions, state by state |

## Left out

- common.hpp and the handshake of CreateRingChannel (memfd, mmap, SCM_RIGHTS, seals, timeouts): foreign calls; both ends are taken to hold the same zeroed ring.
- poll, timerfd, eventfd and socket calls themselves: replaced by arbitrary results and a counter; a failing eventfd write and poll errors other than EINTR are not modelled.
- Move construction of batch writers and destructors: a moved-from writer and the implicit Flush of a destructor would only repeat Flush.
- Peers that forge cursors or write the array outside the protocol.
- Message serialisation of protobuf: an abstract byte string; ProtoCodec's Recv loop has the shape of PodCodec's and is not repeated.
- ShmAsyncClient, ShmClient, the comm interfaces, applications and benchmarks: drivers and forwarding.
- Verify timers in ConnLifecycle and user contexts: the timer is an ordinary one-shot entry of the loop; contexts carry no logic.
- A message callback that sends on its own connection during a drain, or throws out of a drain or a Stop: `Connections.ShmConnection.SendCmd` is stated by itself.
- Sockets given up in HandshakePipeline: the server no longer holds them; a connection's socket is closed when the application drops its last reference, which is in ConnLifecycle.
- HandshakePipeline.SocketsConserved: the connections Stop removes are given up in one step; their callbacks, one by one, are in ConnLifecycle.
