# A verified model of the 3rd Eye Scene core

3rd Eye Scene sends shapes, meshes and control messages from a program to a viewer as packets. This
project models the core of its C++ library in Dafny and proves what a user of that core relies on:
packets arrive as they were sent, resources reach the viewer whole, meshes are rebuilt, recordings
are finalised in place.

`dafny verify dfyconfig.toml` checks the whole project.

## The parts

The transport, from bits to whole connections:

- `Bytes`, `Words`, `Gf2`: byte strings, binary numbers, polynomials over the two-element field.
- `Crc`, `PacketCheck`: the table driven CRC, and which corruptions a packet's CRC detects. The
  generator is the polynomial x^16 + x^12 + x^5 + 1 of section 2 of ITU-T Recommendation V.41.
- `Packets`: the packet layout and streams of packets placed end to end.
- `PacketWriting`, `PacketReading`: typed data into and out of a packet in a caller's buffer.
- `Maths`, `Collating`, `Decoding`: packing packets into a collated packet and taking it apart.
- `StreamReading`: finding packets in a byte stream that arrives in chunks.
- `Transport`: `writePacket` with its collation decisions, and the whole way to the receiver.
- `Concurrency`, `Interleaving`, `OperationEffects`, `ResourceInterleaving`: threads on one connection, step
  by step under its three locks; what they write, what an operation does by itself, and what they do to
  the resources.

What is sent:

- `ResourceStates`, `ResourceRuns`, `ResourceTransfers`: reference counts, the transfer queue and the
  packer; every run of them, step by step; and the classes that make these steps.
- `Meshes`, `SharedMeshes`: mesh data and copy-on-write sharing of it.
- `MeshTransfers`, `MeshDelivery`: sending a mesh in pieces under byte limits and rebuilding it; meshes
  as the resources of a connection.
- `ShapeData`: the data messages of complex shapes.
- `MeshSets`: the create message of a mesh set.
- `RecordingSearch`, `StreamUtil`: the search for two packets in a recorded stream; initialising one and
  finalising it in place.

## Main results

- `Transport.EndToEnd`: for every series of submissions and flushes, every choice of collation flags
  and every chunk size of the reader, the receiver gets exactly the packets submitted of versions it
  knows, in order.
- `Interleaving.NoDeadlock`, `Interleaving.WireIsAnInterleaving`: for any number of threads, any
  programs made of the connection's operations and any schedule, somebody can always go on, and wire
  and pending buffer together hold an interleaving of what the threads wrote.
- `PacketCheck.UndetectedIffMultiple`, `PacketCheck.BurstIsDetected`: exactly the multiples of the
  generator go unnoticed, so no burst of up to sixteen bits does, whatever the payload length.
- `ResourceRuns.WireIsSafeExactly`: in every run of resource operations, with the loop of
  `updateTransfers` taken turn by turn, whatever transfers fail and whether they ever complete: no
  receiver got a message it has no use for exactly if no step of the run was one of two kinds, told by
  the table before the step and by which of its entries had a failed transfer. A run without a failure
  has none of them.
- `ResourceInterleaving.TableIsOfARun`, `ResourceInterleaving.SafeUnderEverySchedule`: for any number of
  threads and any schedule, with the active flag looked at before any lock is taken and other packets sent
  in between, the table and the messages about resources on the wire are those of such a run, in which
  each thread's operations are in program order.
- `ResourceTransfers.ResourceConnection.UpdateTransfers`: told from the messages one call sends, each transfer
  is given what the packets before it leave of the byte limit, a packet is sent only while they leave any,
  and the call goes on until then or until nothing is left. `ResourceRuns.AnnouncedInOrder`: resources are
  announced in the order in which they were referenced.
- `ResourceTransfers.RunResources`: every series of operations of the classes is such a run; the table is
  that of reference counters; after an unlimited transfer receivers have exactly the referenced
  resources, whole but for those of which a transfer failed.
- `MeshTransfers.TransferRebuildsMesh`: however a mesh is cut up by byte limits, each element is sent
  once and in order, and the receiver's mesh equals the sender's, but for texture coordinates.
- `MeshDelivery.DeliverMeshes`: from the operations of users to the meshes of receivers. After an update
  without a limit they have exactly the referenced meshes, each rebuilt, but for failed ones; none fails,
  and no condition is needed, without limits and with streams that fit.
- `MeshTransfers.FailsExactly`, `MeshTransfers.MeshesNeverFail`: for packet buffers of any size, when a
  transfer of a mesh fails, and for which meshes none fails without a byte limit.
- `MeshTransfers.WritesMost`: each slice is as long as limit, packet and stream allow.
- `SharedMeshes.RunFamily`: copy-on-write cannot be told from deep copies, and what a reader of the meshes
  sees after each operation is told element by element (`Meshes.Seen`).
- `RecordingSearch.FindInfoMessagePositions`, `StreamUtil.FinalisedExactly`, `StreamUtil.Record`: what the
  search finds in any recording, and for which server information a recording that was initialised is
  finalised as it should be, by the bytes of the server information packet alone.
- `StreamReading.PacketStreamReader.ExtractPacket`: which of its answers a call gives, by the bytes of the
  stream alone.
- `MeshSets.ReadCreate`, `MeshSets.CreateRoundTrip`, `MeshSets.CreateStands`: exactly which payloads are read,
  as what; which sets are restored; and where in the payload each number stands.
- `ShapeData.SendMeshShapeData`, `ShapeData.SendMultiShapeData`.

## Where the code falls short of a law

- A resource transfer that fails leaves its entry started, and the last completed id as it was. Two kinds
  of steps then send a message that a receiver has no use for: taking a key off the queue of which a
  transfer has failed announces the resource again, and releasing an entry that is marked as sent but
  was never started destroys what was never created. `ResourceRuns.RetryExample` and
  `ResourceRuns.StaleExample` are runs with one of each, `ResourceRuns.WireIsSafeExactly` says that there
  are no others, and `ResourceStates.WhatMarksWrongly` which failures make such an entry.
- A mesh transfer fails for a byte limit that leaves less than one element beside the slice header, while
  an even smaller limit counts as none. Without a limit the slice header is forgotten, so that a stream
  that does not fit into one packet cannot be sent through some packet buffers, of which
  `MeshTransfers.SmallBufferExample` has one. `MeshTransfers.FailsExactly` says when, for buffers and
  limits of any size, and `ShapeData.SendMeshShapeData` the same of mesh shapes, for elements of any size.
  In buffers with room for all the whole elements that 65254 bytes hold, as those of the default size have
  for elements that a mesh has, only byte limits are a cause (`MeshTransfers.LargeRoom`).
- `SimpleMesh::processUVs` looks at the flag of the normals and sets it. Texture coordinates that are
  received never have their own flag, and are written past the end of their vector exactly if the mesh
  has normals as well (`MeshTransfers.TransferRebuildsMesh`, `MeshTransfers.UvExample`).
- `sendShapeData` sends the create message of a multi shape again when it already holds all shapes;
  `ShapeData.SendMultiShapeData` says for which sets every shape is sent once.
- `MeshSet::writeCreate` does not look whether the number of parts fitted (`MeshSets.EmptySetExample`).
  More than 65535 parts throw in a build with exceptions, which is the default, and are cut to sixteen
  bits in one without; `MeshSets.CreateRoundTrip` says, for both builds, for which sets reading restores
  what was written.
- `CollatedPacket::expand` asks `nextLog2` for more than 32 bits hold when the buffer comes close to
  2^31 bytes, and shrinks it instead (`Collating.CollatedPacket.Expand`, `Collating.FullBufferExample`).
  `add` then copies the packet past its end; `Collating.CollatedPacket.Add` says for which packets.
- `extractPacket` takes a marker that the end of its buffer cuts off for a whole one
  (`StreamReading.CutMarkerExample`); with four bytes of it in the buffer it is the marker
  (`StreamReading.MarkerIsFound`). A reader gets past garbage exactly if it ends in the bytes that are
  buffered (`StreamReading.PastGarbage`); otherwise it reads no further, however often it is asked
  (`StreamReading.PacketStreamReader.ExtractAgain`).
- `finaliseStream` looks for its two packets behind every marker, those inside the server information
  included. One that it comes to does no harm unless the sixteen bytes from it on look like the header of
  a frame count packet, or reach behind the end of the server information packet, where the frame count
  packet begins (`RecordingSearch.Harmless`). `StreamUtil.FinalisedExactly` has the recording finalised as
  it should be exactly if no marker does harm; `StreamUtil.FalseHeaderExample` has server information with
  a marker, and which default frame times make it harmful.
- A decoder that refuses a compressed packet, in a build without zlib, hands it out as it is at the next call
  (`Decoding.CollatedPacketDecoder.SetPacket`).
- `checkCompatibility` refuses no minor version while both of its major versions are zero
  (`Packets.CompatibleExactly`).
- `packetSize` and `calcExpectedSize` agree with each other and with the true size exactly for packets
  of at most 65535 bytes (`Packets.SizesAgree`). The comment in `3escore/PacketHeader.h` limits the
  payload alone to 65535 bytes; the code cannot handle such a payload with its header.

## Model

| member | source | states |
|---|---|---|
| Crc.GeneratorValue | 3escore/Crc.cpp:96 | the polynomial of the sixteen bit CRC is 0x1021 |
| Crc.TableStepIsFeed | 3escore/Crc.cpp:55-56 | one table lookup does what eight bit steps of the division do |
| Crc.TableEqualsBitSerial | 3escore/Crc.cpp:46-61 | byte at a time with the table equals bit at a time, for every message, preset and generator |
| Crc.CrcLinear | 3escore/Crc.cpp:46-61 | the CRC of the xor of two equally long messages is the xor of their CRCs with xored presets |
| Crc.CrcIsPolynomialRemainder | 3escore/Crc.cpp:46-61 | the CRC of any message is the remainder, modulo the generator, of the message shifted by sixteen with the preset mixed into its first bits |
| Crc.CrcCalc.constructor | 3escore/Crc.cpp:37-42 | a calculator holds the table of its polynomial |
| Crc.CrcCalc.InitTable | 3escore/Crc.cpp:65-92 | every table entry is eight division steps of its index |
| Crc.CrcCalc.DivideByte | 3escore/Crc.cpp:76-87 | the inner loop divides one byte |
| Crc.CrcCalc.Crc | 3escore/Crc.cpp:46-61 | the loop computes the CRC of the first bytes of a message |
| Gf2.FeedLinear | 3escore/Crc.cpp:76-87 | division steps are linear in register and message |
| Gf2.DivisionIdentity | 3escore/Crc.cpp:69-91 | long division by the generator: quotient times generator plus remainder is the dividend |
| Gf2.FeedIsRemainder | 3escore/Crc.cpp:76-87 | feeding bits into the register leaves the polynomial remainder |
| Gf2.ClearsOnMultiples | 3escore/Crc.cpp:76-87 | the register ends clear exactly for multiples of the generator |
| Gf2.BurstDoesNotClear | 3escore/Crc.cpp:76-87 | bits confined to sixteen places never leave the register clear |
| PacketCheck.WithCrcIsAccepted | 3escore/PacketWriter.cpp:183-187 | header and payload with their CRC behind them are accepted by a reader |
| PacketCheck.AcceptedIsClear | 3escore/PacketReader.cpp:41-62 | a packet is accepted exactly when feeding all of it clears the register |
| PacketCheck.SyndromeOfDifference | 3escore/PacketReader.cpp:41-70 | whether a corruption is accepted depends on the changed bits alone |
| PacketCheck.UndetectedIffMultiple | 3escore/PacketReader.cpp:41-70 | a corruption goes unnoticed exactly when it is a multiple of the generator |
| PacketCheck.BurstIsDetected | 3escore/PacketReader.cpp:41-70 | changes within sixteen consecutive bits are rejected for every payload length, if payload size and the no-CRC flag are spared |
| PacketCheck.OddCorruptionIsDetected | 3escore/PacketReader.cpp:41-70 | changes of an odd number of bits are rejected |
| PacketCheck.NoCrcBitHidesEverything | 3escore/PacketReader.cpp:48-52 | with the no-CRC flag set everything is accepted |
| Packets.SizesAgree | 3escore/PacketStream.h:106-110 | the two size computations equal the true size exactly if it fits sixteen bits |
| Packets.CompatibleExactly | 3esview/3esview/data/StreamThread.cpp:168-197 | packets are refused for their version exactly if the major version is not zero |
| Packets.SplitConcat | 3escore/PacketStreamReader.cpp:205-215 | cutting a stream by header sizes recovers the packets it was made of |
| Packets.ConcatSplit | 3escore/PacketStreamReader.cpp:205-215 | whatever cuts into packets is made of well formed packets |
| PacketWriting.SwapEachAt | 3escore/PacketWriter.cpp:214-218 | in network order each element of an array stays in its place, with its bytes in the opposite order |
| PacketWriting.EndianSwap | 3escore/Endian.cpp:15-29 | reverses the bytes in place and touches no others |
| PacketWriting.SwapElements | 3escore/PacketWriter.cpp:214-218 | brings each element of an array into network order in place |
| PacketWriting.PacketWriter.constructor | 3escore/PacketWriter.cpp:35-57 | over a buffer of any size: an empty packet with these ids, or a failed writer without room for a header; of larger buffers the part that sixteen bits can tell is used |
| PacketWriting.PacketWriter.Reset | 3escore/PacketWriter.cpp:105-122 | a new empty packet in the same buffer; nothing past the buffer size changes |
| PacketWriting.PacketWriter.Count | 3escore/PacketWriter.cpp:239-244 | the payload size grows by what was written and the CRC is void |
| PacketWriting.PacketWriter.WriteElement | 3escore/PacketWriter.cpp:191-203 | appends the element in network order, or nothing if it does not fit |
| PacketWriting.PacketWriter.WriteArray | 3escore/PacketWriter.cpp:206-226 | appends as many whole elements as fit, each in network order |
| PacketWriting.PacketWriter.WriteRaw | 3escore/PacketWriter.cpp:229-236 | appends as many bytes as fit |
| PacketWriting.PacketWriter.Finalise | 3escore/PacketWriter.cpp:137-188 | the packet is complete and within the buffer, and accepted if its size can be told in sixteen bits; no CRC exactly without room for one |
| PacketWriting.PacketWriter.WriteCrc | 3escore/PacketWriter.cpp:172-187 | the CRC of header and payload stands behind the payload |
| PacketReading.PacketReader.IsCrcOk | 3escore/PacketReader.cpp:41-62 | the outcome of the CRC check, validated once |
| PacketReading.PacketReader.ReadElement | 3escore/PacketReader.cpp:73-84 | the next element in host order, or nothing and no move |
| PacketReading.PacketReader.ReadArray | 3escore/PacketReader.cpp:87-106 | as many whole elements as are there, in host order |
| PacketReading.PacketReader.ReadRaw | 3escore/PacketReader.cpp:109-115 | as many bytes as are there |
| PacketReading.PacketReader.Peek | 3escore/PacketReader.cpp:118-130 | what is there, over what the destination held, without moving |
| PacketReading.WriteThenRead | 3escore/PacketWriter.cpp:137-236 | any series of writes, finalised, passes the check, and matching reads return what was accepted of each |
| Maths.SmearedIsNextPower | 3escore/Maths.h:58-63 | or-ing in all shifted copies sets every bit below the first |
| Maths.NextLog2 | 3escore/Maths.h:54-65 | the least power of two not below the value, for 1 to 2^31; zero for all others |
| Collating.CollatedPacketFields | 3escore/CollatedPacket.cpp:30-55 | a collated packet is well formed, accepted, and every field of its header and message stands where it should and says what it holds |
| Collating.CollatedPacket.constructor | 3escore/CollatedPacket.cpp:609-626 | an empty collation with this size limit |
| Collating.CollatedPacket.Add | 3escore/CollatedPacket.cpp:114-148 | appends exactly the bytes, or refuses and changes nothing, and room for the overhead stays; or copies past the end of the buffer, exactly if a packet within the size limit has no place and an expansion asks for more than 2^31 |
| Collating.CollatedPacket.Expand | 3escore/CollatedPacket.cpp:629-636 | the buffer has room for what was asked, and keeps its content, exactly if what is asked of `nextLog2` is at most 2^31; above it is emptied |
| Collating.SmallLimitsGrow | 3escore/CollatedPacket.cpp:134-144 | with a size limit below 2^31 by more than a packet there is a place for every packet that fits |
| Collating.FullBufferExample | 3escore/CollatedPacket.cpp:629-636 | a full buffer just below 2^31 bytes is emptied when it should grow |
| Collating.CollatedPacket.Finalise | 3escore/CollatedPacket.cpp:151-233 | makes the collated packet of everything added, once |
| Collating.CollatedPacket.Reset | 3escore/CollatedPacket.cpp:94-98 | nothing is collated any more |
| Decoding.DecodeSplit | 3escore/CollatedPacketDecoder.cpp:144-175 | decoding packets placed end to end gives those packets |
| Decoding.UnpackCollated | 3escore/CollatedPacketDecoder.cpp:50-86 | unpacking a collated packet gives the packets that were collated |
| Decoding.UnpackPlain | 3escore/CollatedPacketDecoder.cpp:80-85 | any other packet is handed out as it is |
| Decoding.CollatedPacketDecoder.SetPacket | 3escore/CollatedPacketDecoder.cpp:289-306 | the packets still to come are those unpacked from the new packet; which packets are refused, and that a compressed one is handed out all the same |
| Decoding.CollatedPacketDecoder.Next | 3escore/CollatedPacketDecoder.cpp:309-326 | hands out the packets to come one by one, in order |
| StreamReading.PacketStreamReader.ReadMore | 3escore/PacketStreamReader.cpp:140-162 | appends the next bytes of the stream; the buffer stays the slice it was |
| StreamReading.PacketStreamReader.Consume | 3escore/PacketStreamReader.cpp:179-202 | drops exactly the packet handed out before |
| StreamReading.PacketStreamReader.ExtractPacket | 3escore/PacketStreamReader.cpp:53-125 | on any stream: the bytes that the first marker among those buffered is a header of, with their offset and whether bytes were dropped; otherwise, exactly: `Incomplete` if the stream ends before the header behind the first marker or before what it announces, `Unavailable` if no marker is among the bytes buffered, which stay, `End` if nothing could be buffered |
| StreamReading.PacketStreamReader.ExtractNext | 3escore/PacketStreamReader.cpp:53-125 | of a stream of packets each comes out once, in order, with its offset, for every chunk size; then the end |
| StreamReading.FirstExtraction | 3escore/PacketStreamReader.cpp:53-125 | the first call of a new reader looks at one chunk, or at all of a shorter stream |
| StreamReading.PacketStreamReader.ExtractAgain | 3escore/PacketStreamReader.cpp:53-125 | once no marker is among the buffered bytes, every further call says so, and neither buffer nor stream moves |
| StreamReading.PastGarbage | 3escore/PacketStreamReader.cpp:73-124 | the packet behind garbage comes out exactly if the garbage ends inside the bytes buffered |
| StreamReading.PacketStreamReader.Scan | 3escore/PacketStreamReader.cpp:73-124 | the first marker in the buffer is found, with all that its header announces, unless the stream has less |
| StreamReading.MarkerIsFound | 3escore/PacketStreamReader.cpp:165-176 | what comes out starts with the marker if four bytes of it were in the buffer, and whenever the stream has the marker there |
| StreamReading.CutMarkerExample | 3escore/PacketStreamReader.cpp:165-176 | for every chunk size, a stream of which eighteen bytes come out that do not start with the marker |
| Transport.FlushIsTransparent | 3escore/BaseConnection.cpp:519-535 | a flush loses and adds nothing and leaves nothing pending |
| Transport.SubmitIsTransparent | 3escore/BaseConnection.cpp:538-568 | wire and pending packets are what was submitted, with one more; nothing pends after a packet that forbids collation |
| Transport.WhereItGoes | 3escore/BaseConnection.cpp:538-568 | a packet waits behind the others if it may and is smaller than the bytes available; otherwise what waits goes out first, and the packet behind it, or it waits alone |
| Transport.BaseConnection.constructor | 3escore/BaseConnection.cpp:26-41 | a connection starts with nothing written and nothing pending |
| Transport.BaseConnection.FlushCollatedPacket | 3escore/BaseConnection.cpp:519-535 | the collated packet goes to the wire and the collation is empty |
| Transport.BaseConnection.WritePacket | 3escore/BaseConnection.cpp:538-568 | the new state is the submission of the packet |
| Transport.BaseConnection.Send | 3escore/BaseConnection.cpp:166-174 | submits while active, otherwise does nothing |
| Transport.Process | 3esview/3esview/data/StreamThread.cpp:334-350 | unpacks a packet and goes on with what is of a known version |
| Transport.ReceiveFrom | 3esview/3esview/data/StreamThread.cpp:254-269 | extracts and processes every packet of a known version up to the end of the stream |
| Transport.Receive | 3esview/3esview/data/StreamThread.cpp:254-269 | so does a new reader, on every byte stream that can be taken apart |
| Transport.ProcessedIsAccepted | 3esview/3esview/data/StreamThread.cpp:259-350 | looking at versions before and after unpacking keeps just the packets of known versions, if collated packets are of one |
| Transport.EndToEnd | 3escore/BaseConnection.cpp:512-568 | what is received is what was submitted of known versions, in order; all of it exactly if all is of known versions |
| Concurrency.WriteDoes | 3escore/BaseConnection.cpp:538-568 | writing a packet keeps the lock discipline and gives the send lock back |
| Concurrency.ReleaseDoes | 3escore/BaseConnection.cpp:476-509 | so does releasing a resource, with or without a destroy message |
| Concurrency.ReferenceDoes | 3escore/BaseConnection.cpp:358-381 | so does referencing a resource |
| Concurrency.UpdateTransfersDoes | 3escore/BaseConnection.cpp:274-327 | so does updating transfers, whatever it sends |
| Concurrency.UpdateFrameDoes | 3escore/BaseConnection.cpp:330-355 | so does ending a frame |
| Concurrency.OperationDoes | 3escore/BaseConnection.cpp:166-393 | every operation follows the discipline, gives back every lock and passes its packets on in order |
| Concurrency.ProgramDoes | 3escore/BaseConnection.cpp:166-393 | so does every program of operations |
| OperationEffects.OperationMakes | 3escore/BaseConnection.cpp:166-393 | by itself each operation submits its packets in order, destroy messages before the shape's own; the end of a frame pushes out all that waits; the table is used once for each resource |
| Interleaving.TwoStepsAreOne | 3escore/BaseConnection.cpp:538-568 | making room and putting a packet, undisturbed, are one submission |
| Interleaving.SomeOwnerMoves | 3escore/BaseConnection.cpp:274-282 | following owners of wanted locks leads up the lock order to a thread that can move |
| Interleaving.Exclusive | 3escore/BaseConnection.cpp:540 | no two threads hold one lock |
| Interleaving.StepKeepsInvariant | 3escore/BaseConnection.cpp:166-568 | every step of any thread keeps locks, shared buffers, transparency and order |
| Interleaving.InvariantAlways | 3escore/BaseConnection.cpp:166-568 | the invariant holds after every schedule |
| Interleaving.NoDeadlock | 3escore/BaseConnection.cpp:166-568 | as long as a thread has steps left, some thread can move |
| Interleaving.WireIsAnInterleaving | 3escore/BaseConnection.cpp:166-568 | wire and pending buffer hold an interleaving of the threads' packets, each thread's in order, all of them once it is done |
| ResourceStates.ReferencedKeeps | 3escore/BaseConnection.cpp:358-381 | referencing keeps bookkeeping and what receivers know in step, whatever failed before |
| ResourceStates.ReleasedKeeps | 3escore/BaseConnection.cpp:476-509 | releasing breaks the receiver exactly if the last reference to an entry goes that is marked as sent and was never started |
| ResourceStates.PopKeeps | 3escore/BaseConnection.cpp:288-304 | taking a key off the queue tells receivers nothing, stale and repeated ones included |
| ResourceStates.PackKeeps | 3escore/ResourcePacker.cpp:43-73 | the next packet breaks the receiver exactly if it announces what failed before; otherwise it continues where the one before stopped |
| ResourceStates.LimitWithoutWrap | 3escore/BaseConnection.cpp:285-311 | with a limit of up to 2^32 - 65535 each transfer is given the limit less the bytes of the packets sent before it in the call, which never reach it |
| ResourceStates.DrainedIsComplete | 3escore/BaseConnection.cpp:313-323 | with nothing queued or under way, receivers have exactly the live resources, whole but for failed ones |
| ResourceStates.WhatMarksWrongly | 3escore/BaseConnection.cpp:314-322 | an entry that never started is marked as sent exactly by a failed transfer, if it is that of the resource completed before |
| ResourceRuns.RunIsCounted | 3escore/BaseConnection.cpp:358-509 | after any steps there is an entry for just the keys with references left, counted by a counter that stops at zero |
| ResourceRuns.AnnouncedInOrder | 3escore/BaseConnection.cpp:288-304 | in every run keys wait in the order in which they were referenced anew, and are announced in that order |
| ResourceRuns.StepBreaksExactly | 3escore/BaseConnection.cpp:274-509 | from any state reached without breaking a receiver, the next step breaks one exactly if it is one of the two kinds |
| ResourceRuns.WireIsSafeExactly | 3escore/BaseConnection.cpp:274-509 | after any steps no receiver is broken exactly if none of them was of those kinds |
| ResourceRuns.WithoutFailureSafe | 3escore/BaseConnection.cpp:274-509 | a run in which no transfer failed breaks no receiver |
| ResourceRuns.RoundsAreSteps | 3escore/BaseConnection.cpp:285-324 | the rounds of a call of the transfer loop are steps of the run |
| ResourceRuns.RetryExample | 3escore/BaseConnection.cpp:288-304 | a key queued twice whose transfer fails is announced twice |
| ResourceRuns.StaleExample | 3escore/BaseConnection.cpp:314-322 | a failed transfer marks the resource completed before, which is then destroyed without having been announced |
| ResourceInterleaving.EffectIsSteps | 3escore/BaseConnection.cpp:358-381 | an operation that looked at the active flag before it took the lock is that of a run, whatever the flag is by then |
| ResourceInterleaving.TableIsOfARun | 3escore/BaseConnection.cpp:274-509 | under every schedule table and messages are those of a run; each thread's operations are in it in program order, without those that found the connection inactive |
| ResourceInterleaving.SafeUnderEverySchedule | 3escore/BaseConnection.cpp:274-509 | so no receiver is broken while no step of it is of the two kinds, and exactly then when the lock is free |
| ResourceInterleaving.SomeoneMoves | 3escore/BaseConnection.cpp:274-509 | while a thread is not done, some thread moves |
| ResourceTransfers.ResourcePacker.Cancel | 3escore/ResourcePacker.cpp:35-40 | no current resource and no progress; the last completed id stays |
| ResourceTransfers.ResourcePacker.Transfer | 3escore/ResourcePacker.cpp:28-32 | the resource is current and not announced |
| ResourceTransfers.ResourcePacker.NextPacket | 3escore/ResourcePacker.cpp:43-73 | a create message first, then data from the present progress, until complete or failed |
| ResourceTransfers.RoundGetsOn | 3escore/BaseConnection.cpp:285-324 | every round lowers a lexicographic measure, so the loop ends |
| ResourceTransfers.ResourceConnection.ReferenceResource | 3escore/BaseConnection.cpp:358-381 | counts one more, or makes an entry and queues it |
| ResourceTransfers.ResourceConnection.ReleaseResource | 3escore/BaseConnection.cpp:476-509 | counts one less, or cancels, destroys and erases |
| ResourceTransfers.ResourceConnection.UpdateTransfers | 3escore/BaseConnection.cpp:274-327 | ends, in the state that rounds make of the state before, with no further round called for; of the messages it sent, each is within the byte limit that the sizes of those before leave, and each transfer is given just that |
| ResourceTransfers.ResourceConnection.SetActive | 3escore/BaseConnection.cpp:47-50 | changes the flag alone |
| ResourceTransfers.LoopPerformsNothing | 3escore/BaseConnection.cpp:285-324 | turns of the loop perform no operation of their own |
| ResourceTransfers.Perform | 3escore/BaseConnection.cpp:274-509 | every operation is a series of steps that perform just it; an update keeps its byte limit, and an unlimited one leaves nothing to send |
| ResourceTransfers.RunResources | 3escore/BaseConnection.cpp:274-509 | any operations are a run that performs them: counters, wire safety with its exact condition, exact and whole resources after draining |
| Meshes.MutatedIsSeen | 3escore/shapes/SimpleMesh.cpp:109-498 | for every mutator: which elements a reader sees where, which flags, and that nothing else has changed |
| Meshes.SeenIsMutated | 3escore/shapes/SimpleMesh.cpp:109-498 | that leaves only one mesh |
| Meshes.AddVerticesTwice | 3escore/shapes/SimpleMesh.cpp:297-307 | adding vertices twice is adding them at once |
| Meshes.AddIndicesTwice | 3escore/shapes/SimpleMesh.cpp:368-377 | adding indices twice is adding them at once |
| Meshes.SetTwice | 3escore/shapes/SimpleMesh.cpp:310-320 | setting the same vertices again forgets the first time; setting what is there changes nothing |
| Meshes.MutatedIsWellMade | 3escore/shapes/SimpleMesh.cpp:159-498 | every mutator keeps streams in step with flags and vertices |
| SharedMeshes.Overwrite | 3escore/shapes/SimpleMesh.cpp:310-320 | the loop lays the values over the stream from an offset and counts those that fit |
| SharedMeshes.SimpleMeshImp.ChooseComponents | 3escore/shapes/SimpleMesh.cpp:217-256 | streams after a change of components, emptied ones included |
| SharedMeshes.SimpleMeshImp.ResizeVertices | 3escore/shapes/SimpleMesh.cpp:269-287 | flagged streams follow the vertices |
| SharedMeshes.SimpleMeshImp.Edit | 3escore/shapes/SimpleMesh.cpp:159-498 | each mutator's effect on an unshared body, as a reader sees it element by element |
| SharedMeshes.SimpleMesh.Copy | 3escore/shapes/SimpleMesh.cpp:99-103 | a copy shares the body and counts as an owner |
| SharedMeshes.SimpleMesh.CopyOnWrite | 3escore/shapes/SimpleMesh.cpp:522-529 | the handle ends as the only owner of an equal body; a shared body is left as it was |
| SharedMeshes.SimpleMesh.Mutate | 3escore/shapes/SimpleMesh.cpp:109-498 | the handle shows the change; a body others share does not |
| SharedMeshes.AfterHappened | 3escore/shapes/SimpleMesh.cpp:99-530 | an operation concerns the handle it names and no other: a new handle is empty, a copy equal, a changed one as seen after the mutator |
| SharedMeshes.RunFamily | 3escore/shapes/SimpleMesh.cpp:99-530 | after any series of creations, copies, changes and deletions each handle shows what deep copies would, the last operation as a reader sees it |
| MeshTransfers.FirstPhaseHasSomething | 3escore/shapes/MeshResource.cpp:366-418 | the next phase has something to send, or is the last |
| MeshTransfers.SkippedAreEmpty | 3escore/shapes/MeshResource.cpp:366-418 | phases passed over have nothing to send |
| MeshTransfers.NextPhase | 3escore/shapes/MeshResource.cpp:366-418 | the falling-through switch finds the first phase with something to send |
| MeshTransfers.Transfer | 3escore/shapes/MeshResource.cpp:110-268 | status, progress and message of one call; a slice is the next part of its stream and as long as is allowed, and the final message asks for normals if there are none |
| MeshTransfers.UnknownPhaseFails | 3escore/shapes/MeshResource.cpp:242-268 | progress of a phase that no stream has counts as failed |
| MeshTransfers.PacketShape | 3escore/shapes/MeshResource.cpp:248-265 | a data packet carries the next elements of its phase, at least one |
| MeshTransfers.CreateIsExpected | 3escore/shapes/SimpleMesh.cpp:532-549 | after the create message a receiver has zeroes of the right number |
| MeshTransfers.PacketIsExpected | 3escore/shapes/SimpleMesh.cpp:552-652 | each packet brings a receiver from what was sent before to what was sent now; it writes past the end exactly for texture coordinates behind normals |
| MeshTransfers.UvExample | 3escore/shapes/SimpleMesh.cpp:636-652 | a vertex with a normal and texture coordinates makes it do so |
| MeshTransfers.TransferSoFar | 3escore/shapes/MeshResource.cpp:110-268 | at any moment: contiguous slices so far, all in place at the receiver |
| MeshTransfers.TransferRebuildsMesh | 3escore/shapes/MeshResource.cpp:110-418 | a complete transfer sends each element once, in order, then one final message; the receiver's mesh is equal exactly if there are no texture coordinates, and in all else always |
| MeshTransfers.CountExceeds | 3escore/DataBuffer.inl:317-329 | when the estimated count is none or takes more than a space, for elements of any size |
| MeshTransfers.WrittenExactly | 3escore/DataBuffer.inl:425-483 | for every element size, limit, room and rest of a stream: nothing is written exactly if no element fits or the count was estimated without the slice header |
| MeshTransfers.WritesMost | 3escore/DataBuffer.inl:317-329 | what is written fits with its slice header, and is all that is left, or as much as a filled packet and the limit hold |
| MeshTransfers.FailsExactly | 3escore/DataBuffer.inl:425-483 | so a call of `transfer` fails exactly then, for packet buffers of every size |
| MeshTransfers.LargeRoom | 3escore/Server.h:65-75 | in buffers with room for as many whole elements as 65254 bytes hold, only limits of up to one element beside the slice header are a cause |
| MeshTransfers.LargeRoomFits | 3escore/Server.h:65-75 | every stream of every mesh fits buffers of the default size |
| MeshTransfers.SmallBufferExample | 3escore/Server.h:65-75 | in a buffer of 4094 bytes a larger mesh fails without a limit |
| MeshTransfers.CallGetsOn | 3escore/shapes/MeshResource.cpp:248-265 | every successful call leaves less to send |
| MeshTransfers.MeshesComplete | 3escore/shapes/MeshResource.cpp:110-268 | meshes finish, in buffers of every size, as ending runs of a connection ask of resources |
| MeshTransfers.MeshesNeverFail | 3escore/shapes/MeshResource.cpp:110-268 | they never fail without a byte limit exactly if each of their streams fits |
| MeshTransfers.SendMesh | 3escore/shapes/MeshResource.cpp:286-363 | the receiver's mesh equals the sender's when complete, but for texture coordinates, and is the part sent so far before |
| MeshDelivery.DoneIsRebuilt | 3escore/shapes/MeshResource.cpp:110-418 | on any wire a receiver holds nothing of a key that is absent, and the whole mesh, but for texture coordinates, of one that is done |
| MeshDelivery.DeliverMeshes | 3escore/BaseConnection.cpp:274-509 | any operations, then an update without a limit: receivers that got only messages they have a use for hold the referenced meshes and no others, rebuilt but for failed ones; without limits, and with streams that fit, always |
| ShapeData.LocateFits | 3escore/shapes/MeshShape.cpp:298-305 | a progress marker inside all streams falls inside one of them |
| ShapeData.SliceAdds | 3escore/shapes/MeshShape.cpp:393-437 | the next slice makes what the receiver has that much longer |
| ShapeData.WriteMeshData | 3escore/shapes/MeshShape.cpp:275-363 | the loop finds the phase of the marker and one slice of it is written, as long as is allowed, whatever the sizes of the elements of each stream |
| ShapeData.SendMeshShapeData | 3escore/BaseConnection.cpp:396-430 | for streams with elements of any sizes: succeeds exactly if each stream fits the packet buffer; slices as long as is allowed partition all streams in order, one end message ends them, the receiver gets the same streams |
| ShapeData.LargeRoomIsEnough | 3escore/Server.h:65-75 | as they all do in buffers with room for as many whole elements as 65254 bytes hold |
| ShapeData.CreateAnnounces | 3escore/shapes/MultiShape.cpp:18-42 | the create message of a set announces all shapes and holds the first of them, up to its limit |
| ShapeData.NextBlock | 3escore/shapes/MultiShape.cpp:64-91 | a data message carries the next shapes, at most as many as the limit, and says whether more follow |
| ShapeData.WriteMultiData | 3escore/shapes/MultiShape.cpp:45-92 | status, marker and block of one call |
| ShapeData.SendMultiShapeData | 3escore/BaseConnection.cpp:396-430 | create message and full blocks carry every shape once, in order, exactly for sets above the block limit and the empty set; it fails exactly if a block does not fit |
| ShapeData.AgreeingBlocksFit | 3escore/shapes/MultiShape.cpp:45-92 | blocks fit buffers of the default size if no shape needs more precision than the set |
| MeshSets.WriteFields | 3escore/Messages.h:538-559 | all numbers are written in network order exactly if all fit |
| MeshSets.CreateStands | 3escore/shapes/MeshSet.cpp:57-112 | id at 0, category at 4, flags at 6, a reserved number at 8, colour at 10 and ten numbers behind it; then the number of parts, and each part at its place with resource id, colour and numbers |
| MeshSets.WriteCreate | 3escore/shapes/MeshSet.cpp:57-112 | throws exactly for more than 65535 parts behind a head that fits, in a build with exceptions; otherwise succeeds exactly if what it looks at fits; and what is then written, number by number at its offset |
| MeshSets.WireTells | 3escore/Messages.h:489-510 | numbers of known widths can be told from their bytes |
| MeshSets.ReadAttributes | 3escore/Messages.h:489-510 | attributes of the precision that the flags say are read if the payload goes on with some, and are those |
| MeshSets.ReadCreate | 3escore/shapes/MeshSet.cpp:115-152 | succeeds on a payload exactly if it starts with what is written of some set, and restores that set: each number is the one at its offset |
| MeshSets.CreateRoundTrip | 3escore/shapes/MeshSet.cpp:57-152 | reading restores what was written exactly if the parts can be counted, and there is one or room for their number, in both builds and both precisions |
| MeshSets.EmptySetExample | 3escore/shapes/MeshSet.cpp:57-112 | the empty set in a packet with room for the head and one byte is said to be written and is not restored |
| RecordingSearch.TryMarker | 3escore/StreamUtil.cpp:48-85 | an attempt finds the marker if it is there and otherwise skips none |
| RecordingSearch.FindPacketMarker | 3escore/StreamUtil.cpp:30-89 | what the attempts come to: the place of a marker, or none |
| RecordingSearch.SeekIsFirst | 3escore/StreamUtil.cpp:30-89 | that place is the first marker from here on; none only if none begins within the limit |
| RecordingSearch.GetPacketInfo | 3escore/StreamUtil.cpp:91-109 | position, ids and CRC flag of the header here |
| RecordingSearch.FindInfoMessagePositions | 3escore/StreamUtil.cpp:111-154 | in any recording it finds what up to five turns come to, each from the first marker to sixteen bytes behind it; the first header of each kind is kept |
| RecordingSearch.SearchIsNoted | 3escore/StreamUtil.cpp:111-154 | whatever is found is a header of its kind behind a marker |
| RecordingSearch.BothAreFound | 3escore/StreamUtil.cpp:111-154 | the frame count packet behind the server information packet is found exactly if turns inside the latter lead to its end; the server information packet always is |
| RecordingSearch.TurnsAreEnough | 3escore/StreamUtil.cpp:111-154 | four turns lead to the end of a server information packet if any number does |
| StreamUtil.Compose | 3escore/StreamUtil.cpp:195-207 | a packet that readers accept, with or without CRC as asked |
| StreamUtil.InitialiseStream | 3escore/StreamUtil.cpp:271-315 | the server information packet, if there is information, and a frame count packet of zero, both accepted by readers |
| StreamUtil.InitialisedIsFound | 3escore/StreamUtil.cpp:111-154 | whatever follows, the frame count packet of such a recording is found in its place exactly if no marker inside the server information does harm |
| StreamUtil.FalseHeaderExample | 3escore/StreamUtil.cpp:111-154 | a marker that a time unit spells does harm exactly if the default frame time spells the ids of a frame count packet |
| StreamUtil.LedAstray | 3escore/StreamUtil.cpp:318-353 | otherwise the frame count is not in its place afterwards |
| StreamUtil.WriteOver | 3escore/StreamUtil.cpp:229-268 | only the bytes at the position found change |
| StreamUtil.FinaliseStream | 3escore/StreamUtil.cpp:318-353 | in any recording just the headers that the search finds are written over, by packets of their kind; in one that can be finalised these are the two, keep their sizes and are accepted; the frame count packet carries the count; the position is restored |
| StreamUtil.FinalisedExactly | 3escore/StreamUtil.cpp:271-353 | what was initialised is finalised as it should be if no marker does harm and new information has old to replace; exactly then for a frame count other than zero, which is that of the placeholder |
| StreamUtil.Record | 3escore/StreamUtil.cpp:271-353 | so from `initialiseStream` over anything written to `finaliseStream` |
| StreamUtil.OthersStillParse | 3escore/StreamUtil.cpp:318-353 | what a finalised recording of packets leaves cuts into the two new packets and all others as before |

## Left out

- zlib: the compressed branches of collation and decoding; the decoder is that of a build without it, which refuses compressed packets.
- Sockets, Qt, files, timing and logging: the wire is a byte string that can be written without failure, and a stream is a byte string with a position.
- Floating point: vertices, normals and real numbers in messages are bit patterns; a draw scale is a real number. Conversion between precisions and quantised writing are not modelled: the numbers of a mesh set in single precision are such from the start.
- Exceptions: that of `int_cast` in `MeshSet::writeCreate` is an outcome; no other exception is part of this model.
- `DataBuffer`: only how many elements `write` takes (`3escore/DataBuffer.inl:409-484`) and that `read` returns them; mesh and shape messages are values, not bytes.
- `PacketBuffer` and `BaseConnection::send(const CollatedPacket &)`: not part of this model.
- `sendServerInfo`: it writes past pending collated packets, so it is assumed to come before other traffic.
- `PacketStream::seek`, `setRoutingId` and the writer over an existing packet: not part of this model.
- `SimpleMesh::clearData` and colours given as bytes: not part of this model. What `processUVs` writes past the end of its vector is dropped here.
- `MeshShape::writeUpdate`, quantised mesh shapes, which `writePacked` sends, `MutableMesh` and `PointCloud`: not part of this model.
- `queueResources` and `checkResources`: creating and destroying shapes appear as the references and releases they make. `checkResources`, which only warns, looks at the table without the resource lock; the steps of `create` do not show that look.
- The fields of a mesh body are grouped in one record, and its mutators in one operation that copies on write and then edits the body.
- Collating.CollatedPacket.Add: when the program copies past the end of its buffer, that is what is said, and nothing of the collation afterwards.
- Transport.Receive: frame boundaries, pauses, looping and keyframes, which interrupt the loop, and what `processPacket` does with a packet; byte streams that are not packets from end to end.
- PacketWriting.PacketWriter.Finalise: of a packet whose size sixteen bits cannot tell, nothing is said but that it lies within the buffer.
- Decoding.CollatedPacketDecoder.Next: the bytes behind a packet pointer are taken to be there, as the program takes them to be.
- ResourceTransfers.ResourceConnection.UpdateTransfers: reference counts do not wrap around at 32 bits.
- Concurrency.OperationDoes: what an operation sends depends on the state it finds, so every list of packets it could send is admitted, which is more than the program does. The resource table is interleaved in `ResourceInterleaving`, without the packet and send locks, which only rule schedules out.
- MeshTransfers.TransferRebuildsMesh: the receiver's draw scale is that of the sender only if it is positive, which is when it is sent.
