# TETRA base station: verified models

A Dafny model of the parts of the TETRA (ETSI EN 300 392-2) base-station stack where a wrong bit or a wrong
interleaving is hard to see: channel coding, the LLC link, the byte and message transports, and the stateful upper
layers. Every statement holds for all inputs, all runs or all reachable states; `dafny verify dfyconfig.toml` checks
all of it.

| part | modules |
|---|---|
| bits, words, byte buffers | `Bits`, `WordFields`, `Errno`, `Wrappers` |
| channel coding | `Crc`, `CrcResidues`, `CrcRegisters`, `Trellis`, `Viterbi`, `SoftViterbi`, `SoftOptimality`, `Rcpc`, `CodeDistance`, `Interleaver`, `Scrambler`, `SchF` |
| bit cursor and LLC PDU codec | `BitBuffer`, `LlcPdu`, `LlcPduReader`, `LlcPduLaws`, `LlcErrors` |
| LLC entity and link | `LlcEndpoint`, `LlcEntity`, `LlcUpward`, `LlcTable`, `LlcLink`, `LlcRefinement`, `LlcRecovery` |
| shared-memory ring | `Frames`, `ByteRing`, `RingProtocol`, `RingDelivery` |
| DMA framing | `Reassembly`, `DmaReceive`, `DmaChannel`, `DmaSender` |
| message bus | `MsgBus`, `MsgBusLaws`, `MessageBus` |
| CMCE calls | `CallFsm`, `CallTable`, `Cmce` |
| MM accept and MLE discriminator | `BitWriter`, `MmAccept`, `MmAcceptLaws`, `MmAcceptReader`, `MleDisc` |
| subscriber database | `Profiles`, `DbJson`, `DbFile`, `SubscriberDb` |

Objects the program updates in place are classes whose methods are proved against a value (`View`, `Contents`); the
theorems about runs are lemmas about those values. Fields called history (`sent`, `pushed`, `accepted`, `log`, ...)
record the past and are never read by a modelled step.

Results of system calls and of calls into other components are parameters: whether the bus takes a message, how many
bytes a read or write moves, when a poll times out, what a message handler posts, whether a frame is lost or
duplicated. Null pointers are not modelled; a pointer with a length is a sequence at least that long, except for the
message payload, where the missing pointer is handled by the code and modelled. Counters that cannot reach their
width in a modelled run are naturals; the ring's 32-bit counters wrap.

Where the code and its own comments differ, the model follows the code:

* `sw/llc/llc_pdu.c:47-49` says the receiver's residue test holds for the order the checksum is sent in. It is written
  high bit first, so the test holds exactly for palindromic checksums (`LlcPduLaws.ResidueTestIffPalindrome`) and fails
  for the shortest acknowledgement (`LlcPduLaws.ShortAckFailsResidueTest`).
* For the same reason a frame as sent is no codeword of the cyclic code: an error passes the receiver's checksum test
  exactly when the error on the checksum is the syndrome of the error before it (`LlcErrors.ErrorPassesIff`). Bursts of
  up to 32 bits on one side of the boundary are found (`LlcErrors.BurstIsDetected`), but one of 28 bits across it
  passes in every frame with anything after the type (`LlcErrors.BoundaryBurstPasses`).
* `sw/llc/llc.c:237-239` speaks of retransmission; nothing resends `last_sent`, so a lost frame blocks its sender for
  good (`LlcRecovery.FreedIffCopyUnderWay`, `LlcRecovery.OneLossBlocks`).
* `sw/cmce/cmce_fsm.c:39-42` says a U-SETUP for an existing call is ignored; it puts the call back to set-up, so the
  call stays in its state exactly when it was still in set-up (`CallTable.SetupIgnoredIffPending`), and a granted
  channel can be lost (`CallTable.SetupResetsGrantedCall`).
* `scripts/decode_dl.py:231` replaces a zero scrambler seed, `scripts/ref_sch_f_encode.py:62` does not; the two agree
  exactly for nonzero seeds or blocks of fewer than two bits (`Scrambler.DescrambleUndoesIffSeeded`).
* `sw/core/src/msgbus.c:146-148` copies nothing when a length comes without a pointer; handlers then see the slot's old
  bytes (`MsgBusLaws.PostShowsPayloadIff`).
* `sw/dma_io/include/tetra/dma_io.h:169-172` says that receiving returns a positive length on success, and 0 only when
  there was no data. A frame with an empty payload, which the sender accepts, is taken and also gives 0
  (`DmaReceive.EmptyFrameLooksLikeTimeout`); 0 can be trusted exactly when the bytes held and coming do not begin
  with such a frame (`DmaReceive.ZeroIsTruthfulIff`).
* `sw/dma_io/include/tetra/dma_io.h:172-173` promises `-EBADMSG` when the pipe ends inside a frame; whatever part of a
  frame is held or still in the pipe, the call returns 0 and loses nothing (`DmaReceive.CutShortLooksLikeTimeout`), and
  `-EBADMSG` can come back exactly when a bad header comes next (`DmaReceive.BadMessageIff`).
* `sw/mm/mm_accept_builder.c:106-115` writes the low two bits of a group's address type but tests the whole byte for
  the addresses; the accept can be read back exactly when no type is above 3 (`MmAcceptReader.AcceptIsReadIff`).
* `sw/persistence/src/db.c:51-65` masks the narrow fields of a profile and `db_put_profile` does not check them, so
  saving and loading silently truncates; a database comes back unchanged exactly when these fields are in range
  (`Profiles.UnpackUndoesPackIff`, `DbJson.ComesBackUnchangedIff`).
* `sw/persistence/src/db.c:290` casts the packed profile to `int`; a call duration of 128 s or more makes the saved
  file unloadable (`DbJson.LoadUndoesDump`, `DbJson.LongCallsCannotBeReloaded`).

## Model

| member | source | states |
|---|---|---|
| `Crc.AcceptsIffChecksum` | scripts/decode_dl.py:548-555 | for every generator with last tap set, every message and every tail: the residue test accepts exactly when the tail is the complemented register, i.e. the checksum |
| `Crc.BurstIsRejected` | scripts/decode_dl.py:548-555 | an accepted frame with any nonzero error confined to a register's width is never accepted |
| `CrcRegisters.Crc16Ccitt` | scripts/ref_sch_f_encode.py:22-28 | the left-shifting loop computes the checksum of the list register |
| `CrcRegisters.Crc16CheckDll` | scripts/decode_dl.py:548-555 | the reflected right-shifting loop accepts exactly the frames of the same list register |
| `CrcRegisters.Crc32CheckLlc` | scripts/decode_dl.py:263-271 | likewise for the LLC checksum |
| `CrcRegisters.Crc16AcceptsIffChecksum` | scripts/decode_dl.py:548-555 | encoder and decoder agree: m + t passes iff t is the encoder's checksum of m |
| `CrcRegisters.Crc16RejectsBursts` | scripts/decode_dl.py:548-555 | no codeword survives a nonzero error within 16 consecutive bits |
| `Trellis.MetricIsLowerBound` | scripts/decode_dl.py:385-423 | a state's metric never exceeds the cost of any path into it that stays below the sentinel |
| `Trellis.TraceAchievesMetric` | scripts/decode_dl.py:385-423 | tracing back from a reachable state yields a path into it whose cost is its metric |
| `Trellis.TraceIsOptimal` | scripts/decode_dl.py:385-423 | hence the traced path is cheapest among all inputs ending in state 0 |
| `Viterbi.Decode` | scripts/decode_dl.py:385-423 | the nested loops over states and inputs compute exactly that trace for every hard or erased input |
| `Viterbi.DecodeIsOptimal` | scripts/decode_dl.py:385-423 | for every block shorter than the sentinel the decoder's output ends in state 0, and no other input that does is closer to what was received |
| `Viterbi.OutIsParity` | scripts/decode_dl.py:397-411 | the four mother-code bits of the trellis are the parities of what the four generators select from the register |
| `SoftViterbi.SoftTraceIsHardTrace` | scripts/decode_dl.py:481-521 | on +1/-1/0 inputs the maximising decoder makes the same choice, ties included, at every state |
| `SoftViterbi.Decode` | scripts/decode_dl.py:481-521 | the soft loops compute the soft trace, the one that the next two rows characterise |
| `SoftViterbi.DecodeBoth` | scripts/decode_dl.py:481-521 | both decoders return the same bits on every hard-decided block |
| `SoftOptimality.SoftDecodeIsOptimal` | scripts/decode_dl.py:481-521 | for all real inputs whose magnitudes sum to less than the sentinel, what the soft loops compute ends in state 0 and has the greatest correlation with the input among all inputs that do |
| `Rcpc.Encode` | scripts/ref_sch_f_encode.py:31-48 | the shift-register loop emits the punctured code word of the decoder's integer-state trellis |
| `Rcpc.Depuncture` | scripts/decode_dl.py:362-374 | mother positions 1, 2 and 5 of every eight carry symbols, the rest are erasures |
| `Rcpc.DistanceIsErrors` | scripts/decode_dl.py:362-423 | the cost the decoder minimises is the number of received symbols that disagree with the code word |
| `CodeDistance.MinimumDistance` | scripts/ref_sch_f_encode.py:31-48 | different inputs of one length ending in the same state send words at least 4 apart |
| `CodeDistance.DistanceIsAttained` | scripts/ref_sch_f_encode.py:31-48 | every input of six or more bits has another one ending in the same state whose word is exactly 4 away |
| `CodeDistance.DecodeCorrects` | scripts/decode_dl.py:385-442 | e errors and f erasures with 2e + f < 4 are corrected, for every block length |
| `CodeDistance.FourErasuresConfuse` | scripts/decode_dl.py:385-442 | the bound is the limit: in every terminated block some four erasures leave a word that a second terminated input explains without error |
| `Interleaver.PermInjective` | scripts/decode_dl.py:349-355 | with an invertible step the interleaver permutes the block |
| `Interleaver.Deinterleave` | scripts/decode_dl.py:349-355 | the loop reads the block through the permutation |
| `Interleaver.InterleaveA103` | scripts/ref_sch_f_encode.py:51-57 | the encoder's loop writes the one block that the decoder reads back |
| `Interleaver.DeinterleavedErrors` | scripts/decode_dl.py:349-355 | for every invertible step, deinterleaving keeps the number of errors and of erasures |
| `Scrambler.Scramble` | scripts/ref_sch_f_encode.py:60-70 | the shifting loop xors the key stream of the feedback register |
| `Scrambler.ScramblerSeq` | scripts/decode_dl.py:229-243 | the decoder's loop produces the same key stream, from the replaced seed when it is 0 |
| `Scrambler.KeyRecurrence` | scripts/decode_dl.py:229-243 | each key bit from the 33rd on is the sum of the earlier ones that the connection polynomial names |
| `Scrambler.DescrambleUndoesIffSeeded` | scripts/decode_dl.py:229-243 | descrambling undoes scrambling iff the seed is nonzero or the block has fewer than two bits |
| `SchF.SchFEncode` | scripts/ref_sch_f_encode.py:73-79 | the composition sends the scrambled, interleaved code word of message, checksum and tail |
| `SchF.DecodeChannel` | scripts/decode_dl.py:426-442 | for every block geometry with invertible step, any block within 2e + f < 4 of a message's block decodes to it with a good CRC |
| `SchF.Receive` | scripts/decode_dl.py:229-243 | for every nonzero seed, whatever differs in at most one bit from an encoded block gives back its message and crc_ok |
| `SchF.RoundTrip` | scripts/ref_sch_f_encode.py:73-79 | every 268-bit message survives encoding, one flipped on-air bit and decoding |
| `BitBuffer.BitBuffer.ReadAt` | sw/core/src/bitbuffer.c:34-73 | head, whole bytes and tail together read the value of the bit slice at any offset and width |
| `BitBuffer.BitBuffer.WriteAt` | sw/core/src/bitbuffer.c:75-115 | they replace exactly that slice and no other bit of the buffer |
| `BitBuffer.BitBuffer.PutBits` | sw/core/src/bitbuffer.c:155-179 | the cursor after a put: bits, position, end and mode, under the asserted demands |
| `BitBuffer.BitBuffer.GetBits` | sw/core/src/bitbuffer.c:181-197 | returns and consumes the next bits, or 0 without moving on underrun |
| `BitBuffer.ReadAfterWrite` | sw/core/src/bitbuffer.c:34-115 | a read where a value was written returns it; a read that does not overlap is unaffected |
| `LlcPdu.LlcCrc32` | sw/llc/llc_pdu.c:56-79 | the loop over packed bytes computes the checksum word of their bit string |
| `LlcPdu.WindowCrc` | sw/llc/llc_pdu.c:89-111 | the same over any window of a bit buffer |
| `LlcPdu.PutBody` | sw/llc/llc_pdu.c:114-133 | writes exactly the first len bits of the body |
| `LlcPdu.Encode` | sw/llc/llc_pdu.c:175-220 | refuses exactly the invalid PDUs without touching the buffer, otherwise writes the PDU's bits and returns their number |
| `LlcPduLaws.LayoutOf` | sw/llc/llc_pdu.c:175-220 | the bits sent for each of the nine types: which control bits, body, and checksum |
| `LlcPduReader.GetBody` | sw/llc/llc_pdu.c:136-158 | the body array after reading: the bits, zero padding to the byte, old bytes after that |
| `LlcPduReader.Decode` | sw/llc/llc_pdu.c:232-298 | every return code, partial result and cursor position, for every input |
| `LlcPduLaws.DecodeUndoesEncode` | sw/llc/llc_pdu.c:175-298 | for every valid PDU of every type and length: same type, control bits and body, the frame consumed exactly, checksum valid iff the type has one |
| `LlcPduLaws.EncodeUndoesDecode` | sw/llc/llc_pdu.c:175-298 | conversely, encoding whatever was decoded with a good checksum gives back exactly the bits consumed, so no two accepted frames decode alike |
| `LlcPduLaws.DecodeSucceedsIff` | sw/llc/llc_pdu.c:232-298 | decoding succeeds iff the length is admissible, the type known and all bits of the frame are there |
| `LlcPduLaws.FailureIs` | sw/llc/llc_pdu.c:232-298 | what every failing decode returns and where it leaves the cursor, in numbers |
| `LlcErrors.ErrorPassesIff` | sw/llc/llc_pdu.c:277-295 | for every frame with a checksum and every error after the type, on covered bits and checksum: decoding succeeds, and fcs_valid is true iff the error on the checksum is the syndrome of the error on the covered bits |
| `LlcErrors.BurstIsDetected` | sw/llc/llc_pdu.c:277-295 | any nonzero error within 32 consecutive bits after the type that does not cross from covered bits to checksum gives fcs_valid false |
| `LlcErrors.BoundaryBurstPasses` | sw/llc/llc_pdu.c:210-216 | in every frame with a checksum and anything after the type, one burst of 28 bits across the boundary gives fcs_valid true |
| `LlcPduLaws.Crc32AcceptsIffChecksum` | scripts/decode_dl.py:263-271 | the script's test accepts m + t iff t is the checksum word low bit first |
| `LlcPduLaws.ResidueTestIffPalindrome` | sw/llc/llc_pdu.c:212-216 | an encoded frame passes the script's test iff its checksum is a palindrome |
| `LlcPduLaws.ShortAckFailsResidueTest` | sw/llc/llc_pdu.c:47-49 | the acknowledgement with checksum, NR = 1 and no body does not pass |
| `LlcEndpoint.DataPduBits` | sw/llc/llc.c:381-392 | the frame built by the data sender is type, NS and exactly the caller's body bits |
| `LlcEndpoint.DataIsUnderstood` | sw/llc/llc.c:243-310 | the handler recovers sequence bit and body from every data frame |
| `LlcEndpoint.AckIsUnderstood` | sw/llc/llc.c:243-310 | and the number from every acknowledgement |
| `LlcEndpoint.ClassifyUndoesEncode` | sw/llc/llc.c:243-309 | every PDU the encoder makes passes the handler's checks and is read back |
| `LlcEndpoint.ClassifyRefuses` | sw/llc/llc.c:243-309 | which SDUs are refused and with which code: by length, type, room for the body and checksum, in numbers |
| `LlcEntity.Llc.Lookup` | sw/llc/llc.c:31-69 | the eight slots behave as one state per identifier, a new one being fresh; refused iff unknown and full |
| `LlcEntity.Llc.SendBlData` | sw/llc/llc.c:365-420 | which of -EINVAL, -ENOSPC, -EBUSY or the bus's answer is returned, the posted bits, the new endpoint state, and no other endpoint changed |
| `LlcEntity.Llc.SendBlAck` | sw/llc/llc.c:425-464 | posts the acknowledgement of the endpoint's expected number and leaves all states alone |
| `LlcEntity.ClassifySdu` | sw/llc/llc.c:243-309 | length, type, overhead and checksum checks classify every SDU |
| `LlcEntity.Llc.HandleUnitdataInd` | sw/llc/llc.c:243-360 | the complete effect of the receive handler on table, both queues and statistics |
| `LlcUpward.PostedUpIff` | sw/llc/llc.c:317-357 | an SDU for a served endpoint is posted up iff it is data with the expected number or neither data nor acknowledgement |
| `LlcUpward.DataGoesUpIff` | sw/llc/llc.c:317-329 | of a data frame, exactly its body goes up iff its number is the expected one |
| `LlcUpward.AckStays` | sw/llc/llc.c:335-345 | an acknowledgement posts nothing up |
| `LlcUpward.CountsOf` | sw/llc/llc.c:243-360 | return code and all four counters by what the SDU is |
| `LlcUpward.UpIsTheSequence` | sw/llc/llc.c:243-360 | over every run, the data posted up for an endpoint are exactly the bodies that continue its sequence, in order |
| `LlcTable.FirstEightForEver` | sw/llc/llc.c:31-69 | in every run of operations, once eight identifiers have had a slot they are served, and every other one refused, for ever after |
| `LlcLink.StepKeeps` | sw/llc/llc.c:317-345 | every send, delivery, loss and duplication keeps the two-way link invariant |
| `LlcLink.EveryRunDeliversInOrder` | sw/llc/llc.c:317-420 | in every run and both directions, bodies accepted are a prefix of bodies sent, at most one behind, and all of them when the sender is not waiting |
| `LlcLink.LosslessRunDelivers` | sw/llc/llc.c:317-420 | if nothing is lost, any number of bodies reaches the peer, complete and in order |
| `LlcLink.DuplicateThenLose` | sw/llc/llc.c:243-360 | a duplication adds one packet in flight, equal to its original, and losing either undoes it |
| `LlcLink.LastSentIsOutstanding` | sw/llc/llc.c:405-418 | in every run an endpoint that waits keeps the PDU of the outstanding frame, and the count of retransmissions stays 0 |
| `LlcRefinement.SendIsLinkSend` | sw/llc/llc.c:365-420 | the entity's data sender does to its endpoint and sends to the peer what the link's Send does |
| `LlcRefinement.HandlerIsLinkDeliver` | sw/llc/llc.c:243-360 | the entity's handler does what the link's Deliver does, and posts up what the link counts as accepted |
| `LlcRecovery.StuckForever` | sw/llc/llc.c:336-345 | without a copy or acknowledgement in flight, no run ever frees the sender |
| `LlcRecovery.FreedIffCopyUnderWay` | sw/llc/llc.c:336-345 | a waiting sender can be freed iff data with the sequence bit it last sent, or an acknowledgement with the other bit, is in flight, as the handler reads the bits |
| `LlcRecovery.OneLossBlocks` | sw/llc/llc.c:412-419 | the first frame, once lost, blocks its sender in every continuation |
| `Frames.HeaderRoundTrip` | tb/cosim/shm_dma_bridge.c:67-81 | loading the stored big-endian header words gives them back |
| `ByteRing.UsedIsDifference` | tb/cosim/shm_dma_bridge.c:126-141 | the wrapped 32-bit difference is the true number of bytes held |
| `ByteRing.Ring.Free` | tb/cosim/shm_dma_bridge.c:138-141 | capacity less the bytes held |
| `ByteRing.Ring.Push` | tb/cosim/shm_dma_bridge.c:146-160 | the two-piece copy appends to the queue of bytes, through wrap of buffer and counters |
| `ByteRing.Ring.Pop` | tb/cosim/shm_dma_bridge.c:164-178 | removes and returns the oldest bytes |
| `ByteRing.Ring.Peek` | tb/cosim/shm_dma_bridge.c:183-196 | returns any slice of the held bytes without removing it |
| `RingProtocol.EveryRun` | tb/cosim/shm_dma_bridge.c:319-436 | the invariant of producer and consumer holds after every interleaving of byte-level steps |
| `RingProtocol.RingIsSafe` | tb/cosim/shm_dma_bridge.c:319-410 | used bytes never exceed capacity, frames received are a prefix of frames sent, the desync branch is unreachable |
| `RingProtocol.NoLostWakeup` | tb/cosim/shm_dma_bridge.c:343-352 | a consumer asleep over 8 or more bytes always has the producer before its waiter check or about to wake it |
| `RingProtocol.WakeArrives` | tb/cosim/shm_dma_bridge.c:422-434 | from such a state the producer alone wakes it within its remaining steps |
| `RingDelivery.EveryFrameArrives` | tb/cosim/shm_dma_bridge.c:364-436 | after every run that leaves the producer between frames or waiting for room, the consumer alone receives all frames sent, when they fit its buffer, each within a bounded number of its steps |
| `RingDelivery.TooLargeStays` | tb/cosim/shm_dma_bridge.c:400-401 | a frame too large for the caller's buffer is neither handed out nor removed, however often it is asked for |
| `RingDelivery.RoomIsSeen` | tb/cosim/shm_dma_bridge.c:343-345 | in every reachable state a waiting producer goes ahead iff header and payload fit what is free |
| `RingDelivery.NothingIsWedged` | tb/cosim/shm_dma_bridge.c:319-436 | from every reachable state, whatever the producer was about to do, some steps of the consumer, the producer and the consumer deliver everything sent and the frame begun |
| `RingDelivery.AnyFrameGetsThrough` | tb/cosim/shm_dma_bridge.c:319-436 | any frame handed to an idle producer in any reachable state gets through |
| `RingDelivery.GivingUpLeavesNoTrace` | tb/cosim/shm_dma_bridge.c:343-357 | a producer that gives up waiting for room leaves the state as before its call |
| `RingDelivery.EmptyRingSleeps` | tb/cosim/shm_dma_bridge.c:412-434 | a receiver that finds less than a header returns if it may not wait, and otherwise sets the waiter word and sleeps |
| `RingDelivery.SleeperStays` | tb/cosim/shm_dma_bridge.c:420-434 | a sleeper that nobody wakes stays asleep; giving up, it takes its announcement back |
| `RingDelivery.DesyncDrains` | tb/cosim/shm_dma_bridge.c:390-398 | a receiver that meets an impossible length drains the ring and delivers nothing |
| `RingDelivery.WaiterMeansWaiting` | tb/cosim/shm_dma_bridge.c:420-434 | in every run the waiter word is set only between a receiver's announcement and its taking it back |
| `Reassembly.ChunksDoNotMatter` | sw/dma_io/dma_io.c:512-563 | events and leftover of a stream are the same however it is cut |
| `Reassembly.FullNeverNeedsMore` | sw/dma_io/dma_io.c:512-563 | a full staging buffer can always be advanced |
| `Reassembly.KnownTags` | sw/dma_io/dma_io.c:127-132 | four bytes are a known magic iff they spell TMAS, TMAR or TMDC |
| `Reassembly.TaggedFrame` | sw/dma_io/dma_io.c:105-125 | the bytes of a tag, the length high byte first and the payload are what is sent, and are taken as that payload |
| `Reassembly.FramesComeBack` | sw/dma_io/dma_io.c:409-469 | any sequence of sent frames is extracted exactly, nothing dropped, nothing left |
| `Reassembly.ResyncCost` | sw/dma_io/dma_io.c:520-527 | a garbage prefix without a known magic costs exactly its length in drops, then all frames are recovered |
| `Reassembly.DrainedHasEverything` | sw/dma_io/dma_io.c:484-563 | a drained channel has delivered exactly the frames after the garbage, whatever the reads were |
| `DmaChannel.Channel.ReadOne` | sw/dma_io/dma_io.c:484-502 | appends what the read returned, or returns the errno of a failing read and changes nothing; keeps the invariant: events logged and still held are those of all bytes read, and every byte is counted or held |
| `DmaChannel.Channel.TryExtract` | sw/dma_io/dma_io.c:512-563 | makes exactly one attempt of the stream parser, or refuses and keeps an oversized frame; same invariant |
| `DmaChannel.Channel.RecvFrame` | sw/dma_io/dma_io.c:565-651 | return value, payload, event, buffer and pipe afterwards are those of `DmaReceive.Receive`, for every sequence of poll answers; no byte is lost between pipe and buffer |
| `DmaReceive.ReceiveReassembles` | sw/dma_io/include/tetra/dma_io.h:176-179 | for every sequence of answers a call that may loop looks at all the reads offer before a failing call or a hang-up, however cut: if an event is complete in it, exactly that is handed out with its code, else the bytes stay and the first failure's errno, or 0, comes back |
| `DmaReceive.OneShotIsOneRound` | sw/dma_io/dma_io.c:626-644 | a call that may not loop does the same with the first round that is not an interruption |
| `DmaReceive.ReceiveReports` | sw/dma_io/include/tetra/dma_io.h:169-175 | at most one event per call; the value is positive exactly when a non-empty payload is delivered, and is its length; something taken with a negative value is a bad header and gives -EBADMSG; something taken with 0 is exactly an empty frame |
| `DmaReceive.EmptyFrameLooksLikeTimeout` | sw/dma_io/include/tetra/dma_io.h:169-172 | on the wire image of an empty frame the call takes the frame and returns what it returns when nothing arrives |
| `DmaReceive.ZeroIsTruthfulIff` | sw/dma_io/dma_io.c:565-651 | 0 means that nothing was taken, for all poll answers, iff the bytes held and coming do not begin with an empty frame |
| `DmaReceive.CutShortLooksLikeTimeout` | sw/dma_io/dma_io.c:565-648 | as long as the bytes held and in the pipe are no whole event, a call returns 0, takes nothing and loses no byte, whatever polls and reads answer short of failing |
| `DmaReceive.BadMessageIff` | sw/dma_io/dma_io.c:565-648 | short of failing system calls, -EBADMSG can come back iff the bytes held and coming begin with a bad header |
| `DmaSender.Sender.SendFrame` | sw/dma_io/dma_io.c:409-469 | return code and the exact prefix of the frame written, for every sequence of write results; an oversized payload writes nothing; counters move only on success |
| `DmaSender.FailureIsReported` | sw/dma_io/dma_io.c:409-469 | a write loop that fails returns the errno of a write that failed |
| `DmaSender.WriteLoopMeans` | sw/dma_io/dma_io.c:432-452 | a loop writes everything unless a write fails first, and then exactly what the writes before took |
| `DmaSender.SendingMeans` | sw/dma_io/dma_io.c:432-452 | a send returns 0 iff the whole frame is written, and otherwise the errno of the first write that failed |
| `MsgBus.PushKeeps` | sw/core/src/msgbus.c:135-157 | an accepted post appends exactly its item to the abstract queue and disturbs no slot in use |
| `MsgBus.ReleaseKeeps` | sw/core/src/msgbus.c:194-198 | releasing removes exactly the oldest item |
| `MsgBus.FanOutIntact` | sw/core/src/msgbus.c:172-193 | whatever handlers post or register during a fan-out, every matching handler, late ones included, is shown the head item unchanged |
| `MsgBusLaws.DispatchTakesOldest` | sw/core/src/msgbus.c:160-199 | dispatch serves the first non-empty priority, takes its oldest item and changes the queues otherwise only by new posts |
| `MsgBusLaws.CalledIffRegistered` | sw/core/src/msgbus.c:172-193 | a dispatch calls registration i iff it is active and for the oldest item's destination and access point, each once, in order, showing that item |
| `MsgBusLaws.AcceptedIsServedPlusPending` | sw/core/src/msgbus.c:117-219 | in every run, per priority, items accepted = items dispatched, in order, followed by items pending |
| `MsgBusLaws.PostShowsPayloadIff` | sw/core/src/msgbus.c:146-148 | what the queued item shows is fixed by the message, whatever the queue state, iff the pointer is set or the length is 0, and is then the sender's bytes |
| `MsgBusLaws.PostOutcome` | sw/core/src/msgbus.c:117-158 | a post adds its item behind all others iff priority, addresses and length are good and there is room; only for want of room is it counted as dropped; nothing else changes |
| `MsgBusLaws.PostCodeSays` | sw/core/src/msgbus.c:117-158 | each return code means one of these outcomes |
| `MsgBusLaws.PostKeepsMarks` | sw/core/src/msgbus.c:141-156 | a post keeps the in-use flags exactly on the slots of items accepted and not yet dispatched |
| `MsgBusLaws.ReleaseKeepsMarks` | sw/core/src/msgbus.c:194-198 | so does a release |
| `MsgBusLaws.RegisterOutcome` | sw/core/src/msgbus.c:90-115 | a handler is registered, active and last, iff its addresses are good and the list has room |
| `MessageBus.MessageBus.RegisterHandler` | sw/core/src/msgbus.c:90-115 | the registration array refines the value-level bus, with the return code |
| `MessageBus.MessageBus.PostMessage` | sw/core/src/msgbus.c:117-158 | posting into the arrays refines the value-level post |
| `MessageBus.MessageBus.DispatchOne` | sw/core/src/msgbus.c:160-199 | the loop with re-entrant handlers refines the value-level dispatch, handler calls included |
| `MessageBus.MessageBus.Pending` | sw/core/src/msgbus.c:209-219 | the three counts add up to the lengths of the abstract queues |
| `CallFsm.StateMeans` | sw/cmce/cmce_fsm.c:126-223 | each of the five states is characterised by the PDUs applied since allocation: not live, granted since a live Connect, linked, proceeding, or set-up |
| `CallFsm.GrantNeedsConnect` | sw/cmce/cmce_fsm.c:166-198 | a granted channel means a Connect since the last Setup |
| `CallFsm.DroppedIff` | sw/cmce/cmce_fsm.c:136-220 | a PDU is counted as out of place iff it leaves the state as it was, with the exceptions of Setup, Release and a repeated grant |
| `CallFsm.CountedOnce` | sw/cmce/cmce_fsm.c:136-220 | every PDU raises the counter of its kind or the drops, never both |
| `CallTable.EveryRun` | sw/cmce/cmce_fsm.c:59-223 | in every run of PDUs, transitions and direct allocations, slots in use have distinct identifiers, are never Idle and hold the state of their history |
| `CallTable.AllocatesIff` | sw/cmce/cmce_fsm.c:73-101 | a direct allocation opens the call iff it is unknown and a slot is free; a duplicate is a drop |
| `CallTable.FreesOne` | sw/cmce/cmce_fsm.c:103-112 | a release of a slot frees that one and leaves all other calls and the counters alone |
| `CallTable.RefusedIsDropped` | sw/cmce/cmce.c:171-187 | a refused upcall changes no call and is one drop |
| `CallTable.CountersCountEvents` | sw/cmce/cmce_fsm.c:126-223 | in no run are there more counts than events, a Release counting twice |
| `CallTable.ReleaseFreesTheCall` | sw/cmce/cmce.c:224-240 | a U-RELEASE for a known call leaves its slot free, whatever state it was in |
| `CallTable.SetupIgnoredIffPending` | sw/cmce/cmce_fsm.c:140-157 | a U-SETUP for a known call leaves its state alone iff it was in set-up; it always ends in set-up, counts as a set-up, and counts as a drop exactly when it was out of place |
| `CallTable.SetupResetsGrantedCall` | sw/cmce/cmce_fsm.c:39-42 | a run from the empty table in which a second U-SETUP takes a granted call back to set-up |
| `CallTable.SetupOpensUnlessFull` | sw/cmce/cmce.c:171-187 | an unknown call is opened iff the PDU is Setup and a slot is free, with the return code |
| `Cmce.Cmce.Lookup` | sw/cmce/cmce_fsm.c:59-71 | finds the first slot of the identifier |
| `Cmce.Cmce.Alloc` | sw/cmce/cmce_fsm.c:73-101 | takes the first free slot, refuses duplicates with a drop |
| `Cmce.Cmce.FsmApply` | sw/cmce/cmce_fsm.c:126-223 | slot, statistics and returned state of every transition |
| `Cmce.Cmce.HandleTleMsg` | sw/cmce/cmce.c:150-240 | the handler refines the table's step, posts the right answer and counts the PDUs received and sent |
| `Cmce.AnswersFitTheCall` | sw/cmce/cmce.c:189-240 | each answer goes back to its upcall's origin; a Setup is answered by the PDU that takes the call to Proceeding, a TxDemand by the other PDU that grants a connected call, a Release, which frees the slot, by a Release; nothing else is answered |
| `BitWriter.PatchFills` | sw/mm/mm_accept_builder.c:62-80 | patching a placeholder later is the same as having written the value at once |
| `BitWriter.PatchChanges` | sw/mm/mm_accept_builder.c:62-80 | a patch that fits changes its eleven bits and no other, one that does not is an overflow and changes none |
| `BitWriter.WBuf.Put` | sw/mm/mm_accept_builder.c:38-58 | overflow is sticky and set iff the bits written so far do not fit or the width exceeds 64; otherwise they stand in the buffer; no width is a no-op |
| `MmAccept.Build` | sw/mm/mm_accept_builder.c:194-257 | succeeds iff the bits fit, returns their number, and the buffer holds them followed by zeros |
| `MmAccept.PutGidList` | sw/mm/mm_accept_builder.c:120-141 | writes nothing for an empty list, else the list element with the length of what follows |
| `MmAccept.PutGila` | sw/mm/mm_accept_builder.c:154-174 | writes the group element around it, likewise |
| `MmAcceptLaws.NestedLengths` | sw/mm/mm_accept_builder.c:120-174 | both back-patched lengths delimit exactly the bits of their element |
| `MmAcceptLaws.NumbersOnAir` | sw/mm/mm_accept_builder.c:120-174 | the bits of the PDU type, of the m-bits and of the element numbers; an element takes 16 bits more than its payload |
| `MmAcceptLaws.ParserRecovers` | scripts/decode_dl.py:1162-1205 | the script's parser recovers accept type, energy-saving information, element identifier and length |
| `MmAcceptLaws.ParserReads` | scripts/decode_dl.py:1162-1205 | of any accept with any of the optional fields, whoever wrote it and whatever follows, the script reads each field, and of one without them nothing more |
| `MmAcceptLaws.CutShort` | scripts/decode_dl.py:1163-1169 | of fewer than four bits it reads the accept type if it is complete, and nothing else |
| `MmAcceptReader.AcceptIsReadIff` | sw/mm/mm_accept_builder.c:97-257 | a reader that follows the nested lengths recovers every parameter sent, group identities included, each modulo its field's width, and consumes exactly the accept, iff no group identity sent has an address type above 3 |
| `MleDisc.Prepend` | sw/mm/mm.c:34-65 | output is 001 followed by the body, or -ENOSPC and untouched |
| `MleDisc.Strip` | sw/mle/mle.c:143-178 | output is the body after the three discriminator bits, with every error code; the discriminator is given also when the rest does not fit |
| `MleDisc.StripUndoesPrepend` | sw/mle/mle.c:143-178 | stripping what was prepended gives discriminator MM and the same bits |
| `MleDisc.DiscBits` | sw/mm/mm.c:34-65 | the MM discriminator on the air is 001 |
| `Profiles.PackProfile` | sw/persistence/src/db.c:51-65 | the or-ed shifts give the documented bit layout |
| `Profiles.UnpackUndoesPackIff` | sw/persistence/src/db.c:51-79 | unpacking restores a profile iff its narrow fields are in range |
| `Profiles.PackedIsPositiveIff` | sw/persistence/src/db.c:51-65 | the word is below 2^31 iff the call duration is below 128 |
| `DbJson.LoadUndoesDump` | sw/persistence/src/db.c:188-326 | loading a dump succeeds iff all call durations are below 128 and all reserved fields have 34 bits, and then gives the same entities and each profile packed and unpacked, Profile 0 fixed |
| `DbJson.ComesBackUnchangedIff` | sw/persistence/src/db.c:188-326 | the database comes back unchanged iff it is storable and the narrow fields of profiles 1 and up are in range |
| `DbJson.LongCallsCannotBeReloaded` | sw/persistence/src/db.c:286-295 | one call duration of 128 or more makes the dump unloadable |
| `SubscriberDb.LoadIsOk` | sw/persistence/src/db.c:188-266 | whatever file loads gives a database within all bounds with Profile 0 intact |
| `DbFile.LoadsIff` | sw/persistence/src/db.c:188-266 | any file loads iff it follows the schema, every entry within its bounds |
| `DbFile.LoadedEntityIsLast` | sw/persistence/src/db.c:188-266 | every entity slot holds the last entry for it, or is empty |
| `DbFile.LoadedProfileIsLast` | sw/persistence/src/db.c:188-266 | likewise for profiles, Profile 0 staying what it is built in as |
| `DbFile.AsIntIsCast` | sw/persistence/src/db.c:290 | the cast of a profile word keeps its value modulo 2^32, in the range of int |
| `DbFile.AsInt64IsCast` | sw/persistence/src/db.c:312-315 | likewise modulo 2^64 for identifiers and reserved fields |
| `SubscriberDb.SubscriberDb.Open` | sw/persistence/src/db.c:332-376 | return code and resulting database for a missing, unreadable or readable file; cleared tables after a failure |
| `SubscriberDb.SubscriberDb.PutProfile` | sw/persistence/src/db.c:390-403 | Profile 0 is read-only, other slots are replaced |
| `SubscriberDb.SubscriberDb.PutEntity` | sw/persistence/src/db.c:417-436 | stores exactly the entities within bounds |
| `SubscriberDb.SubscriberDb.DumpJson` | sw/persistence/src/db.c:271-326 | the loops build the dump of the database's value |

## Left out

- Signal processing in `scripts/` (IQ loading, filtering, correlation, demodulation) and the heuristic decoders `decode_sb.py`, `decode_bnch.py`, `decode_ul.py`, `decode_ul_raw.py`.
- `SoftViterbi.Decode`: path metrics are reals, so rounding of floating-point metrics is not captured, nor by `SoftOptimality.SoftDecodeIsOptimal`.
- The remaining PDU printers of `scripts/decode_dl.py`; only the type-5 branch of the MM parser is modelled.
- `on_tle_msg_from_mle` (`sw/llc/llc.c:95-157`): it sends without the busy guard, so the link theorem is about `llc_send_bl_data`; request handles are not modelled.
- Corruption of frames inside the link model: its channels lose and duplicate; detection of corruption is the codec's theorem.
- Delivery past the LLC: a body counts as accepted when the expected number flips, also when the post to the MLE fails.
- Weak memory and real time in the shared-memory ring: steps are sequentially consistent, timeouts may strike whenever the code may give up; opening, mapping and statistics of the segment.
- The AXI-DMA hardware backend and channel bookkeeping of `sw/dma_io/dma_io.c`.
- The configuration checks of `msgbus_init`, handlers that dispatch re-entrantly, and the flat layout of the payload storage (slots are separate sequences).
- `sw/cmce/cmce_pdu.c`, `sw/mm/mm_iep.c`, `sw/cmce/cmce_nwrk_bcast.c`, `sw/mle/mle_fsm.c`, `sw/persistence/src/ast_snapshot.c` and the group acknowledgement builder: field lists and tables without state or arithmetic of their own.
- More group identities than the builder's parameter struct holds (`MM_GID_MAX`); the code does not check the count.
- JSON text, the temporary file and the rename of `sw/persistence/src/db.c`; JSON is a value.
- `sw/main_loop.c`, `sw/socket_server.c`, `sw/tetra_d.c`, `sw/webui`, RTL and the test bench top: event loop, sockets and simulation.
- How the entities are wired on the bus; each component is modelled by itself.
