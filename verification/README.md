# Models and proofs for the robot updater

This project models the parts of the over-the-air updater that decide whether a robot still starts after an
update, and proves what they guarantee. Each part has a module of its own:

- `FlexCan`, `Fragmentation`, `Reassembly`, `Transport`: messages over CAN. A message longer than a frame is cut into
  6-byte fragments under an 8-bit message id that wraps; the receiver collects fragments per (source, id), evicts the
  entry that is 129 starts old, sorts and joins. The receiver is a class over nested maps, proved against a step
  function on one flat table; the theorems are about that function over runs of any length.
- `Runs`, `WrapSafety`, `ReachLimits`, `MessageLoss`: what several sources sent, each under ids from any start, and
  what of it arrives. Messages to other devices take ids from the same counter; for this device they are messages lost
  whole. `WrapSafety` is about reordered fragments of sources of which no message is lost whole, `ReachLimits` shows
  that its bounds cannot be raised, `MessageLoss` is about fragments in order with any losses.
- `Crc16`: the CRC of section 6.2.2 of the MODBUS over Serial Line Specification V1.02. The byte loop is proved
  equal to a bit-serial register, whose linearity gives the error-detection theorems.
- `BitTiming`: the search for CAN bit-timing parameters in `dev.c` and the independent expert-mode check.
- `HexImage`: the Intel HEX loader, from parsed records to a sorted and compacted table of memory elements. What a
  table means is a relation between byte addresses and values, so equal memory can be stated without the layout.
- `Upgrade`: the upgrade of one board. Every send and read appends to a trace, the channel decides freely what
  happens, and a monitor that looks at the trace alone says what the board has confirmed.
- `BootBlock`: the bootloader control block as printer and parser of the recovery arguments.
- `Storage`, `Installation`: reading files and partitions, the CRC check of a firmware image, writing items to
  partitions and comparing them. Devices may transfer less than asked for (not `steady`) and may store something
  else than they were given (not `faithful`); each claim says which of the two it needs.
- `Package`: the end-of-central-directory checks and the digest loop for signed packages.
- `Bytes`, `Sequences`, `Arithmetic`, `Options`: bits, bytes, rearrangements, products and quotients.

Code that changes state is a class or a method with loops, proved equal to a function of its inputs or of the old
state; the properties are lemmas about those functions.

Where the code does less than its comments or documentation suggest, the model follows the code and the exact
condition is proved:

- Message ids wrap. With fragments in order, messages mix if and only if a fragment arrives whose id an unfinished
  earlier message has, and no message that evicts that one has been heard in between
  (`MessageLoss.MixFreeExactlyWhenInTime`; `MessageLoss.StaleFragmentMixes` queues a message nobody sent). With
  fragments out of order but no message lost whole, nothing ever mixes if and only if fewer than 129 messages begin
  between a fragment's own and its arrival (`ReachLimits.SafeExactlyUpTo129`), and exactly the complete messages are
  assembled if and only if fewer than 127 do (`ReachLimits.CompleteExactlyUpTo127`).
- The 8-bit fragment count is right exactly up to 1530 bytes (`Fragmentation.SenderDomain`).
- Compaction of HEX elements is defined exactly if an even number of pairs at the table's end would merge
  (`HexImage.CompactDefined`, for a whole file `HexImage.DisjointFile`). It counts two bytes per address in every file;
  byte-addressed records that are disjoint and not empty never merge, so for them it is always defined.
  Addresses are sorted as signed words, so that sorting leaves an ascending file alone exactly if it does not cross
  2 GiB (`HexImage.AscendingFile`). The checksum of a record of type 03 counts the byte count twice, so that a
  well-formed one with data is rejected (`HexImage.StartSegmentRejected`).
- A sample point that leaves no time quantum before it makes `tseg1` negative, one behind the bit makes `tseg2`
  negative, and both are compared as unsigned numbers: the segments respect the controller if and only if the bit is
  `Splittable` (`BitTiming.SplitFits`; `BitTiming.SegmentsOutsideLimits` stores the right rate with other segments). A
  sample point outside the bit may so be placed at the first or the last split (`BitTiming.SplitIsLatest`). The search
  is consistent if and only if some exact round has an acceptable sample point, or none is exact (`Sampled`,
  `BitTiming.ConsistentExactlyWhenSampled`); `BitTiming.MisleadingRate` stores a wrong rate with error zero. The check
  after the search passes without a prescaler, which is then divided by, if and only if `ZeroPrescaler` holds
  (`BitTiming.SucceedsExactlyWhenClose`, `BitTiming.ZeroPrescalerHappens`). With the recommended sample points none of
  this happens (`BitTiming.DefaultsAreSampled`).
- The expert-mode check adds the first two segments in 32 bits: segments that it accepts respect the controller if and
  only if the sum does not wrap (`BitTiming.AcceptedSegments`, `BitTiming.WrappedSegmentsPass`).
- The expert-mode check reproduces a calculated timing if and only if the remainder lost in the time quantum is below
  half a unit and the segments are allowed (`BitTiming.FixupReproduces`): for every clock up to 500 MHz
  (`BitTiming.SlowClocksReproduce`), not for one of 750 MHz (`BitTiming.FastClockDiffers`).
- The first, unaligned sector of a partition read is not checked: if it comes short, the read succeeds with other
  bytes than those at the offset, on any device (`Storage.ReadPartition`); on one that delivers whatever it has,
  exactly for short reads behind its end (`Storage.UncheckedReads`).
- Sizes and offsets of a package are kept in `int`s. From 2 GiB on the checksum covers nothing
  (`Storage.HugeImagesAreUnchecked`) or the bytes at the front of the package instead of the image
  (`Storage.FrontIsImageExactly`), and writing and comparing an item succeed with nothing, or with other bytes than
  the item's. Success means that an item is installed if and only if its size, and unless that is zero its offset, are
  below 2 GiB (`Installation.TrustedExactly`).
- The comparison after a write reads the partition in whole MiB, so a written image passes exactly if the partition
  reaches that far (`Installation.TrustedPasses`). For the parameter partition only 16 KiB are written but the whole
  item is compared (`Installation.ParameterPasses`).
- Arguments survive a restart exactly if they are non-empty, free of newlines, at most 99 and fit the block
  (`BootBlock.ArgumentsReadBack`).
- The progress display multiplies in 32 bits: it shows the percentage if and only if the product does not wrap, that is
  up to 42 949 672 bytes (`Upgrade.Updater.DownloadProgress`, `Upgrade.FullImageShowsNothing`).

## Model

| member | source | states |
|---|---|---|
| FlexCan.IdentifierNumber | bootable/recovery/robot_update/flexcan.cpp:38-43 | the identifier is the number that the sender's masks and shifts give, with the extended-frame flag |
| FlexCan.WireBytes | bootable/recovery/robot_update/flexcan.cpp:149-196 | which packets can be sent; a fragment stands on the wire behind its message id and its serial number, in this order |
| FlexCan.RecvFields | bootable/recovery/robot_update/flexcan.cpp:198-249 | what any received frame means: when it is accepted, and each field by the quotients and remainders of its identifier |
| FlexCan.SendRecv | bootable/recovery/robot_update/flexcan.cpp:149-249 | receiving what was sent gives the packet back, with only what the wire cannot carry normalized |
| FlexCan.CrossesUnchanged | bootable/recovery/robot_update/flexcan.cpp:38-61 | a packet crosses the link unchanged exactly if its priority fits 3 bits, its sizes fit a frame and single frames carry no fragment fields |
| Fragmentation.SenderDomain | bootable/recovery/robot_update/rmCAN.cpp:212-236 | the 8-bit count makes the last copy fit the frame exactly for lengths up to 1530 |
| Fragmentation.FragmentsCarryMessage | bootable/recovery/robot_update/rmCAN.cpp:212-241 | the fragments' bytes in serial order are the message |
| Fragmentation.LongMessageOnWire | bootable/recovery/robot_update/rmCAN.cpp:210-241 | each frame of a message of 9 to 1530 bytes: id, serial number and the next six bytes or what is left, under a count that is one less than the frames |
| Fragmentation.ShortMessageOnWire | bootable/recovery/robot_update/rmCAN.cpp:193-210 | a message of up to 8 bytes is one frame with just its bytes, or none if it is empty |
| Fragmentation.Sender.Write | bootable/recovery/robot_update/rmCAN.cpp:161-170 | a frame reaches the wire exactly if it can be encoded and the interface accepts it |
| Fragmentation.Sender.SendToCan | bootable/recovery/robot_update/rmCAN.cpp:184-249 | a prefix of the message's frames reaches the wire, all of them exactly on success; only fragmented messages consume an id |
| Fragmentation.Sender.SendFragments | bootable/recovery/robot_update/rmCAN.cpp:210-249 | the fragment loop writes the frames in serial order and stops at the first failure |
| Reassembly.StepKeepsGood | bootable/recovery/robot_update/rmCAN.cpp:275-326 | one frame keeps every entry non-empty, incomplete and of one message |
| Reassembly.ReachableGood | bootable/recovery/robot_update/rmCAN.cpp:258-341 | every state reached from the empty one by frames with counts below 255 is good |
| Reassembly.SortElements | bootable/recovery/robot_update/rmCAN.cpp:101-103 | sorting by serial number keeps the multiset of fragments |
| Reassembly.AssemblyFits | bootable/recovery/robot_update/rmCAN.cpp:101-115 | assembly happens exactly with all sum + 1 fragments, the 8-bit size comparison is exact, and the bytes fit the 1536-byte buffer |
| Reassembly.ReachableFits | bootable/recovery/robot_update/rmCAN.cpp:101-115 | in every state reached by frames with counts below 255 whatever the next frame completes fits the assembly buffer |
| Reassembly.Receiver.GetCanPacket | bootable/recovery/robot_update/rmCAN.cpp:101-123 | sorts and joins the fragments inside the buffer |
| Reassembly.Receiver.RemovePacketId | bootable/recovery/robot_update/rmCAN.cpp:252-256 | removes one entry of the flat table and no other |
| Reassembly.Receiver.RecvFragment | bootable/recovery/robot_update/rmCAN.cpp:277-328 | the nested maps take the step of the flat table, whatever the counts say: append, complete, evict and start, or start |
| Reassembly.Receiver.AddFragment | bootable/recovery/robot_update/rmCAN.cpp:284-294 | a fragment of an entry that is there completes it, by the 8-bit comparison, or joins it |
| Reassembly.Receiver.StartEntry | bootable/recovery/robot_update/rmCAN.cpp:297-325 | a fragment without an entry starts one and evicts the one that is 129 ids behind |
| Reassembly.Receiver.RecvPacket | bootable/recovery/robot_update/rmCAN.cpp:275-338 | single frames are queued at once, fragments are collected |
| Reassembly.Receiver.RecvFromCan | bootable/recovery/robot_update/rmCAN.cpp:258-341 | a frame for this device changes table and queue as the step function says, unless the assembly buffer overruns; any other changes nothing |
| Reassembly.Receiver.ReadCANData | bootable/recovery/robot_update/rmCAN.cpp:441-505 | with messages queued before each poll: the first one of the expected source and type is copied up to the buffer's length, the ones before it are dropped, and one message is taken per poll; -1 only if no polls are left and none of the messages taken matches |
| Transport.AssembleAll | bootable/recovery/robot_update/rmCAN.cpp:101-123 | all distinct fragments of a message, in any order, assemble to exactly that message |
| Transport.Conservation | bootable/recovery/robot_update/rmCAN.cpp:258-341 | over any run every collected fragment is delivered, evicted or still stored, once and in order |
| Transport.QueueIsDeliveries | bootable/recovery/robot_update/rmCAN.cpp:274-338 | what is queued for an id is what its delivered batches assemble to, and nothing else |
| Transport.Gathering | bootable/recovery/robot_update/rmCAN.cpp:284-296 | undisturbed fragments gather until the last one, which delivers them all and closes the entry |
| Transport.Delivery | bootable/recovery/robot_update/rmCAN.cpp:258-341 | a message whose frames arrive in any order, interleaved with other traffic that neither reuses its id nor evicts it, is queued exactly once and unchanged |
| Transport.ShortDelivery | bootable/recovery/robot_update/rmCAN.cpp:331-338 | a message of up to 8 bytes is queued by its one frame, unchanged, in any state |
| Transport.SourcesIndependent | bootable/recovery/robot_update/rmCAN.cpp:280-326 | table entries and queued messages of a source depend on its own frames alone |
| Runs.FollowIsReceive | bootable/recovery/robot_update/rmCAN.cpp:258-341 | a receiver whose entries carry the numbers of the messages that started them does what the receiver does with the frames of a run |
| Runs.MixFreeIsClean | bootable/recovery/robot_update/rmCAN.cpp:275-338 | if no fragment is ever added to another message's entry, every entry holds distinct fragments of one sent message and every assembled message was sent and has arrived in full |
| WrapSafety.SameMessage | bootable/recovery/robot_update/rmCAN.cpp:300-305 | two numbers in a window of 129 with the same 8-bit id are equal |
| WrapSafety.WindowMoves | bootable/recovery/robot_update/rmCAN.cpp:300-305 | evicting the id 129 starts old keeps all remaining entries in the window |
| WrapSafety.AdmissibleIsMixFree | bootable/recovery/robot_update/rmCAN.cpp:258-341 | from any first id, if no whole message is lost in between and no fragment is more than 128 messages late, no fragment is added to another message's entry |
| WrapSafety.NoMixing | bootable/recovery/robot_update/rmCAN.cpp:213-341 | over runs of any length every assembled message is one that was sent, byte for byte, and none is queued twice |
| WrapSafety.AssembledExactlyWhenArrived | bootable/recovery/robot_update/rmCAN.cpp:258-341 | if no fragment is more than 126 messages late, the assembled messages are exactly those all of whose fragments arrived, each once |
| WrapSafety.LateMessageEvicts | bootable/recovery/robot_update/rmCAN.cpp:297-303 | one message later a message that arrives in full is thrown away |
| ReachLimits.StragglerMixes | bootable/recovery/robot_update/rmCAN.cpp:300-305 | a run without a whole message lost in which a fragment comes 129 messages late and later meets the message 256 after its own |
| ReachLimits.SafeExactlyUpTo129 | bootable/recovery/robot_update/rmCAN.cpp:258-341 | no run ever adds a fragment to another message's entry if and only if a fragment's message is never followed by 129 or more before it arrives |
| ReachLimits.CompleteExactlyUpTo127 | bootable/recovery/robot_update/rmCAN.cpp:258-341 | exactly the messages that arrive in full are assembled, in every run, if and only if that number stays below 127 |
| MessageLoss.MixFreeExactlyWhenInTime | bootable/recovery/robot_update/rmCAN.cpp:275-326 | for fragments in order and any losses, also of whole messages and of ids taken by messages to other devices: nothing mixes if and only if every unfinished message under a fragment's id has been evicted before it arrives; and then every assembled message was sent, once |
| MessageLoss.InOrderIsAdmissible | bootable/recovery/robot_update/rmCAN.cpp:213-214 | in-order delivery without loss of whole messages, from any first message on, is an admissible run |
| MessageLoss.StaleFragmentMixes | bootable/recovery/robot_update/rmCAN.cpp:284-305 | a run in which 255 messages are lost or go elsewhere, after which a message is queued that nobody sent |
| Crc16.Crc16 | bootable/recovery/robot_update/crc16.cpp:5-24 | the byte loop computes the bit-serial remainder of the message, starting from all ones |
| Crc16.FeedIsLinear | bootable/recovery/robot_update/crc16.cpp:11-21 | feeding a sum of messages gives the sum of the remainders |
| Crc16.BurstDetected | bootable/recovery/robot_update/crc16.cpp:5-24 | messages that differ only inside 16 consecutive bits have different CRCs |
| Crc16.OddErrorDetected | bootable/recovery/robot_update/crc16.cpp:5-24 | messages that differ in an odd number of bits have different CRCs |
| Crc16.ResidueIsZero | bootable/recovery/robot_update/crc16.cpp:5-24 | the remainder of a message with two more bytes is zero exactly if they are its CRC, low byte first |
| BitTiming.VisitRound | dev.c:97-126 | the loop body: both error measures, the skips and the break |
| BitTiming.TriedPrescalers | dev.c:97-101 | for each number of quanta the largest legal prescalers up to the exact quotient of clock and rate and up to the next number |
| BitTiming.Search | dev.c:94-127 | the loop with its early exit computes the scan from the largest round down |
| BitTiming.SplitFits | dev.c:52-66 | the clamped segments, compared unsigned, add up and give the reported sample point; they respect the controller's limits if and only if the sample point lies within the bit behind its first quantum, or a segment limit keeps it there; if not, the first segment has its largest length |
| BitTiming.SplitIsLatest | dev.c:52-66 | which split it is: of all the controller has, the last one not behind the requested sample point, or the first; for a sample point outside the bit the first or the last |
| BitTiming.SearchIsLeast | dev.c:94-127 | the result is lexicographically least in bit-rate error, for exact rates in sample-point error, and then in the order of the rounds, over all admissible rounds; the error is that of the stored rate; nothing is stored only if no round is admissible - whenever the search is consistent |
| BitTiming.ConsistentExactlyWhenSampled | dev.c:94-127 | for every input what is stored belongs to one round, or nothing is stored, if and only if some exact round has an acceptable sample point or none is exact |
| BitTiming.ZeroErrorWithoutPrescaler | dev.c:109-126 | an error of zero is recorded without a prescaler if and only if the rounds before the first exact one are all skipped and no exact round has an acceptable sample point |
| BitTiming.DefaultsAreSampled | dev.c:82-92 | with the recommended sample points the search is consistent and every bit splittable |
| BitTiming.RecommendedSample | dev.c:82-92 | without a requested sample point, search, report and the guard of the division are those of 75 percent above 800 kbit/s, 80 above 500 and 87.5 otherwise |
| BitTiming.RecommendedTiming | dev.c:82-156 | 8 MHz and 1 Mbit/s without a requested sample point: 8 quanta, segments of 2, 3 and 2, sampled at 75 percent |
| BitTiming.SplittableIsSampled | dev.c:52-66 | so it is for every sample point up to 100 percent that splits every bit |
| BitTiming.MisleadingRate | dev.c:60-127 | 8 MHz, 1 Mbit/s and a sample point of 0.1 or 550 percent: another rate is stored with an error of zero |
| BitTiming.SearchIsGloballyOptimal | dev.c:94-127 | no number of quanta with any prescaler the hardware has is closer to the request, although only two prescalers are tried for each |
| BitTiming.SucceedsExactlyWhenClose | dev.c:129-156 | for every input the check passes if and only if some round is less than 5.1 percent off, and the prescaler divided by afterwards is zero if and only if an exact round without an acceptable sample point comes first and none with one follows |
| BitTiming.ZeroPrescalerHappens | dev.c:109-156 | 48 MHz, 1 Mbit/s and a fixed prescaler of 16: the check passes and the division is by zero |
| BitTiming.CalculationIsSound | dev.c:143-156 | on success prescaler and quanta are within limits, the segments are exactly if the bit is splittable, and the reported rate is the searched one within 5.1 percent |
| BitTiming.ReportMeans | dev.c:143-156 | every reported field of a sampled input: the found prescaler and rate, the split in three segments, its sample point, the time quantum rounded down and a jump width of one |
| BitTiming.SegmentsOutsideLimits | dev.c:52-156 | 8 MHz, 1 Mbit/s and a sample point of 190 percent: the right rate is stored with a second segment outside the limits |
| BitTiming.RoundingCancels | dev.c:147-199 | flooring into the time quantum and rounding back returns the prescaler exactly if the lost remainder is below half a unit |
| BitTiming.SlowClocksCancel | dev.c:147-199 | that is so for every clock up to 500 MHz and every step |
| BitTiming.FixupReproduces | dev.c:143-209 | the expert-mode check accepts a calculated timing and changes none of its fields if and only if jump width and segments are allowed there and the loss is below half a unit |
| BitTiming.SlowClocksReproduce | dev.c:147-199 | the loss is small enough for every clock up to 500 MHz |
| BitTiming.FastClockDiffers | dev.c:147-199 | a controller at 750 MHz whose calculated prescaler of two the check changes |
| BitTiming.FixupExactly | dev.c:184-206 | the same condition for any timing with a prescaler that is a multiple of its step |
| BitTiming.FixupFindsNearest | dev.c:192-202 | for any time quantum a successful check finds a legal prescaler, nearest to it up to the rounding of one step |
| BitTiming.FixupRate | dev.c:204-206 | and reports the largest rate whose bits of that prescaler and those segments the clock delivers, by the wrapped product, unless that is zero |
| BitTiming.FixupFails | dev.c:184-206 | which check fails and what it leaves: the jump width is set first, the prescaler before its check, rate and sample point only on success |
| BitTiming.SmallControllersDivide | dev.c:201-205 | that product is never zero if the largest prescaler and the most quanta have a product below 2^32 |
| BitTiming.AcceptedSegments | dev.c:184-190 | accepted segments respect the controller if and only if the sum of the first two does not wrap |
| BitTiming.WrappedSegmentsPass | dev.c:184-208 | a propagation segment of 2^32 - 1 quanta is accepted |
| BitTiming.CanBittiming.CalcBittiming | dev.c:68-159 | fails without changes, or stores the report of the round found with a positive prescaler for the requested sample point, or for 750, 800 or 875 if none is |
| BitTiming.CanBittiming.FixupBittiming | dev.c:174-209 | each failing check returns its code with the fields changed so far; success recovers prescaler, rate and sample point, with the sums and products as they wrap |
| BitTiming.CanBittiming.GetBittiming | dev.c:211-232 | without a time quantum the parameters are calculated, for the requested sample point or the recommended one; with one they are checked |
| HexImage.LoadMeaning | bootable/recovery/robot_update/Image.cpp:93-240 | while reading, the size counts the bytes of the table and of the data records read so far, and the merged table describes their memory if no record ends within an address |
| HexImage.LoadedImage | bootable/recovery/robot_update/Image.cpp:93-275 | a file is accepted exactly if its records are valid up to the end-of-file record, and then its table describes the data records |
| HexImage.AppendKeepsMemory | bootable/recovery/robot_update/Image.cpp:141-161 | concatenating a record to the element it continues keeps the memory |
| HexImage.StartSegmentRejected | bootable/recovery/robot_update/Image.cpp:195-210 | a start segment record with a correct checksum is accepted if and only if it has no data |
| HexImage.ChecksumRule | bootable/recovery/robot_update/Image.cpp:106-240 | a record of any type is valid exactly if all its bytes add up to a multiple of 256; only that of type 03 counts its byte count again |
| HexImage.AbsoluteAddress | bootable/recovery/robot_update/Image.cpp:111-120 | a data record goes to upper address times 64 KiB plus segment base times 16 plus its own, modulo 2^32: with an upper address alone these are the halves, with a base alone nothing wraps |
| HexImage.RecordIsHeld | bootable/recovery/robot_update/Image.cpp:111-120 | byte j of any data record is held at the byte address that follows from its absolute one |
| HexImage.AdjacentJoins | bootable/recovery/robot_update/Image.cpp:397-401 | the halved length is right for double-byte elements and harmless for disjoint single-byte ones |
| HexImage.CompactDefined | bootable/recovery/robot_update/Image.cpp:391-408 | the pass is defined exactly if an even number of pairs at the end would merge one after the other |
| HexImage.ThreeElements | bootable/recovery/robot_update/Image.cpp:391-408 | the pass over three elements: a neighbour at the halved length is joined, the result not tried again, and nothing is defined if only the last two would join |
| HexImage.CompactKeepsMemory | bootable/recovery/robot_update/Image.cpp:391-408 | a defined pass keeps the memory and the number of bytes |
| HexImage.ArrangedImage | bootable/recovery/robot_update/Image.cpp:384-409 | sorting in any order of equal addresses and compaction keep the memory and the number of bytes |
| HexImage.DisjointLoad | bootable/recovery/robot_update/Image.cpp:141-161 | disjoint data records give a disjoint table |
| HexImage.DisjointFile | bootable/recovery/robot_update/Image.cpp:384-409 | for disjoint records that are not empty, in any order: byte-addressed ones never merge and the pass is defined; otherwise it is defined exactly if an even number of pairs at the end of the sorted table would merge |
| HexImage.SafeExactlyWhenEven | bootable/recovery/robot_update/Image.cpp:389-408 | the same for any table with distinct addresses |
| HexImage.KeptExactlyWhenSorted | bootable/recovery/robot_update/Image.cpp:389-414 | sorting leaves a table with distinct addresses alone exactly if it is sorted as signed words |
| HexImage.AscendingFile | bootable/recovery/robot_update/Image.cpp:141-161 | for ascending records the table has only maximal runs and compaction leaves it unchanged; sorting does exactly if all addresses are on one side of 2 GiB |
| HexImage.Image.SortElements | bootable/recovery/robot_update/Image.cpp:389-389 | the table is rearranged into ascending addresses |
| HexImage.Image.CompactPass | bootable/recovery/robot_update/Image.cpp:391-408 | the loop over the changing table computes the pass |
| HexImage.Image.CompactElements | bootable/recovery/robot_update/Image.cpp:384-409 | sorts, then compacts |
| HexImage.Image.ReadRecords | bootable/recovery/robot_update/Image.cpp:93-240 | the reading loop builds the specified table and size for records of every type, or fails |
| HexImage.Image.LoadHex | bootable/recovery/robot_update/Image.cpp:58-275 | accepted exactly for valid files; the size is the length of all elements, and the memory is that of the data records, with every byte at its absolute address, if these have whole addresses and byte-addressed ones are disjoint |
| Upgrade.AddressDecodes | bootable/recovery/robotUpdate.cpp:128-133 | the four address bytes read back as the address, high byte first |
| Upgrade.DataDecodes | bootable/recovery/robotUpdate.cpp:208-211 | the length field covers command, length and chunk, and the chunk reads back |
| Upgrade.ChunksFill | bootable/recovery/robotUpdate.cpp:272-309 | confirmed chunks concatenate to the data they were cut from |
| Upgrade.WrittenComplete | bootable/recovery/robotUpdate.cpp:248-314 | the confirmations of a complete upgrade describe exactly the image's elements |
| Upgrade.ChunkSizes | bootable/recovery/robotUpdate.cpp:271-309 | all packets of an element have 500 bytes but the last one, which has the rest |
| Upgrade.ConfirmationsAreJustified | bootable/recovery/robotUpdate.cpp:89-246 | on any trace: behind each confirmation, in order, there is an answer to a command with just its bytes; behind a stored chunk its packet, the acknowledgement, its checksum high byte first, and an answer whose status is zero or missing |
| Upgrade.FaultMeans | bootable/recovery/robotUpdate.cpp:170-189 | a fault is a failed send, a missing answer, or a checksum answer with a status other than zero |
| Upgrade.Updater.Exchange | bootable/recovery/robotUpdate.cpp:89-118 | at most two transmissions; success only on a response, failure only after two faults |
| Upgrade.Updater.SendStartFlag | bootable/recovery/robotUpdate.cpp:89-118 | success confirms the start |
| Upgrade.Updater.SendEndFlag | bootable/recovery/robotUpdate.cpp:316-345 | success confirms the end |
| Upgrade.Updater.SendDataAddress | bootable/recovery/robotUpdate.cpp:120-153 | success confirms the 32-bit address |
| Upgrade.Updater.AskStatus | bootable/recovery/robotUpdate.cpp:170-189 | one transmission of the checksum: success exactly if the last event is an answer whose status is zero or missing, which confirms the acknowledged chunk |
| Upgrade.Updater.SendDataCRC | bootable/recovery/robotUpdate.cpp:155-193 | success, exactly if the last answer does not refuse, confirms the chunk acknowledged last, anything else confirms nothing; at most two transmissions |
| Upgrade.Updater.TryData | bootable/recovery/robotUpdate.cpp:217-229 | one data transmission: success means the board acknowledged exactly this chunk |
| Upgrade.Updater.SendFirmwareData | bootable/recovery/robotUpdate.cpp:195-246 | success, only with a last answer that does not refuse, confirms the chunk and counts its bytes; at most two data and four checksum transmissions because the budget is shared; failure only after two faults |
| Upgrade.Updater.DownloadProgress | bootable/recovery/robotUpdate.cpp:81-87 | the percentage if and only if the 32-bit product does not wrap; then at most 100, and 100 only when everything is sent |
| Upgrade.FullImageShowsNothing | bootable/recovery/robotUpdate.cpp:81-87 | an image of 42 949 673 bytes that has been sent in full is shown with 0 percent |
| Upgrade.Updater.SendElementData | bootable/recovery/robotUpdate.cpp:271-309 | the confirmed packets are always a beginning of the element's packets, all of them on success |
| Upgrade.Updater.SendElement | bootable/recovery/robotUpdate.cpp:258-310 | address first, then the packets |
| Upgrade.Updater.SendFirmware | bootable/recovery/robotUpdate.cpp:248-314 | success confirms every address and packet in order and the sent bytes equal the total, which they never exceed |
| Upgrade.Updater.Upgrade | bootable/recovery/robotUpdate.cpp:347-407 | if 0 is returned, the confirmations are complete and in order, each with an answer received during the upgrade, and the memory they describe is that of the file's data records, every byte at its absolute address, if these have whole addresses and byte-addressed ones are disjoint; failure only for a bad file or after two faults |
| BootBlock.TokensOfLines | bootable/recovery/recovery.cpp:374-381 | printed lines are read back as the lines they were |
| BootBlock.TokensSplit | bootable/recovery/recovery.cpp:374-381 | a newline separates arguments wherever it stands, blank lines have none |
| BootBlock.ParsedSurvives | bootable/recovery/recovery.cpp:372-386 | whatever a block holds, the arguments read from it survive being written again |
| BootBlock.ArgumentsReadBack | bootable/recovery/recovery.cpp:372-425 | written arguments are read back unchanged exactly if they survive the block's limits |
| BootBlock.PlainFile | bootable/recovery/recovery.cpp:389-411 | a command file of plain lines yields exactly its lines |
| BootBlock.CommandLine | bootable/recovery/recovery.cpp:400-408 | a line of up to 4095 characters contributes its text behind leading and up to the next carriage return, a blank one nothing |
| BootBlock.LongLine | bootable/recovery/recovery.cpp:400-408 | a longer one is cut after 4095 characters and the rest counts as another line; the last line needs no end |
| BootBlock.Precedence | bootable/recovery/recovery.cpp:371-413 | with 1 to 99 arguments in the block the command line decides if it has any, and the block otherwise |
| BootBlock.OtherBlock | bootable/recovery/recovery.cpp:373-413 | a block whose first line is another one leaves the word to the command file |
| BootBlock.RewrittenText | bootable/recovery/recovery.cpp:416-425 | the block then holds the line "recovery" and a line for every argument, cut to its size |
| BootBlock.BootRepeats | bootable/recovery/recovery.cpp:360-426 | the boot after one with surviving arguments has the same arguments and writes the same block |
| BootBlock.EveryRestartRepeats | bootable/recovery/recovery.cpp:360-426 | so has every later one, whatever the command file says by then |
| BootBlock.BootedArgumentsSurvive | bootable/recovery/recovery.cpp:371-414 | arguments from the block always survive, those from the command file exactly if they fit |
| BootBlock.BoardOption | RecoverySystem.java:352-368 | the option for a package by the letter behind an r in its name: m goes before c, p, f and b in this order; none without any |
| BootBlock.OptionsInOrder | RecoverySystem.java:351-369 | every package with a mark has its option at its place in the order of the packages |
| BootBlock.InstallPackages | RecoverySystem.java:347-372 | the command file is the option lines of the packages and the locale |
| BootBlock.InstallationIsRestartable | RecoverySystem.java:347-372 | a request of plain lines that fits is taken from the file by the first boot and from the block by every later one |
| BootBlock.Recovery.ReadCommandFile | bootable/recovery/recovery.cpp:397-408 | the first 99 lines with content, and all of them if there are fewer |
| BootBlock.Recovery.GetArgs | bootable/recovery/recovery.cpp:360-426 | command line, else block, else command file; the result is written back |
| BootBlock.Recovery.WriteArgs | bootable/recovery/recovery.cpp:416-425 | the block holds the printed arguments cut to its size; the other fields stay |
| BootBlock.Recovery.FinishRecovery | bootable/recovery/recovery.cpp:541-576 | the block is emptied or kept and the command file removed if it can be: the next boot without a command line then finds no arguments after a cleared block, and those of the old block otherwise |
| Storage.ReadFile | bootable/recovery/rkimage.cpp:351-366 | 0 exactly if no byte came short; then the buffer holds exactly the bytes at the offset and the position is behind them |
| Storage.UncheckedReads | bootable/recovery/rkimage.cpp:381-393 | on a device that delivers what it has, a partition read succeeds without the bytes exactly for a short unaligned read behind the end |
| Storage.ReadLead | bootable/recovery/rkimage.cpp:381-393 | the bytes from an unaligned offset to its sector's end if that sector came whole; otherwise the next read starts too early, before the sector's end |
| Storage.ReadSectors | bootable/recovery/rkimage.cpp:395-416 | success only if every sector came whole, and then the wanted bytes are there, behind an untouched first part |
| Storage.ReadPartition | bootable/recovery/rkimage.cpp:375-418 | 0 with no sector short gives the bytes at the offset, on any device; 0 otherwise only behind a short first sector, and then what follows is displaced; on whole sectors and a steady device exactly when the bytes are there or the first sector is all that is wanted |
| Storage.FoldConcat | bootable/recovery/rkimage.cpp:298-310 | a checksum over chunks is the checksum over their concatenation |
| Storage.ChecksumMeans | bootable/recovery/rkimage.cpp:312-327 | an image is followed by its checksum exactly if the four bytes behind it are the checksum's, low byte first |
| Storage.CheckImageCrc | bootable/recovery/rkimage.cpp:277-332 | with the offset counted in an int: if the reads follow each other, acceptance with no read short means that the word behind the image's front is the checksum of exactly its bytes; no read comes short unnoticed from a file, an aligned image, or a steady partition that reaches the image; on a steady device 0 exactly if the four bytes behind the image are its checksum's, low byte first |
| Storage.FrontIsImageExactly | bootable/recovery/rkimage.cpp:285-306 | what is accepted is the image at the offset, whatever the package, if and only if the offset is below 2 GiB |
| Storage.HugeImagesAreUnchecked | bootable/recovery/rkimage.cpp:277-298 | sizes below 2 GiB are covered in full; from there on only a zero word is compared |
| Installation.FindItem | bootable/recovery/rkimage.cpp:260-269 | an item is found that has the name while no earlier one has it, and none exactly if no item has the name |
| Installation.SourceIsPlain | bootable/recovery/rkimage.cpp:832-847 | from a non-negative offset, reading chunk by chunk is reading at once |
| Installation.WrittenHolds | bootable/recovery/rkimage.cpp:831-890 | a written partition holds the item, zeros up to a multiple of 16 KiB, and is otherwise as before |
| Installation.ParameterCopies | bootable/recovery/rkimage.cpp:871-883 | the parameter partition holds the first 16 KiB, filled up with zeros, at 0, 512 KiB, 1 MiB and 1.5 MiB, and every other byte as before |
| Installation.CopiesAt | bootable/recovery/rkimage.cpp:871-883 | every byte behind the first k copies: of a copy, or as before |
| Installation.ParameterPasses | bootable/recovery/rkimage.cpp:804-883 | the comparison after a parameter write passes exactly if everything behind the first block was there already |
| Installation.WriteBlock | bootable/recovery/rkimage.cpp:871-890 | one block at the position or the four copies; success only if all of it was accepted |
| Installation.CopyChunk | bootable/recovery/rkimage.cpp:831-892 | one round of the loop: the next chunk is on the partition, or nothing outside the item's range was touched |
| Installation.CopyItem | bootable/recovery/rkimage.cpp:783-898 | 0 only if source and target have all bytes the int counters name; a faithful target then holds them padded; -2 means nothing was written |
| Installation.Installer.WriteImage | bootable/recovery/rkimage.cpp:757-898 | the same for the header fields, taken as ints, of the first item of the name; -4 exactly if there is none |
| Installation.MemCmp | bootable/recovery/rkimage.cpp:1004-1016 | 0 exactly for equal buffers, else the first difference |
| Installation.CompareItem | bootable/recovery/rkimage.cpp:1128-1212 | 0 only if the partition holds the bytes the int counters name, -1 only if some byte differs, -2 only if bytes are missing |
| Installation.Installer.ImageCompare | bootable/recovery/rkimage.cpp:1030-1212 | on devices that deliver everything, 0 exactly if the partition holds the bytes the header fields of the first item of the name give as ints |
| Installation.ComparableFits | bootable/recovery/rkimage.cpp:1071-1074 | a comparison reads at least as far as the write before it wrote |
| Installation.TrustedPasses | bootable/recovery/rkimage.cpp:2140-2155 | below 2 GiB an item passes exactly if the package has all of it and the partition is large enough for whole MiB reads |
| Installation.NegativeOffsetPasses | bootable/recovery/rkimage.cpp:351-366 | with a negative offset a package of zeros passes although the item lies behind its end |
| Installation.TrustedExactly | bootable/recovery/rkimage.cpp:2140-2155 | passing leaves the item on the partition, whatever package and partition, if and only if its fields are below 2 GiB |
| Installation.Installer.Update | bootable/recovery/rkimage.cpp:2140-2155 | 0 only if the partition holds the first item of the name, or its fields do not fit an int, whatever the write left behind; nothing outside the padded range changes; on good devices exactly if the fields pass |
| Installation.Installer.Install | bootable/recovery/rkimage.cpp:2140-2218 | 0 only if for "boot", "system", "backup" and "recovery" the first item of the name, if its fields are below 2 GiB, was on its own partition when checked, and recovery is present; no partition is touched before the earlier ones have passed |
| Package.NoMarkerAfter | RecoverySystem.java:182-189 | scanning from the fifth byte suffices, since the marker cannot overlap itself |
| Package.AcceptsMeans | RecoverySystem.java:156-189 | accepted means: the footer is marked, and the 22 bytes before the comment, whose length is in the last two bytes with the low one first, begin with the bytes 50 4b 05 06, which are at no later place |
| Package.CheckFooter | RecoverySystem.java:156-189 | accepted exactly if the footer points at the last end-of-central-directory marker of the file, by the bytes; each exception exactly in its case |
| Package.FeedDigest | RecoverySystem.java:272-306 | for any positive short reads the digest receives exactly the file without comment and its length, or a prefix if interrupted; progress rises strictly and ends with 100 |
| Package.SignedKeepsTheRecord | RecoverySystem.java:272-274 | the signed bytes end inside the accepted record, which is the last one in them too |

## Left out

- FlexCan: retries of a send when the transmit queue is full are one write that succeeds or fails; sockets, filters and error frames are not modelled.
- Fragmentation.Sender.SendToCan: beyond 1530 bytes the 8-bit count wraps and the last copy runs over its 8-byte buffer (`SenderDomain` says exactly when); what the machine then does is not modelled. The ten waits for a writable socket in `sendCANData` are not modelled, success claims of the upgrade rest on responses.
- Fragmentation.Sender.SendFragments: the same limit of 1530 bytes.
- Reassembly.Receiver.RecvFromCan: the receiving thread and the queue's lock are atomic steps. A step that would join more than the 1536 bytes of the assembly buffer is outside its precondition; with consistent counts below 255 there is none (`ReachableFits`).
- Reassembly.SortElements: fragments with equal serial numbers keep their order of arrival, where the library's sort promises no order; distinct fragments are not affected.
- Reassembly.Receiver.ReadCANData: the time limit is a number of polls; a queued message without any byte, behind whose end the code reads a type byte, is outside its precondition. A source buffer that is shorter than the length asked for is not modelled.
- WrapSafety.AssembledExactlyWhenArrived: it is false for some runs in which a fragment is 127 messages late or more (`LateMessageEvicts`, `ReachLimits.CompleteExactlyUpTo127`).
- BitTiming.Search: inputs whose machine arithmetic would overflow or divide by zero before a round is tried are excluded by `Sane`; `long` is unbounded.
- BitTiming.CanBittiming.CalcBittiming: inputs for which the code divides by a prescaler of zero are outside its precondition (`ZeroPrescaler`, exactly those).
- BitTiming.FixupReproduces: the time quantum, which is a 32-bit field, does not wrap.
- BitTiming.CanBittiming.FixupBittiming: inputs for which it divides by a product that has wrapped to zero are outside its precondition (`FixupDividesByZero`, exactly those); sums of the controller's own limits do not wrap.
- HexImage.Image.LoadHex: starts from parsed records; digits, blanks and file names are not modelled. Tables on which compaction is undefined are outside its precondition (`DisjointFile` says when that is so). Addresses are 32-bit words that are compared as signed ones, but the sum of an address and a length is not reduced: an element that ends at 2^32 does not continue at address 0.
- Upgrade.Updater.Upgrade: the boards are not part of the repository, so the monitor states what their responses confirm; entering and leaving upgrade mode and the order of boards are not modelled. Empty files, for which the progress display divides by zero, and tables on which compaction is undefined are outside its precondition.
- BootBlock.Recovery.GetArgs: block fields are C strings, what lies behind their terminators is not modelled; writing the block is atomic. The option parsing, the module list and the intent, locale and flag files of recovery are left out.
- Storage.CheckImageCrc: the checksum's step function, which is not shown in the repository, is a parameter; a word and a file position have 32 bits. Nothing is promised for a partition image that ends at or behind 2 GiB and is not made of whole sectors, or whose int offset turns from negative to positive (`Continuous` says which): the reads then skip or repeat bytes.
- Installation.Installer.WriteImage: the package is a file; recovery from a backup partition reads it through `ReadPartition` but is not modelled. The header that declares the item's fields, rkimage.h, is not part of this model; offset and size are taken to be 32-bit words, as in `check_image_crc`. Opening and mounting are left out.
- Installation.Installer.Install: the parameter update from an SD card with its reboot, the update script and the loader are left out; the file-system check after the system step may do anything to its partition, so the claim about it is about what the comparison saw.
- Package.CheckFooter: certificates, signature blocks and keys are left out; a file that shrinks while it is read is not modelled.
- The Android application, menus, LEDs, logs, formatting, child processes and Edify functions are left out: they would only add wiring.
- The netlink, buffer and timer code of `dev.c` is left out for the same reason.
