# SAMPIC frame decoding, event collectors and SRS word packing (eudaq)

This project models three parts of the eudaq data-acquisition framework and proves properties of them in Dafny:

- **The SAMPIC frame decoder.** It covers the fixed-width word records of the SAMPIC readout:
  - the 12-word event header;
  - the 1-word trailer;
  - the 2-word LP-bus header;
  - the 7-word SAMPIC header;
  - the channel stream of 2 + 7 + 64 words.

  It also covers their field extractors, the Gray-to-binary routine, and `SampicEvent::ConvertBlock`. That routine does four things:
  - it packs a raw byte block into little-endian 16-bit words;
  - it walks the fragments laid end to end in the block (event header, one channel stream per bit of the channel bitmap, trailer);
  - it appends every channel stream to the event;
  - it overwrites the event's header and trailer.

  A fragment whose trailer is not `0xeeee` ends the conversion with an error carrying that word.
- **The two event collectors.**
  - The SAMPIC collector keeps one FIFO per producer connection and a set of inactive connections. It writes a synchronised event whenever no queue is empty.
  - The SRS collector keeps two FIFOs, one for the beam-interface producer and one for the SRS producer. It matches their fronts by trigger number and writes one wrapped event per matching pair.
- **The SRS byte packers.** `SrsEvent::ConvertBlock` and `SrsConfig::ConvertBlock` turn a byte block into little-endian 32-bit words. They then build a frame, or load the system or APV-application register selected by the block number.

## Modules

| file | module | contents |
|---|---|---|
| `bytes.dfy` | `Bytes` | byte and word types; the bits of a 16-bit word; `xor` |
| `sampic_format.dfy` | `SampicDataFormat` | the word records, their accessors, Gray decoding, round trips |
| `sampic_event.dfy` | `SampicEvent` | byte packing, popcount, the fragment walk as a function, the `SampicEvent` class |
| `sampic_fragments.dfy` | `SampicFragments` | what the walk does with well-formed fragments, and the converse |
| `events.dfy` | `Events` | events and connections as values |
| `sampic_collector.dfy` | `SampicCollector` | the SAMPIC collector: transitions, properties, the class |
| `srs_collector.dfy` | `SrsCollector` | the SRS collector: matching, routing, the class |
| `srs_words.dfy` | `SrsWords` | little-endian 32-bit words and their round trips |
| `srs_event.dfy` | `SrsEvent` | the `SrsEvent` class |
| `srs_config.dfy` | `SrsConfig` | the `SrsConfig` class, register dispatch, last block wins |

### Style of the model

- **Data types.** Words are integer subset types (`Byte`, `Word16`, `Word32`, `Word64`). Every shift-and-mask of the source is written as a division and remainder by a power of two. A disjoint `|` of the source is written as `+`.
- **Bit-level routines.** The Gray decoder works on the 16 bits of a word, least significant first.
- **Classes.** The source's stateful objects become classes with the same fields:
  - `SampicEvent`: header, channel streams, trailer;
  - `SampicDataCollector`: queue map, inactive set, print flags;
  - `SrsDataCollector`: two start time stamps, two queues;
  - `SrsEvent`: the frame;
  - `SrsConfig`: the two registers.
- **Methods.** Each method is proved against a pure specification function of the old state, for example:
  - `SampicEvent.Walk` for the fragment walk;
  - `SampicCollector.Connect`, `Disconnect` and `Receive` for the SAMPIC collector;
  - `SrsCollector.Match` and `Route` for the SRS collector;
  - `SrsConfig.Dispatch` and `Configure` for the configuration event.

  The properties the source promises are then proved as lemmas about those functions.
- **Loops.** Each loop of the source is a `while` loop with invariants:
  - the byte packing;
  - the bit count;
  - the channel and sample loops;
  - the Gray bit loop;
  - the scan over the queue map;
  - the SRS matching loop;
  - the stride-4 packers;
  - the block loops of the constructors.

### Where the model and the documented format differ, the code is followed

- **Header check.** `ConvertBlock` never looks at the header's begin marker `0xebeb`, nor at the SAMPIC header's validity byte `0x69`. A fragment with a wrong begin marker is decoded like any other (`SampicFragments.BeginMarkerIgnored`).
- **Samples.** Samples are copied verbatim; they are not Gray-decoded. Only the two SAMPIC time stamps go through `grayDecode`, and only in their accessors.
- **Length errors.** An odd trailing byte of a block is dropped without an error (`SampicEvent.OddByteIgnored`). The code has no error for a malformed length or an invalid header; its only error is the invalid trailer.
- **Time-stamp widths.**
  - `sf2Timestamp` is 36 bits wide: words 2 and 3, then the low 4 bits of word 4.
  - `fpgaTimestamp` is 40 bits wide: the high byte of word 1, then words 2 and 3.
- **LP-bus payload.** The payload is the sum of two bytes, so it is at most 510. It is not the two bytes concatenated.
- **Sample array name.** `SampicEvent.cc` calls the sample array `samples_raw`, while `SampicDataFormat.hh` declares it `samples`. Both are the one 64-word array `SampicStream.samples`.
- **Record sizes.** The record sizes `m_header_size`, `m_lpbus_hdr_size`, `m_sampic_hdr_size` and `m_trailer_size` are not declared in any file of this model. They are taken as the sizes of the records they fill: 12, 2, 7 and 1 words.
- **SRS headers.** `SrsConfig.hh` and `SrsEvent.hh` declare constructors and a one-argument `ConvertBlock` that do not match the `.cc` files. The `.cc` files are modelled:
  - `SrsEvent` has an event-builder mode and a frame;
  - `SrsConfig` has a system register and an APV-application register;
  - `SrsConfig::ConvertBlock` takes the register number.
- **SRS block numbers.** A block number is 32 bits wide, but `SrsConfig::ConvertBlock` takes it as an `unsigned short`. So block 65536 loads the system register just as block 0 does (`SrsConfig.BlockNumberTruncated`).
- **Disconnecting an unknown connection.** `DoDisconnect` inserts the connection into the inactive set even when it has no queue, for instance one that connected before a `DoReset` cleared the map (SampicDataCollector.cc:49). The size test then counts it. So the group can be emptied while a known connection is still active, as soon as all known connections but one are inactive (`SampicCollector.UnknownDisconnectResets`). For example: after a reset, connections a and b each receive an event, a disconnects, and then a connection c unknown to the map disconnects; the group is emptied although b is still active.
- **SRS producer names.** The SRS collector's `DoConnect` accepts producers named `srsProducer` and `Srs1`. `DoReceive`, however, routes only `caliceahcalbifProducer` and `Srs1`, so events from `srsProducer` go to neither queue.
- **Reading past the end.** When a block ends inside a fragment, the source reads past the end of its word vector. The model instead ends the walk with `Truncated`, just before the read that would overrun. The writes already done are kept. `SampicFragments.ConvertedIffFragments` proves that a block converts without error exactly when its words are whole, well-formed fragments with valid trailers. `ConvertBlock` is public: when it is called directly on an existing event, the header, trailer and streams written before the error stay observable, and the model keeps them. The conversion of a whole event stops at the first failing block; in the source that conversion is a constructor, so nothing of it survives the error (see `SampicEvent.SampicEvent.ConvertEvent` under "Left out").

## Model

| member | source | states |
|---|---|---|
| SampicDataFormat.GrayToBinary | user/cmstotem/extern/SampicDataFormat.hh:7-14 | the decoded value is the one whose standard Gray code (`x ^ (x >> 1)`) is the input |
| SampicDataFormat.GrayDecode | user/cmstotem/extern/SampicDataFormat.hh:8-14 | `grayDecode<uint16_t>` computes exactly the Gray-to-binary conversion |
| SampicDataFormat.DecodeBits | user/cmstotem/extern/SampicDataFormat.hh:10-13 | the MSB-first bit loop makes every result bit the parity of the input bits at and above it |
| SampicDataFormat.GrayRoundTrip | user/cmstotem/extern/SampicDataFormat.hh:7-14 | `grayDecode(x ^ (x >> 1)) == x` for every 16-bit x |
| SampicDataFormat.GrayToBinaryBits | user/cmstotem/extern/SampicDataFormat.hh:10-12 | the decoder keeps the input's MSB; every lower result bit k is input bit k xor result bit k+1 |
| SampicDataFormat.HeaderValidity | user/cmstotem/extern/SampicDataFormat.hh:21 | `HeaderValid` depends on word 0 alone, and holds exactly when word 0 is the begin marker 0xebeb |
| SampicDataFormat.BoardId | user/cmstotem/extern/SampicDataFormat.hh:22 | the board id, bits 13-15 of word 1, is at most 7 |
| SampicDataFormat.SampicId | user/cmstotem/extern/SampicDataFormat.hh:23 | the SAMPIC id, bit 12 of word 1, is at most 1 |
| SampicDataFormat.Sf2Timestamp | user/cmstotem/extern/SampicDataFormat.hh:24-29 | the SF2 time stamp is below 2^36 |
| SampicDataFormat.EventNumber | user/cmstotem/extern/SampicDataFormat.hh:30 | the 32-bit event number has word 5 as its low half and word 6 as its high half |
| SampicDataFormat.TriggerNumber | user/cmstotem/extern/SampicDataFormat.hh:31 | the 32-bit trigger number has word 7 as its low half and word 8 as its high half |
| SampicDataFormat.ActiveChannels | user/cmstotem/extern/SampicDataFormat.hh:32 | the 16-bit mask keeps the channel bitmap, word 9, whole |
| SampicDataFormat.HeaderByteFields | user/cmstotem/extern/SampicDataFormat.hh:33-36 | readout offset and sample number are the high and low bytes of word 10, firmware version and clock monitor those of word 11; each pair gives its word back |
| SampicDataFormat.TrailerValidity | user/cmstotem/extern/SampicDataFormat.hh:41 | `TrailerValid` holds exactly when the trailer is the end marker 0xeeee alone |
| SampicDataFormat.EventHeaderRoundTrip | user/cmstotem/extern/SampicDataFormat.hh:19-36 | a header built from its fields has the begin marker and reads every field back, including the 32-bit event and trigger numbers split into low and high words |
| SampicDataFormat.Payload | user/cmstotem/extern/SampicDataFormat.hh:45 | the LP-bus payload, a sum of two bytes, is at most 510 |
| SampicDataFormat.LpbusHeaderRoundTrip | user/cmstotem/extern/SampicDataFormat.hh:44-48 | channel index and command read back as the single bytes written; the payload reads back as the sum of its two bytes |
| SampicDataFormat.LpbusBytes | user/cmstotem/extern/SampicDataFormat.hh:45-47 | `LpbusChannelIndex` is the low byte of word 0 and `Command` the high byte of word 1; the payload adds up the other two bytes |
| SampicDataFormat.SampicWordZero | user/cmstotem/extern/SampicDataFormat.hh:51-52 | `SampicHeaderValid` holds exactly when word 0 is the ADC latch (`AdcLatch`, its high byte) followed by the byte 0x69 |
| SampicDataFormat.SampicWordsKept | user/cmstotem/extern/SampicDataFormat.hh:59-63 | the 16-bit masks of `TimestampAGray`, `TimestampBGray` and `CellInfo` keep words 4 to 6 whole; `TimestampA` and `TimestampB` are the values whose Gray codes are words 4 and 5 |
| SampicDataFormat.FpgaTimestamp | user/cmstotem/extern/SampicDataFormat.hh:53-58 | the FPGA time stamp is below 2^40 |
| SampicDataFormat.SampicChannelIndex | user/cmstotem/extern/SampicDataFormat.hh:64 | the SAMPIC channel index, bits 6-9 of word 6, is at most 15 |
| SampicDataFormat.SampicCellInfo | user/cmstotem/extern/SampicDataFormat.hh:65 | the cell info, bits 0-5 of word 6, is at most 63 |
| SampicDataFormat.SampicHeaderRoundTrip | user/cmstotem/extern/SampicDataFormat.hh:50-66 | a SAMPIC header built from its fields carries the 0x69 validity byte and reads back ADC latch, FPGA time stamp, channel index and cell info; time stamps stored as Gray codes read back in binary |
| SampicDataFormat.CellFieldsRoundTrip | user/cmstotem/extern/SampicDataFormat.hh:63-65 | a channel index and cell id stored in word 6 read back |
| SampicDataFormat.ChannelStreamWords | user/cmstotem/extern/SampicEvent.hh:33 | a `ChannelStream<64>` occupies 2 + 7 + 64 = 73 words |
| SampicEvent.Words16 | user/cmstotem/extern/SampicEvent.cc:61-65 | a block of n bytes gives n/2 words |
| SampicEvent.Words16At | user/cmstotem/extern/SampicEvent.cc:62-65 | word i is byte 2i plus 256 times byte 2i+1 |
| SampicEvent.Words16OfBytes16 | user/cmstotem/extern/SampicEvent.cc:61-65 | packing the little-endian bytes of a word stream gives the word stream back |
| SampicEvent.Bytes16OfWords16 | user/cmstotem/extern/SampicEvent.cc:61-65 | splitting the words of an even-length block back into bytes gives the block |
| SampicEvent.OddByteIgnored | user/cmstotem/extern/SampicEvent.cc:62 | an odd trailing byte does not change the word stream |
| SampicEvent.PackWords | user/cmstotem/extern/SampicEvent.cc:61-65 | the packing loop produces exactly the little-endian word stream |
| SampicEvent.PopcountIsCountSet | user/cmstotem/extern/SampicEvent.cc:73-78 | the bit count `Popcount` equals the number of set bits of the binary expansion, at most n below 2^n |
| SampicEvent.CountChannels | user/cmstotem/extern/SampicEvent.cc:73-78 | the shifting `while (ch_map)` loop counts the set bits of the channel bitmap, at most 16 |
| SampicEvent.StreamAtWords | user/cmstotem/extern/SampicEvent.cc:82-93 | the channel stream `StreamAt` reads at a position consists exactly of the 73 words found there, samples verbatim and in order |
| SampicEvent.ReadStream | user/cmstotem/extern/SampicEvent.cc:82-93 | the header copies and the 64-sample loop read the channel stream at the cursor and advance it by 73 words |
| SampicEvent.WalkOnlyAppends | user/cmstotem/extern/SampicEvent.cc:67-100 | the fragment walk `Walk` only appends to the channel streams held before |
| SampicEvent.WalkChannelsOnlyAppends | user/cmstotem/extern/SampicEvent.cc:81-99 | `WalkChannels`, reading channel streams and the trailer, only appends to the channel streams held before |
| SampicEvent.WalkBlocksOnlyAppends | user/cmstotem/extern/SampicEvent.cc:29-30 | `WalkBlocks`, converting the blocks of an event, only appends to the channel streams held before |
| SampicEvent.SampicEvent.constructor | user/cmstotem/extern/SampicEvent.cc:17-22 | a new event holds no channel stream |
| SampicEvent.SampicEvent.ConvertBlock | user/cmstotem/extern/SampicEvent.cc:58-101 | the new header, streams and trailer and the outcome are those of the fragment walk over the packed words, from the old contents |
| SampicEvent.SampicEvent.ConvertEvent | user/cmstotem/extern/SampicEvent.cc:24-31 | the blocks are converted in block-list order; the first failing block stops the conversion |
| SampicFragments.FragmentSize | user/cmstotem/extern/SampicEvent.cc:67-100 | a well-formed fragment occupies 12 + 73 * popcount(word 9) + 1 words |
| SampicFragments.AbsorbAllContents | user/cmstotem/extern/SampicEvent.cc:67-100 | after several fragments the streams are all fragments' streams in order of appearance, and header and trailer are the last fragment's |
| SampicFragments.WalkStreams | user/cmstotem/extern/SampicEvent.cc:81-95 | reading the channel streams that lie at the cursor appends them in order and moves past them |
| SampicFragments.WalkFragment | user/cmstotem/extern/SampicEvent.cc:67-99 | a well-formed fragment appends popcount(word 9) streams and sets header and trailer; a valid trailer lets the walk go on after it, any other trailer word ends it with that word, the streams already appended |
| SampicFragments.WalkFragments | user/cmstotem/extern/SampicEvent.cc:68-100 | fragments laid end to end are read one after the other |
| SampicFragments.EncodedFragmentsConvert | user/cmstotem/extern/SampicEvent.cc:58-101 | the bytes of whole valid fragments convert without error, giving every channel stream in order and the last header and trailer |
| SampicFragments.BeginMarkerIgnored | user/cmstotem/extern/SampicEvent.cc:69-97 | changing a fragment's begin-marker word does not change the outcome: only the trailer is checked |
| SampicFragments.ConvertedFragments | user/cmstotem/extern/SampicEvent.cc:67-100 | a walk that ends without error has read whole well-formed fragments with valid trailers up to the last word |
| SampicFragments.ConvertedIffFragments | user/cmstotem/extern/SampicEvent.cc:67-100 | a block converts without error exactly when its words are an exact concatenation of well-formed fragments with valid trailers |
| SampicFragments.EncodedBlocksConvert | user/cmstotem/extern/SampicEvent.cc:24-31 | across the blocks of an event, processed in block-list order, channel streams accumulate in order and header and trailer are the last fragment's |
| SampicCollector.Connect | user/cmstotem/module/src/SampicDataCollector.cc:41-45 | the connection's queue is present and empty, the connection is active, other queues are unchanged |
| SampicCollector.Disconnect | user/cmstotem/module/src/SampicDataCollector.cc:47-54 | the connection becomes inactive; the group is emptied exactly when as many connections are inactive as there are queues, and is otherwise unchanged |
| SampicCollector.Receive | user/cmstotem/module/src/SampicDataCollector.cc:75-95 | a non-trigger event changes nothing; otherwise the event joins the back of its queue (created if missing), other queues and the inactive set are unchanged, and an event is written exactly when no queue is empty |
| SampicCollector.ConnectIdempotent | user/cmstotem/module/src/SampicDataCollector.cc:41-45 | connecting twice equals connecting once |
| SampicCollector.DisconnectResetsIffAllInactive | user/cmstotem/module/src/SampicDataCollector.cc:47-54 | for a known connection, with inactive connections among the known ones, a disconnect resets the group exactly when every known connection is then inactive |
| SampicCollector.UnknownDisconnectResets | user/cmstotem/module/src/SampicDataCollector.cc:49-53 | for a connection without a queue, a disconnect resets a valid group exactly when all known connections but one are inactive, so a known connection is still active when the group is forgotten |
| SampicCollector.ConnectKeepsValid | user/cmstotem/module/src/SampicDataCollector.cc:41-45 | connecting keeps the inactive connections among the known ones |
| SampicCollector.DisconnectKeepsValid | user/cmstotem/module/src/SampicDataCollector.cc:47-54 | disconnecting a known connection keeps the inactive connections among the known ones |
| SampicCollector.ReceiveKeepsValid | user/cmstotem/module/src/SampicDataCollector.cc:82 | receiving keeps the inactive connections among the known ones |
| SampicCollector.ReceiveOnlyGrows | user/cmstotem/module/src/SampicDataCollector.cc:75-95 | receiving never removes anything: each old queue is a prefix of its new contents |
| SampicCollector.WritesIffOthersNonEmpty | user/cmstotem/module/src/SampicDataCollector.cc:82-94 | a trigger event is written out exactly when every other queue already held an event |
| SampicCollector.WritesOnceAllNonEmpty | user/cmstotem/module/src/SampicDataCollector.cc:82-94 | once no queue is empty, every later trigger event is written and no queue becomes empty |
| SampicCollector.EveryQueueNonEmpty | user/cmstotem/module/src/SampicDataCollector.cc:83-86 | the scan over the map answers whether no queue is empty |
| SampicCollector.ConfigValue | user/cmstotem/module/src/SampicDataCollector.cc:62-63 | a missing key reads as 0; a present one is stored modulo 2^32 |
| SampicCollector.SampicDataCollector.constructor | user/cmstotem/module/src/SampicDataCollector.cc:24-28 | a new collector knows no connection and has both print flags clear |
| SampicCollector.SampicDataCollector.DoConnect | user/cmstotem/module/src/SampicDataCollector.cc:41-45 | the new group is `Connect` of the old one; print flags unchanged |
| SampicCollector.SampicDataCollector.DoDisconnect | user/cmstotem/module/src/SampicDataCollector.cc:47-54 | the new group is `Disconnect` of the old one; print flags unchanged |
| SampicCollector.SampicDataCollector.DoConfigure | user/cmstotem/module/src/SampicDataCollector.cc:56-65 | both print flags are cleared, then read from the configuration when there is one; queues unchanged |
| SampicCollector.SampicDataCollector.DoReset | user/cmstotem/module/src/SampicDataCollector.cc:67-73 | queues, inactive set and both print flags are cleared |
| SampicCollector.SampicDataCollector.DoReceive | user/cmstotem/module/src/SampicDataCollector.cc:75-95 | the new group and the outcome are `Receive` of the old group |
| SrsCollector.Wrap | user/srs/module/src/SrsDataCollector.cc:81-88 | the wrapped event has sub-events [bif, cal], the common trigger number and the bif event's begin and end time stamps |
| SrsCollector.MatchShape | user/srs/module/src/SrsDataCollector.cc:68-94 | after `Match`, the matching loop's function, one queue is empty, what is left of each queue is a suffix of it, every written event is a well-formed pair, and at most as many events are written as were taken off each queue |
| SrsCollector.MatchTakesBifInOrder | user/srs/module/src/SrsDataCollector.cc:68-94 | the beam-interface sub-events of the written events are, in order, a subsequence of the beam-interface events the matching took off its queue |
| SrsCollector.MatchTakesCalInOrder | user/srs/module/src/SrsDataCollector.cc:68-94 | the SRS sub-events of the written events are, in order, a subsequence of the SRS events the matching took off its queue |
| SrsCollector.AlignedQueuesAllMatched | user/srs/module/src/SrsDataCollector.cc:68-94 | queues with the same trigger numbers in the same order are matched pair by pair and both end empty |
| SrsCollector.SkewedFrontDropped | user/srs/module/src/SrsDataCollector.cc:71-80 | a front with the smaller trigger number is dropped while the other queue is untouched; the later match is then written |
| SrsCollector.Route | user/srs/module/src/SrsDataCollector.cc:55-67 | events from the beam-interface producer join the bif queue, from `Srs1` the cal queue, from others neither; a BORE event sets that side's start time stamp from `ROCStartTS`, defaulting to the old value |
| SrsCollector.ReceiveProperties | user/srs/module/src/SrsDataCollector.cc:54-94 | after a receive (`Receive`: routing, then `Match`) one queue is empty, the queues are suffixes of the routed queues, the time stamps are those routing set, and every written event is a well-formed pair |
| SrsCollector.MatchingPartnerWritten | user/srs/module/src/SrsDataCollector.cc:81-93 | an SRS event matching the one waiting beam-interface event is written out with it at once and both queues end empty |
| SrsCollector.MatchLoop | user/srs/module/src/SrsDataCollector.cc:68-94 | the pop-front loop computes exactly the matching and terminates |
| SrsCollector.SrsDataCollector.constructor | user/srs/module/src/SrsDataCollector.cc:32-34 | both start time stamps are zero and both queues empty |
| SrsCollector.SrsDataCollector.DoConnect | user/srs/module/src/SrsDataCollector.cc:36-40 | a warning is raised exactly for a producer named neither `srsProducer` nor `Srs1`; the state is not touched |
| SrsCollector.SrsDataCollector.DoStartRun | user/srs/module/src/SrsDataCollector.cc:45-48 | both queues are emptied and the start time stamps stay |
| SrsCollector.SrsDataCollector.DoReceive | user/srs/module/src/SrsDataCollector.cc:54-98 | the new state and the written events are routing then matching of the old state; the backlog flag is raised exactly when a queue holds more than 1000 events |
| SrsWords.Words32 | user/srs/extern/SrsEvent.cc:33-37 | a block whose length is a multiple of 4 gives size/4 words, each below 2^32 |
| SrsWords.Words32At | user/srs/extern/SrsEvent.cc:34-36 | word k is b[4k] + b[4k+1]·2^8 + b[4k+2]·2^16 + b[4k+3]·2^24 |
| SrsWords.Words32OfBytes32 | user/srs/extern/SrsEvent.cc:33-37 | packing the little-endian bytes of a word stream gives it back |
| SrsWords.Bytes32OfWords32 | user/srs/extern/SrsEvent.cc:33-37 | splitting every word back into four little-endian bytes reproduces the block |
| SrsEvent.PackFrameWords | user/srs/extern/SrsEvent.cc:31-37 | the stride-4 loop produces exactly the little-endian words |
| SrsEvent.ReadWord | user/srs/extern/SrsEvent.cc:34-37 | one iteration, with its byte and word masks, gives the little-endian word of the four bytes |
| SrsEvent.SrsEvent.constructor | user/srs/extern/SrsEvent.cc:18-21 | a new event has its event-builder mode and no frame |
| SrsEvent.SrsEvent.FromEvent | user/srs/extern/SrsEvent.cc:23-29 | converting an event's blocks keeps only the frame of the last block |
| SrsEvent.SrsEvent.ConvertBlock | user/srs/extern/SrsEvent.cc:31-39 | the frame is replaced by the one built from the block's words and the event's mode |
| SrsEvent.SrsEvent.Print | user/srs/extern/SrsEvent.cc:41-43 | printing fails exactly when the event was never converted |
| SrsConfig.Dispatch | user/srs/extern/SrsConfig.cc:32-43 | block number 0 loads the system register, 1 the APV-application register, leaving the other untouched; any other number changes nothing |
| SrsConfig.LastBlockFor | user/srs/extern/SrsConfig.cc:21-22 | the index found is that of the last block selecting the register; none when no block selects it |
| SrsConfig.LastBlockWins | user/srs/extern/SrsConfig.cc:19-43 | after `Configure` has converted all blocks, each register holds the words of the last block selecting it, or what it held before |
| SrsConfig.BlockNumberTruncated | user/srs/extern/SrsConfig.cc:19-26 | block numbers are taken modulo 2^16 by `RegisterNumber`: blocks 65536 and 65537 load the system and the APV-application register |
| SrsConfig.PackRegisterWords | user/srs/extern/SrsConfig.cc:27-31 | the unmasked stride-4 loop gives the same little-endian words as the `SrsEvent` packer |
| SrsConfig.SrsConfig.constructor | user/srs/extern/SrsConfig.cc:15-17 | both registers hold their defaults |
| SrsConfig.SrsConfig.FromEvent | user/srs/extern/SrsConfig.cc:19-24 | the registers are those of converting every block in block-list order |
| SrsConfig.SrsConfig.ConvertBlock | user/srs/extern/SrsConfig.cc:26-44 | the registers are dispatched on the register number with the block's words |

## Left out

- **Printing.** `Print` of `SampicEvent`, `SrsEvent` and `SrsConfig`, the register prints in `SrsConfig::ConvertBlock`, and the collector printouts are text output. Only `SrsEvent::Print`'s refusal of an unconverted event is modelled.
- **Warnings.** All log messages are left out. `EUDAQ_WARN` calls appear only as the boolean outcomes of the SRS `DoConnect` and `DoReceive`.
- **Serialisation.** `SampicEvent::Serialize` and the deserialising constructors write to, or read from, a foreign serializer; the deserialising constructor of `SampicEvent` is not implemented in the source.
- **The `std::mutex` of the SAMPIC collector.** Every operation is one atomic step.
- **Floating-point constants.** `kSamplingPeriod` and `kSampicADCDepth` are not used by any modelled routine.
- **Foreign types.**
  - `srs::SrsFrame`, `srs::SystemRegister` and `srs::ApvAppRegister` are foreign libraries. A frame is modelled as its words and mode, a register as its words or its defaults.
  - Of `eudaq::Event`, the model keeps only the record fields it needs. Tags are already-numeric values, so the parsing of tag strings is not modelled.
  - `WriteEvent` becomes the written events, or the `Wrote` outcome, returned by `DoReceive`. The empty `SampicEvent` that the SAMPIC collector writes carries nothing, so it is modelled by the outcome alone.
- **Event layout.** The block-number list of an event, and the order in which `GetBlockNumList` returns it, belong to `eudaq::Event`. The model takes the blocks as a sequence in block-list order.
- **Configuration parsing.** Configuration values are integers; the parsing of configuration strings is foreign. `DoConfigure`'s `conf->Print()` is output.
- **Exceptions.** They become outcomes:
  - `EUDAQ_THROW` in the SAMPIC `DoReceive` becomes `NotATrigger`, with the state unchanged;
  - the invalid-trailer exception becomes `InvalidTrailer(word)`.
- **No-op SRS members.** The SRS `DoDisconnect` and `DoConfigure` change nothing and are not modelled as members.
- SampicEvent.SampicEvent.constructor: the source leaves the header and trailer words uninitialised; the model starts them at zero.
- SampicEvent.SampicEvent.ConvertBlock: reading past the end of a block that ends inside a fragment is undefined in the source. The model stops with `Truncated` instead.
- SampicEvent.SampicEvent.ConvertEvent: it stands for the constructor `SampicEvent(const Event&)` (SampicEvent.cc:24-31). The invalid-trailer exception escapes that constructor, so in the source no event exists after a failure, and its caller receives no object. The model runs the conversion on a live object and keeps the partial contents; that state is not observable in the source.
- SrsEvent.SrsEvent.ConvertBlock: the source reads past the end of a block whose length is not a multiple of 4. The model requires whole words.
- SrsConfig.SrsConfig.ConvertBlock: the source reads past the end of a block whose length is not a multiple of 4. The model requires whole words.
- SrsConfig.PackRegisterWords, SrsEvent.ReadWord, SampicDataFormat.EventNumber and SampicDataFormat.TriggerNumber: the source shifts in `int`, where the shift overflows a signed int: `b << 24` for bytes of 128 and above (SrsConfig.cc:30 and SrsEvent.cc:34-36), and `<< 16` of a high half of 0x8000 and above (SampicDataFormat.hh:30-31). The model takes the 32-bit value that conversion to `uint32_t` yields.
- **The SRS producer and the other context.** The producers, monitors, converters and pass-through collectors are not part of this model.
