# Verified model of the nexenne CAN protocols, codecs and searches

This project models, in Dafny, the algorithmic core of the nexenne CAN module and two
smaller components beside it, and proves properties of the model.

- **J1939 transport protocol.** `TransportProtocol` reads a frame as an event and says what one
  event may do to the table of transfers. `TransportReassembler` is the receiver: a session vector
  updated in place with swap-with-last removal, shown to refine that table. `TransportRuns` proves
  what holds over every run of arbitrary frames, `TransportEviction` which transfers survive going by
  the bus history alone, `TransportBam` models the segmenter and the round trip,
  `TransportInterleaving` many senders at once, and `TransportWire` says bit by bit what a frame is
  and proves the round trip of a transfer to one address. `J1939` is the identifier layer. The
  protocol is SAE J1939-21, sections 5.2 and 5.10.
- **Signal packing and codec.** `Packing` states the DBC bit layout and its compiled chunk form,
  `PackingLayout` proves that the chunks refine the layout, `PackingLaws` the laws of reading and
  writing, and `PackingPlan` is the object with the builder, gather and scatter loops. `Signals`,
  `CodecArithmetic`, `Codec` and `CodecLaws` add masks, sign extension, scaling, rounding and range
  checks on frames written in place.
- **DBC parser.** `DbcText` is the scanner, `DbcRecords` the two line parsers, `DbcFile` the line loop
  and the float-marking pass. `DbcLexing` and `DbcGrammar` state the accepted lines as a grammar and
  prove that the parsers accept exactly those; `DbcLines` says how a text falls into lines. `DbcFileLaws` says what a parsed file contains and which malformed
  records fail it. `DbcPrinting` and `DbcFileRoundTrip` print signals, headers and whole databases and
  prove that parsing reads them back; `DbcFileReprint` does so for whatever a file was accepted as.
- **Searches and percentiles.** `SortedSearch` and `Percentile`.

`Words` holds the fixed-width unsigned types and the bitwise operators, one lemma per operator
saying what it does to each bit; `CanTypes` the shared small types.

## Conventions

Bytes and words are naturals in a range type, so a narrowing that could wrap is an obligation that
is proved; the places where the code does wrap (the packet counter, the 32-bit open order, the casts
of the codec) are written out. Bitwise operators are the real ones, except that fields of the PGN
and size bytes that are read or written by constant shifts are stated through division and remainder.
Doubles are exact reals with the two infinities and NaN beside them. A function that a method is
proved against takes and returns values; the method works on fields and arrays as the code does.

In the DBC part a BO_ or SG_ *record* is a line whose first word is that keyword, and a BO_ or SG_
*line* is one the parser's loop takes for it, which starts with the keyword and a space.

Where the code and its documentation disagree the model follows the code:

- `j1939_id::make` promises that `pgn()` reflects its argument; for a PDU1 group with a nonzero low
  byte it does not (`J1939.MakeKeepsPgnExactlyWhen`).
- The DBC guide (doc/module/can/dbc.org:47) says a malformed BO_ or SG_ record is a parse error. It is
  one exactly when a space follows its keyword and, for an SG_ record, a BO_ line comes before it;
  any other is dropped unread (`DbcFileLaws.MalformedReportedExactlyWhen`). Files it fails on: a bare
  `BO_` (`DbcFileLaws.BareKeywordIsDropped`), an SG_ record with a tab after its keyword
  (`DbcFileLaws.TabbedKeywordIsDropped`), an SG_ record before any message
  (`DbcFileLaws.StraySignalIsDropped`).
- `percentile`, `median`, `min` and `max` promise a non-negative result, which negative samples can
  break. Every percentile keeps the promise exactly when no sample is negative
  (`Percentile.NonNegativeExactlyWhen`), and so does the minimum; the maximum when some sample is not
  negative (`Percentile.ExtremesNonNegativeExactlyWhen`); the median when more than half of the samples
  are not negative, or just half and the larger of the central two outweighs the other
  (`Percentile.MedianNonNegativeExactlyWhen`). Samples it fails on: `Percentile.NegativePercentile` and
  `Percentile.NegativeMedian`.
- `segment_bam` announces the low 24 bits of the PGN, so a larger one comes back reduced
  (`TransportBam.SegmentThenReassemble` says so for every 32-bit PGN).

## Model

| member | source | states |
|---|---|---|
| `TransportReassembler.Reassembler.Accept` | modules/can/include/nexenne/can/j1939_transport.hpp:261-356 | one received frame is one step of the protocol machine over the table keyed by (source, destination); what it returns is never anything but the message the bus history makes due |
| `TransportReassembler.Reassembler.Step` | modules/can/include/nexenne/can/j1939_transport.hpp:261-356 | the branches of the accept body: ignored frames, announces and data packets |
| `TransportReassembler.Reassembler.OpenSession` | modules/can/include/nexenne/can/j1939_transport.hpp:279-313 | an announce drops the old transfer of its key, rejects an impossible offer, makes room and opens a transfer |
| `TransportReassembler.Reassembler.TakePacket` | modules/can/include/nexenne/can/j1939_transport.hpp:315-350 | a data packet advances, drops or completes the transfer of its own key |
| `TransportReassembler.Reassembler.Find` | modules/can/include/nexenne/can/j1939_transport.hpp:225-233 | finds the session of a key, exactly when the table has one |
| `TransportReassembler.Reassembler.Erase` | modules/can/include/nexenne/can/j1939_transport.hpp:235-243 | swap-with-last removal takes exactly the given key out of the table and keeps keys distinct |
| `TransportReassembler.Reassembler.EvictOldest` | modules/can/include/nexenne/can/j1939_transport.hpp:208-219 | removes a session with the smallest open order and nothing else; does nothing on an empty vector |
| `TransportReassembler.Reassembler.SessionsWellFormed` | modules/can/include/nexenne/can/j1939_transport.hpp:192-204 | in every reachable reassembler each stored session agrees with its announce: size 1 to 1785, packets = ceil(size/7), fewer received than announced, seven bytes buffered per packet |
| `TransportReassembler.SwapWithLastErases` | modules/can/include/nexenne/can/j1939_transport.hpp:235-243 | overwriting position i with the last session and dropping the end is removing one key from the map the vector stands for |
| `TransportRuns.DeliveredExactly` | modules/can/include/nexenne/can/j1939_transport.hpp:275-350 | at every step of every run, a message is returned if and only if a packet completes the last announced transfer of its key in order with none missing and that transfer was not evicted; it is bytes 1 to 7 of those packets cut to the announced size |
| `TransportRuns.TableMatchesHistory` | modules/can/include/nexenne/can/j1939_transport.hpp:187-204 | over every run a session exists exactly for the keys whose last announce is valid, whose packets since are in order and incomplete, and which were not evicted, and it holds exactly those bytes |
| `TransportRuns.ReachableTable` | modules/can/include/nexenne/can/j1939_transport.hpp:187-204 | every reachable table has at most eight sessions, each under its own key and consistent with its announce |
| `TransportRuns.NothingWraps` | modules/can/include/nexenne/can/j1939_transport.hpp:325-347 | the one-byte packet counter never wraps and a returned message has exactly the announced size |
| `TransportRuns.OnlyOwnKeyChanges` | modules/can/include/nexenne/can/j1939_transport.hpp:292-308 | a frame changes only its own key; the one exception is a valid announce with eight other transfers live, which removes exactly the oldest of them |
| `TransportRuns.EvictsTheEarliestAnnounced` | modules/can/include/nexenne/can/j1939_transport.hpp:206-219 | while at most 2^32 transfers were opened, the evicted session is the one whose announce came first on the bus |
| `TransportRuns.OrdersFollowAnnounces` | modules/can/include/nexenne/can/j1939_transport.hpp:304-304 | within that bound open orders are distinct, below the next order, and ordered as the announces were |
| `TransportEviction.SurvivesFewRivals` | modules/can/include/nexenne/can/j1939_transport.hpp:206-308 | while at most 2^32 transfers were opened, one is never evicted unless eight other keys made a valid announce after it did, going by the bus history alone |
| `TransportEviction.DeliveredByHistory` | modules/can/include/nexenne/can/j1939_transport.hpp:206-350 | within that bound every step, whatever frames are mixed in, returns exactly the message the bus history makes due |
| `TransportEviction.EightRivalsEvict` | modules/can/include/nexenne/can/j1939_transport.hpp:206-308 | eight rivals are enough: the ninth of nine valid announces evicts the first |
| `TransportBam.SegmentBam` | modules/can/include/nexenne/can/j1939_transport.hpp:375-421 | a payload over 1785 bytes is rejected, any other becomes one announce and ceil(size/7) numbered packets, the last padded with 0xFF |
| `TransportBam.OfferSurvives` | modules/can/include/nexenne/can/j1939_transport.hpp:279-398 | a receiver reads the announce bytes of a broadcast back as its size, its packet count and the low 24 bits of its PGN |
| `TransportBam.FillPacket` | modules/can/include/nexenne/can/j1939_transport.hpp:407-413 | the eight bytes of packet n: its number and seven payload bytes or padding |
| `TransportBam.BamIsClassified` | modules/can/include/nexenne/can/j1939_transport.hpp:390-420 | the receiver reads the frames of a broadcast as an announce of its size, count and 24-bit PGN and then its packets, from the sender to the global address |
| `TransportBam.DueInBam` | modules/can/include/nexenne/can/j1939_transport.hpp:375-421 | a broadcast makes its message due at its last frame and at no earlier one |
| `TransportBam.SegmentThenReassemble` | modules/can/include/nexenne/can/j1939_transport.hpp:261-421 | wherever in a run the frames of a broadcast come consecutively, they return nothing until the last one and then exactly the payload |
| `TransportInterleaving.InterleavedDelivery` | modules/can/include/nexenne/can/j1939_transport.hpp:261-421 | any interleaving of the broadcasts of at most eight senders with each other and with frames of other keys that open no transfer (no transport frames, stray data packets, impossible announces) returns each payload once, at the last packet of its own broadcast, in order, and nothing else |
| `TransportInterleaving.NobodyEvicted` | modules/can/include/nexenne/can/j1939_transport.hpp:296-298 | with at most eight senders on the bus no transfer is ever evicted |
| `TransportWire.ClassifyExactly` | modules/can/include/nexenne/can/j1939_transport.hpp:261-320 | for every frame, from its bits: an extended frame of PGN 0xEC00 with at least eight bytes is an announce if and only if its first byte is 16 or 32, with size, count and PGN in bytes 1-2, 3 and 5-7, low byte first; one of PGN 0xEB00 is a packet; any other is ignored |
| `TransportWire.OpensExactlyWhen` | modules/can/include/nexenne/can/j1939_transport.hpp:284-295 | an announce opens a transfer if and only if its size is 1 to 1785 and its count is the least number of seven-byte packets that holds it |
| `TransportWire.BamOnTheWire` | modules/can/include/nexenne/can/j1939_transport.hpp:375-421 | the identifiers and all bytes of the frames of a broadcast |
| `TransportWire.RtsIsClassified` | modules/can/include/nexenne/can/j1939_transport.hpp:261-320 | the receiver reads a request to send and its packets as one transfer from the source to the addressed node |
| `TransportWire.AddressedRoundTrip` | modules/can/include/nexenne/can/j1939_transport.hpp:261-350 | a request to send to any address, followed in a run by its numbered packets, returns exactly the payload at the last one and nothing before |
| `TransportWire.AddressedDelivery` | modules/can/include/nexenne/can/j1939_transport.hpp:261-350 | the same with any other frames in between, while fewer than eight other keys announce over it and at most 2^32 transfers were opened |
| `J1939.MadeFields` | modules/can/include/nexenne/can/j1939_id.hpp:91-109 | an assembled identifier decodes to the given priority, page bits, PDU format, addressed node and source |
| `J1939.MakeIsSum` | modules/can/include/nexenne/can/j1939_id.hpp:99-108 | the or-ed fields of an assembled identifier do not overlap |
| `J1939.MakeKeepsPgnExactlyWhen` | modules/can/include/nexenne/can/j1939_id.hpp:74-109 | make promises that pgn() reflects its argument; that holds if and only if the group is PDU2 or its low byte is zero |
| `J1939.MakeDropsPgnByte` | modules/can/include/nexenne/can/j1939_id.hpp:88-109 | an 18-bit PGN for which that promise fails |
| `J1939.MakeOfFields` | modules/can/include/nexenne/can/j1939_id.hpp:91-261 | an extended identifier with no other flag bits is rebuilt from its own priority, PGN and addresses |
| `J1939.PgnIsSum` | modules/can/include/nexenne/can/j1939_id.hpp:241-247 | the or-ed fields of the PGN do not overlap |
| `PackingPlan.PackingPlan.constructor` | modules/can/include/nexenne/can/packing_plan.hpp:142-155 | the built plan holds the compiled chunks of its layout and their reach, for both byte orders |
| `PackingPlan.PackingPlan.PushChunk` | modules/can/include/nexenne/can/packing_plan.hpp:77-88 | appends one masked chunk inside the nine slots and keeps the required length one past the highest byte |
| `PackingPlan.PackingPlan.BuildLittleEndian` | modules/can/include/nexenne/can/packing_plan.hpp:93-108 | the Intel loop never overruns nine chunks and no narrowed value wraps |
| `PackingPlan.PackingPlan.BuildBigEndian` | modules/can/include/nexenne/can/packing_plan.hpp:114-127 | the Motorola loop never overruns nine chunks and no narrowed value wraps |
| `PackingPlan.PackingPlan.Extract` | modules/can/include/nexenne/can/packing_plan.hpp:254-266 | bit k of the value is the payload bit the DBC layout gives to k, and no bit lies above the field |
| `PackingPlan.PackingPlan.Insert` | modules/can/include/nexenne/can/packing_plan.hpp:281-293 | in place: every position of the field holds its bit of raw and every other payload bit is unchanged |
| `PackingLayout.ExtractIsLayout` | modules/can/include/nexenne/can/packing_plan.hpp:254-266 | gathering the compiled chunks refines the bit-by-bit layout, for every start bit, width 1 to 64 and order |
| `PackingLayout.InsertIsLayout` | modules/can/include/nexenne/can/packing_plan.hpp:281-293 | scattering the compiled chunks refines the bit-by-bit layout and frames the rest of the payload |
| `PackingLayout.SawtoothIsMirrored` | modules/can/include/nexenne/can/packing_plan.hpp:110-113 | walking the Motorola sawtooth is counting up in mirrored bit numbers |
| `PackingLayout.MotorolaPosition` | modules/can/include/nexenne/can/packing_plan.hpp:110-127 | the closed form of the payload bit a Motorola field gives to value bit k |
| `PackingLayout.PositionInjective` | modules/can/include/nexenne/can/packing_plan.hpp:90-127 | no payload bit holds two value bits, in either byte order |
| `PackingLayout.ChunksTile` | modules/can/include/nexenne/can/packing_plan.hpp:93-127 | the value ranges of the chunks tile [0, length): each value bit in exactly one chunk |
| `PackingLayout.ChunksTakeDistinctBits` | modules/can/include/nexenne/can/packing_plan.hpp:93-127 | no two chunks take the same payload bit |
| `PackingLayout.AtMostNineChunks` | modules/can/include/nexenne/can/packing_plan.hpp:67-68 | every plan of width 1 to 64 has between one and nine chunks |
| `PackingLayout.RequiredLengthIsExact` | modules/can/include/nexenne/can/packing_plan.hpp:228-238 | the required length is exactly one past the last payload byte the field touches |
| `PackingLaws.ExtractAfterInsert` | modules/can/include/nexenne/can/packing_plan.hpp:254-293 | reading after writing gives raw mod 2^length |
| `PackingLaws.InsertAfterExtract` | modules/can/include/nexenne/can/packing_plan.hpp:254-293 | writing back what was read leaves the payload unchanged |
| `PackingLaws.InsertSeesLowBits` | modules/can/include/nexenne/can/packing_plan.hpp:268-293 | only the low length bits of the written value matter |
| `PackingLaws.DisjointReadsUnaffected` | modules/can/include/nexenne/can/packing_plan.hpp:254-293 | a field of either order still reads its old value after a disjoint field of either order is written |
| `PackingLaws.DisjointInsertsCommute` | modules/can/include/nexenne/can/packing_plan.hpp:281-293 | writes to disjoint fields commute |
| `CodecArithmetic.SignExtendMeans` | modules/can/include/nexenne/can/codec.hpp:83-92 | flip-and-subtract reads a masked word of every width 1 to 64 as two's complement |
| `CodecArithmetic.SignExtendInvertsMask` | modules/can/include/nexenne/can/codec.hpp:51-92 | masking an in-range integer to the field and sign extending it gives the integer back |
| `CodecArithmetic.RoundExactlyWhen` | modules/can/include/nexenne/can/codec.hpp:321-325 | rounding gives the nearest integer, and of two equally near ones the one further from zero |
| `CodecArithmetic.LowMask` | modules/can/include/nexenne/can/codec.hpp:52-60 | the low bits ones, safe at width zero and at full width |
| `Codec.ReadBits` | modules/can/include/nexenne/can/codec.hpp:179-185 | the raw field, or signal_out_of_range when it runs past the frame |
| `Codec.WriteBits` | modules/can/include/nexenne/can/codec.hpp:201-208 | writes the masked field in place, or fails and leaves the frame unchanged |
| `Codec.Decode` | modules/can/include/nexenne/can/codec.hpp:226-241 | reads, sign extends when signed, and scales |
| `Codec.DecodeValue` | modules/can/include/nexenne/can/codec.hpp:260-280 | as decode, with no value exactly when every payload bit of the field is set, or none is, or either, as the policy selects |
| `Codec.Encode` | modules/can/include/nexenne/can/codec.hpp:301-347 | clamps, unscales, rounds, range checks and writes; every failure leaves the payload unchanged |
| `Codec.EncodeStrict` | modules/can/include/nexenne/can/codec.hpp:369-376 | rejects a value outside the range instead of clamping, and otherwise encodes |
| `Codec.WriteNotAvailable` | modules/can/include/nexenne/can/codec.hpp:408-411 | on success every payload bit of the field is set and the field reads back as all ones; every other payload bit is unchanged |
| `Codec.IsNotAvailable` | modules/can/include/nexenne/can/codec.hpp:426-433 | true exactly when every payload bit of the field is set |
| `Codec.CompiledIsBuilt` | modules/can/include/nexenne/can/packing_plan.hpp:142-155 | the plan stored as a value beside a parsed signal is the plan object built from it |
| `CodecLaws.DecodeOfEncode` | modules/can/include/nexenne/can/codec.hpp:226-347 | in exact reals, a successful encode of an integer signal decodes to within half the scale of the clamped value |
| `CodecLaws.DecodeOfStrictEncode` | modules/can/include/nexenne/can/codec.hpp:349-376 | for a value inside the range the bound is to the value itself |
| `CodecLaws.DecodedMeans` | modules/can/include/nexenne/can/codec.hpp:226-241 | decoding gives the number of the field, unsigned or two's complement, times the scale plus the offset |
| `CodecLaws.EncodedStores` | modules/can/include/nexenne/can/codec.hpp:301-347 | a successful encode stores the rounded quotient of the clamped value less the offset by the scale |
| `CodecLaws.EncodeKeepsOtherBits` | modules/can/include/nexenne/can/codec.hpp:301-347 | and changes no payload bit outside the field |
| `CodecLaws.EncodeSaturates` | modules/can/include/nexenne/can/codec.hpp:304-310 | a value outside a range that is not inverted encodes as the end that it passed |
| `CodecLaws.EncodeClampsTo` | modules/can/include/nexenne/can/codec.hpp:304-313 | with finite ends, in numbers: below as the lower end, above as the upper end, infinities as the ends, NaN not at all |
| `CodecLaws.FloatRoundTrip` | modules/can/include/nexenne/can/codec.hpp:226-320 | a float signal whose casts are inverse on the scaled value decodes to the clamped value itself |
| `CodecLaws.EncodeFailsExactlyWhen` | modules/can/include/nexenne/can/codec.hpp:301-347 | value_out_of_range exactly when the clamped value is infinite or not a number, the scale is zero or the rounded raw does not fit; signal_out_of_range exactly when it fits and some bit of the field lies past the payload |
| `CodecLaws.EncodeOfDecode` | modules/can/include/nexenne/can/codec.hpp:201-347 | encoding a decoded in-range value leaves every payload byte as it was |
| `CodecLaws.StoredNumber` | modules/can/include/nexenne/can/codec.hpp:201-241 | a fitting integer, signed or not, is read back as itself |
| `CodecLaws.EncodeIsInjective` | modules/can/include/nexenne/can/codec.hpp:201-241 | two fitting integers stored as the same bits are equal |
| `CodecLaws.EncodeLeavesOthersAlone` | modules/can/include/nexenne/can/codec.hpp:226-347 | encoding one signal leaves what a disjoint signal decodes to unchanged |
| `DbcText.DbcTrim` | modules/can/include/nexenne/can/dbc.hpp:67-78 | drops spaces, tabs and carriage returns at both ends |
| `DbcText.TrimEnds` | modules/can/include/nexenne/can/dbc.hpp:67-78 | trimmed text has no such character at either end |
| `DbcText.DbcScanner.SkipSpaces` | modules/can/include/nexenne/can/dbc.hpp:145-149 | advances past spaces and tabs |
| `DbcText.DbcScanner.Token` | modules/can/include/nexenne/can/dbc.hpp:159-166 | returns the next blank-delimited token and leaves the text after it |
| `DbcText.DbcScanner.Until` | modules/can/include/nexenne/can/dbc.hpp:178-184 | returns the text up to a delimiter and stops on it |
| `DbcText.DbcScanner.Consume` | modules/can/include/nexenne/can/dbc.hpp:196-203 | consumes a character after blanks exactly when it is next |
| `DbcText.ParsePrinted` | modules/can/include/nexenne/can/dbc.hpp:91-96 | a printed unsigned number parses to itself |
| `DbcLexing.TrimReads` | modules/can/include/nexenne/can/dbc.hpp:67-78 | any spaces, tabs and carriage returns around tight text go |
| `DbcLexing.TrimShape` | modules/can/include/nexenne/can/dbc.hpp:67-78 | and nothing else goes |
| `DbcLexing.TokenReads` | modules/can/include/nexenne/can/dbc.hpp:159-166 | after any blanks, a word up to a blank or the end is the token |
| `DbcLexing.TokenShape` | modules/can/include/nexenne/can/dbc.hpp:159-166 | and there is no other token |
| `DbcLexing.ParseU32ExactlyWhen` | modules/can/include/nexenne/can/dbc.hpp:91-96 | a text parses to n if and only if it is n in decimal, with any leading zeros, below 2^32, trimmed |
| `DbcLines.LinesOfJoin` | modules/can/include/nexenne/can/dbc.hpp:794-800 | the lines of two texts joined by a newline are those of the one and then of the other |
| `DbcLines.CarriageReturnIgnored` | modules/can/include/nexenne/can/dbc.hpp:794-800 | lines that end in carriage return and newline parse as if they ended in a newline |
| `DbcLines.FinalNewlineIgnored` | modules/can/include/nexenne/can/dbc.hpp:794-800 | a newline at the end of a file changes nothing |
| `DbcLines.InsertedLineIgnored` | modules/can/include/nexenne/can/dbc.hpp:794-906 | nor does a line, anywhere, that is no BO_, SG_ or SIG_VALTYPE_ line |
| `DbcLines.ValueTypesAre` | modules/can/include/nexenne/can/dbc.hpp:820-833 | the value types of a file are those read from its SIG_VALTYPE_ lines |
| `DbcRecords.DbcParseSignal` | modules/can/include/nexenne/can/dbc.hpp:282-390 | parses one SG_ line with every reject of the code |
| `DbcRecords.DbcParseHead` | modules/can/include/nexenne/can/dbc.hpp:283-315 | keyword, name and multiplexing marker |
| `DbcRecords.DbcParseScaling` | modules/can/include/nexenne/can/dbc.hpp:347-363 | factor and offset, both finite |
| `DbcRecords.DbcParseRange` | modules/can/include/nexenne/can/dbc.hpp:365-379 | an optional range, kept only when it is increasing |
| `DbcRecords.DbcParseMessage` | modules/can/include/nexenne/can/dbc.hpp:239-270 | parses one BO_ line and rejects identifiers with reserved bits |
| `DbcGrammar.SignalAcceptedExactlyWhen` | modules/can/include/nexenne/can/dbc.hpp:282-390 | a line is accepted as a signal if and only if it is of the form: indent, SG_, name, optional M, m<N> or m<N>M, colon, layout word with width 1 to 64 and 16-bit start, finite factor and offset in brackets |
| `DbcGrammar.SignalReads` | modules/can/include/nexenne/can/dbc.hpp:282-390 | and then it is read as exactly what the form holds |
| `DbcGrammar.ExtendedMarkerReads` | modules/can/include/nexenne/can/dbc.hpp:294-312 | m<N>M is read as m<N>: multiplexed, with value N, for every 32-bit N |
| `DbcGrammar.RangeReads` | modules/can/include/nexenne/can/dbc.hpp:365-379 | the range in every way it can be there or not, and where the unit is looked for next |
| `DbcGrammar.UnitReads` | modules/can/include/nexenne/can/dbc.hpp:381-387 | the unit is the text between two quotes, and empty when one is missing |
| `DbcGrammar.HeaderAcceptedExactlyWhen` | modules/can/include/nexenne/can/dbc.hpp:239-270 | a line is accepted as a message if and only if it is of the form with a raw number below 0x800, or from 0x80000000 to below 0xA0000000, and a length of at most 64 |
| `DbcGrammar.HeaderReads` | modules/can/include/nexenne/can/dbc.hpp:239-270 | and then its identifier is that raw number |
| `DbcGrammar.ValueTypeExactlyWhen` | modules/can/include/nexenne/can/dbc.hpp:820-833 | a line gives a value type if and only if it is of the form and its kind is not 0 |
| `DbcPrinting.SignalRoundTrip` | modules/can/include/nexenne/can/dbc.hpp:282-390 | printing a signal in the documented grammar and parsing the line gives the signal back, a range that is not increasing read as unbounded |
| `DbcPrinting.AcceptedSignalsReprint` | modules/can/include/nexenne/can/dbc.hpp:282-390 | every signal accepted from any line is in range, named and printable, and its printed line parses to it again |
| `DbcPrinting.HeaderRoundTrip` | modules/can/include/nexenne/can/dbc.hpp:239-270 | printing a message header and parsing the line gives it back |
| `DbcPrinting.AcceptedHeadersReprint` | modules/can/include/nexenne/can/dbc.hpp:239-270 | every accepted header is printable and its printed line parses to it again |
| `DbcFile.ParseDbc` | modules/can/include/nexenne/can/dbc.hpp:767-936 | the accumulating line loop and the second pass compute the declarative grouping of the lines |
| `DbcFile.MarkFloatSignals` | modules/can/include/nexenne/can/dbc.hpp:909-930 | the in-place second pass marks exactly the named signals, or fails on one that is not 32 or 64 bits wide |
| `DbcFile.DbcParseValueType` | modules/can/include/nexenne/can/dbc.hpp:820-833 | reads one SIG_VALTYPE_ record or ignores the line |
| `DbcFileLaws.GroupingFailsExactlyWhen` | modules/can/include/nexenne/can/dbc.hpp:794-819 | the loop fails if and only if some malformed record has a space after its keyword and, for an SG_ record, a BO_ line before it |
| `DbcFileLaws.MalformedReportedExactlyWhen` | modules/can/include/nexenne/can/dbc.hpp:752-819 | the promised parse_error for a malformed BO_ or SG_ record: the first one is reported at its own line exactly under that condition, and then the whole file is rejected |
| `DbcFileLaws.MessageOfLine` | modules/can/include/nexenne/can/dbc.hpp:794-819 | the message of a BO_ line holds its header and the SG_ lines up to the next BO_ line |
| `DbcFileLaws.OneMessagePerLine` | modules/can/include/nexenne/can/dbc.hpp:794-907 | there are exactly as many messages as BO_ lines |
| `DbcFileLaws.EntriesInOrder` | modules/can/include/nexenne/can/dbc.hpp:811-819 | the signals of a message are its SG_ lines in order, each compiled |
| `DbcFileLaws.PlansStayCompiled` | modules/can/include/nexenne/can/dbc.hpp:909-930 | in every parsed file each stored plan equals the plan compiled from its signal, after the float pass too |
| `DbcFileLaws.NamesExactlyWhen` | modules/can/include/nexenne/can/dbc.hpp:913-919 | a value type names the messages whose raw identifier is its number |
| `DbcFileLaws.FloatExactlyWhenNamed` | modules/can/include/nexenne/can/dbc.hpp:909-930 | a signal is a float exactly when a record names its message and first matches its name, and nothing else about it changes |
| `DbcFileLaws.FileFailsExactlyWhen` | modules/can/include/nexenne/can/dbc.hpp:767-936 | a file is rejected exactly on a malformed record under that condition or on a value type that marks a signal neither 32 nor 64 bits wide |
| `DbcFileLaws.StraySignalIsDropped` | modules/can/include/nexenne/can/dbc.hpp:811-814 | a malformed SG_ record before any BO_ line is not an error |
| `DbcFileLaws.BareKeywordIsDropped` | modules/can/include/nexenne/can/dbc.hpp:802-802 | nor is a BO_ record that is nothing but its keyword |
| `DbcFileLaws.TabbedKeywordIsDropped` | modules/can/include/nexenne/can/dbc.hpp:811-811 | nor is a malformed SG_ record, after a message, with a tab after its keyword |
| `DbcFileRoundTrip.FileRoundTrip` | modules/can/include/nexenne/can/dbc.hpp:767-936 | printing a database whose float marks agree, as they do when identifiers and names are distinct, and parsing the text gives the database back |
| `DbcFileRoundTrip.DistinctMarksAgree` | modules/can/include/nexenne/can/dbc.hpp:909-930 | with distinct identifiers and names the record of a float reaches that signal and no other |
| `DbcFileReprint.RoundTripExactlyWhen` | modules/can/include/nexenne/can/dbc.hpp:767-936 | messages that lines can hold survive printing and parsing if and only if their float marks agree |
| `DbcFileReprint.AcceptedFilesReprint` | modules/can/include/nexenne/can/dbc.hpp:767-936 | every accepted file, with duplicate identifiers or names too, prints to text that parses to the same messages |
| `DbcFileReprint.AcceptedMarksAgree` | modules/can/include/nexenne/can/dbc.hpp:909-930 | in every accepted file a float is the first signal of its name, and so is a float in every message of the same identifier |
| `SortedSearch.ExponentialSearch` | modules/algorithm/include/nexenne/algorithm/binary_search.hpp:113-142 | returns what find_sorted returns; with P the first index not less than the value, at most log2(P)+1 doublings and a bracket of at most max(P, 2) elements |
| `SortedSearch.FindSortedIsFirst` | modules/algorithm/include/nexenne/algorithm/binary_search.hpp:73-85 | the plain search returns the first equal index, and nothing exactly when there is none |
| `SortedSearch.BracketHoldsAnswer` | modules/algorithm/include/nexenne/algorithm/binary_search.hpp:132-134 | the lower bound of the final bracket is the lower bound of the whole range |
| `SortedSearch.InterpolationSearch` | modules/algorithm/include/nexenne/algorithm/binary_search.hpp:171-211 | a returned index holds the value whatever the probe arithmetic, at most N probes are made, and with a probe that stays in its span a miss means the value is absent |
| `SortedSearch.ExactStaysInSpan` | modules/algorithm/include/nexenne/algorithm/binary_search.hpp:193-200 | the probe in exact arithmetic stays in its span |
| `Percentile.PercentileIsMonotone` | modules/benchmark/include/nexenne/benchmark/benchmark.hpp:356-375 | a higher percentile is never smaller |
| `Percentile.PercentileIgnoresOrder` | modules/benchmark/include/nexenne/benchmark/benchmark.hpp:322-375 | percentile and median do not depend on the order of the samples |
| `Percentile.PercentileLandmarks` | modules/benchmark/include/nexenne/benchmark/benchmark.hpp:338-375 | percentile 0 is the minimum, 100 the maximum and 50 the median, for odd and even counts |
| `Percentile.PercentileInRange` | modules/benchmark/include/nexenne/benchmark/benchmark.hpp:356-444 | every percentile lies between the minimum and the maximum |
| `Percentile.PercentileAtRank` | modules/benchmark/include/nexenne/benchmark/benchmark.hpp:367-374 | percentile 100*i/(n-1) is sorted sample i |
| `Percentile.PercentileBetweenRanks` | modules/benchmark/include/nexenne/benchmark/benchmark.hpp:367-374 | between two neighbouring ranks it is the weighted mean of the two sorted samples |
| `Percentile.PercentileIsAffine` | modules/benchmark/include/nexenne/benchmark/benchmark.hpp:367-374 | so it is affine in the percentile between neighbouring ranks |
| `Percentile.NonNegativeExactlyWhen` | modules/benchmark/include/nexenne/benchmark/benchmark.hpp:338-375 | the documented non-negative result holds at every percentile if and only if no sample is negative |
| `Percentile.NegativePercentile` | modules/benchmark/include/nexenne/benchmark/benchmark.hpp:338-375 | a sample list for which it fails |
| `Percentile.MedianNonNegativeExactlyWhen` | modules/benchmark/include/nexenne/benchmark/benchmark.hpp:306-334 | the documented non-negative median holds if and only if more than half of the samples are not negative, or just half and some negative one is outweighed by each of the others, or there are no samples |
| `Percentile.NegativeMedian` | modules/benchmark/include/nexenne/benchmark/benchmark.hpp:306-334 | a sample list for which it fails |
| `Percentile.ExtremesNonNegativeExactlyWhen` | modules/benchmark/include/nexenne/benchmark/benchmark.hpp:406-444 | the same promise of the minimum holds if and only if no sample is negative, and of the maximum if and only if some sample is not, or there are no samples |
| `Percentile.SortedIsSorted` | modules/benchmark/include/nexenne/benchmark/benchmark.hpp:326-327 | the sorted copy is ascending and holds the same samples |
| `Percentile.MinimumIsLeast` | modules/benchmark/include/nexenne/benchmark/benchmark.hpp:418-423 | the minimum is a sample and no sample is below it |
| `Percentile.MaximumIsGreatest` | modules/benchmark/include/nexenne/benchmark/benchmark.hpp:439-444 | the maximum is a sample and no sample is above it |

## Left out

- TransportRuns.EvictsTheEarliestAnnounced: needs at most 2^32 opened transfers; after the 32-bit open order wraps, the session with the smallest stored order need not be the oldest.
- TransportRuns.OrdersFollowAnnounces: needs the same bound.
- TransportEviction.SurvivesFewRivals: needs the same bound.
- TransportEviction.DeliveredByHistory: needs the same bound.
- TransportWire.AddressedDelivery: needs the same bound.
- TransportReassembler.Reassembler.TakePacket: the pointer into the session vector is an index, and a session is a value written back at that index; aliasing of the pointer is not modelled.
- Codec.Decode: for a float signal the bit casts between raw fields and doubles are parameters; IEEE-754 values, NaN and the rounding of 64-bit integers to doubles are not modelled.
- CodecLaws.DecodeOfEncode: states the error bound over exact reals and for integer signals; the rounding of double arithmetic is not modelled.
- DbcPrinting.SignalRoundTrip: floating-point text is read and written by one abstract number format, and the signal must use numbers that format can print; the float flag, the invalid policy and an idle mux value are not in the grammar and come back as their defaults.
- DbcFileReprint.AcceptedFilesReprint: for a number format that can print every number it parses, on one line; comments, value tables and attributes are not printed.
- SortedSearch.ExponentialSearch: offsets are unbounded, so the doubling of the offset past the index type is not modelled, and range elements and searched value have one type; the comparisons inside the standard lower bound are not counted.
- SortedSearch.InterpolationSearch: elements are reals and the probe arithmetic is a parameter; completeness is proved for one that stays in its span, as exact arithmetic does.
- Percentile.SortedIsSorted: the standard sort of a local copy is a function from samples to the sorted copy, not an in-place algorithm.
- Value tables, comments and attributes of a DBC file (VAL_, CM_, BA_) and the lookups over them: descriptive metadata that cannot change or reject a message.
- String-view lifetimes and source ownership of the parsed database: a memory concern of the original language.
- Flow control of connection-mode transfers: the receiver ignores those control bytes, and the model steps over them unchanged.
- FD flags, timestamps, DLC tables, filters, error frames, byte fields and builders: tables or accessors with no interaction.
- Registry, multiplexed decoding, buses, sockets, timers, formatting and JSON: input, output or printing.
- Mean, standard deviation and the timing loops of the benchmark: sums, or clocks.
