# Verified model of event_udp_to_kafka

This project models, in Dafny, how `event_udp_to_kafka` turns UDP datagrams from neutron
detector electronics into `pu00` (pulse metadata) and `ev44` (event data) messages, and
proves what that conversion guarantees.

- `Machine`, `BitUtils`, `Bytes`: 32- and 64-bit integers with wrapping, casts and shifts
  spelled out; bit masks; big-endian integers and header words.
- `Gps`: the packed 64-bit GPS timestamp, the Gregorian ordinal calendar as a sum over
  years, and the conversion to Unix nanoseconds, compared with "Seconds Since the Epoch",
  section 4.16 of the POSIX.1-2017 Base Definitions.
- `UdpMessage`, `Framing`: views onto messages, and the loop that splits a datagram into
  them, against a recursive specification.
- `EventData`, `PacketFormat1`, `EventArithmetic`, `PacketFormats`: the event decoder, with
  bit operations and wrapping arithmetic, proved against an arithmetic specification; the
  exact ranges in which its results are the intended values.
- `Metrics`, `DataProcessing`: counters and output sink as mutable objects, and the
  processing of frames, datagrams and runs.
- `Encoder`, `RoundTrip`, `Testing`: a printer for messages with all their fields, its
  inverse, the end-to-end theorem, and the repository's own packet maker.
- `Meaning`: a second account of what a message is turned into, straight from its bytes to
  messages, errors and counters, and the lemmas that both accounts agree on every input.
- `Locality`, `RunInvariants`: what a message may depend on, how processing distributes
  over concatenation, and what holds of every run.

Arithmetic is that of the release build: `Cargo.toml` turns no overflow checks on there,
so 32- and 64-bit operators wrap. A development build would panic instead wherever the
lemmas below show that a value leaves its range.

Two comments of the source say something other than its code, and the model follows the
code. The comment at src/packet_formats/packet_format_1.rs:73-74 speaks of a channel width
of 0; a width above 32 is treated as channel 0 as well. The comment of
`UdpMessageView::new` (src/udp_message.rs:48-52) promises a declared length no less than
the header's; the code compares with the 56-byte minimum header, not with the header
length that the message declares. `SlicesInBoundsExactly` states the condition this leaves
open; the methods that slice parameters and data out of a frame require it
(`Processable`), and only for the frames whose slices are taken.

The methods that change counters and sink are specified by functions of the frame, the
datagram or the run; what the source promises is proved of those functions. `Meaning` says
in literal byte positions and arithmetic what they must return, for all inputs, and the
end-to-end and run theorems are stated in its terms. The made packets of `Testing` show
that the preconditions can be met.

## Model

| member | source | states |
|---|---|---|
| BitUtils.MaskValue | src/bit_utils.rs:4-6 | For every width, the mask is 2^min(n, 32) - 1 |
| BitUtils.BitSplitting | src/bit_utils.rs:14-16 | Widths 1 to 32 split every word into its top bits and the masked rest; all other widths, and only those, give None |
| Gps.AccessorValues | src/gps_time.rs:49-79 | The eight shift-and-mask accessors are the digits of the word at the documented bit positions |
| Gps.PackOfFields | src/gps_time.rs:49-79 | Every 64-bit word is the shift-and-add packing of its own eight fields |
| Gps.FieldsOfPack | src/testing.rs:8-15 | Every tuple of in-range fields survives packing, seconds across the word boundary included |
| Gps.DaysBeforeYearIsPosix | src/gps_time.rs:87-94 | The year-by-year day count is the POSIX closed form |
| Gps.EagerTotalIsExact | src/gps_time.rs:96-110 | For every real calendar day, whatever the time fields, the wrapping sum equals the unbounded one and stays below 2^63 |
| Gps.ValueIsPosix | src/gps_time.rs:84-111 | The conversion is defined exactly on valid timestamps, and then gives the POSIX seconds in nanoseconds |
| Gps.ValueFitsI64 | src/data_processing.rs:205-234 | The casts of the pulse time to i64 keep its value |
| Gps.ValueRange | src/gps_time.rs:84-111 | Values lie from 2000-01-01 up to 2256-01-01, past it only within a final leap second |
| Gps.OrderWithLeapSeconds | src/gps_time.rs:96-110 | For valid words a < b, exactly when the values are out of order (a leap second against second 0 of the next minute), and always ns(a) < ns(b) + 10^9 |
| Gps.DisorderIsTight | src/gps_time.rs:96-110 | That second is tight: the last nanosecond of any leap second overtakes the next minute by 999999999 ns |
| Gps.OrderIsomorphism | src/gps_time.rs:49-111 | Outside leap seconds, unsigned order of the words is the order of the values |
| Gps.EveryMomentOnce | src/gps_time.rs:84-111 | Every nanosecond from 2000 up to 2256 is the value of exactly one word outside leap seconds |
| Gps.LeapSecondCarries | src/gps_time.rs:96-110 | Second 60 has the value of second 0 of the next minute through hour, day and year rollover; that minute is representable exactly when the value is before 2256 |
| Gps.ValueOfPacked | src/testing.rs:8-17 | Packing the fields of any real moment gives a word with that moment's value |
| UdpMessage.NewOutcome | src/udp_message.rs:53-78 | Exactly when a buffer is accepted and when each of the four rejections arises |
| UdpMessage.TotalLengthValue | src/udp_message.rs:89-96 | The length is the low 12 bits of bytes 32 and 33 in words, so at most 16380 bytes |
| UdpMessage.SlicesInBoundsExactly | src/udp_message.rs:200-213 | On accepted messages the two slices are in bounds if and only if 14 <= header length <= total length |
| UdpMessage.PacketTypeOfConditions | src/udp_message.rs:187-198 | Reading the flags active-low: no condition is neutron data, condition 0 alone an end of run, condition 1 alone a veto frame; sample environment never arises |
| EventData.New | src/event_data.rs:11-19 | The constructor accepts exactly equal lengths |
| PacketFormat1.EventHeaderBits | src/packet_formats/packet_format_1.rs:60-63 | The mask test on the first byte is the test that the top seven bits of the word are 1110000 |
| PacketFormat1.TofBits | src/packet_formats/packet_format_1.rs:65-71 | Mask, wrapping multiply and wrapping add give the wrapped sum 20 * ticks + 1000 * delay |
| PacketFormat1.PixelBits | src/packet_formats/packet_format_1.rs:37-79 | For all widths, saturated mask, shifted-out multiplier and three wrapping operations give the wrapped pixel offset + channel * 2^position_bits + position |
| PacketFormat1.DecodeEvent | src/packet_formats/packet_format_1.rs:54-82 | One turn of the closure computes the specified validity, time of flight and pixel, whose values TofCongruent and PixelCongruent give |
| PacketFormat1.ParseRawData | src/packet_formats/packet_format_1.rs:17-102 | The loop returns all specified events or the specified error, which DecodingMeaning gives literally, and adds exactly the number of bad chunks to the invalid-event counter |
| EventArithmetic.AllOrNothing | src/packet_formats/packet_format_1.rs:24-101 | Success exactly when the data is a multiple of 8 bytes, the parameters are 8 bytes, delay * 1000 < 2^32 and every eighth byte is 0xE0 or 0xE1; one event for every 8 bytes; under the first three conditions, and only then, the invalid count is the number of events starting otherwise |
| EventArithmetic.CastCongruent | src/packet_formats/packet_format_1.rs:65-81 | Wrapping and casting to i32 gives the one i32 that is the same modulo 2^32, and loses nothing exactly on the i32 range |
| EventArithmetic.WideCastCongruent | src/data_processing.rs:205-234 | The cast to i64 gives the one i64 that is the same modulo 2^64, and loses nothing exactly below 2^63 |
| EventArithmetic.TofCongruent | src/packet_formats/packet_format_1.rs:65-81 | For every tick count and delay the emitted time is 20 * ticks + 1000 * delay modulo 2^32, and equals that sum if and only if it is below 2^31 |
| EventArithmetic.PixelCongruent | src/packet_formats/packet_format_1.rs:31-81 | For every layout and word the pixel number is offset + channel * 2^position_bits + position, the channel 0 unless its width is 1 to 32; the emitted pixel is that number modulo 2^32, and equals it if and only if it is below 2^31 |
| EventArithmetic.TicksInRange | src/packet_formats/packet_format_1.rs:65-66 | Ticks have 25 bits and ticks * 20 never exceeds 671088620 |
| EventArithmetic.TofExactInU32 | src/packet_formats/packet_format_1.rs:46-71 | Adding the delay is exact in u32 for every tick count if and only if the delay is at most 3623878 us |
| EventArithmetic.TofExactInI32 | src/packet_formats/packet_format_1.rs:65-81 | The emitted i32 is exact for every tick count if and only if the delay is at most 1476395 us |
| EventArithmetic.TofNonNegative | src/packet_formats/packet_format_1.rs:65-81 | Among admitted delays, no tick count gives a negative time if and only if the delay is at most 1476395 us |
| EventArithmetic.TofIncreasing | src/packet_formats/packet_format_1.rs:65-81 | In the exact range, times of flight are strictly increasing in ticks |
| EventArithmetic.PixelExact | src/packet_formats/packet_format_1.rs:31-81 | For every layout: the emitted i32 is the intended pixel for every word if and only if offset + 2^(channel bits + position bits) <= 2^31 |
| EventArithmetic.PixelInverts | src/packet_formats/packet_format_1.rs:75-81 | In that range channel and position are quotient and remainder of pixel - offset |
| EventArithmetic.PixelInjective | src/packet_formats/packet_format_1.rs:75-81 | In that range two words share a pixel if and only if they share channel and position |
| EventArithmetic.PixelOnto | src/packet_formats/packet_format_1.rs:75-81 | In that range every pixel from the offset up to the limit is emitted for some word |
| EventArithmetic.FullWidthPixel | src/packet_formats/packet_format_1.rs:75-81 | When the widths sum to 32, the pixel is the offset plus the position word |
| PacketFormats.ParseBoardData | src/packet_formats.rs:53-68 | Empty data decodes to nothing for every format; otherwise format 1 decodes and other codes fail |
| PacketFormats.DecodedShape | src/packet_formats.rs:59-67 | Decoded vectors have equal lengths, and are empty only for empty data |
| Framing.PacketToFrames | src/data_processing.rs:69-109 | The loop finds the frames of the recursive parse and counts the bad length it stopped at |
| Framing.ParseTiles | src/data_processing.rs:69-109 | From any offset, frames are contiguous, keep the whole rest of the buffer, and the stop reason is the rejection at the last cut |
| Framing.TilingsAgree | src/data_processing.rs:73-79 | Any tiling by accepted messages is an initial segment of one that cannot be extended |
| Framing.MaximalParse | src/data_processing.rs:69-109 | The loop's frames are the unique maximal tiling from offset 0; each has 56 to 16380 bytes, so there are at most len / 56; a bad length is counted exactly when the rest has a marked header declaring one |
| DataProcessing.SendPu00 | src/data_processing.rs:217-243 | One pu00 with the cast id and time is appended |
| DataProcessing.SendEv44 | src/data_processing.rs:189-214 | One ev44 with one reference time and index 0 is appended |
| DataProcessing.ProcessNeutronFrame | src/data_processing.rs:112-186 | The result, the messages appended and all counters of one neutron frame, as FrameMeaning gives them literally |
| DataProcessing.ProcessFrame | src/data_processing.rs:41-61 | The messages appended and all counters of one frame of any type |
| DataProcessing.ProcessUdpBytesToKafka | src/data_processing.rs:27-62 | The messages appended and all counters of one datagram |
| DataProcessing.ProcessRun | src/lib.rs:70-97 | The messages appended and all counters of any sequence of received datagrams, as RunConcat, RunOfOne and RunTotals give them |
| DataProcessing.FrameCountersShape | src/data_processing.rs:42-60 | Each frame counts one header and at most one error of its own type; other packet types emit nothing and always count an error |
| Locality.HeaderLocal | src/udp_message.rs:81-198 | Every accessor of the fixed header depends on the first 56 bytes only |
| Locality.FrameLocal | src/udp_message.rs:53-221 | Changing bytes after a message leaves it accepted, with the same accessors and slices |
| Locality.OutcomeLocal | src/data_processing.rs:112-186 | The messages, error and counters of a frame depend only on its own bytes |
| Locality.ParseConcat | src/data_processing.rs:69-109 | After a buffer that is used up exactly, the parse of a concatenation continues with the parse of what follows |
| Locality.ProcessingConcat | src/data_processing.rs:27-109 | Processing is a homomorphism on such concatenations: messages append, all counters but the datagram count add up |
| Locality.RestIgnored | src/data_processing.rs:80-94 | After a header without marker, or with too short a length, appended bytes change nothing but the byte count |
| Encoder.ParseOfPrint | src/testing.rs:24-56 | A printed message is accepted whatever follows, spans exactly its bytes, and all 19 fields are read back |
| Encoder.PrintOfParse | src/udp_message.rs:53-221 | Printing the fields of an accepted message gives back its bytes |
| Meaning.HeaderBytes | src/udp_message.rs:81-221 | The byte positions every accessor and both slices read |
| Meaning.TimeMeaning | src/gps_time.rs:49-111 | A word converts exactly if its digits name a real day and time, second 60 included, and then to the POSIX nanoseconds of those digits, below 2^63 |
| Meaning.ParametersMeaning | src/packet_formats/packet_format_1.rs:31-34 | Channel width from byte 1, position width from byte 3, offset from bytes 4 to 7 of the parameters |
| Meaning.DecodingMeaning | src/packet_formats/packet_format_1.rs:17-102 | Which of the four errors decoding fails with, the first that applies in the order of the checks; otherwise every time and pixel, read off the bytes |
| Meaning.DataMeaning | src/packet_formats.rs:53-68 | The same for any format code: no data gives no events, an unknown code its own error; and what is counted as invalid |
| Meaning.ProcessableExactly | src/udp_message.rs:200-213 | A message can be processed if and only if, being neutron data with a valid time, its header length lies between 14 words and its total length |
| Meaning.FrameMeaning | src/data_processing.rs:41-186 | Every frame: the literal pu00 whenever flags and time allow, whatever the data, the literal ev44 after it when the data holds events, the first error in order, and all nine counters |
| Meaning.DatagramMeaning | src/data_processing.rs:27-109 | Every datagram: the messages of its frames in order, and every counter as a total over them |
| RoundTrip.DecodeOfEncodedEvents | src/packet_formats/packet_format_1.rs:17-102 | For independent board address, three widths and offset: encoded events decode to 20 * ticks + 1000 * delay and offset + channel * 2^position_bits + position, as signed 32-bit values; a delay of 2^32 ns or more is refused |
| RoundTrip.LayoutOfEncoded | src/packet_formats/packet_format_1.rs:31-34 | Of the encoded parameters the channel width, the position width and the offset determine the layout |
| RoundTrip.EventsOfData | src/packet_formats/packet_format_1.rs:50-101 | All data that decodes is the encoding of some list of events |
| RoundTrip.PaddingIsIgnored | src/data_processing.rs:80-85 | Padding under 56 bytes, or without a marker, emits nothing and counts no error |
| RoundTrip.PulseMeaning | src/data_processing.rs:122-185 | A pulse made of printed parameters and events means one pu00, one ev44 with exactly those events when there are any, no error, and its counters |
| RoundTrip.PulseAlwaysSent | src/data_processing.rs:122-170 | An encoded neutron frame with a valid time always sends exactly its literal pu00 first; if its data does not decode, nothing else, with that error and one neutron error counted |
| RoundTrip.ParseOfEncoded | src/data_processing.rs:69-109 | Parsing concatenated encodings, followed by anything but a message, finds all of them and no others |
| RoundTrip.ParseOfTail | src/data_processing.rs:80-103 | Bytes without a marked header, or with a declared length under 56 or over what is left, give no frame; which of the two bad lengths is counted |
| RoundTrip.EndToEnd | src/data_processing.rs:27-186 | Any list of well-formed messages of any kind, encoded and concatenated, followed by anything but a message: the output is what each means, in order (for pulses made of printed parameters and events, exactly their pu00 and ev44), and all counters are the totals over them, a bad length counted exactly when the rest declares one |
| Testing.TestingTimestamp | src/testing.rs:8-17 | The testing timestamp has the nanosecond value the tests give |
| Testing.PacketIsOneMessageExactly | src/testing.rs:24-67 | A made packet is one message of its own length if and only if it has at most 2039 events |
| Testing.MadePacketIsProcessed | src/testing.rs:59-67 | Up to 2039 events, followed by anything but a message: the parts make up the packet, and processing gives the expected pu00 and n copies of the fake event |
| RunInvariants.WhatAFrameEmits | src/data_processing.rs:122-185 | Exactly when a frame emits a pu00, an ev44 or an error, how many events it counts, and how many it counts as invalid, in literal conditions on its fields |
| RunInvariants.RunAccounted | src/data_processing.rs:27-186 | After every run: output of the form (pu00 ev44?)* with matching reference times and equal non-empty vectors; non-neutron headers equal errors; neutron headers = errors + ev44s + empty frames; events, control-board frames and bad lengths accounted for |
| RunInvariants.OnePacketEach | src/data_processing.rs:36-101 | A datagram is counted once with its size and adds at most one to the two bad-length counters together |
| RunInvariants.RunConcat | src/lib.rs:70-97 | Processing is a homomorphism on runs: messages append and all nine counters add up |
| RunInvariants.RunOfOne | src/lib.rs:70-97 | A run of one datagram does exactly what the datagram does |
| RunInvariants.RunTotals | src/data_processing.rs:27-186 | After any run all nine counters in closed form: datagrams, the sum of their lengths, the types of all frames and of the failed ones, the two bad lengths, timed control-board frames, events, and the bad events of all timed frames whose events are looked at |
| RunInvariants.Provenance | src/data_processing.rs:132-163 | In any run, the messages of one datagram stand together, and its pu00s carry period and charge if and only if it came from the control board, and vetoes always |

## Left out

- ProcessUdpBytesToKafka: requires the slices of neutron frames with valid timestamps to exist (`Processable`); frames that break this abort the program and are not modelled.
- RunAccounted: for the same reason covers runs whose datagrams are all `Processable`; so do Provenance and ProcessingConcat.
- ProcessNeutronFrame: requires a neutron frame, the only kind it is called with.
- ProcessRun: covers finite sequences of received datagrams; the socket, receive errors, timing and the Kafka producer of src/lib.rs are not modelled.
- SendPu00: messages are values; their FlatBuffers encoding and the reuse of the builder are not modelled.
- Counters are unbounded naturals rather than 64-bit, and registration with Prometheus is not modelled.
- The proton charge is kept as the raw byte; its scaling by an `f32` factor is not modelled.
- Configuration is reduced to the control board's address; parsing, logging and debug output are not modelled.
- Offsets and lengths are unbounded naturals rather than `usize`.
- The calendar covers the years 1970 onwards as `chrono` defines ordinal dates; `chrono` itself is not part of this model.
