/**
 What a message means, read off its bytes: a second account of src/udp_message.rs:99-221,
 src/gps_time.rs:84-111, src/packet_formats/packet_format_1.rs:17-102,
 src/packet_formats.rs:53-68 and src/data_processing.rs:27-186. It goes from bytes to
 messages and counters in one step, through none of the functions that specify the
 methods but the accessors, whose byte positions it states; the lemmas show that the two
 accounts agree on every input.
 */
module Meaning {
  import opened Wrappers
  import opened Machine
  import opened Gps
  import opened EventData
  import opened UdpMessage
  import opened Metrics
  import opened Framing
  import opened DataProcessing
  import opened Encoder
  import opened EventArithmetic
  import opened PacketFormats
  import PacketFormat1

  // ----- Header

  /** The big-endian 32-bit word at byte `at`. */
  function Word(bytes: seq<u8>, at: nat): u32
    requires at + 4 <= |bytes|
  {
    bytes[at] as int * 0x100_0000 + bytes[at + 1] as int * 0x1_0000
    + bytes[at + 2] as int * 0x100 + bytes[at + 3] as int
  }

  /** The big-endian 16-bit half-word at byte `at`. */
  function Half(bytes: seq<u8>, at: nat): u16
    requires at + 2 <= |bytes|
  {
    bytes[at] as int * 0x100 + bytes[at + 1] as int
  }

  /** Where every accessor reads: in the 56 bytes of the fixed header, and the slices after it. */
  lemma HeaderBytes(v: View)
    requires v.HasHeader()
    ensures v.PacketFormatCode() == Half(v.content, 5)
    ensures v.HeaderLengthWords() == v.content[7]
    ensures v.BoardType() == Half(v.content, 8)
    ensures v.HeaderFlags() == v.content[11]
    ensures v.Time().content == Word(v.content, 12) as int * 0x1_0000_0000 + Word(v.content, 16) as int
    ensures v.FrameNumber() == Word(v.content, 20)
    ensures v.PeriodNumber() == Half(v.content, 24)
    ensures v.EventsInFrame() == Word(v.content, 28)
    ensures v.TotalLengthWords() == Half(v.content, 32) % 4096
    ensures v.RawPppPerFrame() == v.content[35]
    ensures v.Vetoes() == Word(v.content, 36)
    ensures v.FrameSyncDelayUs() == Word(v.content, 48)
    ensures v.SlicesInBounds() ==>
              var header, total := 4 * v.content[7] as int, 4 * (Half(v.content, 32) as int % 4096);
              && 56 <= header <= total <= |v.content|
              && v.BoardSpecificParameters() == v.content[52..header - 4]
              && v.DataBytes() == v.content[header..total]
  {
    hide View.TotalLengthWords;
    TotalLengthValue(v);
    assert v.HeaderWord(1)[1..3] == [v.content[5], v.content[6]];
  }

  // ----- Time

  /** The word names a real day and a real time of that day; second 60 is a leap second. */
  predicate IsMoment(time: u64) {
    var year := 2000 + time / 0x100_0000_0000_0000;
    && 1 <= time / 0x8000_0000_0000 % 512
         <= (if year % 4 == 0 && (year % 100 != 0 || year % 400 == 0) then 366 else 365)
    && time / 0x400_0000_0000 % 32 < 24
    && time / 0x10_0000_0000 % 64 < 60
    && time / 0x4000_0000 % 64 <= 60
    && time / 0x10_0000 % 1024 < 1000
    && time / 0x400 % 1024 < 1000
    && time % 1024 < 1000
  }

  /** POSIX seconds of the word's fields, in nanoseconds. */
  function UnixNanoseconds(time: u64): int {
    PosixSeconds(100 + time / 0x100_0000_0000_0000, time / 0x8000_0000_0000 % 512 - 1,
                 time / 0x400_0000_0000 % 32, time / 0x10_0000_0000 % 64, time / 0x4000_0000 % 64) * 1_000_000_000
    + time / 0x10_0000 % 1024 * 1_000_000 + time / 0x400 % 1024 * 1_000 + time % 1024
  }

  lemma FieldValues(time: u64)
    ensures GpsTime(time).ToFields()
            == Fields(time / 0x100_0000_0000_0000, time / 0x8000_0000_0000 % 512, time / 0x400_0000_0000 % 32,
                      time / 0x10_0000_0000 % 64, time / 0x4000_0000 % 64,
                      time / 0x10_0000 % 1024, time / 0x400 % 1024, time % 1024)
    ensures GpsTime(time).ToFields().Valid() <==> IsMoment(time)
  {
    hide GpsTime.Years, GpsTime.Days, GpsTime.Hours, GpsTime.Minutes, GpsTime.Seconds, GpsTime.Milliseconds,
      GpsTime.Microseconds, GpsTime.Nanoseconds;
    AccessorValues(GpsTime(time));
    PackOfFields(GpsTime(time));
  }

  /**
   A timestamp converts exactly when it names a moment, and then to the POSIX nanoseconds
   of that moment, which a signed 64-bit integer holds.
   */
  lemma TimeMeaning(time: u64)
    ensures GpsTime(time).ToFields().Valid() <==> IsMoment(time)
    ensures GpsTime(time).NanosecondsSinceEpoch() == if IsMoment(time) then Some(UnixNanoseconds(time)) else None
    ensures IsMoment(time) ==> 0 <= UnixNanoseconds(time) < 0x8000_0000_0000_0000
  {
    hide IsMoment, GpsTime.ToFields, GpsTime.NanosecondsSinceEpoch, Fields.Valid, PosixSeconds;
    FieldValues(time);
    ValueIsPosix(GpsTime(time));
    if IsMoment(time) {
      ValueFitsI64(GpsTime(time));
    }
  }

  function ReferenceTime(time: u64): i64
    requires IsMoment(time)
  {
    TimeMeaning(time);
    UnixNanoseconds(time)
  }

  // ----- Events

  /** The signed 32-bit integer that equals `x` modulo 2^32. */
  function Signed(x: int): i32 {
    (x + 0x8000_0000) % 0x1_0000_0000 - 0x8000_0000
  }

  /** A channel number from the top of the word, if it has a width, and a position from its bottom. */
  function PixelNumber(channelBits: u8, positionBits: u8, offset: u32, word: u32): int {
    offset
    + (if 1 <= channelBits <= 32 then word / Pow2(32 - channelBits) else 0) * Pow2(positionBits)
    + word % Pow2(positionBits)
  }

  /** 20 ns for each of the low 25 bits' ticks, and the delay. */
  function Tofs(data: seq<u8>, frameSyncDelayUs: u32): seq<i32> {
    seq(|data| / 8, i requires 0 <= i < |data| / 8 =>
      Signed(20 * (Word(data, 8 * i) % 0x200_0000) + 1000 * frameSyncDelayUs))
  }

  /** The widths are in bytes 1 and 3 of the parameters, the offset in the last four. */
  function Pixels(parameters: seq<u8>, data: seq<u8>): seq<i32>
    requires |parameters| == 8
  {
    seq(|data| / 8, i requires 0 <= i < |data| / 8 =>
      Signed(PixelNumber(parameters[1], parameters[3], Word(parameters, 4), Word(data, 8 * i + 4))))
  }

  lemma SignedIsCast(x: int)
    ensures AsI32(Wrap32(x)) == Signed(x)
  {
    CastCongruent(x, Signed(x));
  }

  lemma ChunkWords(data: seq<u8>, i: nat)
    requires i < |data| / 8
    ensures PacketFormat1.TofWord(PacketFormat1.Chunk(data, i)) == Word(data, 8 * i)
    ensures PacketFormat1.PositionWord(PacketFormat1.Chunk(data, i)) == Word(data, 8 * i + 4)
  {}

  lemma ParametersMeaning(parameters: seq<u8>)
    requires |parameters| == 8
    ensures PacketFormat1.LayoutOf(parameters)
            == PacketFormat1.Layout(parameters[1], parameters[3], Word(parameters, 4))
  {}

  lemma TofsMeaning(data: seq<u8>, frameSyncDelayUs: u32)
    ensures PacketFormat1.TofsOf(data, frameSyncDelayUs) == Tofs(data, frameSyncDelayUs)
  {
    hide Signed, Wrap32, AsI32, PacketFormat1.Chunk, PacketFormat1.TofWord, Word;
    forall i: nat | i < |data| / 8
      ensures PacketFormat1.TofsOf(data, frameSyncDelayUs)[i] == Tofs(data, frameSyncDelayUs)[i]
    {
      ChunkWords(data, i);
      SignedIsCast(20 * (Word(data, 8 * i) % 0x200_0000) + 1000 * frameSyncDelayUs);
    }
  }

  lemma PixelsMeaning(parameters: seq<u8>, data: seq<u8>)
    requires |parameters| == 8
    ensures PacketFormat1.PixelsOf(data, PacketFormat1.LayoutOf(parameters)) == Pixels(parameters, data)
  {
    hide Signed, Wrap32, AsI32, PacketFormat1.Chunk, PacketFormat1.PositionWord, Word, PacketFormat1.Layout.Pixel,
      PacketFormat1.LayoutOf;
    var layout := PacketFormat1.LayoutOf(parameters);
    ParametersMeaning(parameters);
    forall i: nat | i < |data| / 8
      ensures PacketFormat1.PixelsOf(data, layout)[i] == Pixels(parameters, data)[i]
    {
      var word := Word(data, 8 * i + 4);
      ChunkWords(data, i);
      PixelCongruent(layout, word);
      SignedIsCast(layout.Pixel(word));
    }
  }

  /** Why data in format 1 does not decode, if it does not; the first check that fails. */
  function FormatProblem(parameters: seq<u8>, data: seq<u8>, frameSyncDelayUs: u32): Option<ProcessingError> {
    if |data| % 8 != 0 then Some(DataNotWholeEvents)
    else if |parameters| != 8 then Some(WrongParametersLength)
    else if frameSyncDelayUs * 1000 >= 0x1_0000_0000 then Some(FrameSyncDelayOutOfRange)
    else if exists i: nat :: i < |data| / 8 && !StartsLikeEvent(data, i) then Some(InvalidEvents)
    else None
  }

  /** Decoding fails for the first reason that applies, and else gives the literal times and pixels. */
  lemma DecodingMeaning(parameters: seq<u8>, data: seq<u8>, frameSyncDelayUs: u32)
    ensures PacketFormat1.Decoded(parameters, data, frameSyncDelayUs)
            == if FormatProblem(parameters, data, frameSyncDelayUs).Some? then
                 Err(FormatProblem(parameters, data, frameSyncDelayUs).value)
               else
                 Ok(EventData(Tofs(data, frameSyncDelayUs), Pixels(parameters, data)))
  {
    hide PacketFormat1.LayoutOf, PacketFormat1.TofsOf, PacketFormat1.PixelsOf, Tofs, Pixels, StartsLikeEvent,
      PacketFormat1.IsEvent;
    AllOrNothing(parameters, data, frameSyncDelayUs);
    if |parameters| == 8 {
      TofsMeaning(data, frameSyncDelayUs);
      PixelsMeaning(parameters, data);
    }
  }

  // ----- One frame

  predicate IsTimed(f: Frame) {
    f.flags == 0xFF && IsMoment(f.time)
  }

  /** Why the data of a frame does not decode; without data there is nothing to decode. */
  function DataProblem(f: Frame): Option<ProcessingError> {
    if f.data == [] then None
    else if f.formatCode != 1 then Some(UnknownPacketFormat(f.formatCode))
    else FormatProblem(f.parameters, f.data, f.frameSyncDelayUs)
  }

  /** The error a frame ends with, if any; the first check that fails. */
  function Problem(f: Frame): Option<ProcessingError> {
    if f.flags != 0xFF then Some(UnimplementedPacketType)
    else if !IsMoment(f.time) then Some(InvalidTimestamp)
    else DataProblem(f)
  }

  /**
   A pu00 for a neutron frame at a moment, whatever its data; after it an ev44 if the data
   holds events. Period and proton charge are the control board's to send.
   */
  function Messages(f: Frame, fromControlBoard: bool): seq<Message> {
    if f.flags != 0xFF || !IsMoment(f.time) then
      []
    else
      [ Pu00("event_udp_to_kafka", 0, ReferenceTime(f.time), Some(f.vetoes),
             if fromControlBoard then Some(f.period) else None,
             if fromControlBoard then Some(f.ppp) else None) ]
      + if f.data == [] || DataProblem(f).Some? then [] else
          [ Ev44("event_udp_to_kafka", 0, [ReferenceTime(f.time)], [0],
                 Tofs(f.data, f.frameSyncDelayUs), Pixels(f.parameters, f.data)) ]
  }

  function TypeOf(flags: u8): UdpPacketType {
    if flags == 0xFF then NeutronData
    else if flags == 0xFE then EndOfRun
    else if flags == 0xFD then VetoFrame
    else Invalid
  }

  /** The events a frame has counted as received. */
  function Received(f: Frame): nat {
    if IsTimed(f) && DataProblem(f).None? then |f.data| / 8 else 0
  }

  /** The events a frame has counted as invalid: looked at, and not starting like one. */
  function Invalidated(f: Frame): nat {
    if IsTimed(f) && f.formatCode == 1 && |f.data| % 8 == 0 && |f.parameters| == 8
       && f.frameSyncDelayUs * 1000 < 0x1_0000_0000 then
      |BadIndices(f.data, |f.data| / 8)|
    else
      0
  }

  function OneTimed(f: Frame): nat {
    if IsTimed(f) then 1 else 0
  }

  /** What one frame counts. */
  function CountersOf(f: Frame, fromControlBoard: bool): Counters {
    Counters(0, 0,
             multiset{TypeOf(f.flags)}, if Problem(f).Some? then multiset{TypeOf(f.flags)} else multiset{},
             0, 0,
             if fromControlBoard then OneTimed(f) else 0, Received(f), Invalidated(f))
  }

  lemma DataMeaning(f: Frame)
    ensures BoardEvents(f.formatCode, f.parameters, f.data, f.frameSyncDelayUs)
            == if DataProblem(f).Some? then Err(DataProblem(f).value)
            else if f.data == [] then Ok(EMPTY)
            else Ok(EventData(Tofs(f.data, f.frameSyncDelayUs), Pixels(f.parameters, f.data)))
    ensures Invalidated(f)
            == if IsTimed(f) then BoardInvalidCount(f.formatCode, f.parameters, f.data, f.frameSyncDelayUs) else 0
    ensures f.data != [] && DataProblem(f).None? ==> |Tofs(f.data, f.frameSyncDelayUs)| == |f.data| / 8 > 0
  {
    hide PacketFormat1.Decoded, PacketFormat1.InvalidCount, Pixels, StartsLikeEvent, Word, Signed;
    AllOrNothing(f.parameters, f.data, f.frameSyncDelayUs);
    DecodingMeaning(f.parameters, f.data, f.frameSyncDelayUs);
    NothingBadInNothing(f.data);
  }

  /**
   The fields of a message as processing sees them. When the slices do not exist, only
   flags and time can have been looked at.
   */
  function Seen(v: View): Frame
    requires v.HasHeader()
  {
    if v.SlicesInBounds() then
      FrameOf(v)
    else
      Frame(0, 0, 0, v.HeaderFlags(), v.Time().content, 0, 0, 0, 0, 0, 0, 0, 0, 0, 0, 0, [], [], [])
  }

  lemma SeenFields(v: View)
    requires v.HasHeader()
    ensures var f := Seen(v);
            && f.flags == v.HeaderFlags() && GpsTime(f.time) == v.Time()
            && (v.SlicesInBounds() ==>
                  && f.formatCode == v.PacketFormatCode() && f.period == v.PeriodNumber()
                  && f.ppp == v.RawPppPerFrame() && f.vetoes == v.Vetoes()
                  && f.frameSyncDelayUs == v.FrameSyncDelayUs()
                  && f.parameters == v.BoardSpecificParameters() && f.data == v.DataBytes())
  {}

  lemma TypeMeaning(v: View)
    requires v.HasHeader()
    ensures v.PacketType() == TypeOf(Seen(v).flags)
  {
    hide View.HeaderFlags, Seen;
    SeenFields(v);
  }

  lemma TimedMeaning(v: View)
    requires Processable(v)
    ensures Timed(v) <==> IsTimed(Seen(v))
    ensures Timed(v) ==> AsI64(FrameTime(v)) == ReferenceTime(Seen(v).time)
  {
    hide View.HeaderFlags, View.Time, View.SlicesInBounds, View.HasHeader, Seen, IsMoment, UnixNanoseconds,
      GpsTime.ToFields, GpsTime.NanosecondsSinceEpoch, Fields.Valid;
    SeenFields(v);
    TypeMeaning(v);
    TimeMeaning(Seen(v).time);
  }

  /**
   A whole message can be processed exactly if its header length lies between the minimum
   and the total, or its flags or time rule out that its slices are taken.
   */
  lemma ProcessableExactly(v: View)
    requires v.Accepted()
    ensures Processable(v) <==>
            (v.content[11] == 0xFF && IsMoment(v.Time().content) ==> 14 <= v.content[7] <= Half(v.content, 32) % 4096)
  {
    hide View.HeaderFlags, View.Time, View.TotalLengthWords, View.HeaderLengthWords, View.SlicesInBounds, Half,
      IsMoment, GpsTime.ToFields, Fields.Valid;
    HeaderBytes(v);
    SlicesInBoundsExactly(v);
    TimeMeaning(v.Time().content);
  }

  /** Every frame is processed into what its fields mean. */
  lemma FrameMeaning(v: View, fromControlBoard: bool)
    requires Processable(v)
    ensures FrameMessages(v, fromControlBoard) == Messages(Seen(v), fromControlBoard)
    ensures FrameError(v) == Problem(Seen(v))
    ensures FrameCounters(v, fromControlBoard) == CountersOf(Seen(v), fromControlBoard)
  {
    hide View.HeaderFlags, View.Time, View.PacketType, View.SlicesInBounds, View.HasHeader, View.PacketFormatCode,
      View.PeriodNumber, View.RawPppPerFrame, View.Vetoes, View.FrameSyncDelayUs, View.BoardSpecificParameters,
      View.DataBytes, Timed, FrameTime, Seen, IsMoment, ReferenceTime, BoardEvents, BoardInvalidCount, Tofs, Pixels,
      DataProblem, Invalidated;
    SeenFields(v);
    TypeMeaning(v);
    TimedMeaning(v);
    DataMeaning(Seen(v));
  }

  // ----- All frames of a datagram

  predicate AllHaveHeaders(views: seq<View>) {
    forall v | v in views :: v.HasHeader()
  }

  function AllSeen(views: seq<View>): seq<Frame>
    requires AllHaveHeaders(views)
  {
    seq(|views|, i requires 0 <= i < |views| => Seen(views[i]))
  }

  function FramesIn(bytes: seq<u8>): seq<Frame> {
    AllSeen(Parse(bytes).frames)
  }

  function MessagesOfAll(frames: seq<Frame>, fromControlBoard: bool): seq<Message> {
    if frames == [] then [] else
      MessagesOfAll(frames[..|frames| - 1], fromControlBoard) + Messages(frames[|frames| - 1], fromControlBoard)
  }

  function Types(frames: seq<Frame>): multiset<UdpPacketType> {
    if frames == [] then multiset{} else
      Types(frames[..|frames| - 1]) + multiset{TypeOf(frames[|frames| - 1].flags)}
  }

  function FailedTypes(frames: seq<Frame>): multiset<UdpPacketType> {
    if frames == [] then multiset{} else
      FailedTypes(frames[..|frames| - 1])
      + if Problem(frames[|frames| - 1]).Some? then multiset{TypeOf(frames[|frames| - 1].flags)} else multiset{}
  }

  /** What all frames of a datagram count: one header each, one error for each that fails, and their events. */
  function Totals(frames: seq<Frame>, fromControlBoard: bool): Counters {
    Counters(0, 0, Types(frames), FailedTypes(frames), 0, 0,
             if fromControlBoard then Sum(frames, OneTimed) else 0,
             Sum(frames, Received), Sum(frames, Invalidated))
  }

  lemma TotalsOfMore(frames: seq<Frame>, fromControlBoard: bool)
    requires frames != []
    ensures Totals(frames, fromControlBoard)
            == Totals(frames[..|frames| - 1], fromControlBoard)
               .Plus(CountersOf(frames[|frames| - 1], fromControlBoard))
  {
    hide Problem, TypeOf, OneTimed, Received, Invalidated;
  }

  lemma SeenPrefix(views: seq<View>)
    requires AllHaveHeaders(views) && views != []
    ensures var n := |views| - 1;
            && AllHaveHeaders(views[..n]) && |AllSeen(views)| == |views|
            && AllSeen(views)[..n] == AllSeen(views[..n]) && AllSeen(views)[n] == Seen(views[n])
  {
    hide View.HasHeader, Seen;
  }

  lemma ProcessableHaveHeaders(views: seq<View>)
    requires AllProcessable(views)
    ensures AllHaveHeaders(views)
  {}

  lemma {:induction false} FramesMeaning(views: seq<View>, fromControlBoard: bool)
    requires AllProcessable(views) && AllHaveHeaders(views)
    ensures FramesMessages(views, fromControlBoard) == MessagesOfAll(AllSeen(views), fromControlBoard)
    ensures FramesCounters(views, fromControlBoard) == Totals(AllSeen(views), fromControlBoard)
  {
    hide Processable, FrameMessages, FrameCounters, FrameError, Messages, Problem, IsTimed, Received, Invalidated,
      TypeOf, Seen, AllSeen, CountersOf, Totals, Counters.Plus, View.HasHeader, View.SlicesInBounds, Timed;
    if views == [] {
      NothingSeen(fromControlBoard);
    } else {
      var n := |views| - 1;
      SeenPrefix(views);
      FramesMeaning(views[..n], fromControlBoard);
      FrameMeaning(views[n], fromControlBoard);
      TotalsOfMore(AllSeen(views), fromControlBoard);
    }
  }

  lemma NothingSeen(fromControlBoard: bool)
    ensures AllSeen([]) == [] && Totals([], fromControlBoard) == ZERO
  {}

  /** Every datagram is processed into what the frames it holds mean. */
  lemma DatagramMeaning(d: Datagram, config: Config)
    requires d.Processable()
    ensures DatagramMessages(d, config)
            == MessagesOfAll(FramesIn(d.bytes), d.srcIp == config.streamingControlBoardIp)
    ensures DatagramCounters(d, config)
            == Totals(FramesIn(d.bytes), d.srcIp == config.streamingControlBoardIp)
               .(udpPackets := 1, udpPacketSize := |d.bytes|,
                 lengthTooShort := TooShortCount(Parse(d.bytes).stop),
                 lengthTooLong := TooLongCount(Parse(d.bytes).stop))
  {
    hide FramesMessages, FramesCounters, ReceiptCounters, Counters.Plus, MessagesOfAll, Types, FailedTypes, Sum,
      AllSeen, Parse, Processable;
    var fromBoard := d.srcIp == config.streamingControlBoardIp;
    ProcessableHaveHeaders(Parse(d.bytes).frames);
    FramesMeaning(Parse(d.bytes).frames, fromBoard);
    ReceiptPlus(d.bytes, Totals(FramesIn(d.bytes), fromBoard));
  }
}
