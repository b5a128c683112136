/**
 End to end: encoded messages, whatever they hold, are processed into exactly what each
 of them means (src/data_processing.rs:27-186, src/packet_formats/packet_format_1.rs:17-102).
 */
module RoundTrip {
  import opened Wrappers
  import opened Machine
  import opened Bytes
  import opened EventData
  import opened UdpMessage
  import opened Metrics
  import opened PacketFormat1
  import opened Framing
  import opened DataProcessing
  import opened Encoder
  import opened EventArithmetic
  import opened Meaning

  // ----- Events

  /** One event as transmitted: a 25-bit tick count and a position word. */
  datatype RawEvent = RawEvent(ticks: nat, position: u32) {
    predicate Valid() {
      ticks < 0x200_0000
    }

    function Encode(): (bytes: seq<u8>)
      requires Valid()
      ensures |bytes| == 8
    {
      U32ToBE(0xE000_0000 + ticks) + U32ToBE(position)
    }
  }

  predicate AllValid(events: seq<RawEvent>) {
    forall i :: 0 <= i < |events| ==> events[i].Valid()
  }

  function EncodeEvents(events: seq<RawEvent>): (bytes: seq<u8>)
    requires AllValid(events)
    ensures |bytes| == 8 * |events|
  {
    if events == [] then [] else events[0].Encode() + EncodeEvents(events[1..])
  }

  lemma {:induction false} ChunkOfEncoded(events: seq<RawEvent>, i: nat)
    requires AllValid(events) && i < |events|
    ensures Chunk(EncodeEvents(events), i) == events[i].Encode()
  {
    hide RawEvent.Encode;
    var rest := EncodeEvents(events[1..]);
    if i > 0 {
      ChunkOfEncoded(events[1..], i - 1);
      assert (events[0].Encode() + rest)[8 * i..8 * i + 8] == rest[8 * (i - 1)..8 * (i - 1) + 8];
    }
  }

  lemma EncodedEventFields(e: RawEvent)
    requires e.Valid()
    ensures IsEvent(e.Encode()) && Ticks(e.Encode()) == e.ticks && PositionWord(e.Encode()) == e.position
  {
    hide U32ToBE, U32FromBE;
    U32RoundTrip(0xE000_0000 + e.ticks);
    U32RoundTrip(e.position);
    var bytes := e.Encode();
    assert bytes[0..4] == U32ToBE(0xE000_0000 + e.ticks) && bytes[4..8] == U32ToBE(e.position);
    DivModUnique(0xE000_0000 + e.ticks, 0x200_0000, 0x70, e.ticks);
  }

  /** The board-specific part of a header in format 1. */
  datatype Parameters = Parameters(boardAddress: u8, channelBits: u8, diagnosticBits: u8, positionBits: u8,
                                   detectorIdOffset: u32)
  {
    function Encode(): (bytes: seq<u8>)
      ensures |bytes| == 8
    {
      [boardAddress, channelBits, diagnosticBits, positionBits] + U32ToBE(detectorIdOffset)
    }
  }

  /** Of the printed parameters, the two widths and the offset determine the layout. */
  lemma LayoutOfEncoded(p: Parameters)
    ensures LayoutOf(p.Encode()) == Layout(p.channelBits, p.positionBits, p.detectorIdOffset)
  {
    hide U32ToBE, U32FromBE;
    assert p.Encode()[4..8] == U32ToBE(p.detectorIdOffset);
    U32RoundTrip(p.detectorIdOffset);
  }

  /** Any eight bytes are the encoding of some parameters. */
  lemma ParametersOfBytes(bytes: seq<u8>) returns (p: Parameters)
    requires |bytes| == 8
    ensures p.Encode() == bytes
  {
    hide U32ToBE, U32FromBE;
    p := Parameters(bytes[0], bytes[1], bytes[2], bytes[3], U32FromBE(bytes[4..8]));
    U32BytesRoundTrip(bytes[4..8]);
  }

  function EventTofs(events: seq<RawEvent>, frameSyncDelayUs: u32): seq<i32> {
    seq(|events|, i requires 0 <= i < |events| => Signed(20 * events[i].ticks + 1000 * frameSyncDelayUs))
  }

  function EventPixels(events: seq<RawEvent>, p: Parameters): seq<i32> {
    seq(|events|, i requires 0 <= i < |events| =>
      Signed(PixelNumber(p.channelBits, p.positionBits, p.detectorIdOffset, events[i].position)))
  }

  /** The chunks of encoded events are the events. */
  lemma ChunksOfEncoded(events: seq<RawEvent>)
    requires AllValid(events)
    ensures var data := EncodeEvents(events);
            && (forall i :: 0 <= i < |events| ==> IsEvent(Chunk(data, i)))
            && (forall i :: 0 <= i < |events| ==>
                  Ticks(Chunk(data, i)) == events[i].ticks && PositionWord(Chunk(data, i)) == events[i].position)
  {
    hide IsEvent, Ticks, PositionWord, RawEvent.Encode, EncodeEvents;
    var data := EncodeEvents(events);
    forall i | 0 <= i < |events|
      ensures IsEvent(Chunk(data, i))
      ensures Ticks(Chunk(data, i)) == events[i].ticks && PositionWord(Chunk(data, i)) == events[i].position
    {
      ChunkOfEncoded(events, i);
      EncodedEventFields(events[i]);
    }
  }

  /** Read literally, encoded events and parameters give the times and pixels of the events. */
  lemma ReadingOfEncoded(events: seq<RawEvent>, p: Parameters, frameSyncDelayUs: u32)
    requires AllValid(events)
    ensures var data := EncodeEvents(events);
            && Tofs(data, frameSyncDelayUs) == EventTofs(events, frameSyncDelayUs)
            && Pixels(p.Encode(), data) == EventPixels(events, p)
            && BadIndices(data, |data| / 8) == {}
  {
    hide IsEvent, PositionWord, RawEvent.Encode, EncodeEvents, Parameters.Encode, LayoutOf, Signed, PixelNumber, Word,
      Chunk, TofWord, StartsLikeEvent;
    var data := EncodeEvents(events);
    ChunksOfEncoded(events);
    ParametersMeaning(p.Encode());
    LayoutOfEncoded(p);
    forall i: nat | i < |events|
      ensures Word(data, 8 * i) % 0x200_0000 == events[i].ticks && Word(data, 8 * i + 4) == events[i].position
      ensures StartsLikeEvent(data, i)
    {
      ChunkWords(data, i);
      ChunkStart(data, i);
    }
  }

  /** Decoding undoes the encoding of events and parameters; a delay of 2^32 ns or more is refused. */
  lemma DecodeOfEncodedEvents(events: seq<RawEvent>, p: Parameters, frameSyncDelayUs: u32)
    requires AllValid(events)
    ensures Decoded(p.Encode(), EncodeEvents(events), frameSyncDelayUs)
            == if frameSyncDelayUs * 1000 < 0x1_0000_0000 then
                 Ok(EventData(EventTofs(events, frameSyncDelayUs), EventPixels(events, p)))
               else
                 Err(FrameSyncDelayOutOfRange)
    ensures InvalidCount(p.Encode(), EncodeEvents(events), frameSyncDelayUs) == 0
  {
    hide IsEvent, Ticks, PositionWord, RawEvent.Encode, EncodeEvents, Parameters.Encode, LayoutOf, TofsOf, PixelsOf,
      Tofs, Pixels, EventTofs, EventPixels;
    var data := EncodeEvents(events);
    ChunksOfEncoded(events);
    NoBadChunks(data, |events|);
    ReadingOfEncoded(events, p, frameSyncDelayUs);
    TofsMeaning(data, frameSyncDelayUs);
    PixelsMeaning(p.Encode(), data);
  }

  lemma {:induction false} NoBadChunks(data: seq<u8>, n: nat)
    requires n <= EventCount(data) && forall i :: 0 <= i < n ==> IsEvent(Chunk(data, i))
    ensures BadChunks(data, n) == 0
  {
    if n > 0 {
      NoBadChunks(data, n - 1);
    }
  }

  /** Everything that decodes is the encoding of some events. */
  lemma {:induction false} EventsOfData(data: seq<u8>) returns (events: seq<RawEvent>)
    requires |data| % 8 == 0 && AllEvents(data)
    ensures AllValid(events) && EncodeEvents(events) == data
  {
    if data == [] {
      events := [];
    } else {
      var first := Chunk(data, 0);
      var rest := data[8..];
      forall i | 0 <= i < EventCount(rest)
        ensures IsEvent(Chunk(rest, i))
      {
        assert Chunk(rest, i) == Chunk(data, i + 1);
      }
      var tail := EventsOfData(rest);
      var e := RawEvent(Ticks(first), PositionWord(first));
      assert IsEvent(first);
      EncodeOfEvent(first);
      events := [e] + tail;
      assert first + rest == data;
    }
  }

  lemma EncodeOfEvent(event: seq<u8>)
    requires |event| == 8 && IsEvent(event)
    ensures var e := RawEvent(Ticks(event), PositionWord(event));
            e.Valid() && e.Encode() == event
  {
    hide U32ToBE, U32FromBE;
    U32BytesRoundTrip(event[0..4]);
    U32BytesRoundTrip(event[4..8]);
    assert event == event[0..4] + event[4..8];
    assert TofWord(event) == 0xE000_0000 + Ticks(event);
  }

  // ----- Messages

  /** What is sent: any message at all, or a neutron message made of events. */
  datatype Sent = Any(frame: Frame) | Pulse(header: Frame, parameters: Parameters, events: seq<RawEvent>) {

    /** A pulse carries its own events and parameters in place of those of its header. */
    function ToFrame(): Frame
      requires Pulse? ==> AllValid(events)
    {
      match this
      case Any(frame) => frame
      case Pulse(_, _, _) =>
        header.(flags := 0xFF, formatCode := 1, parameters := parameters.Encode(), data := EncodeEvents(events))
    }

    predicate Valid() {
      && (Pulse? ==> AllValid(events) && IsMoment(header.time) && header.frameSyncDelayUs * 1000 < 0x1_0000_0000)
      && ToFrame().WellFormed()
    }

    /** A pu00 for a pulse, and an ev44 for its events when it has any. */
    function Messages(fromControlBoard: bool): seq<Message>
      requires Valid()
    {
      match this
      case Any(frame) => Meaning.Messages(frame, fromControlBoard)
      case Pulse(_, _, _) =>
        [ Pu00("event_udp_to_kafka", 0, ReferenceTime(header.time), Some(header.vetoes),
               if fromControlBoard then Some(header.period) else None,
               if fromControlBoard then Some(header.ppp) else None) ]
        + if events == [] then [] else
            [ Ev44("event_udp_to_kafka", 0, [ReferenceTime(header.time)], [0],
                   EventTofs(events, header.frameSyncDelayUs), EventPixels(events, parameters)) ]
    }
  }

  predicate AllSendable(sent: seq<Sent>) {
    forall i :: 0 <= i < |sent| ==> sent[i].Valid()
  }

  function FramesOf(sent: seq<Sent>): seq<Frame>
    requires AllSendable(sent)
  {
    seq(|sent|, i requires 0 <= i < |sent| => sent[i].ToFrame())
  }

  function MessagesOfSent(sent: seq<Sent>, fromControlBoard: bool): seq<Message>
    requires AllSendable(sent)
  {
    if sent == [] then [] else
      MessagesOfSent(sent[..|sent| - 1], fromControlBoard) + sent[|sent| - 1].Messages(fromControlBoard)
  }

  predicate AllWellFormed(frames: seq<Frame>) {
    forall f | f in frames :: f.WellFormed()
  }

  function EncodeAll(frames: seq<Frame>): seq<u8>
    requires AllWellFormed(frames)
  {
    if frames == [] then [] else frames[0].Encode() + EncodeAll(frames[1..])
  }

  /** A pulse means its events: no error, one pu00, every event counted and sent. */
  lemma PulseMeaning(p: Sent, fromControlBoard: bool)
    requires p.Pulse? && p.Valid()
    ensures Problem(p.ToFrame()) == None
    ensures Meaning.Messages(p.ToFrame(), fromControlBoard) == p.Messages(fromControlBoard)
    ensures CountersOf(p.ToFrame(), fromControlBoard)
            == Counters(0, 0, multiset{NeutronData}, multiset{}, 0, 0,
                        if fromControlBoard then 1 else 0, |p.events|, 0)
  {
    hide IsMoment, ReferenceTime, Tofs, Pixels, EventTofs, EventPixels, EncodeEvents, Parameters.Encode,
      StartsLikeEvent, Frame.WellFormed;
    ReadingOfEncoded(p.events, p.parameters, p.header.frameSyncDelayUs);
    NoneBad(p.ToFrame().data);
    assert p.events == [] <==> p.ToFrame().data == [];
  }

  lemma NoneBad(data: seq<u8>)
    requires BadIndices(data, |data| / 8) == {}
    ensures forall i: nat :: i < |data| / 8 ==> StartsLikeEvent(data, i)
  {
    hide StartsLikeEvent;
    forall i: nat | i < |data| / 8
      ensures StartsLikeEvent(data, i)
    {
      assert i !in BadIndices(data, |data| / 8);
    }
  }

  /**
   A neutron frame at a moment always sends its pu00, whatever its data and whatever
   follows it; when the data does not decode, that is all it sends, and one error is counted.
   */
  lemma PulseAlwaysSent(f: Frame, tail: seq<u8>, fromControlBoard: bool)
    requires f.WellFormed() && f.flags == 0xFF && IsMoment(f.time)
    ensures var v := View(f.Encode() + tail);
            var pulse := Pu00("event_udp_to_kafka", 0, ReferenceTime(f.time), Some(f.vetoes),
                              if fromControlBoard then Some(f.period) else None,
                              if fromControlBoard then Some(f.ppp) else None);
            && Processable(v)
            && [pulse] <= FrameMessages(v, fromControlBoard)
            && FrameError(v) == DataProblem(f)
            && (DataProblem(f).Some? ==>
                  && FrameMessages(v, fromControlBoard) == [pulse]
                  && FrameCounters(v, fromControlBoard).processingErrors == multiset{NeutronData}
                  && FrameCounters(v, fromControlBoard).neutronEvents == 0)
  {
    hide Frame.Encode, Frame.WellFormed, UdpMessage.New, View.SlicesInBounds, View.HasMarker, View.TotalLengthBytes,
      FrameOf, IsMoment, ReferenceTime, FrameMessages, FrameError, FrameCounters, DataProblem, Timed;
    ParseOfPrint(f, tail);
    var v := View(f.Encode() + tail);
    SeenWhole(v);
    FrameMeaning(v, fromControlBoard);
  }

  lemma SeenWhole(v: View)
    requires v.HasHeader() && v.SlicesInBounds()
    ensures Seen(v) == FrameOf(v) && Processable(v)
  {}

  // ----- What follows the last message

  /** Enough bytes for a header, marked as one. */
  predicate Marked(bytes: seq<u8>) {
    |bytes| >= 56 && forall i :: 0 <= i < 5 ==> bytes[i] == 0xFF
  }

  /** The low twelve bits of bytes 32 and 33, in four-byte words. */
  function Declared(bytes: seq<u8>): nat
    requires Marked(bytes)
  {
    (bytes[32] as int * 0x100 + bytes[33] as int) % 4096 * 4
  }

  /** No message starts here: no marked header, or one with a length that does not fit. */
  predicate NoMessage(tail: seq<u8>) {
    Marked(tail) ==> Declared(tail) < 56 || Declared(tail) > |tail|
  }

  lemma RejectionOfTail(tail: seq<u8>)
    requires NoMessage(tail)
    ensures UdpMessage.New(tail).Err?
    ensures UdpMessage.New(tail).error.DeclaredLengthTooShort? <==> Marked(tail) && Declared(tail) < 56
    ensures UdpMessage.New(tail).error.DeclaredLengthTooLong? <==> Marked(tail) && Declared(tail) > |tail|
  {
    hide UdpMessage.New, View.TotalLengthBytes, View.HasMarker;
    NewOutcome(tail);
    if |tail| >= 56 {
      TotalLengthValue(View(tail));
      MarkedByMarker(tail);
    }
  }

  lemma ParseOfTail(tail: seq<u8>)
    requires NoMessage(tail)
    ensures Parse(tail).frames == []
    ensures TooShortCount(Parse(tail).stop) == if Marked(tail) && Declared(tail) < 56 then 1 else 0
    ensures TooLongCount(Parse(tail).stop) == if Marked(tail) && Declared(tail) > |tail| then 1 else 0
  {
    hide UdpMessage.New, Parse, NoMessage, Declared;
    RejectionOfTail(tail);
    ParseStep(tail);
  }

  lemma MarkedByMarker(bytes: seq<u8>)
    requires |bytes| >= 56
    ensures Marked(bytes) <==> View(bytes).HasMarker()
  {
    assert HEADER_MARKER <= bytes <==> bytes[..4] == HEADER_MARKER;
    assert bytes[..4] == HEADER_MARKER <==> bytes[0] == bytes[1] == bytes[2] == bytes[3] == 0xFF;
  }

  /** Bytes that cannot start a message and are not counted as a bad length. */
  predicate IsPadding(tail: seq<u8>) {
    |tail| < 56 || exists i :: 0 <= i < 5 && tail[i] != 0xFF
  }

  lemma PaddingIsIgnored(tail: seq<u8>, srcIp: IpAddr, config: Config)
    requires IsPadding(tail)
    ensures Datagram(tail, srcIp).Processable()
    ensures DatagramMessages(Datagram(tail, srcIp), config) == []
    ensures DatagramCounters(Datagram(tail, srcIp), config) == ZERO.(udpPackets := 1, udpPacketSize := |tail|)
  {
    NewOutcome(tail);
    ParseStep(tail);
    hide UdpMessage.New, Parse, Processable, ReceiptCounters, Counters.Plus;
    assert Parse(tail).frames == [];
    ReceiptPlus(tail, ZERO);
    assert FramesMessages([], srcIp == config.streamingControlBoardIp) == [];
    assert FramesCounters([], srcIp == config.streamingControlBoardIp) == ZERO;
  }

  // ----- End to end

  /** Parsing finds the encoded messages, all of them and no others. */
  lemma {:induction false} ParseOfEncoded(frames: seq<Frame>, tail: seq<u8>)
    requires AllWellFormed(frames) && NoMessage(tail)
    ensures var r := Parse(EncodeAll(frames) + tail);
            && |r.frames| == |frames|
            && (forall i :: 0 <= i < |frames| ==>
                  && r.frames[i].HasHeader() && r.frames[i].SlicesInBounds() && FrameOf(r.frames[i]) == frames[i])
            && r.stop == Parse(tail).stop
  {
    hide Frame.Encode, Frame.WellFormed, Parse, UdpMessage.New, FrameOf, View.SlicesInBounds, View.HasHeader,
      View.TotalLengthBytes, NoMessage;
    if frames == [] {
      assert EncodeAll(frames) + tail == tail;
      ParseOfTail(tail);
    } else {
      var rest := EncodeAll(frames[1..]) + tail;
      var bytes := frames[0].Encode() + rest;
      assert EncodeAll(frames) + tail == bytes;
      ParseOfPrint(frames[0], rest);
      ParseStep(bytes);
      assert bytes[|frames[0].Encode()|..] == rest;
      ParseOfEncoded(frames[1..], tail);
    }
  }

  lemma SeenOfEncoded(frames: seq<Frame>, tail: seq<u8>)
    requires AllWellFormed(frames) && NoMessage(tail)
    ensures var bytes := EncodeAll(frames) + tail;
            && AllProcessable(Parse(bytes).frames)
            && FramesIn(bytes) == frames
            && Parse(bytes).stop == Parse(tail).stop
  {
    hide Frame.WellFormed, EncodeAll, Parse, FrameOf, View.SlicesInBounds, View.HasHeader, Seen, Processable, NoMessage;
    var views := Parse(EncodeAll(frames) + tail).frames;
    ParseOfEncoded(frames, tail);
    forall i | 0 <= i < |frames|
      ensures Processable(views[i]) && views[i].HasHeader() && Seen(views[i]) == frames[i]
    {
      SeenWhole(views[i]);
    }
  }

  lemma {:induction false} MessagesOfFrames(sent: seq<Sent>, fromControlBoard: bool)
    requires AllSendable(sent)
    ensures MessagesOfAll(FramesOf(sent), fromControlBoard) == MessagesOfSent(sent, fromControlBoard)
  {
    hide Sent.ToFrame, Sent.Valid, Sent.Messages, Meaning.Messages;
    if sent != [] {
      var n := |sent| - 1;
      MessagesOfFrames(sent[..n], fromControlBoard);
      assert FramesOf(sent)[..n] == FramesOf(sent[..n]);
      MessagesOfOne(sent[n], fromControlBoard);
    }
  }

  lemma MessagesOfOne(s: Sent, fromControlBoard: bool)
    requires s.Valid()
    ensures Meaning.Messages(s.ToFrame(), fromControlBoard) == s.Messages(fromControlBoard)
  {
    if s.Pulse? {
      hide Meaning.Messages, Sent.Messages, Sent.ToFrame;
      PulseMeaning(s, fromControlBoard);
    }
  }

  /**
   Any list of messages of any kind, encoded and concatenated, followed by anything but a
   message, is processed into exactly what each of them means, in order: pulses into their
   pu00 and, if they have events, an ev44 with the times and pixels of those events; all
   other messages into what their fields mean. The counters are the totals over these
   messages, and a bad length is counted exactly when what follows declares one.
   */
  lemma EndToEnd(sent: seq<Sent>, tail: seq<u8>, srcIp: IpAddr, config: Config)
    requires AllSendable(sent) && NoMessage(tail)
    ensures AllWellFormed(FramesOf(sent))
    ensures var d := Datagram(EncodeAll(FramesOf(sent)) + tail, srcIp);
            var fromControlBoard := srcIp == config.streamingControlBoardIp;
            && d.Processable()
            && DatagramMessages(d, config) == MessagesOfSent(sent, fromControlBoard)
            && DatagramCounters(d, config)
               == Totals(FramesOf(sent), fromControlBoard)
                  .(udpPackets := 1, udpPacketSize := |d.bytes|,
                    lengthTooShort := if Marked(tail) && Declared(tail) < 56 then 1 else 0,
                    lengthTooLong := if Marked(tail) && Declared(tail) > |tail| then 1 else 0)
  {
    AllFramesWellFormed(sent);
    hide Sent.ToFrame, Sent.Valid, Frame.WellFormed, FramesOf, EncodeAll, MessagesOfAll, MessagesOfSent, Totals, Parse,
      Processable, DatagramMessages, DatagramCounters, NoMessage, Marked, FramesIn;
    var d := Datagram(EncodeAll(FramesOf(sent)) + tail, srcIp);
    SeenOfEncoded(FramesOf(sent), tail);
    ParseOfTail(tail);
    DatagramMeaning(d, config);
    MessagesOfFrames(sent, srcIp == config.streamingControlBoardIp);
  }

  lemma AllFramesWellFormed(sent: seq<Sent>)
    requires AllSendable(sent)
    ensures AllWellFormed(FramesOf(sent))
  {
    hide Sent.ToFrame, Frame.WellFormed;
    forall f | f in FramesOf(sent)
      ensures f.WellFormed()
    {
      var i :| 0 <= i < |sent| && f == FramesOf(sent)[i];
      assert sent[i].Valid();
    }
  }
}
