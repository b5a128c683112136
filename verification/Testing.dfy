/**
 The repository's own packet maker (src/testing.rs, and the fake event and parameters of
 src/packet_formats/packet_format_1.rs:105-131), and exactly when it makes what it promises.
 */
module Testing {
  import opened Wrappers
  import opened Machine
  import opened Bytes
  import opened Gps
  import opened UdpMessage
  import opened PacketFormat1
  import opened DataProcessing
  import opened Encoder
  import opened Meaning
  import opened RoundTrip

  const TESTING_TIMESTAMP: u64 :=
    26 * 0x100_0000_0000_0000 + 106 * 0x8000_0000_0000 + 17 * 0x400_0000_0000 + 9 * 0x10_0000_0000
    + 35 * 0x4000_0000 + 123 * 0x10_0000 + 456 * 0x400 + 789

  const TESTING_TIMESTAMP_NS_SINCE_EPOCH: u64 := 1_776_359_375_123_456_789

  const FAKE_EVENT_TOF: i32 := 456_000
  const FAKE_EVENT_PIXEL: i32 := 282_828 + 1234 + 2 * 4096

  const FAKE_EVENT: seq<u8> := [0xE0, 0x00, 0x59, 0x10, 2, 0xFF, 0xF4, 0xD2]

  const FAKE_PARAMETERS: seq<u8> := [0x78, 8, 12, 12] + U32ToBE(282_828)

  /** The chain of byte groups, one header word at a time, with its truncating casts. */
  function HeaderWords(numEvents: nat, ppp: u8): (words: seq<seq<u8>>)
    ensures |words| == 13 && AreWords(words)
  {
    var boardSpecificLenWords := |FAKE_PARAMETERS| / 4;
    var packetLengthWords := 14 + boardSpecificLenWords + numEvents * 2;
    [ [0xFF, 0xFF, 0xFF, 0xFF],
      [0xFF] + U16ToBE(PACKET_FORMAT_CODE) + [(14 + boardSpecificLenWords) % 0x100],
      [0, 0] + [0x00, 0xFF],
      U64ToBE(TESTING_TIMESTAMP)[..4],
      U64ToBE(TESTING_TIMESTAMP)[4..],
      [0, 0, 0, 0],
      [0, 0] + [0, 0],
      U32ToBE(Wrap32(numEvents)),
      U16ToBE(packetLengthWords % 0x1_0000) + [0] + [ppp],
      [0, 0, 0, 0],
      [0, 0, 0, 0],
      [0, 0, 0, 0],
      [0, 0, 0, 0] ]
  }

  function MakeUdpHeader(numEvents: nat, ppp: u8): seq<u8> {
    Flatten(HeaderWords(numEvents, ppp)) + FAKE_PARAMETERS + [0, 0, 0, 0]
  }

  function Repeat(bytes: seq<u8>, n: nat): (r: seq<u8>)
    ensures |r| == n * |bytes|
  {
    if n == 0 then [] else
      assert n * |bytes| == |bytes| + (n - 1) * |bytes|;
      bytes + Repeat(bytes, n - 1)
  }

  function MakeUdpPacket(numEvents: nat, ppp: u8): seq<u8> {
    MakeUdpHeader(numEvents, ppp) + Repeat(FAKE_EVENT, numEvents)
  }

  // ----- The same packet through the general encoder

  function FakeEvents(n: nat): (events: seq<RawEvent>)
    ensures |events| == n && AllValid(events)
    ensures forall i :: 0 <= i < n ==> events[i] == RawEvent(22_800, 0x02FF_F4D2)
  {
    if n == 0 then [] else [RawEvent(22_800, 0x02FF_F4D2)] + FakeEvents(n - 1)
  }

  const FAKE_LAYOUT: Parameters := Parameters(0x78, 8, 12, 12, 282_828)

  function FakePulse(n: nat, ppp: u8): (p: Sent)
    ensures p.Pulse? && p.events == FakeEvents(n)
  {
    Pulse(Frame(1, 0, 0, 0xFF, TESTING_TIMESTAMP, 0, 0, 0, Wrap32(n), 0, 0, ppp, 0, 0, 0, 0, [], [0, 0, 0, 0], []),
          FAKE_LAYOUT, FakeEvents(n))
  }

  function FakeFrame(n: nat, ppp: u8): Frame {
    FakePulse(n, ppp).ToFrame()
  }

  lemma FakeFrameFields(n: nat, ppp: u8)
    ensures FakeFrame(n, ppp)
            == Frame(1, 0, 0, 0xFF, TESTING_TIMESTAMP, 0, 0, 0, Wrap32(n), 0, 0, ppp, 0, 0, 0, 0,
                     FAKE_PARAMETERS, [0, 0, 0, 0], EncodeEvents(FakeEvents(n)))
  {
    hide U32ToBE, EncodeEvents, FakeEvents;
  }

  lemma FakeEventBytes()
    ensures RawEvent(22_800, 0x02FF_F4D2).Encode() == FAKE_EVENT
  {}

  lemma {:induction false} FakeData(n: nat)
    ensures EncodeEvents(FakeEvents(n)) == Repeat(FAKE_EVENT, n)
  {
    hide RawEvent.Encode, FAKE_EVENT;
    if n > 0 {
      FakeData(n - 1);
      assert FakeEvents(n)[1..] == FakeEvents(n - 1);
      FakeEventBytes();
    }
  }

  /** The timestamp constant is valid and has the value the tests give for it. */
  lemma TestingTimestamp()
    ensures GpsTime(TESTING_TIMESTAMP).ToFields() == Fields(26, 106, 17, 9, 35, 123, 456, 789)
    ensures GpsTime(TESTING_TIMESTAMP).ToFields().Valid()
    ensures GpsTime(TESTING_TIMESTAMP).NanosecondsSinceEpoch() == Some(TESTING_TIMESTAMP_NS_SINCE_EPOCH)
  {
    hide GpsTime.NanosecondsSinceEpoch, GpsTime.ToFields, DaysBeforeYear;
    var f := Fields(26, 106, 17, 9, 35, 123, 456, 789);
    assert f.Pack() == TESTING_TIMESTAMP;
    ValueOfPacked(f);
  }

  lemma FakeFrameIsWellFormed(n: nat, ppp: u8)
    requires n <= 2039
    ensures var f := FakeFrame(n, ppp);
            && f.WellFormed() && f.TotalLengthWords() == 16 + 2 * n
            && f.checksum == [0, 0, 0, 0] && f.eventsInFrame == n && f.ppp == ppp && f.formatCode == 1
  {
    hide Parameters.Encode, EncodeEvents, FakeEvents, Frame.WellFormed, Frame.HeaderLengthWords, Frame.TotalLengthWords;
    WellFormedByLengths(FakeFrame(n, ppp), 16, 16 + 2 * n);
  }

  lemma FakeBytes(n: nat, ppp: u8)
    requires n <= 2039 && FakeFrame(n, ppp).WellFormed()
    ensures FakeFrame(n, ppp).Encode() == MakeUdpPacket(n, ppp)
  {
    hide FakeFrame, Frame.Words, Frame.WellFormed, HeaderWords, FAKE_PARAMETERS, EncodeEvents, FakeEvents, Repeat;
    FakeFrameFields(n, ppp);
    FakeData(n);
    FakeWords(n, ppp);
  }

  lemma FakePulseIsValid(n: nat, ppp: u8)
    requires n <= 2039
    ensures FakePulse(n, ppp).Valid()
    ensures var f := FakeFrame(n, ppp);
            && f.WellFormed() && f.TotalLengthWords() == 16 + 2 * n
            && f.Encode() == MakeUdpPacket(n, ppp)
            && f.checksum == [0, 0, 0, 0] && f.eventsInFrame == n && f.ppp == ppp && f.formatCode == 1
  {
    hide Frame.WellFormed, Frame.Encode, Frame.TotalLengthWords, Sent.ToFrame, MakeUdpPacket, FakeEvents, IsMoment;
    FakeTime();
    FakeFrameIsWellFormed(n, ppp);
    FakeBytes(n, ppp);
  }

  lemma FakeMarkedWords(n: nat, ppp: u8)
    requires n <= 2039 && FakeFrame(n, ppp).WellFormed()
    ensures var words, expected := FakeFrame(n, ppp).Words(), HeaderWords(n, ppp);
            && words[0] == expected[0] && words[1] == expected[1] && words[2] == expected[2]
            && words[6] == expected[6] && words[7] == expected[7] && words[8] == expected[8]
  {
    hide EncodeEvents, FakeEvents, U32ToBE, U64ToBE;
    var f := FakeFrame(n, ppp);
    assert U16ToBE(0) == [0, 0];
    assert |f.data| == 8 * n;
    assert f.HeaderLengthWords() == 16 && f.LengthHalf() == 16 + 2 * n;
    hide U16ToBE, Frame.WellFormed, Frame.HeaderLengthWords, Frame.TotalLengthWords, Frame.LengthHalf;
  }

  lemma FakePlainWords(n: nat, ppp: u8)
    requires n <= 2039 && FakeFrame(n, ppp).WellFormed()
    ensures var words, expected := FakeFrame(n, ppp).Words(), HeaderWords(n, ppp);
            && words[3] == expected[3] && words[4] == expected[4] && words[5] == expected[5]
            && words[9] == expected[9] && words[10] == expected[10] && words[11] == expected[11]
            && words[12] == expected[12]
  {
    hide EncodeEvents, FakeEvents, U16ToBE, Frame.WellFormed, Frame.HeaderLengthWords, Frame.LengthHalf;
    assert U32ToBE(0) == [0, 0, 0, 0];
    hide U32ToBE;
    var time := U64ToBE(TESTING_TIMESTAMP);
    assert time[..4] == U32ToBE(TESTING_TIMESTAMP / 0x1_0000_0000);
    assert time[4..] == U32ToBE(TESTING_TIMESTAMP % 0x1_0000_0000);
  }

  lemma FakeWords(n: nat, ppp: u8)
    requires n <= 2039 && FakeFrame(n, ppp).WellFormed()
    ensures FakeFrame(n, ppp).Words() == HeaderWords(n, ppp)
  {
    hide Frame.Words, HeaderWords, FakeFrame;
    FakeMarkedWords(n, ppp);
    FakePlainWords(n, ppp);
  }

  lemma DeclaredLength(n: nat, ppp: u8)
    ensures var v := View(MakeUdpPacket(n, ppp));
            v.HasHeader() && v.TotalLengthWords() == (16 + 2 * n) % 4096 && |v.content| == 64 + 8 * n
  {
    hide U16ToBE, View.TotalLengthWords, Flatten, Repeat;
    var c := MakeUdpPacket(n, ppp);
    var v := View(c);
    var words := HeaderWords(n, ppp);
    var declared := (16 + 2 * n) % 0x1_0000;
    assert words[8] == U16ToBE(declared) + [0] + [ppp];
    WordAt(words, 8);
    assert c[..52] == Flatten(words);
    assert c[32..36] == c[..52][32..36] == words[8];
    assert c[32] == words[8][0] && c[33] == words[8][1];
    U16RoundTrip(declared);
    TotalLengthValue(v);
    ModMod(16 + 2 * n, 4096, 16);
  }

  /**
   The packet maker yields a datagram holding one message, as long as the datagram
   itself, exactly up to 2039 events; beyond that the twelve-bit length has lost its top.
   */
  lemma PacketIsOneMessageExactly(n: nat, ppp: u8)
    ensures var c := MakeUdpPacket(n, ppp);
            && |c| == 64 + 8 * n
            && ((New(c).Ok? && New(c).value.TotalLengthBytes() == |c|) <==> n <= 2039)
  {
    DeclaredLength(n, ppp);
    var c := MakeUdpPacket(n, ppp);
    hide MakeUdpPacket;
    NewOutcome(c);
    if n <= 2039 {
      FakePulseIsValid(n, ppp);
      ParseOfPrint(FakeFrame(n, ppp), []);
      assert c + [] == c;
    }
  }

  /** A pu00 with the testing timestamp and, for `n` events, an ev44 with `n` fake events. */
  function ExpectedMessages(n: nat, ppp: u8, fromControlBoard: bool): seq<Message> {
    [Pu00("event_udp_to_kafka", 0, TESTING_TIMESTAMP_NS_SINCE_EPOCH, Some(0),
          if fromControlBoard then Some(0) else None,
          if fromControlBoard then Some(ppp) else None)]
    + if n == 0 then [] else
        [Ev44("event_udp_to_kafka", 0, [TESTING_TIMESTAMP_NS_SINCE_EPOCH], [0],
              seq(n, _ => FAKE_EVENT_TOF), seq(n, _ => FAKE_EVENT_PIXEL))]
  }

  /**
   Up to 2039 events, followed by anything but a message, a made packet is processed into
   the expected messages; its fixed bytes, parameters, checksum and data make it up.
   */
  lemma MadePacketIsProcessed(n: nat, ppp: u8, tail: seq<u8>, srcIp: IpAddr, config: Config)
    requires n <= 2039 && NoMessage(tail)
    ensures var c := MakeUdpPacket(n, ppp);
            var v := View(c + tail);
            && New(c + tail) == Ok(v) && v.SlicesInBounds() && v.TotalLengthBytes() == |c|
            && v.content[..52] + v.BoardSpecificParameters() + [0, 0, 0, 0] + v.DataBytes() == c
            && v.EventsInFrame() == n && v.RawPppPerFrame() == ppp && v.PacketFormatCode() == 1
    ensures var d := Datagram(MakeUdpPacket(n, ppp) + tail, srcIp);
            && d.Processable()
            && DatagramMessages(d, config) == ExpectedMessages(n, ppp, d.FromControlBoard(config))
  {
    hide MakeUdpPacket, Frame.Encode, Frame.WellFormed, Sent.Messages, Sent.Valid, Sent.ToFrame, FakePulse,
      DatagramMessages, DatagramCounters, Datagram.Processable, UdpMessage.New, NoMessage, Totals, Marked;
    FakePulseIsValid(n, ppp);
    MadePacketParts(n, ppp, tail);
    FakeMessages(n, ppp, srcIp == config.streamingControlBoardIp);
    var p := FakePulse(n, ppp);
    EndToEnd([p], tail, srcIp, config);
    OneSent(p, srcIp == config.streamingControlBoardIp);
  }

  lemma OneSent(s: Sent, fromControlBoard: bool)
    requires s.Valid()
    ensures FramesOf([s]) == [s.ToFrame()] && EncodeAll([s.ToFrame()]) == s.ToFrame().Encode()
    ensures MessagesOfSent([s], fromControlBoard) == s.Messages(fromControlBoard)
  {
    hide Sent.Messages, Sent.ToFrame, Frame.Encode, Frame.WellFormed;
    assert s.ToFrame().WellFormed();
    assert EncodeAll([s.ToFrame()]) == s.ToFrame().Encode() + [];
    assert MessagesOfSent([s], fromControlBoard) == [] + s.Messages(fromControlBoard);
  }

  lemma MadePacketParts(n: nat, ppp: u8, tail: seq<u8>)
    requires n <= 2039
    ensures var c := MakeUdpPacket(n, ppp);
            var v := View(c + tail);
            && New(c + tail) == Ok(v) && v.SlicesInBounds() && v.TotalLengthBytes() == |c|
            && v.content[..52] + v.BoardSpecificParameters() + [0, 0, 0, 0] + v.DataBytes() == c
            && v.EventsInFrame() == n && v.RawPppPerFrame() == ppp && v.PacketFormatCode() == 1
  {
    hide MakeUdpPacket, Frame.Words, Frame.Encode, Frame.WellFormed, UdpMessage.New, View.HasMarker,
      View.TotalLengthWords, View.SlicesInBounds, FrameOf, FAKE_PARAMETERS, FakeFrame;
    FakePulseIsValid(n, ppp);
    var f := FakeFrame(n, ppp);
    ParseOfPrint(f, tail);
    EncodedFields(f, View(f.Encode() + tail), tail);
  }

  /** What an accepted encoding shows, and how its parts make up the bytes. */
  lemma EncodedFields(f: Frame, v: View, tail: seq<u8>)
    requires f.WellFormed() && v == View(f.Encode() + tail)
    requires v.HasHeader() && v.SlicesInBounds() && FrameOf(v) == f
    ensures v.EventsInFrame() == f.eventsInFrame && v.RawPppPerFrame() == f.ppp && v.PacketFormatCode() == f.formatCode
    ensures v.content[..52] + v.BoardSpecificParameters() + f.checksum + v.DataBytes() == f.Encode()
  {
    hide Frame.Words, View.SlicesInBounds, View.EventsInFrame, View.RawPppPerFrame, View.PacketFormatCode,
      View.BoardSpecificParameters, View.DataBytes;
    assert v.content[..52] == Flatten(f.Words());
  }

  lemma FakeMessages(n: nat, ppp: u8, fromControlBoard: bool)
    requires FakePulse(n, ppp).Valid()
    ensures FakePulse(n, ppp).Messages(fromControlBoard) == ExpectedMessages(n, ppp, fromControlBoard)
  {
    hide Sent.Valid, IsMoment, ReferenceTime, Signed, PixelNumber, FakeEvents;
    FakeTime();
    FakeTof();
    FakePixel();
    assert EventTofs(FakeEvents(n), 0) == seq(n, _ => FAKE_EVENT_TOF);
    assert EventPixels(FakeEvents(n), FAKE_LAYOUT) == seq(n, _ => FAKE_EVENT_PIXEL);
  }

  lemma FakeTime()
    ensures IsMoment(TESTING_TIMESTAMP) && ReferenceTime(TESTING_TIMESTAMP) == TESTING_TIMESTAMP_NS_SINCE_EPOCH
  {
    hide IsMoment, UnixNanoseconds, GpsTime.NanosecondsSinceEpoch, GpsTime.ToFields, Fields.Valid;
    TestingTimestamp();
    TimeMeaning(TESTING_TIMESTAMP);
  }

  lemma FakeTof()
    ensures Signed(20 * 22_800 + 1000 * 0) == FAKE_EVENT_TOF
  {}

  lemma FakePixel()
    ensures Signed(PixelNumber(8, 12, 282_828, 0x02FF_F4D2)) == FAKE_EVENT_PIXEL
  {
    hide Pow2;
    Pow2Values();
    Pow2Add(12, 12);
  }
}
