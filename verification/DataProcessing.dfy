/**
 From datagrams to messages (src/data_processing.rs).

 The methods mirror the source: they increment counters and write to a sink as they go.
 The functions before them say what a frame, a datagram and a run contribute.
 */
module DataProcessing {
  import opened Wrappers
  import opened Machine
  import opened Gps
  import opened EventData
  import opened UdpMessage
  import opened Metrics
  import opened PacketFormats
  import opened Framing

  datatype IpAddr = V4(address: u32) | V6(high: u64, low: u64)

  datatype Config = Config(streamingControlBoardIp: IpAddr)

  /** The outgoing messages, before their FlatBuffers encoding. */
  datatype Message =
    | Pu00(sourceName: string, messageId: i64, referenceTime: i64,
           vetoes: Option<u32>, periodNumber: Option<u32>, rawProtonCharge: Option<u8>)
    | Ev44(sourceName: string, messageId: i64, referenceTimes: seq<i64>, referenceTimeIndex: seq<i32>,
           timeOfFlight: seq<i32>, pixelId: seq<i32>)

  const SOURCE_NAME := "event_udp_to_kafka"

  /** Receives the outgoing messages in order. */
  class Sink {
    var messages: seq<Message>

    constructor ()
      ensures messages == []
    {
      messages := [];
    }
  }

  // ----- What one frame contributes

  /**
   What processing demands of a frame: a neutron frame with a valid timestamp has its
   parameters and data sliced out, and `UdpMessageView::new` does not check that they exist.
   */
  predicate Processable(frame: View) {
    && frame.HasHeader()
    && (Timed(frame) ==> frame.SlicesInBounds())
  }

  /** Neutron frames with a valid timestamp. */
  predicate Timed(frame: View)
    requires frame.HasHeader()
  {
    frame.PacketType() == NeutronData && frame.Time().ToFields().Valid()
  }

  /** The reference time. */
  function FrameTime(frame: View): u64
    requires frame.HasHeader() && Timed(frame)
  {
    ValueOf(frame.Time());
    frame.Time().NanosecondsSinceEpoch().value
  }

  function FrameEvents(frame: View): Result<EventData, ProcessingError>
    requires frame.HasHeader() && frame.SlicesInBounds()
  {
    BoardEvents(frame.PacketFormatCode(), frame.BoardSpecificParameters(),
                frame.DataBytes(), frame.FrameSyncDelayUs())
  }

  function FrameInvalidCount(frame: View): nat
    requires frame.HasHeader() && frame.SlicesInBounds()
  {
    BoardInvalidCount(frame.PacketFormatCode(), frame.BoardSpecificParameters(),
                      frame.DataBytes(), frame.FrameSyncDelayUs())
  }

  function PulseMessage(frame: View, time: u64, fromControlBoard: bool): Message
    requires frame.HasHeader()
  {
    Pu00(SOURCE_NAME, 0, AsI64(time), Some(frame.Vetoes()),
         if fromControlBoard then Some(frame.PeriodNumber()) else None,
         if fromControlBoard then Some(frame.RawPppPerFrame()) else None)
  }

  function EventMessages(time: u64, events: Result<EventData, ProcessingError>): seq<Message> {
    if events.Ok? && !events.value.IsEmpty() then
      [Ev44(SOURCE_NAME, 0, [AsI64(time)], [0], events.value.timeOfFlight, events.value.pixelId)]
    else
      []
  }

  function FrameMessages(frame: View, fromControlBoard: bool): seq<Message>
    requires Processable(frame)
  {
    if Timed(frame) then
      [PulseMessage(frame, FrameTime(frame), fromControlBoard)] + EventMessages(FrameTime(frame), FrameEvents(frame))
    else
      []
  }

  /** The error that processing the frame ends with, if any. */
  function FrameError(frame: View): Option<ProcessingError>
    requires Processable(frame)
  {
    if frame.PacketType() != NeutronData then
      Some(UnimplementedPacketType)
    else if !Timed(frame) then
      Some(InvalidTimestamp)
    else
      match FrameEvents(frame)
      case Ok(_) => None
      case Err(e) => Some(e)
  }

  function FrameCounters(frame: View, fromControlBoard: bool): Counters
    requires Processable(frame)
  {
    var timed := Timed(frame);
    Counters(
      0, 0,
      multiset{frame.PacketType()},
      if FrameError(frame).Some? then multiset{frame.PacketType()} else multiset{},
      0, 0,
      if timed && fromControlBoard then 1 else 0,
      if timed && FrameEvents(frame).Ok? then FrameEvents(frame).value.Len() else 0,
      if timed then FrameInvalidCount(frame) else 0)
  }

  // ----- What datagrams and runs contribute

  predicate AllProcessable(frames: seq<View>) {
    forall i :: 0 <= i < |frames| ==> Processable(frames[i])
  }

  function FramesMessages(frames: seq<View>, fromControlBoard: bool): seq<Message>
    requires AllProcessable(frames)
  {
    if frames == [] then []
    else
      var n := |frames| - 1;
      FramesMessages(frames[..n], fromControlBoard) + FrameMessages(frames[n], fromControlBoard)
  }

  function FramesCounters(frames: seq<View>, fromControlBoard: bool): Counters
    requires AllProcessable(frames)
  {
    if frames == [] then ZERO
    else
      var n := |frames| - 1;
      FramesCounters(frames[..n], fromControlBoard).Plus(FrameCounters(frames[n], fromControlBoard))
  }

  datatype Datagram = Datagram(bytes: seq<u8>, srcIp: IpAddr) {
    predicate Processable() {
      AllProcessable(Parse(bytes).frames)
    }

    predicate FromControlBoard(config: Config) {
      srcIp == config.streamingControlBoardIp
    }
  }

  /** Received, measured, and counted if its declared length stopped the parse. */
  function ReceiptCounters(bytes: seq<u8>): Counters {
    ZERO.(udpPackets := 1, udpPacketSize := |bytes|,
          lengthTooShort := TooShortCount(Parse(bytes).stop), lengthTooLong := TooLongCount(Parse(bytes).stop))
  }

  function DatagramMessages(datagram: Datagram, config: Config): seq<Message>
    requires datagram.Processable()
  {
    FramesMessages(Parse(datagram.bytes).frames, datagram.FromControlBoard(config))
  }

  function DatagramCounters(datagram: Datagram, config: Config): Counters
    requires datagram.Processable()
  {
    ReceiptCounters(datagram.bytes)
      .Plus(FramesCounters(Parse(datagram.bytes).frames, datagram.FromControlBoard(config)))
  }

  predicate RunProcessable(datagrams: seq<Datagram>) {
    forall i :: 0 <= i < |datagrams| ==> datagrams[i].Processable()
  }

  function RunMessages(datagrams: seq<Datagram>, config: Config): seq<Message>
    requires RunProcessable(datagrams)
  {
    if datagrams == [] then []
    else
      var n := |datagrams| - 1;
      RunMessages(datagrams[..n], config) + DatagramMessages(datagrams[n], config)
  }

  function RunCounters(datagrams: seq<Datagram>, config: Config): Counters
    requires RunProcessable(datagrams)
  {
    if datagrams == [] then ZERO
    else
      var n := |datagrams| - 1;
      RunCounters(datagrams[..n], config).Plus(DatagramCounters(datagrams[n], config))
  }

  // ----- Processing

  method SendPu00(sourceName: string, messageId: u64, pulseTime: u64, vetoes: Option<u32>,
                  periodNumber: Option<u32>, rawProtonCharge: Option<u8>, sink: Sink)
    modifies sink
    ensures sink.messages
            == old(sink.messages)
               + [Pu00(sourceName, AsI64(messageId), AsI64(pulseTime), vetoes, periodNumber, rawProtonCharge)]
  {
    sink.messages := sink.messages
    + [Pu00(sourceName, AsI64(messageId), AsI64(pulseTime), vetoes, periodNumber, rawProtonCharge)];
  }

  method SendEv44(sourceName: string, messageId: u64, pulseTime: u64, tofs: seq<i32>, detIds: seq<i32>, sink: Sink)
    modifies sink
    ensures sink.messages
            == old(sink.messages)
               + [Ev44(sourceName, AsI64(messageId), [AsI64(pulseTime)], [0], tofs, detIds)]
  {
    sink.messages := sink.messages
    + [Ev44(sourceName, AsI64(messageId), [AsI64(pulseTime)], [0], tofs, detIds)];
  }

  /** What a neutron frame adds to the counters, besides those of its packet type. */
  lemma NeutronCounters(before: Counters, frame: View, fromControlBoard: bool)
    requires Processable(frame) && frame.PacketType() == NeutronData
    ensures var c := FrameCounters(frame, fromControlBoard).(headers := multiset{}, processingErrors := multiset{});
            before.Plus(c)
            == if !Timed(frame) then before else
              before.(controlBoardFrames := before.controlBoardFrames + (if fromControlBoard then 1 else 0),
                      neutronEvents := before.neutronEvents
                                       + (if FrameEvents(frame).Ok? then FrameEvents(frame).value.Len() else 0),
                      invalidNeutronEvents := before.invalidNeutronEvents + FrameInvalidCount(frame))
  {
    hide Timed, View.PacketType, View.SlicesInBounds, View.HasHeader, FrameEvents, FrameInvalidCount;
  }

  method ProcessNeutronFrame(message: View, srcIp: IpAddr, config: Config, metrics: Metrics, sink: Sink)
    returns (r: Result<(), ProcessingError>)
    requires Processable(message) && message.PacketType() == NeutronData
    modifies metrics, sink
    ensures var fromControlBoard := srcIp == config.streamingControlBoardIp;
            && sink.messages == old(sink.messages) + FrameMessages(message, fromControlBoard)
            && metrics.Snapshot()
               == old(metrics.Snapshot()).Plus(
                    FrameCounters(message, fromControlBoard).(headers := multiset{}, processingErrors := multiset{}))
    ensures r == match FrameError(message) case None => Ok(()) case Some(e) => Err(e)
  {
    hide View.Time, GpsTime.NanosecondsSinceEpoch, GpsTime.ToFields, Fields.Valid, View.PacketType,
      View.SlicesInBounds, View.HasHeader, View.Vetoes, View.PeriodNumber, View.RawPppPerFrame,
      View.PacketFormatCode, View.BoardSpecificParameters, View.DataBytes, View.FrameSyncDelayUs, BoardEvents,
      BoardInvalidCount, FrameCounters, Counters.Plus;
    NeutronCounters(metrics.Snapshot(), message, srcIp == config.streamingControlBoardIp);
    ValueOf(message.Time());
    var time := message.Time().NanosecondsSinceEpoch();
    if time.None? {
      return Err(InvalidTimestamp);
    }
    var isStreamingControlBoard := srcIp == config.streamingControlBoardIp;
    if isStreamingControlBoard {
      metrics.controlBoardFrames := metrics.controlBoardFrames + 1;
    }
    SendPu00(SOURCE_NAME, 0, time.value, Some(message.Vetoes()),
             if isStreamingControlBoard then Some(message.PeriodNumber()) else None,
             if isStreamingControlBoard then Some(message.RawPppPerFrame()) else None,
             sink);
    var events := ParseBoardData(message.PacketFormatCode(), message.BoardSpecificParameters(),
                                 message.DataBytes(), message.FrameSyncDelayUs(), metrics);
    if events.Err? {
      assert sink.messages == old(sink.messages) + [PulseMessage(message, time.value, isStreamingControlBoard)];
      assert FrameMessages(message, isStreamingControlBoard)
          == [PulseMessage(message, time.value, isStreamingControlBoard)];
      return Err(events.error);
    }
    if !events.value.IsEmpty() {
      metrics.neutronEvents := metrics.neutronEvents + events.value.Len();
      SendEv44(SOURCE_NAME, 0, time.value, events.value.timeOfFlight, events.value.pixelId, sink);
    }
    r := Ok(());
  }

  /** Every frame is counted once, failed frames once more; other types do nothing else. */
  lemma FrameCountersShape(frame: View, fromControlBoard: bool)
    requires Processable(frame)
    ensures var c := FrameCounters(frame, fromControlBoard);
            && c == Counters(0, 0, c.headers, c.processingErrors, 0, 0,
                             c.controlBoardFrames, c.neutronEvents, c.invalidNeutronEvents)
            && c.headers == multiset{frame.PacketType()}
            && c.processingErrors
               == (if FrameError(frame).Some? then multiset{frame.PacketType()} else multiset{})
    ensures frame.PacketType() != NeutronData ==>
              && FrameError(frame) == Some(UnimplementedPacketType)
              && FrameMessages(frame, fromControlBoard) == []
              && FrameCounters(frame, fromControlBoard)
                 == ZERO.(headers := multiset{frame.PacketType()}, processingErrors := multiset{frame.PacketType()})
  {}

  /** Counting the header first and a failure last adds up to the frame's counters. */
  lemma CountersInSteps(before: Counters, c: Counters, packetType: UdpPacketType, failed: bool)
    requires c.headers == multiset{packetType}
    requires c.processingErrors == if failed then multiset{packetType} else multiset{}
    ensures var counted := before.(headers := before.headers + multiset{packetType})
                           .Plus(c.(headers := multiset{}, processingErrors := multiset{}));
            before.Plus(c)
            == if failed then counted.(processingErrors := counted.processingErrors + multiset{packetType})
            else counted
  {}

  lemma ReceiptInSteps(before: Counters, bytes: seq<u8>)
    ensures before.Plus(ReceiptCounters(bytes))
            == before.(udpPackets := before.udpPackets + 1,
                       udpPacketSize := before.udpPacketSize + |bytes|,
                       lengthTooShort := before.lengthTooShort + TooShortCount(Parse(bytes).stop),
                       lengthTooLong := before.lengthTooLong + TooLongCount(Parse(bytes).stop))
  {}

  /** A datagram's counters are its frames' counters, filled in with the receipt. */
  lemma ReceiptPlus(bytes: seq<u8>, c: Counters)
    requires c.udpPackets == c.udpPacketSize == c.lengthTooShort == c.lengthTooLong == 0
    ensures ReceiptCounters(bytes).Plus(c)
            == c.(udpPackets := 1, udpPacketSize := |bytes|,
                  lengthTooShort := TooShortCount(Parse(bytes).stop),
                  lengthTooLong := TooLongCount(Parse(bytes).stop))
  {}

  /** The body of the loop over frames. */
  method ProcessFrame(frame: View, srcIp: IpAddr, config: Config, metrics: Metrics, sink: Sink)
    requires Processable(frame)
    modifies metrics, sink
    ensures var fromControlBoard := srcIp == config.streamingControlBoardIp;
            && sink.messages == old(sink.messages) + FrameMessages(frame, fromControlBoard)
            && metrics.Snapshot() == old(metrics.Snapshot()).Plus(FrameCounters(frame, fromControlBoard))
  {
    hide View.PacketType, View.HasHeader, Timed, FrameMessages, FrameError, FrameCounters, Counters.Plus;
    ghost var fromControlBoard := srcIp == config.streamingControlBoardIp;
    FrameCountersShape(frame, fromControlBoard);
    CountersInSteps(metrics.Snapshot(), FrameCounters(frame, fromControlBoard), frame.PacketType(),
                    FrameError(frame).Some?);
    PlusZero(metrics.Snapshot().(headers := metrics.headers + multiset{frame.PacketType()}));
    var packetType := frame.PacketType();
    metrics.headers := metrics.headers + multiset{packetType};
    var result: Result<(), ProcessingError>;
    match packetType {
      case NeutronData =>
        result := ProcessNeutronFrame(frame, srcIp, config, metrics, sink);
      case _ =>
        result := Err(UnimplementedPacketType);
    }
    if result.Err? {
      metrics.processingErrors := metrics.processingErrors + multiset{packetType};
    }
  }

  method ProcessUdpBytesToKafka(udpPacket: seq<u8>, srcIp: IpAddr, config: Config, metrics: Metrics, sink: Sink)
    requires Datagram(udpPacket, srcIp).Processable()
    modifies metrics, sink
    ensures sink.messages == old(sink.messages) + DatagramMessages(Datagram(udpPacket, srcIp), config)
    ensures metrics.Snapshot()
            == old(metrics.Snapshot()).Plus(DatagramCounters(Datagram(udpPacket, srcIp), config))
  {
    hide Parse, Processable, FrameMessages, FrameCounters, ReceiptCounters, Counters.Plus;
    ReceiptInSteps(metrics.Snapshot(), udpPacket);
    metrics.udpPackets := metrics.udpPackets + 1;
    metrics.udpPacketSize := metrics.udpPacketSize + |udpPacket|;
    var frames := PacketToFrames(udpPacket, metrics);
    ghost var fromControlBoard := srcIp == config.streamingControlBoardIp;
    ghost var received := metrics.Snapshot();
    assert received == old(metrics.Snapshot()).Plus(ReceiptCounters(udpPacket));
    PlusZero(received);
    PlusAssociative(old(metrics.Snapshot()), ReceiptCounters(udpPacket), FramesCounters(frames, fromControlBoard));
    for i := 0 to |frames|
      invariant sink.messages == old(sink.messages) + FramesMessages(frames[..i], fromControlBoard)
      invariant metrics.Snapshot() == received.Plus(FramesCounters(frames[..i], fromControlBoard))
    {
      assert frames[..i + 1][..i] == frames[..i];
      PlusAssociative(received, FramesCounters(frames[..i], fromControlBoard),
                      FrameCounters(frames[i], fromControlBoard));
      ProcessFrame(frames[i], srcIp, config, metrics, sink);
    }
    assert frames[..|frames|] == frames;
  }

  /** The receive loop of src/lib.rs, over the datagrams that were received. */
  method ProcessRun(datagrams: seq<Datagram>, config: Config, metrics: Metrics, sink: Sink)
    requires RunProcessable(datagrams)
    modifies metrics, sink
    ensures sink.messages == old(sink.messages) + RunMessages(datagrams, config)
    ensures metrics.Snapshot() == old(metrics.Snapshot()).Plus(RunCounters(datagrams, config))
  {
    hide DatagramMessages, DatagramCounters, Datagram.Processable, Counters.Plus;
    PlusZero(metrics.Snapshot());
    for i := 0 to |datagrams|
      invariant sink.messages == old(sink.messages) + RunMessages(datagrams[..i], config)
      invariant metrics.Snapshot() == old(metrics.Snapshot()).Plus(RunCounters(datagrams[..i], config))
    {
      assert datagrams[..i + 1][..i] == datagrams[..i];
      PlusAssociative(old(metrics.Snapshot()), RunCounters(datagrams[..i], config),
                      DatagramCounters(datagrams[i], config));
      ProcessUdpBytesToKafka(datagrams[i].bytes, datagrams[i].srcIp, config, metrics, sink);
    }
    assert datagrams[..|datagrams|] == datagrams;
  }
}
