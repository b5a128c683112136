/**
 What holds of every run, over any sequence of datagrams and sources
 (src/data_processing.rs:27-186): the shape of the output, the accounting of the
 counters against it, and where periods and proton charges come from.
 */
module RunInvariants {
  import opened Machine
  import opened Gps
  import opened UdpMessage
  import opened Metrics
  import opened PacketFormats
  import opened Framing
  import opened DataProcessing
  import opened Locality
  import opened Encoder
  import opened EventArithmetic
  import opened Meaning
  import PacketFormat1

  // ----- One frame

  /**
   Exactly when a frame emits something: a pu00 for a neutron frame with a valid
   timestamp; an ev44 besides when its data is not empty, its format known, its lengths
   and delay in range and every chunk an event; an error unless all of that that applies.
   */
  lemma WhatAFrameEmits(frame: View, fromControlBoard: bool)
    requires Processable(frame)
    ensures var messages := FrameMessages(frame, fromControlBoard);
            var timed := frame.PacketType() == NeutronData && frame.Time().ToFields().Valid();
            && (messages != [] <==> timed)
            && (|messages| == 2 <==> timed && frame.DataBytes() != [] && HasOnlyEvents(frame))
            && |messages| <= 2
            && (FrameError(frame).None? <==> timed && (frame.DataBytes() == [] || HasOnlyEvents(frame)))
            && (timed && !HasOnlyEvents(frame) ==> FrameCounters(frame, fromControlBoard).neutronEvents == 0)
            && (timed && HasOnlyEvents(frame) ==>
                  8 * FrameCounters(frame, fromControlBoard).neutronEvents == |frame.DataBytes()|)
            && FrameCounters(frame, fromControlBoard).invalidNeutronEvents
               == (if timed && IsDecodable(frame) then |BadChunksOf(frame)| else 0)
  {
    hide GpsTime.ToFields, GpsTime.NanosecondsSinceEpoch, View.PacketType, View.Time, View.SlicesInBounds,
      View.HasHeader, View.PacketFormatCode, View.BoardSpecificParameters, View.DataBytes, View.FrameSyncDelayUs,
      Fields.Valid, StartsLikeEvent, PacketFormat1.Decoded, PacketFormat1.InvalidCount;
    if frame.PacketType() == NeutronData {
      ValueOf(frame.Time());
      if Timed(frame) {
        NothingBadInNothing(frame.DataBytes());
        AllOrNothing(frame.BoardSpecificParameters(), frame.DataBytes(), frame.FrameSyncDelayUs());
      }
    }
  }

  /** Format 1, whole events, two words of parameters, and a delay that fits 32 bits of nanoseconds. */
  predicate IsDecodable(frame: View)
    requires frame.HasHeader() && frame.SlicesInBounds()
  {
    && frame.PacketFormatCode() == 1
    && |frame.DataBytes()| % 8 == 0 && |frame.BoardSpecificParameters()| == 8
    && frame.FrameSyncDelayUs() * 1000 < 0x1_0000_0000
  }

  /** The chunks that do not start like an event. */
  ghost function BadChunksOf(frame: View): set<nat>
    requires frame.HasHeader() && frame.SlicesInBounds()
  {
    BadIndices(frame.DataBytes(), |frame.DataBytes()| / 8)
  }

  ghost predicate HasOnlyEvents(frame: View)
    requires frame.HasHeader() && frame.SlicesInBounds()
  {
    IsDecodable(frame) && forall i: nat :: i < |frame.DataBytes()| / 8 ==> StartsLikeEvent(frame.DataBytes(), i)
  }

  // ----- The shape of the output

  /** `event` may come right after `pulse`. */
  predicate Follows(pulse: Message, event: Message) {
    && pulse.Pu00? && event.Ev44?
    && event.referenceTimes == [pulse.referenceTime] && event.referenceTimeIndex == [0]
    && event.timeOfFlight != [] && |event.timeOfFlight| == |event.pixelId|
  }

  /** The output is (pu00 ev44?)*, every ev44 non-empty and tied to the pu00 before it. */
  predicate WellOrdered(messages: seq<Message>) {
    && (messages != [] ==> messages[0].Pu00?)
    && forall i :: 0 < i < |messages| ==> messages[i].Pu00? || Follows(messages[i - 1], messages[i])
  }

  /** A pu00 always has vetoes, and a period exactly when it has a proton charge. */
  predicate CompletePulse(m: Message) {
    m.Pu00? ==> m.vetoes.Some? && (m.periodNumber.Some? <==> m.rawProtonCharge.Some?)
  }

  // ----- Accounting

  function OneEv44(m: Message): nat {
    if m.Ev44? then 1 else 0
  }

  function EventsOf(m: Message): nat {
    if m.Ev44? then |m.timeOfFlight| else 0
  }

  function OnePeriod(m: Message): nat {
    if m.Pu00? && m.periodNumber.Some? then 1 else 0
  }

  function OnePu00(m: Message): nat {
    if m.Pu00? then 1 else 0
  }

  /** Neutron frames that decode to no events, because they carry no data. */
  function EmptyFrame(frame: View): nat
    requires Processable(frame)
  {
    if Timed(frame) && frame.DataBytes() == [] then 1 else 0
  }

  function EmptyFrames(frames: seq<View>): nat
    requires AllProcessable(frames)
  {
    if frames == [] then 0
    else EmptyFrames(frames[..|frames| - 1]) + EmptyFrame(frames[|frames| - 1])
  }

  function EmptyFramesOfRun(datagrams: seq<Datagram>): nat
    requires RunProcessable(datagrams)
  {
    if datagrams == [] then 0
    else
      var n := |datagrams| - 1;
      EmptyFramesOfRun(datagrams[..n]) + EmptyFrames(Parse(datagrams[n].bytes).frames)
  }

  /**
   How output, counters and the number of empty neutron frames are tied together, at
   every moment of every run.
   */
  ghost predicate Accounted(messages: seq<Message>, c: Counters, emptyFrames: nat) {
    && WellOrdered(messages)
    && (forall i :: 0 <= i < |messages| ==> CompletePulse(messages[i]))
    && (forall t: UdpPacketType :: t != NeutronData ==> c.headers[t] == c.processingErrors[t])
    && c.headers[SampleEnvironment] == 0
    && c.headers[NeutronData] == c.processingErrors[NeutronData] + Sum(messages, OneEv44) + emptyFrames
    && c.neutronEvents == Sum(messages, EventsOf)
    && c.controlBoardFrames == Sum(messages, OnePeriod)
    && Sum(messages, OnePu00) <= c.headers[NeutronData]
    && c.lengthTooShort + c.lengthTooLong <= c.udpPackets
  }

  lemma {:induction false} AccountedAdds(m: seq<Message>, c: Counters, e: nat, m': seq<Message>, c': Counters, e': nat)
    requires Accounted(m, c, e) && Accounted(m', c', e')
    ensures Accounted(m + m', c.Plus(c'), e + e')
  {
    hide Sum, WellOrdered, CompletePulse;
    SumConcat(m, m', OneEv44);
    SumConcat(m, m', EventsOf);
    SumConcat(m, m', OnePeriod);
    SumConcat(m, m', OnePu00);
    OrderConcat(m, m');
    var all := m + m';
    forall i | 0 <= i < |all|
      ensures CompletePulse(all[i])
    {
      assert all[i] == if i < |m| then m[i] else m'[i - |m|];
    }
  }

  lemma OrderConcat(m: seq<Message>, m': seq<Message>)
    requires WellOrdered(m) && WellOrdered(m')
    ensures WellOrdered(m + m')
  {}

  lemma SumOfTwo(m: Message, m': Message, weight: Message -> nat)
    ensures Sum([m] + [m'], weight) == weight(m) + weight(m')
  {
    SumConcat([m], [m'], weight);
    SumOfOne(m, weight);
    SumOfOne(m', weight);
  }

  lemma FrameAccounted(frame: View, fromControlBoard: bool)
    requires Processable(frame)
    ensures Accounted(FrameMessages(frame, fromControlBoard), FrameCounters(frame, fromControlBoard), EmptyFrame(frame))
  {
    hide View.PacketType, View.SlicesInBounds, View.HasHeader, View.DataBytes, FrameEvents, FrameCounters, Sum;
    FrameCountersShape(frame, fromControlBoard);
    PacketTypeOfConditions(frame);
    if Timed(frame) {
      TimedFrameAccounted(frame, fromControlBoard);
    } else {
      UntimedFrame(frame, fromControlBoard);
      NothingSums();
    }
  }

  /** Nothing is sent for a frame without a time; it only counts its header and an error. */
  lemma UntimedFrame(frame: View, fromControlBoard: bool)
    requires Processable(frame) && !Timed(frame)
    ensures FrameMessages(frame, fromControlBoard) == [] && EmptyFrame(frame) == 0
    ensures FrameCounters(frame, fromControlBoard)
            == ZERO.(headers := multiset{frame.PacketType()}, processingErrors := multiset{frame.PacketType()})
  {
    hide View.PacketType, View.SlicesInBounds, View.HasHeader, View.Time;
  }

  lemma NothingSums()
    ensures Sum([], OneEv44) == Sum([], EventsOf) == Sum([], OnePeriod) == Sum([], OnePu00) == 0
  {}

  /** What a timed frame sends, and how its counters follow from its decoded events. */
  lemma TimedFrame(frame: View, fromControlBoard: bool)
    requires Processable(frame) && Timed(frame)
    ensures var time := FrameTime(frame);
            var events := FrameEvents(frame);
            var c := FrameCounters(frame, fromControlBoard);
            && FrameMessages(frame, fromControlBoard)
               == [PulseMessage(frame, time, fromControlBoard)] + EventMessages(time, events)
            && (events.Ok? ==> |events.value.timeOfFlight| == |events.value.pixelId|)
            && EmptyFrame(frame) == (if events.Ok? && events.value.IsEmpty() then 1 else 0)
            && c == Counters(0, 0, multiset{NeutronData}, if events.Ok? then multiset{} else multiset{NeutronData},
                             0, 0, if fromControlBoard then 1 else 0,
                             if events.Ok? then events.value.Len() else 0, c.invalidNeutronEvents)
  {
    hide View.SlicesInBounds, View.HasHeader, View.DataBytes, View.PacketType, View.PacketFormatCode,
      View.BoardSpecificParameters, View.FrameSyncDelayUs, PacketFormat1.Decoded;
    DecodedShape(frame.PacketFormatCode(), frame.BoardSpecificParameters(), frame.DataBytes(),
                 frame.FrameSyncDelayUs());
  }

  lemma TimedFrameAccounted(frame: View, fromControlBoard: bool)
    requires Processable(frame) && Timed(frame)
    ensures Accounted(FrameMessages(frame, fromControlBoard), FrameCounters(frame, fromControlBoard), EmptyFrame(frame))
  {
    hide View.PacketType, View.Time, View.DataBytes, View.Vetoes, View.PeriodNumber, View.RawPppPerFrame,
      View.SlicesInBounds, View.HasHeader, Timed, FrameTime, FrameEvents, FrameMessages, FrameCounters, EmptyFrame,
      Accounted;
    TimedFrame(frame, fromControlBoard);
    var time := FrameTime(frame);
    var events := FrameEvents(frame);
    PulseAccounted(PulseMessage(frame, time, fromControlBoard), EventMessages(time, events),
                   FrameCounters(frame, fromControlBoard), EmptyFrame(frame), events.Err?);
  }

  /** A pu00 with at most one ev44 after it, and counters that say so. */
  lemma PulseAccounted(pulse: Message, rest: seq<Message>, c: Counters, empty: nat, failed: bool)
    requires pulse.Pu00? && CompletePulse(pulse)
    requires rest != [] ==> |rest| == 1 && Follows(pulse, rest[0])
    requires failed ==> rest == [] && empty == 0
    requires !failed ==> empty == if rest == [] then 1 else 0
    requires c == Counters(0, 0, multiset{NeutronData}, if failed then multiset{NeutronData} else multiset{}, 0, 0,
                           OnePeriod(pulse), if rest == [] then 0 else EventsOf(rest[0]), c.invalidNeutronEvents)
    ensures Accounted([pulse] + rest, c, empty)
  {
    hide Sum;
    SumOfOne(pulse, OneEv44);
    SumOfOne(pulse, EventsOf);
    SumOfOne(pulse, OnePeriod);
    SumOfOne(pulse, OnePu00);
    if rest == [] {
      assert [pulse] + rest == [pulse];
    } else {
      assert rest == [rest[0]];
      SumOfTwo(pulse, rest[0], OneEv44);
      SumOfTwo(pulse, rest[0], EventsOf);
      SumOfTwo(pulse, rest[0], OnePeriod);
      SumOfTwo(pulse, rest[0], OnePu00);
    }
  }

  lemma NothingAccounted()
    ensures Accounted([], ZERO, 0)
  {}

  lemma {:induction false} FramesAccounted(frames: seq<View>, fromControlBoard: bool)
    requires AllProcessable(frames)
    ensures Accounted(FramesMessages(frames, fromControlBoard), FramesCounters(frames, fromControlBoard),
                      EmptyFrames(frames))
  {
    hide Processable, Accounted, FrameMessages, FrameCounters, EmptyFrame, Counters.Plus;
    if frames == [] {
      NothingAccounted();
    } else {
      var n := |frames| - 1;
      FramesAccounted(frames[..n], fromControlBoard);
      FrameAccounted(frames[n], fromControlBoard);
      AccountedAdds(FramesMessages(frames[..n], fromControlBoard), FramesCounters(frames[..n], fromControlBoard),
                    EmptyFrames(frames[..n]),
                    FrameMessages(frames[n], fromControlBoard), FrameCounters(frames[n], fromControlBoard),
                    EmptyFrame(frames[n]));
    }
  }

  lemma ReceiptAccounted(bytes: seq<u8>)
    ensures Accounted([], ReceiptCounters(bytes), 0)
  {}

  lemma DatagramAccounted(datagram: Datagram, config: Config)
    requires datagram.Processable()
    ensures Accounted(DatagramMessages(datagram, config), DatagramCounters(datagram, config),
                      EmptyFrames(Parse(datagram.bytes).frames))
  {
    var frames := Parse(datagram.bytes).frames;
    ReceiptAccounted(datagram.bytes);
    hide Accounted, Parse, FramesMessages, FramesCounters, EmptyFrames, ReceiptCounters;
    FramesAccounted(frames, datagram.FromControlBoard(config));
    var messages := FramesMessages(frames, datagram.FromControlBoard(config));
    AccountedAdds([], ReceiptCounters(datagram.bytes), 0,
                  messages, FramesCounters(frames, datagram.FromControlBoard(config)), EmptyFrames(frames));
    assert [] + messages == messages;
  }

  /** The accounting holds after every run. */
  lemma {:induction false} RunAccounted(datagrams: seq<Datagram>, config: Config)
    requires RunProcessable(datagrams)
    ensures Accounted(RunMessages(datagrams, config), RunCounters(datagrams, config), EmptyFramesOfRun(datagrams))
    ensures RunCounters(datagrams, config).udpPackets == |datagrams|
  {
    hide Accounted, Parse, DatagramMessages, DatagramCounters, EmptyFrames, AllProcessable;
    if datagrams == [] {
      NothingAccounted();
    } else {
      var n := |datagrams| - 1;
      RunAccounted(datagrams[..n], config);
      DatagramAccounted(datagrams[n], config);
      OnePacketEach(datagrams[n], config);
      AccountedAdds(RunMessages(datagrams[..n], config), RunCounters(datagrams[..n], config),
                    EmptyFramesOfRun(datagrams[..n]),
                    DatagramMessages(datagrams[n], config), DatagramCounters(datagrams[n], config),
                    EmptyFrames(Parse(datagrams[n].bytes).frames));
    }
  }

  /** Each datagram is counted once, and adds at most one to the two bad-length counters together. */
  lemma OnePacketEach(datagram: Datagram, config: Config)
    requires datagram.Processable()
    ensures var c := DatagramCounters(datagram, config);
            c.udpPackets == 1 && c.udpPacketSize == |datagram.bytes| && c.lengthTooShort + c.lengthTooLong <= 1
  {
    hide Parse;
    FramesCountNoReceipt(Parse(datagram.bytes).frames, datagram.FromControlBoard(config));
  }

  // ----- Runs add up

  /** Runs are processed piece by piece: messages append and counters add up. */
  lemma {:induction false} RunConcat(a: seq<Datagram>, b: seq<Datagram>, config: Config)
    requires RunProcessable(a) && RunProcessable(b)
    ensures RunProcessable(a + b)
    ensures RunMessages(a + b, config) == RunMessages(a, config) + RunMessages(b, config)
    ensures RunCounters(a + b, config) == RunCounters(a, config).Plus(RunCounters(b, config))
  {
    hide Datagram.Processable, DatagramMessages, DatagramCounters, Counters.Plus;
    if b == [] {
      assert a + b == a;
      PlusZero(RunCounters(a, config));
    } else {
      var n := |b| - 1;
      RunConcat(a, b[..n], config);
      assert (a + b)[..|a + b| - 1] == a + b[..n];
      PlusAssociative(RunCounters(a, config), RunCounters(b[..n], config), DatagramCounters(b[n], config));
    }
  }

  /** A run of one datagram does what the datagram does. */
  lemma RunOfOne(d: Datagram, config: Config)
    requires d.Processable()
    ensures RunProcessable([d])
    ensures RunMessages([d], config) == DatagramMessages(d, config)
    ensures RunCounters([d], config) == DatagramCounters(d, config)
  {
    hide Datagram.Processable, DatagramMessages, DatagramCounters, Counters.Plus;
    assert [d][..0] == [];
    assert RunMessages([d], config) == [] + DatagramMessages(d, config);
    PlusZero(DatagramCounters(d, config));
  }

  /** All frames of a run, in order. */
  function FramesOfRun(datagrams: seq<Datagram>): seq<Frame> {
    if datagrams == [] then [] else
      FramesOfRun(datagrams[..|datagrams| - 1]) + FramesIn(datagrams[|datagrams| - 1].bytes)
  }

  function Size(d: Datagram): nat {
    |d.bytes|
  }

  function TooShort(d: Datagram): nat {
    TooShortCount(Parse(d.bytes).stop)
  }

  function TooLong(d: Datagram): nat {
    TooLongCount(Parse(d.bytes).stop)
  }

  /** The datagrams of the control board. */
  function FromBoard(datagrams: seq<Datagram>, config: Config): seq<Datagram> {
    if datagrams == [] then [] else
      var n := |datagrams| - 1;
      FromBoard(datagrams[..n], config)
      + if datagrams[n].srcIp == config.streamingControlBoardIp then [datagrams[n]] else []
  }

  lemma {:induction false} TypesConcat(a: seq<Frame>, b: seq<Frame>)
    ensures Types(a + b) == Types(a) + Types(b)
    ensures FailedTypes(a + b) == FailedTypes(a) + FailedTypes(b)
  {
    hide TypeOf, Problem;
    if b == [] {
      assert a + b == a;
    } else {
      assert (a + b)[..|a + b| - 1] == a + b[..|b| - 1];
      TypesConcat(a, b[..|b| - 1]);
    }
  }

  /**
   Every counter as a total over the datagrams received or the frames they hold: bytes are
   the sum of all datagram lengths, invalid events the sum of the bad events of all frames
   whose events are looked at.
   */
  function TotalsOfRun(datagrams: seq<Datagram>, config: Config): Counters {
    var frames := FramesOfRun(datagrams);
    Counters(|datagrams|, Sum(datagrams, Size),
             Types(frames), FailedTypes(frames),
             Sum(datagrams, TooShort), Sum(datagrams, TooLong),
             Sum(FramesOfRun(FromBoard(datagrams, config)), OneTimed),
             Sum(frames, Received), Sum(frames, Invalidated))
  }

  lemma FramesOfMore(datagrams: seq<Datagram>, d: Datagram)
    ensures FramesOfRun(datagrams + [d]) == FramesOfRun(datagrams) + FramesIn(d.bytes)
  {
    hide FramesIn;
    assert (datagrams + [d])[..|datagrams + [d]| - 1] == datagrams;
  }

  lemma BoardFramesOfMore(datagrams: seq<Datagram>, config: Config)
    requires datagrams != []
    ensures var n := |datagrams| - 1;
            var b := datagrams[n].srcIp == config.streamingControlBoardIp;
            Sum(FramesOfRun(FromBoard(datagrams, config)), OneTimed)
            == Sum(FramesOfRun(FromBoard(datagrams[..n], config)), OneTimed)
               + (if b then Sum(FramesIn(datagrams[n].bytes), OneTimed) else 0)
  {
    hide FramesIn, FramesOfRun, Sum, OneTimed;
    var n := |datagrams| - 1;
    var before := FromBoard(datagrams[..n], config);
    if datagrams[n].srcIp == config.streamingControlBoardIp {
      FramesOfMore(before, datagrams[n]);
      SumConcat(FramesOfRun(before), FramesIn(datagrams[n].bytes), OneTimed);
    } else {
      assert FromBoard(datagrams, config) == before;
    }
  }

  lemma DatagramSums(datagrams: seq<Datagram>, weight: Datagram -> nat)
    requires datagrams != []
    ensures Sum(datagrams, weight) == Sum(datagrams[..|datagrams| - 1], weight) + weight(datagrams[|datagrams| - 1])
  {}

  lemma RunTotalsOfMore(datagrams: seq<Datagram>, config: Config)
    requires datagrams != []
    ensures var d := datagrams[|datagrams| - 1];
            TotalsOfRun(datagrams, config)
            == TotalsOfRun(datagrams[..|datagrams| - 1], config)
               .Plus(Totals(FramesIn(d.bytes), d.srcIp == config.streamingControlBoardIp)
                     .(udpPackets := 1, udpPacketSize := |d.bytes|,
                       lengthTooShort := TooShortCount(Parse(d.bytes).stop),
                       lengthTooLong := TooLongCount(Parse(d.bytes).stop)))
  {
    hide FramesIn, FramesOfRun, FromBoard, Sum, Types, FailedTypes, OneTimed, Received, Invalidated, TooShortCount,
      TooLongCount, Parse;
    var n := |datagrams| - 1;
    var before, now := FramesOfRun(datagrams[..n]), FramesIn(datagrams[n].bytes);
    assert datagrams[..n] + [datagrams[n]] == datagrams;
    FramesOfMore(datagrams[..n], datagrams[n]);
    BoardFramesOfMore(datagrams, config);
    TypesConcat(before, now);
    SumConcat(before, now, Received);
    SumConcat(before, now, Invalidated);
    DatagramSums(datagrams, Size);
    DatagramSums(datagrams, TooShort);
    DatagramSums(datagrams, TooLong);
  }

  /** After any run, each of the nine counters is its total. */
  lemma {:induction false} RunTotals(datagrams: seq<Datagram>, config: Config)
    requires RunProcessable(datagrams)
    ensures RunCounters(datagrams, config) == TotalsOfRun(datagrams, config)
  {
    hide Datagram.Processable, DatagramCounters, Totals, Counters.Plus, FramesIn, Parse;
    if datagrams == [] {
      assert TotalsOfRun([], config) == ZERO;
    } else {
      var n := |datagrams| - 1;
      RunTotals(datagrams[..n], config);
      DatagramMeaning(datagrams[n], config);
      RunTotalsOfMore(datagrams, config);
    }
  }

  // ----- Provenance

  /** Periods and proton charges appear exactly in what the control board's datagrams cause. */
  lemma {:induction false} FramesProvenance(frames: seq<View>, fromControlBoard: bool)
    requires AllProcessable(frames)
    ensures forall m | m in FramesMessages(frames, fromControlBoard) && m.Pu00? ::
              && m.vetoes.Some?
              && (m.periodNumber.Some? <==> fromControlBoard) && (m.rawProtonCharge.Some? <==> fromControlBoard)
  {
    hide Processable, Timed, FrameTime, FrameEvents, View.Vetoes, View.PeriodNumber, View.RawPppPerFrame;
    if frames != [] {
      FramesProvenance(frames[..|frames| - 1], fromControlBoard);
    }
  }

  lemma {:induction false} RunSplits(datagrams: seq<Datagram>, k: nat, config: Config)
    requires RunProcessable(datagrams) && k <= |datagrams|
    ensures RunMessages(datagrams, config)
            == RunMessages(datagrams[..k], config) + RunMessages(datagrams[k..], config)
  {
    hide Datagram.Processable, DatagramMessages;
    if k == |datagrams| {
      assert datagrams[..k] == datagrams;
    } else {
      var n := |datagrams| - 1;
      RunSplits(datagrams[..n], k, config);
      assert datagrams[..n][..k] == datagrams[..k];
      assert datagrams[k..][..n - k] == datagrams[..n][k..];
    }
  }

  /**
   In the output of any run, the messages caused by datagram `k` stand together, between
   those of the datagrams before and after it; a pu00 among them carries a period and a
   proton charge if and only if the datagram came from the control board, and vetoes always.
   */
  lemma Provenance(datagrams: seq<Datagram>, k: nat, config: Config)
    requires RunProcessable(datagrams) && k < |datagrams|
    ensures RunMessages(datagrams, config)
            == RunMessages(datagrams[..k], config) + DatagramMessages(datagrams[k], config)
               + RunMessages(datagrams[k + 1..], config)
    ensures forall m | m in DatagramMessages(datagrams[k], config) && m.Pu00? ::
              && m.vetoes.Some?
              && (m.periodNumber.Some? <==> datagrams[k].srcIp == config.streamingControlBoardIp)
              && (m.rawProtonCharge.Some? <==> datagrams[k].srcIp == config.streamingControlBoardIp)
  {
    FramesProvenance(Parse(datagrams[k].bytes).frames, datagrams[k].FromControlBoard(config));
    hide Datagram.Processable, FramesMessages, Parse;
    RunSplits(datagrams, k + 1, config);
    assert datagrams[..k + 1][..k] == datagrams[..k];
  }
}
