/**
 A view holds every byte that was left in the datagram, yet a message depends only on
 its own bytes (src/udp_message.rs:66, 81-221). Processing therefore distributes over
 concatenated messages, and bytes after a rejected header have no effect.
 */
module Locality {
  import opened Wrappers
  import opened Machine
  import opened Bytes
  import opened UdpMessage
  import opened Metrics
  import opened Framing
  import opened DataProcessing

  /** Both views start with the same message, whatever follows it. */
  predicate SameFrame(v: View, w: View) {
    && v.Accepted()
    && |w.content| >= v.TotalLengthBytes()
    && w.content[..v.TotalLengthBytes()] == v.content[..v.TotalLengthBytes()]
  }

  predicate SameHeader(v: View, w: View) {
    v.HasHeader() && w.HasHeader() && v.content[..56] == w.content[..56]
  }

  lemma HeaderWordsLocal(v: View, w: View, n: nat)
    requires SameHeader(v, w) && n <= 13
    ensures v.HeaderWord(n) == w.HeaderWord(n)
  {}

  /** The accessors of the fixed header read only its 56 bytes. */
  lemma HeaderLocal(v: View, w: View)
    requires SameHeader(v, w)
    ensures v.HasMarker() == w.HasMarker()
    ensures v.TotalLengthWords() == w.TotalLengthWords()
    ensures v.HeaderLengthWords() == w.HeaderLengthWords()
    ensures v.PacketFormatCode() == w.PacketFormatCode()
    ensures v.FrameNumber() == w.FrameNumber()
    ensures v.EventsInFrame() == w.EventsInFrame()
    ensures v.RawPppPerFrame() == w.RawPppPerFrame()
    ensures v.Vetoes() == w.Vetoes()
    ensures v.HeaderFlags() == w.HeaderFlags() && v.PacketType() == w.PacketType()
    ensures v.BoardType() == w.BoardType()
    ensures v.PeriodNumber() == w.PeriodNumber()
    ensures v.FrameSyncDelayUs() == w.FrameSyncDelayUs()
    ensures v.Time() == w.Time()
  {
    hide View.HeaderWord, BitAnd, ShiftRight, U32FromBE, U16FromBE, U64FromBE;
    HeaderWordsLocal(v, w, 1);
    HeaderWordsLocal(v, w, 2);
    HeaderWordsLocal(v, w, 5);
    HeaderWordsLocal(v, w, 6);
    HeaderWordsLocal(v, w, 7);
    HeaderWordsLocal(v, w, 8);
    HeaderWordsLocal(v, w, 9);
    HeaderWordsLocal(v, w, 12);
    assert v.content[12..20] == v.content[..56][12..20] && w.content[12..20] == w.content[..56][12..20];
    MarkerLocal(v, w);
  }

  lemma MarkerLocal(v: View, w: View)
    requires SameHeader(v, w)
    ensures v.HasMarker() == w.HasMarker()
  {}

  /**
   Changing anything after a message leaves it accepted and changes none of its
   accessors, the two slices included.
   */
  lemma FrameLocal(v: View, w: View)
    requires SameFrame(v, w)
    ensures SameHeader(v, w) && w.Accepted() && SameFrame(w, v)
    ensures v.TotalLengthBytes() == w.TotalLengthBytes()
    ensures v.SlicesInBounds() == w.SlicesInBounds()
    ensures v.SlicesInBounds() ==>
              && v.BoardSpecificParameters() == w.BoardSpecificParameters()
              && v.DataBytes() == w.DataBytes()
  {
    hide View.HeaderLengthWords, View.TotalLengthWords, View.HasMarker, View.SlicesInBounds;
    var n := v.TotalLengthBytes();
    SameSlice(v.content, w.content, n, 0, 56);
    HeaderLocal(v, w);
    SlicesInBoundsExactly(v);
    SlicesInBoundsExactly(w);
    if v.SlicesInBounds() {
      var h := v.HeaderLengthBytes();
      SameSlice(v.content, w.content, n, 52, h - 4);
      SameSlice(v.content, w.content, n, h, n);
    }
  }

  lemma SameSlice(a: seq<u8>, b: seq<u8>, n: nat, from: nat, to: nat)
    requires from <= to <= n <= |a| && n <= |b| && a[..n] == b[..n]
    ensures a[from..to] == b[from..to]
  {
    assert a[from..to] == a[..n][from..to] && b[from..to] == b[..n][from..to];
  }

  /** What a message emits and counts depends only on its own bytes. */
  lemma OutcomeLocal(v: View, w: View, fromControlBoard: bool)
    requires SameFrame(v, w) && Processable(v)
    ensures Processable(w)
    ensures FrameMessages(v, fromControlBoard) == FrameMessages(w, fromControlBoard)
    ensures FrameError(v) == FrameError(w)
    ensures FrameCounters(v, fromControlBoard) == FrameCounters(w, fromControlBoard)
  {
    hide View.SlicesInBounds, View.PacketType, View.Time, View.BoardSpecificParameters, View.DataBytes,
      View.Accepted, View.HasMarker, View.TotalLengthWords, View.HeaderLengthWords, View.HeaderLengthBytes,
      View.PacketFormatCode, View.FrameSyncDelayUs, View.Vetoes, View.PeriodNumber, View.RawPppPerFrame;
    FrameLocal(v, w);
    HeaderLocal(v, w);
  }

  // ----- Sequences of frames

  predicate SameFrames(vs: seq<View>, ws: seq<View>) {
    |vs| == |ws| && forall i :: 0 <= i < |vs| ==> SameFrame(vs[i], ws[i])
  }

  lemma {:induction false} OutcomesLocal(vs: seq<View>, ws: seq<View>, fromControlBoard: bool)
    requires SameFrames(vs, ws) && AllProcessable(vs)
    ensures AllProcessable(ws)
    ensures FramesMessages(vs, fromControlBoard) == FramesMessages(ws, fromControlBoard)
    ensures FramesCounters(vs, fromControlBoard) == FramesCounters(ws, fromControlBoard)
  {
    hide SameFrame, Processable, FrameMessages, FrameCounters, Counters.Plus;
    forall i | 0 <= i < |ws|
      ensures Processable(ws[i])
    {
      OutcomeLocal(vs[i], ws[i], fromControlBoard);
    }
    if vs != [] {
      var n := |vs| - 1;
      OutcomesLocal(vs[..n], ws[..n], fromControlBoard);
      OutcomeLocal(vs[n], ws[n], fromControlBoard);
    }
  }

  lemma {:induction false} OutcomesConcat(vs: seq<View>, ws: seq<View>, fromControlBoard: bool)
    requires AllProcessable(vs) && AllProcessable(ws)
    ensures AllProcessable(vs + ws)
    ensures FramesMessages(vs + ws, fromControlBoard)
            == FramesMessages(vs, fromControlBoard) + FramesMessages(ws, fromControlBoard)
    ensures FramesCounters(vs + ws, fromControlBoard)
            == FramesCounters(vs, fromControlBoard).Plus(FramesCounters(ws, fromControlBoard))
  {
    hide Processable, FrameMessages, FrameCounters, Counters.Plus;
    if ws == [] {
      assert vs + ws == vs;
      PlusZero(FramesCounters(vs, fromControlBoard));
    } else {
      var n := |ws| - 1;
      OutcomesConcat(vs, ws[..n], fromControlBoard);
      assert (vs + ws)[..|vs + ws| - 1] == vs + ws[..n];
      PlusAssociative(FramesCounters(vs, fromControlBoard), FramesCounters(ws[..n], fromControlBoard),
                      FrameCounters(ws[n], fromControlBoard));
    }
  }

  lemma SameFramesCons(v: View, vs: seq<View>, w: View, ws: seq<View>)
    requires SameFrame(v, w) && |vs| <= |ws| && SameFrames(vs, ws[..|vs|])
    ensures SameFrames([v] + vs, ([w] + ws)[..|vs| + 1])
    ensures ([w] + ws)[|vs| + 1..] == ws[|vs|..]
  {
    hide SameFrame;
    forall i | 0 <= i < |vs| + 1
      ensures SameFrame(([v] + vs)[i], ([w] + ws)[..|vs| + 1][i])
    {
      if i > 0 {
        assert SameFrame(vs[i - 1], ws[..|vs|][i - 1]);
      }
    }
  }

  // ----- Concatenated datagrams

  lemma NewConcat(a: seq<u8>, b: seq<u8>)
    requires New(a).Ok?
    ensures New(a + b).Ok? && SameFrame(View(a), View(a + b))
    ensures New(a + b).value.TotalLengthBytes() == New(a).value.TotalLengthBytes() <= |a|
    ensures (a + b)[New(a).value.TotalLengthBytes()..] == a[New(a).value.TotalLengthBytes()..] + b
  {
    NewOutcome(a);
    NewOutcome(a + b);
    var n := View(a).TotalLengthBytes();
    assert (a + b)[..n] == a[..n];
    FrameLocal(View(a), View(a + b));
  }

  /** After a datagram that is used up exactly, parsing goes on with what follows. */
  lemma {:induction false} ParseConcat(a: seq<u8>, b: seq<u8>)
    requires Parse(a).stop == Exhausted
    ensures var n := |Parse(a).frames|;
            && n <= |Parse(a + b).frames|
            && SameFrames(Parse(a).frames, Parse(a + b).frames[..n])
            && Parse(a + b).frames[n..] == Parse(b).frames
            && Parse(a + b).stop == Parse(b).stop
    decreases |a|
  {
    ParseStep(a);
    if a == [] {
      assert a + b == b;
    } else {
      NewConcat(a, b);
      ParseStep(a + b);
      NewIsView(a);
      NewIsView(a + b);
      hide Parse, New, SameFrame, SameFrames, View.TotalLengthBytes;
      var l := New(a).value.TotalLengthBytes();
      ParseConcat(a[l..], b);
      SameFramesCons(View(a), Parse(a[l..]).frames, View(a + b), Parse(a[l..] + b).frames);
    }
  }

  lemma NewIsView(a: seq<u8>)
    requires New(a).Ok?
    ensures New(a).value == View(a)
  {}

  /**
   Processing is a homomorphism: when `a` is tiled by messages, the messages of `a + b`
   are those of `a` followed by those of `b`, and every counter but the number of
   datagrams adds up.
   */
  lemma ProcessingConcat(a: seq<u8>, b: seq<u8>, srcIp: IpAddr, config: Config)
    requires Parse(a).stop == Exhausted
    requires Datagram(a, srcIp).Processable() && Datagram(b, srcIp).Processable()
    ensures Datagram(a + b, srcIp).Processable()
    ensures DatagramMessages(Datagram(a + b, srcIp), config)
            == DatagramMessages(Datagram(a, srcIp), config) + DatagramMessages(Datagram(b, srcIp), config)
    ensures DatagramCounters(Datagram(a + b, srcIp), config)
            == DatagramCounters(Datagram(a, srcIp), config)
               .Plus(DatagramCounters(Datagram(b, srcIp), config)).(udpPackets := 1)
  {
    hide SameFrame, Processable, FrameMessages, FrameCounters, Parse, FramesMessages, FramesCounters;
    ParseConcat(a, b);
    var both, first, second := Parse(a + b).frames, Parse(a).frames, Parse(b).frames;
    var fromBoard := srcIp == config.streamingControlBoardIp;
    OutcomesLocal(first, both[..|first|], fromBoard);
    assert both == both[..|first|] + second;
    OutcomesConcat(both[..|first|], second, fromBoard);
    FramesCountNoReceipt(first, fromBoard);
    FramesCountNoReceipt(second, fromBoard);
  }

  lemma {:induction false} FramesCountNoReceipt(frames: seq<View>, fromControlBoard: bool)
    requires AllProcessable(frames)
    ensures var c := FramesCounters(frames, fromControlBoard);
            c.udpPackets == c.udpPacketSize == c.lengthTooShort == c.lengthTooLong == 0
  {
    hide Processable, FrameCounters;
    if frames != [] {
      FramesCountNoReceipt(frames[..|frames| - 1], fromControlBoard);
      FrameCountersShape(frames[|frames| - 1], fromControlBoard);
    }
  }

  // ----- After a rejected header

  /** No bytes appended later can turn this rejection into a message. */
  predicate Final(stop: Stop) {
    stop.Rejected? && (stop.reason.MissingHeaderMarker? || stop.reason.DeclaredLengthTooShort?)
  }

  lemma FinalRejection(a: seq<u8>, b: seq<u8>)
    requires New(a).Err? && Final(Rejected(New(a).error))
    ensures New(a + b) == New(a)
  {
    NewOutcome(a);
    assert (a + b)[..56] == a[..56];
    HeaderLocal(View(a), View(a + b));
    NewOutcome(a + b);
    assert forall i :: 0 <= i < 5 ==> (a + b)[i] == a[i];
  }

  lemma {:induction false} ParseStopped(a: seq<u8>, b: seq<u8>)
    requires Final(Parse(a).stop)
    ensures SameFrames(Parse(a).frames, Parse(a + b).frames)
    ensures Parse(a + b).stop == Parse(a).stop
    decreases |a|
  {
    hide Parse, New, SameFrame, View.TotalLengthBytes;
    ParseStep(a);
    ParseStep(a + b);
    if New(a).Err? {
      FinalRejection(a, b);
    } else {
      NewConcat(a, b);
      NewIsView(a);
      NewIsView(a + b);
      ParseStopped(a[New(a).value.TotalLengthBytes()..], b);
    }
  }

  /** Once a header without marker, or with too short a length, is met, the rest is ignored. */
  lemma RestIgnored(a: seq<u8>, b: seq<u8>, srcIp: IpAddr, config: Config)
    requires Final(Parse(a).stop) && Datagram(a, srcIp).Processable()
    ensures Datagram(a + b, srcIp).Processable()
    ensures DatagramMessages(Datagram(a + b, srcIp), config) == DatagramMessages(Datagram(a, srcIp), config)
    ensures DatagramCounters(Datagram(a + b, srcIp), config)
            == DatagramCounters(Datagram(a, srcIp), config).(udpPacketSize := |a| + |b|)
  {
    hide SameFrame, Processable, FrameMessages, FrameCounters, Parse, FramesMessages, FramesCounters;
    ParseStopped(a, b);
    OutcomesLocal(Parse(a).frames, Parse(a + b).frames, srcIp == config.streamingControlBoardIp);
    FramesCountNoReceipt(Parse(a).frames, srcIp == config.streamingControlBoardIp);
  }
}
