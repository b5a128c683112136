/**
 A printer for messages, generalising `make_udp_header` (src/testing.rs:24-56) to every
 field, and its inverse through the accessors of a view (src/udp_message.rs:53-221).
 */
module Encoder {
  import opened Wrappers
  import opened Machine
  import opened Bytes
  import opened Gps
  import opened UdpMessage

  /** Everything a message carries, the bytes the decoder ignores included. */
  datatype Frame = Frame(
    formatCode: u16, boardType: u16, flagsHigh: u8, flags: u8,
    time: u64, frameNumber: u32, period: u16, periodLow: u16, eventsInFrame: u32,
    lengthSpare: u8, unusedByte: u8, ppp: u8, vetoes: u32,
    nextFrame: u32, nextFrameWord: u32, frameSyncDelayUs: u32,
    parameters: seq<u8>, checksum: seq<u8>, data: seq<u8>)
  {
    function HeaderLengthWords(): nat {
      14 + |parameters| / 4
    }

    function TotalLengthWords(): nat {
      HeaderLengthWords() + |data| / 4
    }

    /** Whole words, a header length that fits 8 bits and a total that fits 12. */
    predicate WellFormed() {
      && |parameters| % 4 == 0 && |checksum| == 4 && |data| % 4 == 0
      && HeaderLengthWords() < 0x100 && TotalLengthWords() < 0x1000
      && lengthSpare < 16
    }

    function LengthHalf(): u16
      requires WellFormed()
    {
      lengthSpare as int * 0x1000 + TotalLengthWords()
    }

    /** The 13 fixed header words. */
    function Words(): (words: seq<seq<u8>>)
      requires WellFormed()
      ensures |words| == 13 && AreWords(words)
    {
      [ HEADER_MARKER,
        [0xFF] + U16ToBE(formatCode) + [HeaderLengthWords()],
        U16ToBE(boardType) + [flagsHigh, flags],
        U32ToBE(time / 0x1_0000_0000),
        U32ToBE(time % 0x1_0000_0000),
        U32ToBE(frameNumber),
        U16ToBE(period) + U16ToBE(periodLow),
        U32ToBE(eventsInFrame),
        U16ToBE(LengthHalf()) + [unusedByte, ppp],
        U32ToBE(vetoes),
        U32ToBE(nextFrame),
        U32ToBE(nextFrameWord),
        U32ToBE(frameSyncDelayUs) ]
    }

    function Encode(): (bytes: seq<u8>)
      requires WellFormed()
      ensures |bytes| == 4 * TotalLengthWords()
    {
      Flatten(Words()) + parameters + checksum + data
    }
  }

  /** All fields of a message, read back through the view. */
  function FrameOf(v: View): Frame
    requires v.HasHeader() && v.SlicesInBounds()
  {
    Frame(v.PacketFormatCode(), v.BoardType(), v.HeaderWord(2)[2], v.HeaderFlags(),
          v.Time().content, v.FrameNumber(), v.PeriodNumber(), U16FromBE(v.HeaderWord(6)[2..4]), v.EventsInFrame(),
          v.HeaderWord(8)[0] / 16, v.HeaderWord(8)[2], v.RawPppPerFrame(), v.Vetoes(),
          U32FromBE(v.HeaderWord(10)), U32FromBE(v.HeaderWord(11)), v.FrameSyncDelayUs(),
          v.BoardSpecificParameters(),
          v.content[v.HeaderLengthBytes() - WORD_SIZE..v.HeaderLengthBytes()],
          v.DataBytes())
  }

  // ----- Parsing what was printed

  lemma EncodedParts(f: Frame, tail: seq<u8>)
    requires f.WellFormed()
    ensures var c := f.Encode() + tail;
            var h := 4 * f.HeaderLengthWords();
            && |c| >= 4 * f.TotalLengthWords() >= h >= 56
            && (forall i :: 0 <= i < 13 ==> c[4 * i..4 * i + 4] == f.Words()[i])
            && c[52..h - 4] == f.parameters
            && c[h - 4..h] == f.checksum
            && c[h..4 * f.TotalLengthWords()] == f.data
  {
    hide Frame.Words;
    var c := f.Encode() + tail;
    var header := Flatten(f.Words());
    forall i | 0 <= i < 13
      ensures c[4 * i..4 * i + 4] == f.Words()[i]
    {
      WordAt(f.Words(), i);
      assert c[..52] == header;
      assert c[4 * i..4 * i + 4] == c[..52][4 * i..4 * i + 4];
    }
  }

  lemma WordsOfEncoded(f: Frame, tail: seq<u8>)
    requires f.WellFormed()
    ensures var v := View(f.Encode() + tail);
            v.HasHeader() && forall i :: 0 <= i < 13 ==> v.HeaderWord(i) == f.Words()[i]
  {
    EncodedParts(f, tail);
  }

  lemma LengthHalfParts(f: Frame)
    requires f.WellFormed()
    ensures var half := U16ToBE(f.LengthHalf());
            && half[0] / 16 == f.lengthSpare
            && (half[0] as int * 0x100 + half[1] as int) % 4096 == f.TotalLengthWords()
  {}

  /** The scalar accessors return the fields that were printed. */
  lemma FieldsOfEncoded(f: Frame, tail: seq<u8>)
    requires f.WellFormed()
    ensures var v := View(f.Encode() + tail);
            && v.HasHeader() && v.HasMarker()
            && v.TotalLengthWords() == f.TotalLengthWords()
            && v.HeaderLengthWords() == f.HeaderLengthWords()
            && v.PacketFormatCode() == f.formatCode
            && v.BoardType() == f.boardType
            && v.HeaderWord(2)[2] == f.flagsHigh
            && v.HeaderFlags() == f.flags
            && v.Time() == GpsTime(f.time)
            && v.FrameNumber() == f.frameNumber
            && v.PeriodNumber() == f.period
            && U16FromBE(v.HeaderWord(6)[2..4]) == f.periodLow
            && v.EventsInFrame() == f.eventsInFrame
            && v.HeaderWord(8)[0] / 16 == f.lengthSpare
            && v.HeaderWord(8)[2] == f.unusedByte
            && v.RawPppPerFrame() == f.ppp
            && v.Vetoes() == f.vetoes
            && U32FromBE(v.HeaderWord(10)) == f.nextFrame
            && U32FromBE(v.HeaderWord(11)) == f.nextFrameWord
            && v.FrameSyncDelayUs() == f.frameSyncDelayUs
  {
    hide Frame.Encode, U32ToBE, U32FromBE, U16ToBE, U16FromBE;
    var v := View(f.Encode() + tail);
    WordsOfEncoded(f, tail);
    LengthHalfParts(f);
    TotalLengthValue(v);
    U16RoundTrip(f.formatCode);
    U16RoundTrip(f.boardType);
    U16RoundTrip(f.period);
    U16RoundTrip(f.periodLow);
    U32RoundTrip(f.frameNumber);
    U32RoundTrip(f.eventsInFrame);
    U32RoundTrip(f.vetoes);
    U32RoundTrip(f.nextFrame);
    U32RoundTrip(f.nextFrameWord);
    U32RoundTrip(f.frameSyncDelayUs);
    U64RoundTrip(f.time);
    assert v.HeaderWord(1)[1..3] == U16ToBE(f.formatCode);
    assert v.HeaderWord(2)[0..2] == U16ToBE(f.boardType);
    assert v.HeaderWord(6)[0..2] == U16ToBE(f.period);
    assert v.HeaderWord(6)[2..4] == U16ToBE(f.periodLow);
    assert v.content[12..20] == v.HeaderWord(3) + v.HeaderWord(4);
    assert v.content[32] == v.HeaderWord(8)[0] && v.content[33] == v.HeaderWord(8)[1];
    assert HEADER_MARKER <= v.content by {
      assert v.content[..4] == v.HeaderWord(0);
    }
    assert v.content[4] == v.HeaderWord(1)[0];
  }

  /**
   Parsing undoes printing: an encoded message is accepted whatever follows it, extends
   over exactly its own bytes, and every field is read back.
   */
  lemma ParseOfPrint(f: Frame, tail: seq<u8>)
    requires f.WellFormed()
    ensures var v := View(f.Encode() + tail);
            && New(f.Encode() + tail) == Ok(v)
            && v.TotalLengthBytes() == |f.Encode()|
            && v.SlicesInBounds()
            && FrameOf(v) == f
  {
    hide Frame.Encode, Frame.Words, View.HeaderWord, View.HasMarker, View.PacketFormatCode, View.BoardType,
      View.HeaderFlags, View.Time, View.FrameNumber, View.PeriodNumber, View.EventsInFrame, View.RawPppPerFrame,
      View.Vetoes, View.FrameSyncDelayUs, View.TotalLengthWords, View.HeaderLengthWords;
    FieldsOfEncoded(f, tail);
    EncodedParts(f, tail);
    NewOutcome(f.Encode() + tail);
  }

  // ----- Printing what was parsed

  lemma PartsOf(v: View)
    requires v.Accepted() && v.SlicesInBounds()
    ensures var f := FrameOf(v);
            && |f.parameters| == 4 * (v.HeaderLengthWords() - 14)
            && |f.checksum| == 4
            && |f.data| == 4 * (v.TotalLengthWords() - v.HeaderLengthWords())
            && f.lengthSpare == v.HeaderWord(8)[0] / 16 < 16
  {
    hide View.TotalLengthWords, View.HeaderLengthWords, View.HasMarker, View.PacketFormatCode, View.BoardType,
      View.HeaderFlags, View.Time, View.FrameNumber, View.PeriodNumber, View.EventsInFrame, View.RawPppPerFrame,
      View.Vetoes, View.FrameSyncDelayUs, U16FromBE, U32FromBE;
    SlicesInBoundsExactly(v);
  }

  lemma WellFormedByLengths(f: Frame, headerWords: nat, totalWords: nat)
    requires 14 <= headerWords < 0x100 && headerWords <= totalWords < 0x1000
    requires |f.parameters| == 4 * (headerWords - 14) && |f.checksum| == 4
    requires |f.data| == 4 * (totalWords - headerWords) && f.lengthSpare < 16
    ensures f.WellFormed() && f.HeaderLengthWords() == headerWords && f.TotalLengthWords() == totalWords
  {}

  lemma FrameOfIsWellFormed(v: View)
    requires v.Accepted() && v.SlicesInBounds()
    ensures var f := FrameOf(v);
            && f.WellFormed()
            && f.HeaderLengthWords() == v.HeaderLengthWords() && f.TotalLengthWords() == v.TotalLengthWords()
  {
    SlicesInBoundsExactly(v);
    PartsOf(v);
    TotalLengthValue(v);
    hide FrameOf, View.TotalLengthWords, View.HeaderLengthWords, View.HasMarker, Frame.WellFormed,
      Frame.HeaderLengthWords, Frame.TotalLengthWords;
    WellFormedByLengths(FrameOf(v), v.HeaderLengthWords(), v.TotalLengthWords());
  }

  /** The spare four bits and the twelve-bit length make up the length half-word. */
  lemma HalfParts(b: seq<u8>)
    requires |b| == 2
    ensures U16FromBE(b) == (b[0] / 16) as int * 0x1000 + (b[0] as int * 0x100 + b[1] as int) % 4096
  {
    DivModUnique(U16FromBE(b), 0x1000, b[0] / 16, (b[0] % 16) as int * 0x100 + b[1] as int);
  }

  lemma LengthHalfOf(v: View)
    requires v.Accepted() && v.SlicesInBounds()
    ensures FrameOf(v).WellFormed() && U16ToBE(FrameOf(v).LengthHalf()) == v.HeaderWord(8)[0..2]
  {
    hide FrameOf, View.TotalLengthWords, View.HeaderLengthWords, View.HasMarker, Frame.TotalLengthWords,
      Frame.HeaderLengthWords, View.SlicesInBounds, U16FromBE, U16ToBE, Frame.WellFormed;
    FrameOfIsWellFormed(v);
    TotalLengthValue(v);
    PartsOf(v);
    var b := v.HeaderWord(8)[0..2];
    HalfParts(b);
    U16BytesRoundTrip(b);
  }

  lemma FirstWordsOf(v: View)
    requires v.Accepted() && v.SlicesInBounds()
    ensures FrameOf(v).WellFormed()
    ensures var words := FrameOf(v).Words();
            words[0] == v.HeaderWord(0) && words[1] == v.HeaderWord(1) && words[2] == v.HeaderWord(2)
  {
    hide U16ToBE, U16FromBE, U32ToBE, U32FromBE, U64FromBE, Frame.WellFormed, Frame.LengthHalf,
      View.TotalLengthWords, Frame.TotalLengthWords, Frame.HeaderLengthWords;
    FrameOfIsWellFormed(v);
    U16BytesRoundTrip(v.HeaderWord(1)[1..3]);
    U16BytesRoundTrip(v.HeaderWord(2)[0..2]);
    assert v.HeaderWord(0) == HEADER_MARKER by {
      assert v.content[..4] == v.HeaderWord(0);
    }
    assert v.HeaderWord(1)[0] == v.content[4];
  }

  lemma TimeWordsOf(v: View)
    requires v.Accepted() && v.SlicesInBounds()
    ensures FrameOf(v).WellFormed()
    ensures var words := FrameOf(v).Words();
            words[3] == v.HeaderWord(3) && words[4] == v.HeaderWord(4)
  {
    FrameOfIsWellFormed(v);
    var time := v.content[12..20];
    assert time[..4] == v.HeaderWord(3) && time[4..] == v.HeaderWord(4);
    TimeHalves(FrameOf(v), time);
    hide FrameOf, Frame.Words;
  }

  lemma TimeHalves(f: Frame, time: seq<u8>)
    requires f.WellFormed() && |time| == 8 && f.time == U64FromBE(time)
    ensures f.Words()[3] == time[..4] && f.Words()[4] == time[4..]
  {
    hide U32ToBE, U32FromBE, U64FromBE, U16ToBE;
    U64Halves(time);
    U32BytesRoundTrip(time[..4]);
    U32BytesRoundTrip(time[4..]);
  }

  lemma MiddleWordsOf(v: View)
    requires v.Accepted() && v.SlicesInBounds()
    ensures FrameOf(v).WellFormed()
    ensures var words := FrameOf(v).Words();
            words[6] == v.HeaderWord(6) && words[8] == v.HeaderWord(8)
  {
    hide U16ToBE, U16FromBE, U32ToBE, U32FromBE, U64FromBE, Frame.WellFormed, Frame.LengthHalf,
      View.TotalLengthWords, View.HeaderLengthWords, View.HasMarker, View.Accepted, View.HeaderWord;
    FrameOfIsWellFormed(v);
    LengthHalfOf(v);
    U16BytesRoundTrip(v.HeaderWord(6)[0..2]);
    U16BytesRoundTrip(v.HeaderWord(6)[2..4]);
  }

  lemma WholeWordsOf(v: View)
    requires v.Accepted() && v.SlicesInBounds()
    ensures FrameOf(v).WellFormed()
    ensures var words := FrameOf(v).Words();
            && words[5] == v.HeaderWord(5) && words[7] == v.HeaderWord(7) && words[9] == v.HeaderWord(9)
            && words[10] == v.HeaderWord(10) && words[11] == v.HeaderWord(11) && words[12] == v.HeaderWord(12)
  {
    hide U16ToBE, U16FromBE, U32ToBE, U32FromBE, U64FromBE, Frame.WellFormed, Frame.LengthHalf,
      View.TotalLengthWords, View.HeaderLengthWords, View.HasMarker, View.Accepted, View.HeaderWord;
    FrameOfIsWellFormed(v);
    U32BytesRoundTrip(v.HeaderWord(5));
    U32BytesRoundTrip(v.HeaderWord(7));
    U32BytesRoundTrip(v.HeaderWord(9));
    U32BytesRoundTrip(v.HeaderWord(10));
    U32BytesRoundTrip(v.HeaderWord(11));
    U32BytesRoundTrip(v.HeaderWord(12));
  }

  lemma WordsOf(v: View)
    requires v.Accepted() && v.SlicesInBounds()
    ensures FrameOf(v).WellFormed()
    ensures forall i :: 0 <= i < 13 ==> FrameOf(v).Words()[i] == v.content[4 * i..4 * i + 4]
  {
    hide FrameOf, Frame.Words, View.TotalLengthWords, View.HeaderLengthWords, View.HasMarker;
    FirstWordsOf(v);
    TimeWordsOf(v);
    MiddleWordsOf(v);
    WholeWordsOf(v);
    forall i | 0 <= i < 13
      ensures FrameOf(v).Words()[i] == v.content[4 * i..4 * i + 4]
    {
      assert FrameOf(v).Words()[i] == v.HeaderWord(i);
    }
  }

  lemma BodyOf(v: View)
    requires v.Accepted() && v.SlicesInBounds()
    ensures var f, h := FrameOf(v), v.HeaderLengthBytes();
            && 56 <= h <= v.TotalLengthBytes()
            && f.parameters == v.content[52..h - 4] && f.checksum == v.content[h - 4..h]
            && f.data == v.content[h..v.TotalLengthBytes()]
  {
    hide View.HeaderLengthWords, View.TotalLengthWords, View.HasMarker, View.PacketFormatCode, View.BoardType,
      View.HeaderFlags, View.Time, View.FrameNumber, View.PeriodNumber, View.EventsInFrame, View.RawPppPerFrame,
      View.Vetoes, View.FrameSyncDelayUs, U16FromBE, U32FromBE;
    SlicesInBoundsExactly(v);
  }

  lemma Rejoin(c: seq<u8>, h: nat, n: nat)
    requires 56 <= h <= n <= |c|
    ensures c[..52] + c[52..h - 4] + c[h - 4..h] + c[h..n] == c[..n]
  {}

  /** Printing undoes parsing: re-encoding an accepted message gives back its bytes. */
  lemma PrintOfParse(v: View)
    requires v.Accepted() && v.SlicesInBounds()
    ensures FrameOf(v).WellFormed() && FrameOf(v).Encode() == v.content[..v.TotalLengthBytes()]
  {
    hide Frame.Words, Frame.WellFormed, View.HeaderLengthWords, View.TotalLengthWords, View.HasMarker, FrameOf,
      View.SlicesInBounds;
    FrameOfIsWellFormed(v);
    WordsOf(v);
    SlicesInBoundsExactly(v);
    BodyOf(v);
    var f := FrameOf(v);
    FlattenOfSlices(f.Words(), v.content);
    Rejoin(v.content, v.HeaderLengthBytes(), v.TotalLengthBytes());
  }
}
