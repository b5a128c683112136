/**
 Packet format 1 (src/packet_formats/packet_format_1.rs): eight bytes an event, the bit
 widths of the position word declared by the message itself.

 The specification reads the fields arithmetically; `ParseRawData` works on bits with
 wrapping 32-bit operations, as the release build does.
 */
module PacketFormat1 {
  import opened Wrappers
  import opened Machine
  import opened BitUtils
  import opened Bytes
  import opened EventData
  import opened Metrics

  const PACKET_FORMAT_CODE: u16 := 1
  const CLOCK_TICKS_TO_NS: u32 := 20

  // ----- Specification

  /** What the board-specific part of the header says about position words. */
  datatype Layout = Layout(channelBits: u8, positionBits: u8, detectorIdOffset: u32) {

    /** The width that is actually extracted: a width above 32 bits counts as none. */
    function EffectiveChannelBits(): nat {
      if channelBits <= 32 then channelBits else 0
    }

    function Channel(positionWord: u32): nat {
      DivShrinks(positionWord, Pow2(32 - EffectiveChannelBits()));
      positionWord / Pow2(32 - EffectiveChannelBits())
    }

    function Position(positionWord: u32): nat {
      positionWord % Pow2(positionBits)
    }

    /** The pixel number in unbounded arithmetic. */
    function Pixel(positionWord: u32): nat {
      ProductNonNegative(Channel(positionWord), Pow2(positionBits));
      detectorIdOffset + Channel(positionWord) * Pow2(positionBits) + Position(positionWord)
    }
  }

  function LayoutOf(parameters: seq<u8>): Layout
    requires |parameters| == 8
  {
    Layout(parameters[1], parameters[3], U32FromBE(parameters[4..8]))
  }

  /** Nanoseconds since the undelayed frame sync, in unbounded arithmetic. */
  function TimeOfFlight(ticks: nat, frameSyncDelayUs: u32): nat {
    ticks * 20 + frameSyncDelayUs * 1000
  }

  function EventCount(data: seq<u8>): nat {
    |data| / 8
  }

  /** The eight bytes of event `i`. */
  function Chunk(data: seq<u8>, i: nat): (event: seq<u8>)
    requires i < EventCount(data)
    ensures |event| == 8
  {
    data[8 * i..8 * i + 8]
  }

  function TofWord(event: seq<u8>): u32
    requires |event| == 8
  {
    U32FromBE(event[0..4])
  }

  function PositionWord(event: seq<u8>): u32
    requires |event| == 8
  {
    U32FromBE(event[4..8])
  }

  /** The top seven bits of the first word are 1110000. */
  predicate IsEvent(event: seq<u8>)
    requires |event| == 8
  {
    TofWord(event) / 0x200_0000 == 0x70
  }

  /** The remaining 25 bits count clock ticks. */
  function Ticks(event: seq<u8>): nat
    requires |event| == 8
  {
    TofWord(event) % 0x200_0000
  }

  function EmittedTof(ticks: nat, frameSyncDelayUs: u32): i32 {
    AsI32(Wrap32(TimeOfFlight(ticks, frameSyncDelayUs)))
  }

  function EmittedPixel(layout: Layout, positionWord: u32): i32 {
    AsI32(Wrap32(layout.Pixel(positionWord)))
  }

  /** The emitted time of flight of an event. */
  function EventTof(event: seq<u8>, frameSyncDelayUs: u32): i32
    requires |event| == 8
  {
    EmittedTof(Ticks(event), frameSyncDelayUs)
  }

  /** The emitted pixel of an event. */
  function EventPixel(event: seq<u8>, layout: Layout): i32
    requires |event| == 8
  {
    EmittedPixel(layout, PositionWord(event))
  }

  function BadChunks(data: seq<u8>, n: nat): nat
    requires n <= EventCount(data)
  {
    if n == 0 then 0 else BadChunks(data, n - 1) + (if IsEvent(Chunk(data, n - 1)) then 0 else 1)
  }

  predicate AllEvents(data: seq<u8>) {
    forall i :: 0 <= i < EventCount(data) ==> IsEvent(Chunk(data, i))
  }

  function TofsOf(data: seq<u8>, frameSyncDelayUs: u32): seq<i32> {
    seq(EventCount(data), i requires 0 <= i < EventCount(data) => EventTof(Chunk(data, i), frameSyncDelayUs))
  }

  function PixelsOf(data: seq<u8>, layout: Layout): seq<i32> {
    seq(EventCount(data), i requires 0 <= i < EventCount(data) => EventPixel(Chunk(data, i), layout))
  }

  /** The message can be looked at event by event. */
  predicate Decodable(parameters: seq<u8>, data: seq<u8>, frameSyncDelayUs: u32) {
    |data| % 8 == 0 && |parameters| == 8 && frameSyncDelayUs <= 4_294_967
  }

  /** All events or none: what decoding a message must return. */
  function Decoded(parameters: seq<u8>, data: seq<u8>, frameSyncDelayUs: u32)
    : Result<EventData, ProcessingError>
  {
    if |data| % 8 != 0 then
      Err(DataNotWholeEvents)
    else if |parameters| != 8 then
      Err(WrongParametersLength)
    else if frameSyncDelayUs > 4_294_967 then
      Err(FrameSyncDelayOutOfRange)
    else if !AllEvents(data) then
      Err(InvalidEvents)
    else
      Ok(EventData(TofsOf(data, frameSyncDelayUs), PixelsOf(data, LayoutOf(parameters))))
  }

  /** The events counted as invalid: those that made the whole message unusable. */
  function InvalidCount(parameters: seq<u8>, data: seq<u8>, frameSyncDelayUs: u32): nat {
    if Decodable(parameters, data, frameSyncDelayUs) then BadChunks(data, EventCount(data)) else 0
  }

  // ----- Bits and arithmetic agree

  lemma ClearLowestBit(b: u8)
    ensures BitAnd(b, 0xFE) == 2 * (b / 2)
  {
    hide BitAnd, Pow2;
    Pow2Values();
    BitAndEven(b, 0x7F);
    BitAndLowOnes(b / 2, 7);
    DivModUnique(b / 2, Pow2(7), 0, b / 2);
  }

  /** The byte test on the first byte is the test of the top seven bits of the word. */
  lemma EventHeaderBits(tofWord: u32, first: u8)
    requires tofWord / 0x100_0000 == first
    ensures BitAnd(first, 0xFE) == 0xE0 <==> tofWord / 0x200_0000 == 0x70
  {
    hide BitAnd;
    ClearLowestBit(first);
    DivSplit(tofWord, 0x100_0000, 2);
  }

  lemma FirstByte(b: seq<u8>)
    requires |b| == 4
    ensures U32FromBE(b) / 0x100_0000 == b[0]
  {}

  lemma WrapAdd(a: int, b: int)
    ensures Wrap32(Wrap32(a) as int + Wrap32(b) as int) == Wrap32(a + b)
  {}

  lemma WrapMultiple(a: int, k: int)
    ensures Wrap32(a + k * 0x1_0000_0000) == Wrap32(a)
  {}

  /** Masking, multiplying and adding with wrapping gives the wrapped sum. */
  lemma TofBits(tofWord: u32, frameSyncDelayUs: u32)
    requires frameSyncDelayUs <= 4_294_967
    ensures Wrap32(Wrap32(BitAnd(tofWord, Mask(25)) * CLOCK_TICKS_TO_NS) as int
                   + frameSyncDelayUs as int * 1000)
            == Wrap32(TimeOfFlight(tofWord % 0x200_0000, frameSyncDelayUs))
  {
    hide BitAnd, Mask, Pow2;
    AndMask(tofWord, 25);
    Pow2Values();
    assert Wrap32((tofWord % 0x200_0000) * 20) == (tofWord % 0x200_0000) * 20;
  }

  lemma ChannelBits(layout: Layout, positionWord: u32)
    ensures ExtractMsb(positionWord, layout.channelBits).UnwrapOr(0) == layout.Channel(positionWord)
  {
    hide Pow2, ShiftRight, BitAnd, Mask;
    if 1 <= layout.channelBits <= 32 {
      ShiftIsDivision(positionWord, 32 - layout.channelBits as int);
    } else {
      BitSplitting(positionWord, layout.channelBits);
      Pow2Values();
    }
  }

  /** The shifted-out multiplier and the saturated mask still give the wrapped pixel. */
  lemma PixelBits(layout: Layout, positionWord: u32)
    ensures var channel := ExtractMsb(positionWord, layout.channelBits).UnwrapOr(0);
            var multiplier := UnboundedShl(1, layout.positionBits);
            var pos := Wrap32(BitAnd(positionWord, Mask(layout.positionBits)) + layout.detectorIdOffset as int);
            Wrap32(pos as int + Wrap32(channel as int * multiplier as int) as int)
            == Wrap32(layout.Pixel(positionWord))
  {
    ChannelBits(layout, positionWord);
    AndMask(positionWord, layout.positionBits);
    MultiplierBits(layout, layout.Channel(positionWord));
    WrapAdd(layout.Position(positionWord) + layout.detectorIdOffset,
            layout.Channel(positionWord) * Pow2(layout.positionBits));
  }

  lemma MultiplierBits(layout: Layout, channel: nat)
    ensures Wrap32(channel * UnboundedShl(1, layout.positionBits) as int)
            == Wrap32(channel * Pow2(layout.positionBits))
  {
    hide Pow2, Wrap32;
    Pow2Values();
    if layout.positionBits < 32 {
      MultiplierFits(layout.positionBits);
    } else {
      var rest := Pow2(layout.positionBits - 32);
      Pow2Add(32, layout.positionBits - 32);
      MulAssociative(channel, rest, 0x1_0000_0000);
      WrapMultiple(0, channel * rest);
    }
  }

  lemma MultiplierFits(n: nat)
    requires n < 32
    ensures UnboundedShl(1, n) == Pow2(n)
  {
    Pow2Values();
    hide Pow2;
    Pow2Monotone(n, 31);
  }

  lemma DelayInNanoseconds(frameSyncDelayUs: u32)
    ensures CheckedMul(frameSyncDelayUs, 1000)
            == if frameSyncDelayUs <= 4_294_967 then Some(frameSyncDelayUs * 1000) else None
  {}

  // ----- The decoder

  /** The body of the decoding closure, for one event. */
  method DecodeEvent(event: seq<u8>, frameSyncDelayNs: u32, positionMask: u32, channelMultiplier: u32,
                     channelBits: u8, detectorIdOffset: u32,
                     ghost layout: Layout, ghost frameSyncDelayUs: u32)
    returns (valid: bool, timeOfFlight: i32, pixelId: i32)
    requires |event| == 8
    requires layout.channelBits == channelBits && layout.detectorIdOffset == detectorIdOffset
    requires positionMask == Mask(layout.positionBits)
    requires channelMultiplier == UnboundedShl(1, layout.positionBits)
    requires frameSyncDelayUs <= 4_294_967 && frameSyncDelayNs == frameSyncDelayUs * 1000
    ensures valid <==> IsEvent(event)
    ensures timeOfFlight == EventTof(event, frameSyncDelayUs)
    ensures pixelId == EventPixel(event, layout)
  {
    hide BitAnd, Mask, UnboundedShl, ExtractMsb, Wrap32, U32FromBE, Layout.Pixel, TimeOfFlight;
    var tofWord := U32FromBE(event[0..4]);
    var posWord := U32FromBE(event[4..8]);

    FirstByte(event[0..4]);
    EventHeaderBits(tofWord, event[0]);
    valid := BitAnd(event[0], 0xFE) == 0xE0;

    TofBits(tofWord, frameSyncDelayUs);
    PixelBits(layout, posWord);
    var tof := BitAnd(tofWord, Mask(25));
    tof := Wrap32(tof * CLOCK_TICKS_TO_NS);
    tof := Wrap32(tof + frameSyncDelayNs);

    var channel := ExtractMsb(posWord, channelBits).UnwrapOr(0);
    var pos := BitAnd(posWord, positionMask);
    pos := Wrap32(pos + detectorIdOffset);
    pos := Wrap32(pos + Wrap32(channel * channelMultiplier));

    timeOfFlight, pixelId := AsI32(tof), AsI32(pos);
  }

  method ParseRawData(parameters: seq<u8>, data: seq<u8>, frameSyncDelayUs: u32, metrics: Metrics)
    returns (r: Result<EventData, ProcessingError>)
    modifies metrics`invalidNeutronEvents
    ensures r == Decoded(parameters, data, frameSyncDelayUs)
    ensures metrics.invalidNeutronEvents
            == old(metrics.invalidNeutronEvents) + InvalidCount(parameters, data, frameSyncDelayUs)
  {
    hide Mask, UnboundedShl, U32FromBE, CheckedMul, IsEvent, EventTof, EventPixel;
    if |data| % 8 != 0 {
      return Err(DataNotWholeEvents);
    }
    if |parameters| != 8 {
      return Err(WrongParametersLength);
    }
    var channelBits := parameters[1];
    var positionBits := parameters[3];
    var detectorIdOffset := U32FromBE(parameters[4..8]);
    var positionMask := Mask(positionBits);
    var channelMultiplier := UnboundedShl(1, positionBits);
    var invalidEvents: nat := 0;
    DelayInNanoseconds(frameSyncDelayUs);
    var delay := CheckedMul(frameSyncDelayUs, 1000);
    if delay.None? {
      return Err(FrameSyncDelayOutOfRange);
    }
    var timeOfFlight: seq<i32>, pixelId: seq<i32> := [], [];
    ghost var layout := LayoutOf(parameters);
    for i := 0 to |data| / 8
      invariant metrics.invalidNeutronEvents == old(metrics.invalidNeutronEvents)
      invariant invalidEvents == BadChunks(data, i)
      invariant invalidEvents == 0 <==> forall j :: 0 <= j < i ==> IsEvent(Chunk(data, j))
      invariant |timeOfFlight| == |pixelId| == i
      invariant forall j :: 0 <= j < i ==> timeOfFlight[j] == EventTof(Chunk(data, j), frameSyncDelayUs)
      invariant forall j :: 0 <= j < i ==> pixelId[j] == EventPixel(Chunk(data, j), layout)
    {
      var event := data[8 * i..8 * i + 8];
      assert event == Chunk(data, i);
      var valid, tof, pixel := DecodeEvent(event, delay.value, positionMask, channelMultiplier,
                                           channelBits, detectorIdOffset, layout, frameSyncDelayUs);
      if !valid {
        invalidEvents := invalidEvents + 1;
      }
      timeOfFlight := timeOfFlight + [tof];
      pixelId := pixelId + [pixel];
    }
    if invalidEvents > 0 {
      metrics.invalidNeutronEvents := metrics.invalidNeutronEvents + invalidEvents;
      return Err(InvalidEvents);
    }
    assert timeOfFlight == TofsOf(data, frameSyncDelayUs) && pixelId == PixelsOf(data, layout);
    r := New(timeOfFlight, pixelId);
  }
}
