/**
 What packet format 1 guarantees about the values it emits
 (src/packet_formats/packet_format_1.rs): when a message is accepted, and the exact
 ranges in which times of flight and pixel numbers survive 32-bit arithmetic.
 */
module EventArithmetic {
  import opened Machine
  import opened BitUtils
  import opened PacketFormat1

  // ----- All or nothing

  /** A seven-bit header 1110000 leaves two possible first bytes. */
  lemma FirstByteOfEvent(event: seq<u8>)
    requires |event| == 8
    ensures IsEvent(event) <==> event[0] == 0xE0 || event[0] == 0xE1
  {}

  predicate StartsLikeEvent(data: seq<u8>, i: nat)
    requires i < |data| / 8
  {
    data[8 * i] == 0xE0 || data[8 * i] == 0xE1
  }

  lemma ChunkStart(data: seq<u8>, i: nat)
    requires i < |data| / 8
    ensures StartsLikeEvent(data, i) <==> IsEvent(Chunk(data, i))
  {
    FirstByteOfEvent(Chunk(data, i));
    assert Chunk(data, i)[0] == data[8 * i];
  }

  function BadIndices(data: seq<u8>, n: nat): set<nat>
    requires n <= |data| / 8
  {
    set i: nat | i < n && !StartsLikeEvent(data, i)
  }

  lemma {:induction false} BadChunksCount(data: seq<u8>, n: nat)
    requires n <= EventCount(data)
    ensures BadChunks(data, n) == |BadIndices(data, n)|
  {
    hide IsEvent;
    if n == 0 {
      assert BadIndices(data, 0) == {};
    } else {
      BadChunksCount(data, n - 1);
      ChunkStart(data, n - 1);
      if IsEvent(Chunk(data, n - 1)) {
        assert BadIndices(data, n) == BadIndices(data, n - 1);
      } else {
        assert BadIndices(data, n) == BadIndices(data, n - 1) + {n - 1};
      }
    }
  }

  /**
   Decoding succeeds exactly when the data is whole events, the parameters are two words,
   the delay in nanoseconds fits 32 bits and every eighth byte is 0xE0 or 0xE1, and then
   yields one event for every eight bytes; otherwise it yields nothing. The events counted
   as invalid are exactly those that start with another byte.
   */
  lemma AllOrNothing(parameters: seq<u8>, data: seq<u8>, frameSyncDelayUs: u32)
    ensures var r := Decoded(parameters, data, frameSyncDelayUs);
            && (r.Ok? <==>
                  && |data| % 8 == 0 && |parameters| == 8 && frameSyncDelayUs * 1000 < 0x1_0000_0000
                  && forall i: nat :: i < |data| / 8 ==> StartsLikeEvent(data, i))
            && (r.Ok? ==> 8 * |r.value.timeOfFlight| == 8 * |r.value.pixelId| == |data|)
    ensures InvalidCount(parameters, data, frameSyncDelayUs)
            == if |data| % 8 == 0 && |parameters| == 8 && frameSyncDelayUs * 1000 < 0x1_0000_0000 then
                 |BadIndices(data, |data| / 8)|
               else
                 0
  {
    var n := EventCount(data);
    BadChunksCount(data, n);
    forall i: nat | i < n
      ensures StartsLikeEvent(data, i) <==> IsEvent(Chunk(data, i))
    {
      ChunkStart(data, i);
    }
  }

  lemma NothingBadInNothing(data: seq<u8>)
    ensures data == [] ==> BadIndices(data, |data| / 8) == {}
  {}

  // ----- Casts

  /**
   Wrapping and casting to signed gives the one signed value that is the same modulo 2^32;
   nothing is lost exactly when the value already is in the signed range.
   */
  lemma CastCongruent(x: int, y: i32)
    ensures y == AsI32(Wrap32(x)) <==> (y - x) % 0x1_0000_0000 == 0
    ensures AsI32(Wrap32(x)) == x <==> -0x8000_0000 <= x < 0x8000_0000
  {}

  /** The same of the 64-bit cast. */
  lemma WideCastCongruent(x: u64, y: i64)
    ensures y == AsI64(x) <==> (y - x) % 0x1_0000_0000_0000_0000 == 0
    ensures AsI64(x) == x <==> x < 0x8000_0000_0000_0000
  {}

  // ----- Times of flight

  predicate IsTicks(ticks: nat) {
    ticks < 0x200_0000
  }

  lemma TicksInRange(event: seq<u8>)
    requires |event| == 8
    ensures IsTicks(Ticks(event)) && 20 * Ticks(event) <= 671_088_620
  {}

  /**
   Event by event: the emitted time is 20 ns a tick plus the delay, modulo 2^32, and it is
   that very sum exactly when the sum is below 2^31.
   */
  lemma TofCongruent(ticks: nat, delayUs: u32)
    ensures (EmittedTof(ticks, delayUs) - (20 * ticks + 1000 * delayUs)) % 0x1_0000_0000 == 0
    ensures EmittedTof(ticks, delayUs) == 20 * ticks + 1000 * delayUs <==> 20 * ticks + 1000 * delayUs < 0x8000_0000
  {
    hide Wrap32, AsI32;
    CastCongruent(20 * ticks + 1000 * delayUs, EmittedTof(ticks, delayUs));
  }

  /** The delayed sum is exact in 32 bits, for every tick count, up to this very delay. */
  lemma TofExactInU32(delayUs: u32)
    ensures (forall ticks: nat | IsTicks(ticks) ::
               Wrap32(TimeOfFlight(ticks, delayUs)) == TimeOfFlight(ticks, delayUs))
            <==> delayUs <= 3_623_878
  {
    assert IsTicks(0x1FF_FFFF);
    assert Wrap32(TimeOfFlight(0x1FF_FFFF, delayUs)) == TimeOfFlight(0x1FF_FFFF, delayUs)
      ==> delayUs <= 3_623_878;
  }

  /** The emitted signed value is exact, for every tick count, up to this very delay. */
  lemma TofExactInI32(delayUs: u32)
    ensures (forall ticks: nat | IsTicks(ticks) :: EmittedTof(ticks, delayUs) == TimeOfFlight(ticks, delayUs))
            <==> delayUs <= 1_476_395
  {
    assert IsTicks(0x1FF_FFFF);
    assert EmittedTof(0x1FF_FFFF, delayUs) == TimeOfFlight(0x1FF_FFFF, delayUs)
      ==> delayUs <= 1_476_395;
  }

  /** Among the delays the decoder admits, larger ones show as negative times of flight. */
  lemma TofNonNegative(delayUs: u32)
    requires delayUs <= 4_294_967
    ensures (forall ticks: nat | IsTicks(ticks) :: EmittedTof(ticks, delayUs) >= 0) <==> delayUs <= 1_476_395
  {
    assert IsTicks(0x1FF_FFFF) && IsTicks(0);
    if delayUs > 1_476_395 {
      assert delayUs <= 3_623_878 ==> EmittedTof(0x1FF_FFFF, delayUs) < 0;
      assert delayUs > 3_623_878 ==> EmittedTof(0, delayUs) < 0;
    }
  }

  /** Within the exact range, later ticks give strictly later times. */
  lemma TofIncreasing(ticks: nat, later: nat, delayUs: u32)
    requires ticks < later && IsTicks(later) && delayUs <= 1_476_395
    ensures EmittedTof(ticks, delayUs) < EmittedTof(later, delayUs)
  {
    hide EmittedTof;
    TofExactInI32(delayUs);
    assert IsTicks(ticks) && IsTicks(later);
  }

  // ----- Pixel numbers

  /** Channel and position values fit the declared widths. */
  lemma FieldsInRange(layout: Layout, word: u32)
    ensures layout.Channel(word) < Pow2(layout.EffectiveChannelBits())
    ensures layout.Position(word) < Pow2(layout.positionBits)
  {
    var c := layout.EffectiveChannelBits();
    assert word < Pow2(c) * Pow2(32 - c) by {
      Pow2Values();
      Pow2Add(c, 32 - c);
    }
    DivBound(word, Pow2(c), Pow2(32 - c));
  }

  /**
   Event by event: a channel width from 1 to 32 takes the channel from the top of the
   word, any other width means channel 0; the emitted pixel is the pixel number modulo
   2^32, and it is that very number exactly when the number is below 2^31.
   */
  lemma PixelCongruent(layout: Layout, word: u32)
    ensures layout.Pixel(word)
            == layout.detectorIdOffset
               + (if 1 <= layout.channelBits <= 32 then word / Pow2(32 - layout.channelBits) else 0)
                 * Pow2(layout.positionBits)
               + word % Pow2(layout.positionBits)
    ensures (EmittedPixel(layout, word) - layout.Pixel(word)) % 0x1_0000_0000 == 0
    ensures EmittedPixel(layout, word) == layout.Pixel(word) <==> layout.Pixel(word) < 0x8000_0000
  {
    hide Wrap32, AsI32, Pow2;
    Pow2Values();
    CastCongruent(layout.Pixel(word), EmittedPixel(layout, word));
  }

  /** One past the largest pixel number the layout can describe. */
  function PixelLimit(layout: Layout): nat {
    layout.detectorIdOffset + Pow2(layout.EffectiveChannelBits() + layout.positionBits)
  }

  lemma TwoDigits(channel: nat, position: nat, c: nat, p: nat)
    requires channel < Pow2(c) && position < Pow2(p)
    ensures 0 <= channel * Pow2(p) + position < Pow2(c + p)
    ensures channel == Pow2(c) - 1 && position == Pow2(p) - 1 ==> channel * Pow2(p) + position == Pow2(c + p) - 1
  {
    hide Pow2;
    Pow2Add(c, p);
    var hi, lo := Pow2(c), Pow2(p);
    MulMonotone(channel + 1, hi, lo);
    MulMonotone(0, channel, lo);
    assert (channel + 1) * lo == channel * lo + lo;
  }

  lemma PixelBelowLimit(layout: Layout, word: u32)
    ensures layout.detectorIdOffset <= layout.Pixel(word) < PixelLimit(layout)
  {
    FieldsInRange(layout, word);
    TwoDigits(layout.Channel(word), layout.Position(word), layout.EffectiveChannelBits(), layout.positionBits);
  }

  /** The all-ones word reaches the limit, as far as 32 bits can. */
  lemma LargestPixel(layout: Layout)
    ensures layout.positionBits <= 32 ==> layout.Pixel(0xFFFF_FFFF) == PixelLimit(layout) - 1
    ensures layout.positionBits > 32 ==> layout.Pixel(0xFFFF_FFFF) >= 0xFFFF_FFFF
  {
    var c, p := layout.EffectiveChannelBits(), layout.positionBits;
    Pow2Values();
    Pow2Add(c, 32 - c);
    OnesShifted(Pow2(c), Pow2(32 - c), 0x1_0000_0000);
    FieldsInRange(layout, 0xFFFF_FFFF);
    TwoDigits(layout.Channel(0xFFFF_FFFF), layout.Position(0xFFFF_FFFF), c, p);
    if p <= 32 {
      Pow2Add(32 - p, p);
      var hi, lo := Pow2(32 - p), Pow2(p);
      OnesShifted(hi, lo, 0x1_0000_0000);
    } else {
      Pow2Monotone(32, p);
      DivModUnique(0xFFFF_FFFF, Pow2(p), 0, 0xFFFF_FFFF);
      MulMonotone(0, layout.Channel(0xFFFF_FFFF), Pow2(p));
    }
  }

  /**
   The emitted signed pixel is the intended one, for every position word, exactly when
   the largest pixel number of the layout fits 31 bits.
   */
  lemma PixelExact(layout: Layout)
    ensures (forall word: u32 :: EmittedPixel(layout, word) == layout.Pixel(word))
            <==> PixelLimit(layout) <= 0x8000_0000
  {
    if PixelLimit(layout) <= 0x8000_0000 {
      forall word: u32
        ensures EmittedPixel(layout, word) == layout.Pixel(word)
      {
        PixelBelowLimit(layout, word);
      }
    } else {
      LargestPixel(layout);
      if layout.positionBits > 32 {
        Pow2Values();
        Pow2Monotone(32, layout.EffectiveChannelBits() + layout.positionBits);
      }
      assert EmittedPixel(layout, 0xFFFF_FFFF) != layout.Pixel(0xFFFF_FFFF);
    }
  }

  /** Channel and position are recovered from an emitted pixel. */
  lemma PixelInverts(layout: Layout, word: u32)
    requires PixelLimit(layout) <= 0x8000_0000
    ensures var index := EmittedPixel(layout, word) - layout.detectorIdOffset;
            && index / Pow2(layout.positionBits) == layout.Channel(word)
            && index % Pow2(layout.positionBits) == layout.Position(word)
  {
    PixelExact(layout);
    FieldsInRange(layout, word);
    DivModUnique(EmittedPixel(layout, word) - layout.detectorIdOffset, Pow2(layout.positionBits),
                 layout.Channel(word), layout.Position(word));
  }

  /** Two words give the same pixel exactly when channel and position agree. */
  lemma PixelInjective(layout: Layout, word: u32, word': u32)
    requires PixelLimit(layout) <= 0x8000_0000
    ensures EmittedPixel(layout, word) == EmittedPixel(layout, word') <==>
            layout.Channel(word) == layout.Channel(word') && layout.Position(word) == layout.Position(word')
  {
    hide Pow2, Layout.Channel, Layout.Position, EmittedPixel;
    PixelInverts(layout, word);
    PixelInverts(layout, word');
    PixelExact(layout);
  }

  /** A word with the channel at its top and the position at its bottom. */
  lemma PlaceFields(channel: nat, position: nat, c: nat, p: nat) returns (word: u32)
    requires c + p <= 32 && channel < Pow2(c) && position < Pow2(p)
    ensures word / Pow2(32 - c) == channel && word % Pow2(p) == position
  {
    hide Pow2;
    var gap, lo, k := Pow2(32 - c), Pow2(p), Pow2(32 - c - p);
    Pow2Monotone(p, 32 - c);
    TwoDigits(channel, position, c, 32 - c);
    Pow2Values();
    word := channel * gap + position;
    DivModUnique(word, gap, channel, position);
    Pow2Add(32 - c - p, p);
    MulAssociative(channel, k, lo);
    DivModUnique(word, lo, channel * k, position);
  }

  /** Every pixel number from the offset up to the limit is emitted for some word. */
  lemma PixelOnto(layout: Layout, pixel: int) returns (word: u32)
    requires layout.detectorIdOffset <= pixel < PixelLimit(layout) <= 0x8000_0000
    ensures EmittedPixel(layout, word) == pixel
  {
    hide Pow2;
    var c, p := layout.EffectiveChannelBits(), layout.positionBits;
    var index := pixel - layout.detectorIdOffset;
    if c + p > 32 {
      Pow2Values();
      Pow2Monotone(32, c + p);
    }
    Pow2Add(c, p);
    DivBound(index, Pow2(c), Pow2(p));
    word := PlaceFields(index / Pow2(p), index % Pow2(p), c, p);
    PixelExact(layout);
  }

  /** When the widths fill the word, the pixel is the offset plus the whole word. */
  lemma FullWidthPixel(layout: Layout, word: u32)
    requires 1 <= layout.channelBits && layout.channelBits as int + layout.positionBits as int == 32
    ensures layout.Pixel(word) == layout.detectorIdOffset + word
    ensures EmittedPixel(layout, word) == AsI32(Wrap32(layout.detectorIdOffset + word))
  {
    assert 32 - layout.EffectiveChannelBits() == layout.positionBits;
  }
}
