/** Views onto UDP messages and the fields of their headers (src/udp_message.rs). */
module UdpMessage {
  import opened Wrappers
  import opened Machine
  import opened Bytes
  import opened Gps

  const WORD_SIZE: nat := 4
  const HEADER_MARKER: seq<u8> := [0xFF, 0xFF, 0xFF, 0xFF]
  const MINIMUM_HEADER_LEN_WORDS: nat := 14
  const MINIMUM_HEADER_LEN_BYTES: nat := MINIMUM_HEADER_LEN_WORDS * WORD_SIZE

  datatype InvalidMessageReason =
    | ContentTooShort
    | MissingHeaderMarker
    | DeclaredLengthTooShort(length: nat)
    | DeclaredLengthTooLong(length: nat)

  datatype UdpPacketType = VetoFrame | SampleEnvironment | NeutronData | EndOfRun | Invalid

  /**
   A view keeps all the bytes it was given, which may run past the end of the message.
   The accessors read only header words, which exist once `HasHeader` holds; the two
   slices at the end also need the header length to be consistent.
   */
  datatype View = View(content: seq<u8>) {

    predicate HasHeader() {
      |content| >= MINIMUM_HEADER_LEN_BYTES
    }

    predicate HasMarker() {
      |content| > WORD_SIZE && HEADER_MARKER <= content && content[WORD_SIZE] == 0xFF
    }

    /** What `New` establishes of the views it returns. */
    predicate Accepted() {
      && HasHeader()
      && HasMarker()
      && MINIMUM_HEADER_LEN_BYTES <= TotalLengthBytes() <= |content|
    }

    function HeaderWord(n: nat): (w: seq<u8>)
      requires n <= 15 && WORD_SIZE * (n + 1) <= |content|
      ensures |w| == WORD_SIZE
    {
      content[WORD_SIZE * n..WORD_SIZE * (n + 1)]
    }

    function TotalLengthWords(): nat
      requires HasHeader()
    {
      BitAnd(ShiftRight(U32FromBE(HeaderWord(8)), 16), 0xFFF)
    }

    function TotalLengthBytes(): nat
      requires HasHeader()
    {
      TotalLengthWords() * 4
    }

    function HeaderLengthWords(): nat
      requires HasHeader()
    {
      HeaderWord(1)[3]
    }

    function HeaderLengthBytes(): nat
      requires HasHeader()
    {
      HeaderLengthWords() * WORD_SIZE
    }

    function PacketFormatCode(): u16
      requires HasHeader()
    {
      U16FromBE(HeaderWord(1)[1..3])
    }

    function FrameNumber(): u32
      requires HasHeader()
    {
      U32FromBE(HeaderWord(5))
    }

    function EventsInFrame(): u32
      requires HasHeader()
    {
      U32FromBE(HeaderWord(7))
    }

    function RawPppPerFrame(): u8
      requires HasHeader()
    {
      HeaderWord(8)[3]
    }

    function Vetoes(): u32
      requires HasHeader()
    {
      U32FromBE(HeaderWord(9))
    }

    function HeaderFlags(): u8
      requires HasHeader()
    {
      HeaderWord(2)[3]
    }

    function BoardType(): u16
      requires HasHeader()
    {
      U16FromBE(HeaderWord(2)[0..2])
    }

    function PeriodNumber(): u16
      requires HasHeader()
    {
      U16FromBE(HeaderWord(6)[0..2])
    }

    function FrameSyncDelayUs(): u32
      requires HasHeader()
    {
      U32FromBE(HeaderWord(12))
    }

    function Time(): GpsTime
      requires HasHeader()
    {
      GpsTime(U64FromBE(content[3 * 4..5 * 4]))
    }

    /** The flags are active-low; all high means neutron data. */
    function PacketType(): UdpPacketType
      requires HasHeader()
    {
      match HeaderFlags()
      case 0xFF => NeutronData
      case 0xFE => EndOfRun
      case 0xFD => VetoFrame
      case _ => Invalid
    }

    /** The bounds checks of the two slices below, as the slicing operator makes them. */
    predicate SlicesInBounds()
      requires HasHeader()
    {
      && 13 * WORD_SIZE <= HeaderLengthBytes() - WORD_SIZE <= |content|
      && HeaderLengthBytes() <= TotalLengthBytes() <= |content|
    }

    /** From word 13 up to the checksum, the last word of the header. */
    function BoardSpecificParameters(): seq<u8>
      requires HasHeader() && SlicesInBounds()
    {
      content[13 * WORD_SIZE..HeaderLengthBytes() - WORD_SIZE]
    }

    function DataBytes(): seq<u8>
      requires HasHeader() && SlicesInBounds()
    {
      content[HeaderLengthBytes()..TotalLengthBytes()]
    }
  }

  /** `UdpMessageView::new`, check by check. */
  function New(content: seq<u8>): Result<View, InvalidMessageReason> {
    if |content| < MINIMUM_HEADER_LEN_BYTES then
      Err(ContentTooShort)
    else if !(HEADER_MARKER <= content) then
      Err(MissingHeaderMarker)
    else if content[WORD_SIZE] != 0xFF then
      Err(MissingHeaderMarker)
    else
      var view := View(content);
      var declared := view.TotalLengthBytes();
      if declared < MINIMUM_HEADER_LEN_BYTES then
        Err(DeclaredLengthTooShort(declared))
      else if declared > |content| then
        Err(DeclaredLengthTooLong(declared))
      else
        Ok(view)
  }

  /**
   The declared length is the low twelve bits of bytes 32 and 33, in words, so a message
   is at most 16380 bytes long.
   */
  lemma TotalLengthValue(v: View)
    requires v.HasHeader()
    ensures v.TotalLengthBytes() == (v.content[32] as int * 0x100 + v.content[33] as int) % 4096 * 4 <= 16380
  {
    var w := U32FromBE(v.HeaderWord(8));
    var high := v.content[32] as int * 0x100 + v.content[33] as int;
    DivModUnique(w, 0x1_0000, high, v.content[34] as int * 0x100 + v.content[35] as int);
    Pow2Values();
    ShiftIsDivision(w, 16);
    BitAndLowOnes(high, 12);
  }

  /**
   Exactly when each outcome arises: acceptance keeps the whole content, and the
   reasons are told apart by size, marker and declared length, in that order.
   */
  lemma NewOutcome(content: seq<u8>)
    ensures New(content).Ok? <==> View(content).Accepted()
    ensures New(content).Ok? ==> New(content).value == View(content)
    ensures New(content) == Err(ContentTooShort) <==> |content| < 56
    ensures New(content) == Err(MissingHeaderMarker) <==>
            |content| >= 56 && exists i :: 0 <= i < 5 && content[i] != 0xFF
    ensures forall n :: New(content) == Err(DeclaredLengthTooShort(n)) <==>
              |content| >= 56 && View(content).HasMarker() && n == View(content).TotalLengthBytes() < 56
    ensures forall n :: New(content) == Err(DeclaredLengthTooLong(n)) <==>
              |content| >= 56 && View(content).HasMarker() && n == View(content).TotalLengthBytes() > |content|
  {
    if |content| >= 56 {
      assert HEADER_MARKER <= content <==> content[0] == content[1] == content[2] == content[3] == 0xFF by {
        assert HEADER_MARKER <= content <==> content[..4] == HEADER_MARKER;
      }
      if content[0] == content[1] == content[2] == content[3] == content[4] == 0xFF {
        assert forall i :: 0 <= i < 5 ==> content[i] == 0xFF;
      }
    }
  }

  /**
   On an accepted view the slices of the parameters and of the data exist exactly when
   the header length is between the minimum and the declared total, which `New` does
   not check.
   */
  lemma SlicesInBoundsExactly(v: View)
    requires v.Accepted()
    ensures v.SlicesInBounds() <==> 14 <= v.HeaderLengthWords() <= v.TotalLengthWords()
  {}

  /**
   The flags are active-low: with no condition reported the message is neutron data, with
   condition 0 or condition 1 alone it ends a run or holds a veto frame; anything else is
   invalid, and no message carries sample environment data.
   */
  lemma PacketTypeOfConditions(v: View)
    requires v.HasHeader()
    ensures var conditions := 0xFF - v.HeaderFlags();
            && (v.PacketType() == NeutronData <==> conditions == 0)
            && (v.PacketType() == EndOfRun <==> conditions == Pow2(0))
            && (v.PacketType() == VetoFrame <==> conditions == Pow2(1))
            && v.PacketType() != SampleEnvironment
  {
    assert Pow2(0) == 1 && Pow2(1) == 2;
  }
}
