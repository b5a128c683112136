/** Choosing the decoder for a message (src/packet_formats.rs). */
module PacketFormats {
  import opened Wrappers
  import opened Machine
  import opened EventData
  import opened Metrics
  import PacketFormat1

  /** The events of a message: none for empty data, whatever the format. */
  function BoardEvents(code: u16, parameters: seq<u8>, data: seq<u8>, frameSyncDelayUs: u32)
    : Result<EventData, ProcessingError>
  {
    if data == [] then
      Ok(EMPTY)
    else if code == PacketFormat1.PACKET_FORMAT_CODE then
      PacketFormat1.Decoded(parameters, data, frameSyncDelayUs)
    else
      Err(UnknownPacketFormat(code))
  }

  function BoardInvalidCount(code: u16, parameters: seq<u8>, data: seq<u8>, frameSyncDelayUs: u32): nat {
    if data != [] && code == PacketFormat1.PACKET_FORMAT_CODE then
      PacketFormat1.InvalidCount(parameters, data, frameSyncDelayUs)
    else
      0
  }

  method ParseBoardData(code: u16, parameters: seq<u8>, data: seq<u8>, frameSyncDelayUs: u32, metrics: Metrics)
    returns (r: Result<EventData, ProcessingError>)
    modifies metrics`invalidNeutronEvents
    ensures r == BoardEvents(code, parameters, data, frameSyncDelayUs)
    ensures metrics.invalidNeutronEvents
            == old(metrics.invalidNeutronEvents) + BoardInvalidCount(code, parameters, data, frameSyncDelayUs)
  {
    if data == [] {
      return Ok(EMPTY);
    }
    match code
    case 1 =>
      r := PacketFormat1.ParseRawData(parameters, data, frameSyncDelayUs, metrics);
    case unknown =>
      r := Err(UnknownPacketFormat(unknown));
  }

  /** A successful decode has one pixel per event, and none only for empty data. */
  lemma DecodedShape(code: u16, parameters: seq<u8>, data: seq<u8>, frameSyncDelayUs: u32)
    ensures var r := BoardEvents(code, parameters, data, frameSyncDelayUs);
            r.Ok? ==>
              && |r.value.timeOfFlight| == |r.value.pixelId|
              && (r.value.IsEmpty() <==> data == [])
  {}
}
