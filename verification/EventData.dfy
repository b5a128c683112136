/** Decoded events (src/event_data.rs), and the ways decoding a message can fail. */
module EventData {
  import opened Wrappers
  import opened Machine

  datatype ProcessingError =
    | InvalidTimestamp
    | UnimplementedPacketType
    | UnknownPacketFormat(code: u16)
    | DataNotWholeEvents
    | WrongParametersLength
    | FrameSyncDelayOutOfRange
    | InvalidEvents
    | MismatchedLengths

  datatype EventData = EventData(timeOfFlight: seq<i32>, pixelId: seq<i32>) {
    predicate IsEmpty() {
      timeOfFlight == []
    }

    function Len(): nat {
      |timeOfFlight|
    }
  }

  const EMPTY: EventData := EventData([], [])

  /** The checked constructor: one pixel for each time of flight. */
  function New(timeOfFlight: seq<i32>, pixelId: seq<i32>): (r: Result<EventData, ProcessingError>)
    ensures r.Ok? <==> |timeOfFlight| == |pixelId|
  {
    if |timeOfFlight| != |pixelId| then Err(MismatchedLengths) else Ok(EventData(timeOfFlight, pixelId))
  }
}
