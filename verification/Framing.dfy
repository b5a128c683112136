/**
 Splitting a datagram into messages (`packet_to_frames` in src/data_processing.rs).

 `Parse` is the recursive specification; `PacketToFrames` is the loop. The lemmas show
 that the frames found are the only maximal way to tile the datagram.
 */
module Framing {
  import opened Wrappers
  import opened Machine
  import opened UdpMessage
  import opened Metrics

  /** Why the loop ended: no bytes were left, or the rest was not a message. */
  datatype Stop = Exhausted | Rejected(reason: InvalidMessageReason)

  datatype Framing = Framing(frames: seq<View>, stop: Stop)

  function Parse(content: seq<u8>): (r: Framing)
    ensures forall v | v in r.frames :: v.Accepted()
    decreases |content|
  {
    if content == [] then
      Framing([], Exhausted)
    else
      match New(content)
      case Err(reason) => Framing([], Rejected(reason))
      case Ok(view) =>
        var rest := Parse(content[view.TotalLengthBytes()..]);
        Framing([view] + rest.frames, rest.stop)
  }

  function TooShortCount(stop: Stop): nat {
    if stop.Rejected? && stop.reason.DeclaredLengthTooShort? then 1 else 0
  }

  function TooLongCount(stop: Stop): nat {
    if stop.Rejected? && stop.reason.DeclaredLengthTooLong? then 1 else 0
  }

  /** One turn of the loop, on the bytes not yet consumed. */
  lemma ParseStep(content: seq<u8>)
    ensures content == [] ==> Parse(content) == Framing([], Exhausted) && New(content).Err?
    ensures content != [] && New(content).Err? ==> Parse(content) == Framing([], Rejected(New(content).error))
    ensures New(content).Ok? ==>
              var view := New(content).value;
              && view == View(content) && view.HasHeader()
              && 56 <= view.TotalLengthBytes() <= |content|
              && Parse(content).frames == [view] + Parse(content[view.TotalLengthBytes()..]).frames
              && Parse(content).stop == Parse(content[view.TotalLengthBytes()..]).stop
  {}

  method PacketToFrames(udp: seq<u8>, metrics: Metrics) returns (result: seq<View>)
    modifies metrics`lengthTooShort, metrics`lengthTooLong
    ensures result == Parse(udp).frames
    ensures metrics.lengthTooShort == old(metrics.lengthTooShort) + TooShortCount(Parse(udp).stop)
    ensures metrics.lengthTooLong == old(metrics.lengthTooLong) + TooLongCount(Parse(udp).stop)
  {
    hide Parse, New, View.TotalLengthBytes;
    result := [];
    var offset := 0;
    assert udp[0..] == udp;
    while offset < |udp|
      invariant offset <= |udp|
      invariant Parse(udp).frames == result + Parse(udp[offset..]).frames
      invariant Parse(udp).stop == Parse(udp[offset..]).stop
      invariant metrics.lengthTooShort == old(metrics.lengthTooShort)
      invariant metrics.lengthTooLong == old(metrics.lengthTooLong)
      decreases |udp| - offset
    {
      var content := udp[offset..];
      ParseStep(content);
      match New(content) {
        case Ok(view) =>
          assert content[view.TotalLengthBytes()..] == udp[offset + view.TotalLengthBytes()..];
          offset := offset + view.TotalLengthBytes();
          result := result + [view];
        case Err(reason) =>
          match reason {
            case ContentTooShort =>
            case MissingHeaderMarker =>
            case DeclaredLengthTooShort(_) =>
              metrics.lengthTooShort := metrics.lengthTooShort + 1;
            case DeclaredLengthTooLong(_) =>
              metrics.lengthTooLong := metrics.lengthTooLong + 1;
          }
          break;
      }
    }
    ParseStep(udp[offset..]);
  }

  // ----- The unique maximal tiling

  /** A message of the datagram occupies the bytes from `from` to `to`. */
  predicate FrameAt(udp: seq<u8>, from: nat, to: nat) {
    from <= |udp| && New(udp[from..]).Ok? && to == from + New(udp[from..]).value.TotalLengthBytes()
  }

  /** Consecutive cuts enclose one message each, starting at `start`. */
  ghost predicate TilesFrom(udp: seq<u8>, start: nat, cuts: seq<nat>) {
    && cuts != [] && cuts[0] == start <= |udp|
    && forall i :: 0 <= i < |cuts| - 1 ==> FrameAt(udp, cuts[i], cuts[i + 1])
  }

  lemma FrameBounds(udp: seq<u8>, from: nat, to: nat)
    requires FrameAt(udp, from, to)
    ensures from + 56 <= to <= |udp| && to - from <= 16380
  {
    TotalLengthValue(View(udp[from..]));
  }

  /**
   The frames found from `start` on tile the bytes up to the last cut, where no message
   is accepted; the reason for stopping is the rejection there.
   */
  lemma {:induction false} ParseTiles(udp: seq<u8>, start: nat) returns (cuts: seq<nat>)
    requires start <= |udp|
    ensures TilesFrom(udp, start, cuts)
    ensures var r := Parse(udp[start..]);
            var last := cuts[|cuts| - 1];
            && |cuts| == |r.frames| + 1
            && (forall i :: 0 <= i < |r.frames| ==> cuts[i] <= |udp| && r.frames[i] == View(udp[cuts[i]..]))
            && start + 56 * |r.frames| <= last <= |udp|
            && New(udp[last..]).Err?
            && r.stop == if last == |udp| then Exhausted else Rejected(New(udp[last..]).error)
    decreases |udp| - start
  {
    hide Parse, New, View.TotalLengthBytes;
    var content := udp[start..];
    ParseStep(content);
    if content != [] && New(content).Ok? {
      var next := start + New(content).value.TotalLengthBytes();
      FrameBounds(udp, start, next);
      assert content[next - start..] == udp[next..];
      var rest := ParseTiles(udp, next);
      cuts := [start] + rest;
    } else {
      cuts := [start];
    }
  }

  /** Any tiling by messages is an initial segment of any tiling that cannot be extended. */
  lemma {:induction false} TilingsAgree(udp: seq<u8>, start: nat, cuts: seq<nat>, other: seq<nat>)
    requires TilesFrom(udp, start, cuts) && TilesFrom(udp, start, other)
    requires cuts[|cuts| - 1] <= |udp| && New(udp[cuts[|cuts| - 1]..]).Err?
    ensures other <= cuts
    decreases |other|
  {
    if |other| > 1 {
      assert FrameAt(udp, start, other[1]);
      if |cuts| > 1 {
        assert FrameAt(udp, start, cuts[1]);
        FrameBounds(udp, start, other[1]);
        forall i | 0 <= i < |cuts| - 2
          ensures FrameAt(udp, cuts[1..][i], cuts[1..][i + 1])
        {
          assert FrameAt(udp, cuts[i + 1], cuts[i + 2]);
        }
        forall i | 0 <= i < |other| - 2
          ensures FrameAt(udp, other[1..][i], other[1..][i + 1])
        {
          assert FrameAt(udp, other[i + 1], other[i + 2]);
        }
        TilingsAgree(udp, cuts[1], cuts[1..], other[1..]);
        assert other == [start] + other[1..] && cuts == [start] + cuts[1..];
      }
    }
  }

  /**
   The loop finds the unique maximal parse: its frames tile a prefix of the datagram
   from offset 0, no message is accepted where it stops, every other tiling is an
   initial segment of this one, and frames have between 56 and 16380 bytes. A bad length
   is counted exactly when the rest has a whole header, marked, with such a length.
   */
  lemma MaximalParse(udp: seq<u8>) returns (cuts: seq<nat>)
    ensures TilesFrom(udp, 0, cuts) && |cuts| == |Parse(udp).frames| + 1
    ensures forall i :: 0 <= i < |Parse(udp).frames| ==>
              var frame := Parse(udp).frames[i];
              && cuts[i] <= |udp| && frame == View(udp[cuts[i]..])
              && frame.HasHeader() && 56 <= frame.TotalLengthBytes() <= 16380
    ensures cuts[|cuts| - 1] <= |udp| && New(udp[cuts[|cuts| - 1]..]).Err?
    ensures forall other :: TilesFrom(udp, 0, other) ==> other <= cuts
    ensures |Parse(udp).frames| <= |udp| / 56
    ensures var rest, stop := View(udp[cuts[|cuts| - 1]..]), Parse(udp).stop;
            && (stop == Exhausted <==> rest.content == [])
            && (TooShortCount(stop) == 1 <==> rest.HasHeader() && rest.HasMarker() && rest.TotalLengthBytes() < 56)
            && (TooLongCount(stop) == 1 <==>
                  rest.HasHeader() && rest.HasMarker() && rest.TotalLengthBytes() > |rest.content|)
  {
    hide Parse, New, View.TotalLengthWords;
    assert udp[0..] == udp;
    cuts := ParseTiles(udp, 0);
    NewOutcome(udp[cuts[|cuts| - 1]..]);
    forall i | 0 <= i < |Parse(udp).frames|
      ensures var frame := Parse(udp).frames[i];
              frame.HasHeader() && 56 <= frame.TotalLengthBytes() <= 16380
    {
      assert Parse(udp).frames[i].Accepted();
      TotalLengthValue(Parse(udp).frames[i]);
    }
    forall other | TilesFrom(udp, 0, other)
      ensures other <= cuts
    {
      TilingsAgree(udp, 0, cuts, other);
    }
  }
}
