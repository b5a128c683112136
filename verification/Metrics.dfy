/**
 The process-wide counters (src/metrics.rs) that message processing increments.
 A labelled counter is the multiset of the labels it was incremented with.
 */
module Metrics {
  import opened UdpMessage

  /** The values of all counters at one moment. */
  datatype Counters = Counters(
    udpPackets: nat,
    udpPacketSize: nat,
    headers: multiset<UdpPacketType>,
    processingErrors: multiset<UdpPacketType>,
    lengthTooShort: nat,
    lengthTooLong: nat,
    controlBoardFrames: nat,
    neutronEvents: nat,
    invalidNeutronEvents: nat)
  {
    function Plus(other: Counters): Counters {
      Counters(
        udpPackets + other.udpPackets,
        udpPacketSize + other.udpPacketSize,
        headers + other.headers,
        processingErrors + other.processingErrors,
        lengthTooShort + other.lengthTooShort,
        lengthTooLong + other.lengthTooLong,
        controlBoardFrames + other.controlBoardFrames,
        neutronEvents + other.neutronEvents,
        invalidNeutronEvents + other.invalidNeutronEvents)
    }
  }

  const ZERO: Counters := Counters(0, 0, multiset{}, multiset{}, 0, 0, 0, 0, 0)

  lemma PlusAssociative(a: Counters, b: Counters, c: Counters)
    ensures a.Plus(b).Plus(c) == a.Plus(b.Plus(c))
  {}

  lemma PlusZero(a: Counters)
    ensures a.Plus(ZERO) == a && ZERO.Plus(a) == a
  {}

  // ----- Totals

  /** The weights of all elements added up. */
  function Sum<T>(xs: seq<T>, weight: T -> nat): nat {
    if xs == [] then 0 else Sum(xs[..|xs| - 1], weight) + weight(xs[|xs| - 1])
  }

  lemma {:induction false} SumConcat<T>(a: seq<T>, b: seq<T>, weight: T -> nat)
    ensures Sum(a + b, weight) == Sum(a, weight) + Sum(b, weight)
  {
    if b == [] {
      assert a + b == a;
    } else {
      assert (a + b)[..|a + b| - 1] == a + b[..|b| - 1];
      SumConcat(a, b[..|b| - 1], weight);
    }
  }

  lemma SumOfOne<T>(x: T, weight: T -> nat)
    ensures Sum([x], weight) == weight(x)
  {}

  class Metrics {
    var udpPackets: nat
    var udpPacketSize: nat
    var headers: multiset<UdpPacketType>
    var processingErrors: multiset<UdpPacketType>
    var lengthTooShort: nat
    var lengthTooLong: nat
    var controlBoardFrames: nat
    var neutronEvents: nat
    var invalidNeutronEvents: nat

    constructor ()
      ensures Snapshot() == ZERO
    {
      udpPackets, udpPacketSize := 0, 0;
      headers, processingErrors := multiset{}, multiset{};
      lengthTooShort, lengthTooLong := 0, 0;
      controlBoardFrames, neutronEvents, invalidNeutronEvents := 0, 0, 0;
    }

    function Snapshot(): Counters
      reads this
    {
      Counters(udpPackets, udpPacketSize, headers, processingErrors, lengthTooShort, lengthTooLong,
               controlBoardFrames, neutronEvents, invalidNeutronEvents)
    }
  }
}
