/** Big-endian integers in byte sequences, and sequences of four-byte words. */
module Bytes {
  import opened Machine

  function U16FromBE(b: seq<u8>): u16
    requires |b| == 2
  {
    b[0] as int * 0x100 + b[1] as int
  }

  function U32FromBE(b: seq<u8>): u32
    requires |b| == 4
  {
    ((b[0] as int * 0x100 + b[1] as int) * 0x100 + b[2] as int) * 0x100 + b[3] as int
  }

  function U64FromBE(b: seq<u8>): u64
    requires |b| == 8
  {
    U32FromBE(b[..4]) as int * 0x1_0000_0000 + U32FromBE(b[4..]) as int
  }

  function U16ToBE(x: u16): (b: seq<u8>)
    ensures |b| == 2
  {
    [x / 0x100, x % 0x100]
  }

  function U32ToBE(x: u32): (b: seq<u8>)
    ensures |b| == 4
  {
    [x / 0x100_0000, x / 0x1_0000 % 0x100, x / 0x100 % 0x100, x % 0x100]
  }

  function U64ToBE(x: u64): (b: seq<u8>)
    ensures |b| == 8
  {
    U32ToBE(x / 0x1_0000_0000) + U32ToBE(x % 0x1_0000_0000)
  }

  lemma U16RoundTrip(x: u16)
    ensures U16FromBE(U16ToBE(x)) == x
  {}

  lemma U16BytesRoundTrip(b: seq<u8>)
    requires |b| == 2
    ensures U16ToBE(U16FromBE(b)) == b
  {}

  lemma U32RoundTrip(x: u32)
    ensures U32FromBE(U32ToBE(x)) == x
  {
    DivSplit(x, 0x100, 0x100);
    DivSplit(x, 0x1_0000, 0x100);
  }

  lemma U32BytesRoundTrip(b: seq<u8>)
    requires |b| == 4
    ensures U32ToBE(U32FromBE(b)) == b
  {
    var x := U32FromBE(b);
    DivSplit(x, 0x100, 0x100);
    DivSplit(x, 0x1_0000, 0x100);
    var high := b[0] as int * 0x100 + b[1] as int;
    DivModUnique(x, 0x100, high * 0x100 + b[2] as int, b[3]);
    DivModUnique(high * 0x100 + b[2] as int, 0x100, high, b[2]);
    DivModUnique(high, 0x100, b[0], b[1]);
  }

  lemma U64Halves(b: seq<u8>)
    requires |b| == 8
    ensures U64FromBE(b) / 0x1_0000_0000 == U32FromBE(b[..4])
    ensures U64FromBE(b) % 0x1_0000_0000 == U32FromBE(b[4..])
  {}

  lemma U64RoundTrip(x: u64)
    ensures U64FromBE(U64ToBE(x)) == x
  {
    hide U32ToBE, U32FromBE;
    var hi, lo := U32ToBE(x / 0x1_0000_0000), U32ToBE(x % 0x1_0000_0000);
    assert (hi + lo)[..4] == hi && (hi + lo)[4..] == lo;
    U32RoundTrip(x / 0x1_0000_0000);
    U32RoundTrip(x % 0x1_0000_0000);
  }

  // ----- Words

  /** A sequence of four-byte words. */
  predicate AreWords(words: seq<seq<u8>>) {
    forall i :: 0 <= i < |words| ==> |words[i]| == 4
  }

  function Flatten(words: seq<seq<u8>>): (bytes: seq<u8>)
    requires AreWords(words)
    ensures |bytes| == 4 * |words|
  {
    if words == [] then [] else words[0] + Flatten(words[1..])
  }

  /** Word `i` of a flattened sequence sits at byte `4 * i`. */
  lemma {:induction false} WordAt(words: seq<seq<u8>>, i: nat)
    requires AreWords(words) && i < |words|
    ensures Flatten(words)[4 * i..4 * i + 4] == words[i]
  {
    var rest := Flatten(words[1..]);
    if i > 0 {
      WordAt(words[1..], i - 1);
      assert (words[0] + rest)[4 * i..4 * i + 4] == rest[4 * (i - 1)..4 * (i - 1) + 4];
    }
  }

  /** A sequence read word by word flattens back to itself. */
  lemma {:induction false} FlattenOfSlices(words: seq<seq<u8>>, bytes: seq<u8>)
    requires AreWords(words) && |bytes| >= 4 * |words|
    requires forall i :: 0 <= i < |words| ==> words[i] == bytes[4 * i..4 * i + 4]
    ensures Flatten(words) == bytes[..4 * |words|]
  {
    if words != [] {
      var n := |words|;
      forall i | 0 <= i < n - 1
        ensures words[1..][i] == bytes[4..][4 * i..4 * i + 4]
      {
        assert words[i + 1] == bytes[4 * (i + 1)..4 * (i + 1) + 4];
      }
      FlattenOfSlices(words[1..], bytes[4..]);
      assert words[0] == bytes[0..4];
      assert bytes[..4] + bytes[4..][..4 * (n - 1)] == bytes[..4 * n];
    }
  }
}
