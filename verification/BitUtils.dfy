/** Bit-field helpers (src/bit_utils.rs). */
module BitUtils {
  import opened Wrappers
  import opened Machine

  /** The constant with the `numBits` low bits set, saturating at 32. */
  function Mask(numBits: u32): u32 {
    UnboundedShr(0xFFFF_FFFF, SaturatingSub(32, numBits))
  }

  /** The value of the `numBits` most significant bits of `data`. */
  function ExtractMsb(data: u32, numBits: u32): Option<u32> {
    match CheckedSub(32, numBits)
    case None => None
    case Some(shift) => CheckedShr(data, shift)
  }

  function Min(a: nat, b: nat): nat {
    if a < b then a else b
  }

  lemma OnesShifted(hi: nat, lo: nat, full: nat)
    requires lo > 0 && hi * lo == full
    ensures (full - 1) / lo == hi - 1 && (full - 1) % lo == lo - 1
  {
    assert full - 1 == (hi - 1) * lo + (lo - 1);
    DivModUnique(full - 1, lo, hi - 1, lo - 1);
  }

  lemma MaskValue(n: u32)
    ensures Mask(n) == Pow2(Min(n, 32)) - 1
  {
    Pow2Values();
    ShiftIsDivision(0xFFFF_FFFF, SaturatingSub(32, n));
    if 0 < n < 32 {
      Pow2Add(n, 32 - n);
      OnesShifted(Pow2(n), Pow2(32 - n), 0x1_0000_0000);
    }
  }

  /** Masking keeps the low bits, for every word and every width. */
  lemma AndMask(word: u32, n: u32)
    ensures BitAnd(word, Mask(n)) == word % Pow2(n)
  {
    MaskValue(n);
    Pow2Values();
    BitAndLowOnes(word, Min(n, 32));
    if n > 32 {
      Pow2Monotone(32, n);
      DivModUnique(word, Pow2(32), 0, word);
      DivModUnique(word, Pow2(n), 0, word);
    }
  }

  /**
   A width from 1 to 32 splits every word into its top `n` bits and the rest;
   any other width has no top bits to extract.
   */
  lemma BitSplitting(word: u32, n: u32)
    ensures ExtractMsb(word, n).None? <==> n == 0 || n > 32
    ensures 1 <= n <= 32 ==>
              var top := ExtractMsb(word, n).value;
              top < Pow2(n) && word == top * Pow2(32 - n) + BitAnd(word, Mask(32 - n))
  {
    hide Pow2, ShiftRight, BitAnd, Mask;
    if 1 <= n <= 32 {
      ShiftIsDivision(word, 32 - n);
      assert ExtractMsb(word, n) == Some(word / Pow2(32 - n));
      assert word < Pow2(n) * Pow2(32 - n) by {
        Pow2Values();
        Pow2Add(n, 32 - n);
      }
      AndMask(word, 32 - n);
      DivBound(word, Pow2(n), Pow2(32 - n));
    }
  }
}
