/**
 * The four templated shift helpers of the runtime header DBC.h, through which
 * every generated setter and getter moves signal bits between an encoded value
 * of the signal's data type and the frame's bytes.
 *
 * The data type is an unsigned integer of T bits, T one of 8, 16, 32, 64; the
 * shift and mask parameters and the packed result are uint16_t.
 */
module DbcShift {
  import opened Bits

  /** Width of the unsigned data types uint8_t .. uint64_t the generator uses. */
  type TypeLength = t: nat | t == 8 || t == 16 || t == 32 || t == 64 witness 8

  /**
   * pack_left_shift<uintT_t>(value, shift, mask): value << shift in the data
   * type, cast to uint16_t, then & mask.
   */
  function PackLeftShift(t: TypeLength, value: nat, shift: nat, mask: uint16): nat
    requires value < Pow2(t) && shift < t
  {
    And(ShiftLeft(value, shift, 16), mask, 16)
  }

  /** pack_right_shift<uintT_t>(value, shift, mask): value >> shift, cast to uint16_t, & mask. */
  function PackRightShift(t: TypeLength, value: nat, shift: nat, mask: uint16): nat
    requires value < Pow2(t) && shift < t
  {
    And(ShiftRight(value, shift, 16), mask, 16)
  }

  /** unpack_left_shift<uintT_t>(value, shift, mask): value & mask, cast to the data type, then << shift. */
  function UnpackLeftShift(t: TypeLength, value: uint16, shift: nat, mask: uint16): nat
    requires shift < t
  {
    ShiftLeft(Low(And(value, mask, 16), t), shift, t)
  }

  /** unpack_right_shift<uintT_t>(value, shift, mask): value & mask, cast to the data type, then >> shift. */
  function UnpackRightShift(t: TypeLength, value: uint16, shift: nat, mask: uint16): nat
    requires shift < t
  {
    ShiftRight(Low(And(value, mask, 16), t), shift, t)
  }

  /** The packed value is (value << shift) mod 2^16 restricted to the mask, so it fits a byte for a byte mask. */
  lemma PackLeftShiftWithinMask(t: TypeLength, value: nat, shift: nat, mask: uint16)
    requires value < Pow2(t) && shift < t
    ensures PackLeftShift(t, value, shift, mask) == And((value * Pow2(shift)) % Pow2(16), mask, 16)
    ensures forall j: nat :: Bit(PackLeftShift(t, value, shift, mask), j) ==> Bit(mask, j)
    ensures mask < 0x100 ==> PackLeftShift(t, value, shift, mask) < 0x100
  {
    ShiftLeftIsMul(value, shift, 16);
    Pow2Values();
    if mask < 0x100 {
      HighBitsClear(mask, 8);
      BitsBelow(PackLeftShift(t, value, shift, mask), 8);
    }
  }

  /** The packed value is (value >> shift) mod 2^16 restricted to the mask, so it fits a byte for a byte mask. */
  lemma PackRightShiftWithinMask(t: TypeLength, value: nat, shift: nat, mask: uint16)
    requires value < Pow2(t) && shift < t
    ensures PackRightShift(t, value, shift, mask) == And((value / Pow2(shift)) % Pow2(16), mask, 16)
    ensures forall j: nat :: Bit(PackRightShift(t, value, shift, mask), j) ==> Bit(mask, j)
    ensures mask < 0x100 ==> PackRightShift(t, value, shift, mask) < 0x100
  {
    ShiftRightIsDiv(value, shift, 16);
    Pow2Values();
    if mask < 0x100 {
      HighBitsClear(mask, 8);
      BitsBelow(PackRightShift(t, value, shift, mask), 8);
    }
  }

  /** unpack_right_shift yields ((value & mask) mod 2^T) / 2^shift, which is at most mask >> shift. */
  lemma UnpackRightShiftBound(t: TypeLength, value: uint16, shift: nat, mask: uint16)
    requires shift < t
    ensures UnpackRightShift(t, value, shift, mask) == (And(value, mask, 16) % Pow2(t)) / Pow2(shift)
    ensures UnpackRightShift(t, value, shift, mask) <= mask / Pow2(shift)
  {
    UnpackRightShiftIsDiv(t, value, shift, mask);
    UnpackRightShiftBelowMask(t, value, shift, mask);
  }

  lemma UnpackRightShiftIsDiv(t: TypeLength, value: uint16, shift: nat, mask: uint16)
    requires shift < t
    ensures UnpackRightShift(t, value, shift, mask) == (And(value, mask, 16) % Pow2(t)) / Pow2(shift)
  {
    ShiftRightOfLow(And(value, mask, 16), shift, t);
  }

  lemma UnpackRightShiftBelowMask(t: TypeLength, value: uint16, shift: nat, mask: uint16)
    requires shift < t
    ensures UnpackRightShift(t, value, shift, mask) <= mask / Pow2(shift)
  {
    ShiftRightMaskedBound(value, mask, shift, 16, t);
  }

  /** unpack_left_shift yields ((value & mask) << shift) mod 2^T, whose low shift bits are zero. */
  lemma UnpackLeftShiftLowBitsZero(t: TypeLength, value: uint16, shift: nat, mask: uint16)
    requires shift < t
    ensures UnpackLeftShift(t, value, shift, mask) == (And(value, mask, 16) * Pow2(shift)) % Pow2(t)
    ensures UnpackLeftShift(t, value, shift, mask) % Pow2(shift) == 0
  {
    var r := UnpackLeftShift(t, value, shift, mask);
    UnpackLeftShiftIsMul(t, value, shift, mask);
    ModBits(r, shift);
    forall j: nat ensures Bit(r % Pow2(shift), j) == Bit(0, j) {
      ZeroHasNoBits(j);
    }
    BitsEqual(r % Pow2(shift), 0);
  }

  lemma UnpackLeftShiftIsMul(t: TypeLength, value: uint16, shift: nat, mask: uint16)
    requires shift < t
    ensures UnpackLeftShift(t, value, shift, mask) == (And(value, mask, 16) * Pow2(shift)) % Pow2(t)
  {
    ShiftLeftOfLow(And(value, mask, 16), shift, t);
  }

  /** For a byte mask, unpacking to the right what was packed to the left recovers value & (mask >> shift). */
  lemma MirrorLeftPack(t: TypeLength, value: nat, shift: nat, mask: uint16)
    requires value < Pow2(t) && shift < t && mask < 0x100
    ensures PackLeftShift(t, value, shift, mask) < 0x1_0000
    ensures UnpackRightShift(t, PackLeftShift(t, value, shift, mask), shift, mask)
         == And(value, ShiftRight(mask, shift, t), t)
  {
    Pow2Values();
    HighBitsClear(mask, 8);
    BitsEqual(UnpackRightShift(t, PackLeftShift(t, value, shift, mask), shift, mask),
              And(value, ShiftRight(mask, shift, t), t));
  }

  /** For a byte mask, unpacking to the left what was packed to the right recovers value & (mask << shift) mod 2^T. */
  lemma MirrorRightPack(t: TypeLength, value: nat, shift: nat, mask: uint16)
    requires value < Pow2(t) && shift < t && mask < 0x100
    ensures PackRightShift(t, value, shift, mask) < 0x1_0000
    ensures UnpackLeftShift(t, PackRightShift(t, value, shift, mask), shift, mask)
         == And(value, ShiftLeft(mask, shift, t), t)
  {
    Pow2Values();
    HighBitsClear(mask, 8);
    BitsEqual(UnpackLeftShift(t, PackRightShift(t, value, shift, mask), shift, mask),
              And(value, ShiftLeft(mask, shift, t), t));
  }
}
