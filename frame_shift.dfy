/**
 * The uint8_t variants of the shift helpers in the alternative runtime header
 * Frame.h: shift, mask, the packed result and the unpacked byte are uint8_t;
 * and that header's plain Frame record.
 */
module FrameShift {
  import opened Bits
  import DbcShift

  /** pack_left_shift<uintT_t>(value, shift, mask): value << shift, cast to uint8_t, & mask. */
  function PackLeftShift(t: DbcShift.TypeLength, value: nat, shift: nat, mask: uint8): nat
    requires value < Pow2(t) && shift < t
  {
    And(ShiftLeft(value, shift, 8), mask, 8)
  }

  /** pack_right_shift<uintT_t>(value, shift, mask): value >> shift, cast to uint8_t, & mask. */
  function PackRightShift(t: DbcShift.TypeLength, value: nat, shift: nat, mask: uint8): nat
    requires value < Pow2(t) && shift < t
  {
    And(ShiftRight(value, shift, 8), mask, 8)
  }

  /** unpack_left_shift<uintT_t>(value, shift, mask): value & mask, cast to the data type, then << shift. */
  function UnpackLeftShift(t: DbcShift.TypeLength, value: uint8, shift: nat, mask: uint8): nat
    requires shift < t
  {
    ShiftLeft(Low(And(value, mask, 8), t), shift, t)
  }

  /** unpack_right_shift<uintT_t>(value, shift, mask): value & mask, cast to the data type, then >> shift. */
  function UnpackRightShift(t: DbcShift.TypeLength, value: uint8, shift: nat, mask: uint8): nat
    requires shift < t
  {
    ShiftRight(Low(And(value, mask, 8), t), shift, t)
  }

  /** For masks that fit a byte, the uint8_t helpers compute what the uint16_t helpers of DBC.h compute. */
  lemma AgreesWithDbc(t: DbcShift.TypeLength, value: nat, byte: uint8, shift: nat, mask: uint8)
    requires value < Pow2(t) && shift < t
    ensures PackLeftShift(t, value, shift, mask) == DbcShift.PackLeftShift(t, value, shift, mask)
    ensures PackRightShift(t, value, shift, mask) == DbcShift.PackRightShift(t, value, shift, mask)
    ensures UnpackLeftShift(t, byte, shift, mask) == DbcShift.UnpackLeftShift(t, byte, shift, mask)
    ensures UnpackRightShift(t, byte, shift, mask) == DbcShift.UnpackRightShift(t, byte, shift, mask)
  {
    Pow2Values();
    HighBitsClear(mask, 8);
    BitsEqual(PackLeftShift(t, value, shift, mask), DbcShift.PackLeftShift(t, value, shift, mask));
    BitsEqual(PackRightShift(t, value, shift, mask), DbcShift.PackRightShift(t, value, shift, mask));
    BitsEqual(And(byte, mask, 8), And(byte, mask, 16));
  }

  /** The packed uint8_t has no bit outside the mask. */
  lemma PackWithinMask(t: DbcShift.TypeLength, value: nat, shift: nat, mask: uint8)
    requires value < Pow2(t) && shift < t
    ensures PackLeftShift(t, value, shift, mask) < 0x100 && PackRightShift(t, value, shift, mask) < 0x100
    ensures forall j: nat :: Bit(PackLeftShift(t, value, shift, mask), j) ==> Bit(mask, j)
    ensures forall j: nat :: Bit(PackRightShift(t, value, shift, mask), j) ==> Bit(mask, j)
  {
    Pow2Values();
  }

  /** unpack_right_shift is at most mask >> shift; unpack_left_shift has its low shift bits zero. */
  lemma UnpackBounds(t: DbcShift.TypeLength, value: uint8, shift: nat, mask: uint8)
    requires shift < t
    ensures UnpackRightShift(t, value, shift, mask) <= mask / Pow2(shift)
    ensures UnpackLeftShift(t, value, shift, mask) % Pow2(shift) == 0
  {
    AgreesWithDbc(t, 0, value, shift, mask);
    DbcShift.UnpackRightShiftBelowMask(t, value, shift, mask);
    DbcShift.UnpackLeftShiftLowBitsZero(t, value, shift, mask);
  }

  /** Unpacking to the right what was packed to the left recovers value & (mask >> shift); likewise the other way. */
  lemma Mirror(t: DbcShift.TypeLength, value: nat, shift: nat, mask: uint8)
    requires value < Pow2(t) && shift < t
    ensures PackLeftShift(t, value, shift, mask) < 0x100 && PackRightShift(t, value, shift, mask) < 0x100
    ensures UnpackRightShift(t, PackLeftShift(t, value, shift, mask), shift, mask)
         == And(value, ShiftRight(mask, shift, t), t)
    ensures UnpackLeftShift(t, PackRightShift(t, value, shift, mask), shift, mask)
         == And(value, ShiftLeft(mask, shift, t), t)
  {
    Pow2Values();
    var pl, pr := PackLeftShift(t, value, shift, mask), PackRightShift(t, value, shift, mask);
    AgreesWithDbc(t, value, pl, shift, mask);
    AgreesWithDbc(t, value, pr, shift, mask);
    DbcShift.MirrorLeftPack(t, value, shift, mask);
    DbcShift.MirrorRightPack(t, value, shift, mask);
  }

  /**
   * The Frame class of Frame.h: it keeps its constructor arguments unchanged
   * and its getters return them; a frame is standard exactly when it is not
   * extended.
   */
  datatype Frame = Frame(id: uint32, name: string, size: uint32, extended: bool, cycleTime: uint32)
  {
    predicate Standard()
    {
      !extended
    }
  }

  /** A constructed frame's getters return its arguments, and exactly one of standard and extended holds. */
  lemma FrameKeepsArguments(id: uint32, name: string, size: uint32, extended: bool, cycleTime: uint32)
    ensures var f := Frame(id, name, size, extended, cycleTime);
      f.id == id && f.name == name && f.size == size && f.extended == extended && f.cycleTime == cycleTime
    ensures Frame(id, name, size, extended, cycleTime).Standard() != extended
  {
  }
}
