/**
 * The bodies the C++ generator emits for a numeric signal of a message class:
 * the setter (range-check guard, clear, OR in every segment), clear_<signal>()
 * and the getter Raw() (OR-accumulate every segment, optional sign extension).
 *
 * A signal's bits are split into segments, one per frame byte it touches. The
 * setter walks the pack list (segments with invert_shift=False); the getter
 * walks the unpack list (invert_shift=True), the same segments with every
 * shift direction reversed. Both lists are inputs here.
 */
module Codec {
  import opened Bits
  import opened DbcShift
  import RangeCheck

  datatype Direction = Left | Right

  /** One generated line: buffer_[index] and pack/unpack_<direction>_shift(…, shift, mask). */
  datatype Segment = Segment(index: nat, shift: nat, direction: Direction, mask: nat)

  /** What the generator knows about a numeric signal: its raw type uintT_t, bit length, signedness, pack list. */
  datatype NumericSignal = NumericSignal(typeLength: TypeLength, length: nat, isSigned: bool, segments: seq<Segment>)

  function Flip(d: Direction): Direction
  {
    match d
    case Left => Right
    case Right => Left
  }

  /** The unpack list: the pack list with every shift direction reversed. */
  function Inverted(segs: seq<Segment>): seq<Segment>
  {
    seq(|segs|, k requires 0 <= k < |segs| => segs[k].(direction := Flip(segs[k].direction)))
  }

  /** A segment names a byte of the buffer, a shift below T and a byte mask. */
  predicate SegmentFits(g: Segment, t: nat, bufferLength: nat)
  {
    g.index < bufferLength && g.shift < t && g.mask < 0x100
  }

  predicate SegmentsFit(segs: seq<Segment>, t: nat, bufferLength: nat)
  {
    forall k :: 0 <= k < |segs| ==> SegmentFits(segs[k], t, bufferLength)
  }

  /** What the generated code needs to be defined: a length 1 .. T and segments that fit. */
  predicate Fits(sig: NumericSignal, bufferLength: nat)
  {
    0 < sig.length <= sig.typeLength && SegmentsFit(sig.segments, sig.typeLength, bufferLength)
  }

  ghost predicate NoCommonBits(x: nat, y: nat)
  {
    forall j: nat :: !(Bit(x, j) && Bit(y, j))
  }

  /** Segments that share a byte use disjoint masks. */
  ghost predicate SharedBytesDisjoint(segs: seq<Segment>)
  {
    forall k1, k2 :: 0 <= k1 < k2 < |segs| && segs[k1].index == segs[k2].index ==>
      NoCommonBits(segs[k1].mask, segs[k2].mask)
  }

  /** The value bits a pack-list segment carries: mask >> shift when packed left, mask << shift when packed right. */
  function FieldBits(g: Segment, t: nat): nat
  {
    match g.direction
    case Left => ShiftRight(g.mask, g.shift, t)
    case Right => ShiftLeft(g.mask, g.shift, t)
  }

  /** The value bits all segments carry together. */
  function FieldUnion(segs: seq<Segment>, t: nat): nat
  {
    if segs == [] then 0 else Or(FieldUnion(segs[..|segs| - 1], t), FieldBits(segs[|segs| - 1], t), t)
  }

  /** A layout as the generator produces it: fitting segments that carry exactly the low L bits of the value. */
  ghost predicate WellFormed(sig: NumericSignal, bufferLength: nat)
  {
    Fits(sig, bufferLength) &&
    SharedBytesDisjoint(sig.segments) &&
    FieldUnion(sig.segments, sig.typeLength) == Pow2(sig.length) - 1
  }

  /** Two signals never share a bit of a byte. */
  ghost predicate SignalsDisjoint(a: seq<Segment>, b: seq<Segment>)
  {
    forall k1, k2 :: 0 <= k1 < |a| && 0 <= k2 < |b| && a[k1].index == b[k2].index ==>
      NoCommonBits(a[k1].mask, b[k2].mask)
  }

  // ---------------------------------------------------------------------------
  // One emitted line.
  // ---------------------------------------------------------------------------

  /** pack_<direction>_shift<uintT_t>(encoded, shift, mask). */
  function PackShift(t: TypeLength, g: Segment, value: nat): nat
    requires value < Pow2(t) && g.shift < t && g.mask < 0x100
  {
    match g.direction
    case Left => PackLeftShift(t, value, g.shift, g.mask)
    case Right => PackRightShift(t, value, g.shift, g.mask)
  }

  /** unpack_<direction>_shift<uintT_t>(buffer_[index], shift, mask). */
  function UnpackShift(t: TypeLength, g: Segment, byte: uint8): nat
    requires g.shift < t && g.mask < 0x100
  {
    match g.direction
    case Left => UnpackLeftShift(t, byte, g.shift, g.mask)
    case Right => UnpackRightShift(t, byte, g.shift, g.mask)
  }

  /** buffer_[index] &= ~mask: the complement is taken in unsigned int and the result stored in a uint8_t. */
  function ClearByte(byte: uint8, mask: nat): uint8
  {
    Pow2Values();
    And(byte, Not(mask, 8), 8)
  }

  /** buffer_[index] |= piece, the uint16_t piece stored in a uint8_t. */
  function OrByte(byte: uint8, piece: nat): uint8
  {
    Pow2Values();
    Or(byte, piece, 8)
  }

  // ---------------------------------------------------------------------------
  // The emitted bodies as functions of the buffer contents.
  // ---------------------------------------------------------------------------

  /** The buffer after the clear lines of segs. */
  function Cleared(bytes: seq<uint8>, segs: seq<Segment>): (r: seq<uint8>)
    requires forall k :: 0 <= k < |segs| ==> segs[k].index < |bytes|
    ensures |r| == |bytes|
  {
    if segs == [] then bytes
    else
      var c := Cleared(bytes, segs[..|segs| - 1]);
      var g := segs[|segs| - 1];
      c[g.index := ClearByte(c[g.index], g.mask)]
  }

  /** The buffer after the OR lines of segs for an encoded value. */
  function OredIn(bytes: seq<uint8>, segs: seq<Segment>, t: TypeLength, value: nat): (r: seq<uint8>)
    requires SegmentsFit(segs, t, |bytes|) && value < Pow2(t)
    ensures |r| == |bytes|
  {
    if segs == [] then bytes
    else
      var c := OredIn(bytes, segs[..|segs| - 1], t, value);
      var g := segs[|segs| - 1];
      c[g.index := OrByte(c[g.index], PackShift(t, g, value))]
  }

  /** The buffer after a setter call whose range check passed. */
  function Packed(bytes: seq<uint8>, sig: NumericSignal, value: nat): (r: seq<uint8>)
    requires Fits(sig, |bytes|) && value < Pow2(sig.typeLength)
    ensures |r| == |bytes|
  {
    OredIn(Cleared(bytes, sig.segments), sig.segments, sig.typeLength, value)
  }

  /** The accumulator after the unpack lines of usegs, starting from 0. */
  function Accumulated(bytes: seq<uint8>, usegs: seq<Segment>, t: TypeLength): (r: nat)
    requires SegmentsFit(usegs, t, |bytes|)
    ensures r < Pow2(t)
  {
    if usegs == [] then 0
    else
      var g := usegs[|usegs| - 1];
      Or(Accumulated(bytes, usegs[..|usegs| - 1], t), UnpackShift(t, g, bytes[g.index]), t)
  }

  /** The raw bits the getter collects, before any sign extension. */
  function Unpacked(bytes: seq<uint8>, sig: NumericSignal): nat
    requires Fits(sig, |bytes|)
  {
    InvertedFits(sig.segments, sig.typeLength, |bytes|);
    Accumulated(bytes, Inverted(sig.segments), sig.typeLength)
  }

  /** The generator's mask ((1 << (T - L)) - 1) << L, computed on Python integers. */
  function SignExtensionMask(t: nat, length: nat): nat
    requires length <= t
  {
    (Pow2(t - length) - 1) * Pow2(length)
  }

  /**
   * The emitted sign extension: nothing when L = T, otherwise
   * `if ((x & (1 << (L - 1))) != 0) x |= mask;`.
   */
  function SignExtended(x: nat, t: TypeLength, length: nat): (r: nat)
    requires 0 < length <= t && x < Pow2(t)
    ensures r < Pow2(t)
    ensures length == t ==> r == x
    ensures x < Pow2(length) ==> r == if x >= Pow2(length - 1) then x + Pow2(t) - Pow2(length) else x
  {
    SignExtensionMeaning(x, t, length);
    if Pow2(t - length) - 1 != 0 && And(x, Pow2(length - 1), t) != 0
    then Or(x, SignExtensionMask(t, length), t)
    else x
  }

  /** static_cast<intT_t>(x): the T-bit two's complement reading of x. */
  function ToSigned(x: nat, t: TypeLength): int
  {
    if x >= Pow2(t - 1) then x - Pow2(t) else x
  }

  /** What the generated Raw() returns. */
  function RawValue(bytes: seq<uint8>, sig: NumericSignal): int
    requires Fits(sig, |bytes|)
  {
    var x := Unpacked(bytes, sig);
    if sig.isSigned then ToSigned(SignExtended(x, sig.typeLength, sig.length), sig.typeLength) else x
  }

  /** static_cast<uintT_t>(raw): the T-bit encoding of a raw value, as the setter receives it. */
  function Encoding(raw: int, t: TypeLength): (r: nat)
    ensures r < Pow2(t)
    ensures -(Pow2(t - 1) as int) <= raw < Pow2(t - 1) ==> ToSigned(r, t) == raw
    ensures 0 <= raw < Pow2(t) ==> r == raw
  {
    EncodingInverse(raw, Pow2(t), Pow2(t - 1));
    raw % Pow2(t)
  }

  lemma EncodingInverse(raw: int, pt: nat, pt1: nat)
    requires pt == 2 * pt1 && pt1 >= 1
    ensures -(pt1 as int) <= raw < pt1 ==> (if raw % pt >= pt1 then raw % pt - pt else raw % pt) == raw
    ensures 0 <= raw < pt ==> raw % pt == raw
  {
    if -(pt1 as int) <= raw < 0 {
      ModOfNegative(raw, pt);
    } else if 0 <= raw < pt {
      ModSmall(raw, pt);
    }
  }

  /** The argument of RawInRange: the uintT_t encoding converted to the raw data type. */
  function RangeArgument(sig: NumericSignal, encoded: nat): int
  {
    if sig.isSigned then ToSigned(encoded, sig.typeLength) else encoded
  }

  // ---------------------------------------------------------------------------
  // The generated member functions.
  // ---------------------------------------------------------------------------

  /** clear_<signal>(): one `buffer_[index] &= ~mask;` per segment. */
  method ClearSignal(buffer: array<uint8>, segs: seq<Segment>)
    requires forall k :: 0 <= k < |segs| ==> segs[k].index < buffer.Length
    modifies buffer
    ensures buffer[..] == Cleared(old(buffer[..]), segs)
  {
    ghost var before := buffer[..];
    for k := 0 to |segs|
      invariant buffer[..] == Cleared(before, segs[..k])
    {
      var g := segs[k];
      ClearedStep(before, segs, k);
      buffer[g.index] := ClearByte(buffer[g.index], g.mask);
    }
    assert segs[..|segs|] == segs;
  }

  /** The OR lines of the setter: one `buffer_[index] |= pack_<direction>_shift(encoded, shift, mask);` per segment. */
  method OrSegments(buffer: array<uint8>, segs: seq<Segment>, t: TypeLength, encoded: nat)
    requires SegmentsFit(segs, t, buffer.Length) && encoded < Pow2(t)
    modifies buffer
    ensures buffer[..] == OredIn(old(buffer[..]), segs, t, encoded)
  {
    ghost var before := buffer[..];
    for k := 0 to |segs|
      invariant buffer[..] == OredIn(before, segs[..k], t, encoded)
    {
      var g := segs[k];
      OredInStep(before, segs, t, encoded, k);
      buffer[g.index] := OrByte(buffer[g.index], PackShift(t, g, encoded));
    }
    assert segs[..|segs|] == segs;
  }

  /**
   * The setter: returns false and leaves the buffer alone when RawInRange
   * rejects the encoding; otherwise clears the signal, ORs in every segment
   * and returns true.
   */
  method SetSignal(buffer: array<uint8>, sig: NumericSignal, bounds: RangeCheck.RawBounds, encoded: nat)
    returns (ok: bool)
    requires Fits(sig, buffer.Length) && encoded < Pow2(sig.typeLength)
    modifies buffer
    ensures ok == RangeCheck.InRange(bounds, RangeArgument(sig, encoded) as real)
    ensures ok ==> buffer[..] == Packed(old(buffer[..]), sig, encoded)
    ensures !ok ==> buffer[..] == old(buffer[..])
  {
    if !RangeCheck.InRange(bounds, RangeArgument(sig, encoded) as real) {
      return false;
    }
    ClearSignal(buffer, sig.segments);
    OrSegments(buffer, sig.segments, sig.typeLength, encoded);
    return true;
  }

  /** The OR-accumulation of Raw(): every unpack-list segment ORed into a zeroed uintT_t. */
  method Collect(buffer: array<uint8>, usegs: seq<Segment>, t: TypeLength) returns (x: nat)
    requires SegmentsFit(usegs, t, buffer.Length)
    ensures x == Accumulated(buffer[..], usegs, t)
  {
    x := 0;
    for k := 0 to |usegs|
      invariant x == Accumulated(buffer[..], usegs[..k], t)
    {
      var g := usegs[k];
      AccumulatedStep(buffer[..], usegs, t, k + 1);
      x := Or(x, UnpackShift(t, g, buffer[g.index]), t);
    }
    assert usegs[..|usegs|] == usegs;
  }

  /** The emitted sign extension of an L-bit field held in a uintT_t. */
  method ExtendSign(x: nat, t: TypeLength, length: nat) returns (r: nat)
    requires 0 < length <= t && x < Pow2(t)
    ensures r == SignExtended(x, t, length)
  {
    r := x;
    if Pow2(t - length) - 1 != 0 {
      var mask := SignExtensionMask(t, length);
      if And(x, Pow2(length - 1), t) != 0 {
        r := Or(x, mask, t);
      }
    }
  }

  /** Raw(): OR-accumulate every unpack-list segment into a zeroed uintT_t, then sign-extend if signed. */
  method Raw(buffer: array<uint8>, sig: NumericSignal) returns (r: int)
    requires Fits(sig, buffer.Length)
    ensures r == RawValue(buffer[..], sig)
  {
    var t := sig.typeLength;
    InvertedFits(sig.segments, t, buffer.Length);
    var x := Collect(buffer, Inverted(sig.segments), t);
    if sig.isSigned {
      x := ExtendSign(x, t, sig.length);
      r := ToSigned(x, t);
    } else {
      r := x;
    }
  }

  // ---------------------------------------------------------------------------
  // One more line of each pass.
  // ---------------------------------------------------------------------------

  /** A prefix of fitting segments fits. */
  lemma PrefixFits(segs: seq<Segment>, t: nat, bufferLength: nat, n: nat)
    requires SegmentsFit(segs, t, bufferLength) && n <= |segs|
    ensures SegmentsFit(segs, t, bufferLength)
    ensures SegmentsFit(segs[..n], t, bufferLength)
  {
    assert forall k :: 0 <= k < n ==> segs[..n][k] == segs[k];
  }

  lemma ClearedStep(bytes: seq<uint8>, segs: seq<Segment>, k: nat)
    requires forall i :: 0 <= i < |segs| ==> segs[i].index < |bytes|
    requires k < |segs|
    ensures Cleared(bytes, segs[..k + 1])
         == Cleared(bytes, segs[..k])[segs[k].index := ClearByte(Cleared(bytes, segs[..k])[segs[k].index], segs[k].mask)]
  {
    assert segs[..k + 1][..k] == segs[..k];
  }

  lemma OredInStep(bytes: seq<uint8>, segs: seq<Segment>, t: TypeLength, value: nat, k: nat)
    requires SegmentsFit(segs, t, |bytes|) && value < Pow2(t) && k < |segs|
    ensures SegmentsFit(segs[..k], t, |bytes|) && SegmentsFit(segs[..k + 1], t, |bytes|)
    ensures OredIn(bytes, segs[..k + 1], t, value)
         == OredIn(bytes, segs[..k], t, value)[segs[k].index :=
              OrByte(OredIn(bytes, segs[..k], t, value)[segs[k].index], PackShift(t, segs[k], value))]
  {
    PrefixFits(segs, t, |bytes|, k);
    PrefixFits(segs, t, |bytes|, k + 1);
    assert segs[..k + 1][..k] == segs[..k];
  }

  /** The getter's accumulator after n lines is the one after n - 1 lines ORed with line n. */
  lemma AccumulatedStep(b: seq<uint8>, usegs: seq<Segment>, t: TypeLength, n: nat)
    requires 0 < n <= |usegs| && SegmentsFit(usegs, t, |b|)
    ensures SegmentsFit(usegs[..n - 1], t, |b|) && SegmentsFit(usegs[..n], t, |b|)
    ensures Accumulated(b, usegs[..n], t)
         == Or(Accumulated(b, usegs[..n - 1], t), UnpackShift(t, usegs[n - 1], b[usegs[n - 1].index]), t)
  {
    PrefixFits(usegs, t, |b|, n - 1);
    PrefixFits(usegs, t, |b|, n);
    assert usegs[..n][..n - 1] == usegs[..n - 1];
  }

  // ---------------------------------------------------------------------------
  // Properties.
  // ---------------------------------------------------------------------------

  lemma InvertedFits(segs: seq<Segment>, t: nat, bufferLength: nat)
    requires SegmentsFit(segs, t, bufferLength)
    ensures SegmentsFit(Inverted(segs), t, bufferLength)
  {
  }

  /** The mask of the sign extension has exactly the bits L .. T-1. */
  lemma SignExtensionMaskBits(t: nat, length: nat)
    requires length <= t
    ensures forall j: nat :: Bit(SignExtensionMask(t, length), j) == (length <= j < t)
    ensures SignExtensionMask(t, length) == Pow2(t) - Pow2(length)
    ensures length == t <==> Pow2(t - length) - 1 == 0
  {
    var ones := Pow2(t - length) - 1;
    OnesBits(t - length, ones);
    MulBits(ones, length);
    Pow2Add(t - length, length);
    if length < t {
      assert Bit(ones, 0);
    }
  }

  /** In L bits, the sign extension adds 2^T - 2^L exactly when bit L-1 is set. */
  lemma SignExtensionMeaning(x: nat, t: TypeLength, length: nat)
    requires 0 < length <= t && x < Pow2(t)
    ensures x < Pow2(length) && Pow2(t - length) - 1 != 0 && And(x, Pow2(length - 1), t) != 0
            ==> Or(x, SignExtensionMask(t, length), t) == x + Pow2(t) - Pow2(length)
    ensures x < Pow2(length) ==> (And(x, Pow2(length - 1), t) != 0 <==> x >= Pow2(length - 1))
    ensures length == t ==> Pow2(t - length) - 1 == 0
  {
    SignExtensionMaskBits(t, length);
    var mask := SignExtensionMask(t, length);
    if x < Pow2(length) {
      HighBitsClear(x, length);
      Pow2Monotone(length, t);
      DisjointOrIsSum(x, mask, t);
      TopBitMeansUpperHalf(x, length, t);
    }
  }

  /** For x below 2^L, bit L-1 is set (as the emitted test sees it) exactly when x >= 2^(L-1). */
  lemma TopBitMeansUpperHalf(x: nat, length: nat, t: nat)
    requires 0 < length <= t && x < Pow2(length)
    ensures And(x, Pow2(length - 1), t) != 0 <==> x >= Pow2(length - 1)
  {
    var top := Pow2(length - 1);
    PowerBit(length - 1);
    assert Pow2(length) == 2 * top;
    if x >= top {
      HighBitsClear(x - top, length - 1);
      HighBitsClear(top, length);
      forall j: nat ensures !(Bit(x - top, j) && Bit(top, j)) {
      }
      DisjointOrIsSum(x - top, top, length);
      assert Bit(Or(x - top, top, length), length - 1);
      assert Bit(And(x, top, t), length - 1);
      ZeroHasNoBits(length - 1);
    } else {
      HighBitsClear(x, length - 1);
      forall j: nat ensures Bit(And(x, top, t), j) == Bit(0, j) {
        ZeroHasNoBits(j);
      }
      BitsEqual(And(x, top, t), 0);
    }
  }

  /** A signed getter reads an L-bit field as two's complement: raw - 2^L when bit L-1 is set, raw otherwise. */
  lemma SignedReading(x: nat, t: TypeLength, length: nat)
    requires 0 < length <= t && x < Pow2(length) && x < Pow2(t)
    ensures ToSigned(SignExtended(x, t, length), t) == if x >= Pow2(length - 1) then x - Pow2(length) else x
  {
    HalfPowers(t, length);
    ReadingOfExtension(x, SignExtended(x, t, length), Pow2(t), Pow2(t - 1), Pow2(length), Pow2(length - 1));
  }

  lemma HalfPowers(t: nat, length: nat)
    requires 0 < length <= t
    ensures Pow2(t) == 2 * Pow2(t - 1) && Pow2(length) == 2 * Pow2(length - 1) && Pow2(length - 1) <= Pow2(t - 1)
  {
    Pow2Monotone(length - 1, t - 1);
  }

  /**
   * With pt = 2^T and pl = 2^L: the sign-extended value r, read as a T-bit
   * two's complement number, is x read as an L-bit one.
   */
  lemma ReadingOfExtension(x: nat, r: nat, pt: nat, pt1: nat, pl: nat, pl1: nat)
    requires pt == 2 * pt1 && pl == 2 * pl1 && pl1 <= pt1 && x < pl
    requires r == if x >= pl1 then x + pt - pl else x
    ensures (if r >= pt1 then r - pt else r) == if x >= pl1 then x - pl else x
  {
  }
}
