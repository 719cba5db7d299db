/**
 * What the emitted setter, clear and getter bodies guarantee: clear removes
 * exactly the signal's mask bits, the setter changes nothing outside them (so
 * every other signal of the frame keeps its value), and the getter returns
 * what the setter stored.
 */
module CodecProperties {
  import opened Bits
  import opened DbcShift
  import opened Codec

  /** The OR of the masks of the segments on byte i. */
  function MaskAt(segs: seq<Segment>, i: nat): (r: nat)
    ensures r < Pow2(8)
  {
    if segs == [] then 0
    else
      var g := segs[|segs| - 1];
      Or(MaskAt(segs[..|segs| - 1], i), if g.index == i then g.mask else 0, 8)
  }

  predicate PackFits(segs: seq<Segment>, t: nat)
  {
    forall k :: 0 <= k < |segs| ==> segs[k].shift < t && segs[k].mask < 0x100
  }

  /** The OR of the pieces the segments on byte i store for value. */
  function PieceAt(segs: seq<Segment>, i: nat, t: TypeLength, value: nat): (r: nat)
    requires PackFits(segs, t) && value < Pow2(t)
    ensures r < Pow2(8)
  {
    if segs == [] then 0
    else
      var g := segs[|segs| - 1];
      Or(PieceAt(segs[..|segs| - 1], i, t, value), if g.index == i then PackShift(t, g, value) else 0, 8)
  }

  /** x and y agree on the bits of mask. */
  ghost predicate AgreeOn(x: nat, y: nat, mask: nat)
  {
    forall j: nat :: Bit(mask, j) ==> Bit(x, j) == Bit(y, j)
  }

  // ---------------------------------------------------------------------------
  // Closed forms of the clear and OR passes.
  // ---------------------------------------------------------------------------

  /** After clear, byte i is its old value with the masks of the segments on it removed. */
  lemma {:induction false} ClearedAt(bytes: seq<uint8>, segs: seq<Segment>, i: nat)
    requires forall k :: 0 <= k < |segs| ==> segs[k].index < |bytes|
    requires i < |bytes|
    ensures Cleared(bytes, segs)[i] == ClearByte(bytes[i], MaskAt(segs, i))
  {
    ZeroHasNoBitsAtAll();
    if segs != [] {
      var p, g := segs[..|segs| - 1], segs[|segs| - 1];
      ClearedAt(bytes, p, i);
      var m := MaskAt(p, i);
      if g.index == i {
        BitsEqual(ClearByte(ClearByte(bytes[i], m), g.mask), ClearByte(bytes[i], Or(m, g.mask, 8)));
      } else {
        BitsEqual(ClearByte(bytes[i], m), ClearByte(bytes[i], Or(m, 0, 8)));
      }
    } else {
      Pow2Values();
      HighBitsClear(bytes[i], 8);
      BitsEqual(ClearByte(bytes[i], 0), bytes[i]);
    }
  }

  /** After the OR pass, byte i is its old value ORed with the pieces of the segments on it. */
  lemma {:induction false} OredInAt(bytes: seq<uint8>, segs: seq<Segment>, t: TypeLength, value: nat, i: nat)
    requires SegmentsFit(segs, t, |bytes|) && value < Pow2(t) && i < |bytes|
    ensures OredIn(bytes, segs, t, value)[i] == OrByte(bytes[i], PieceAt(segs, i, t, value))
  {
    ZeroHasNoBitsAtAll();
    if segs != [] {
      var p, g := segs[..|segs| - 1], segs[|segs| - 1];
      OredInAt(bytes, p, t, value, i);
      var q := PieceAt(p, i, t, value);
      if g.index == i {
        var piece := PackShift(t, g, value);
        BitsEqual(OrByte(OrByte(bytes[i], q), piece), OrByte(bytes[i], Or(q, piece, 8)));
      } else {
        BitsEqual(OrByte(bytes[i], q), OrByte(bytes[i], Or(q, 0, 8)));
      }
    } else {
      Pow2Values();
      HighBitsClear(bytes[i], 8);
      BitsEqual(OrByte(bytes[i], 0), bytes[i]);
    }
  }

  /** A packed piece has no bit outside its segment's mask. */
  lemma PackShiftWithinMask(t: TypeLength, g: Segment, value: nat)
    requires value < Pow2(t) && g.shift < t && g.mask < 0x100
    ensures PackShift(t, g, value) < 0x100
    ensures forall j: nat :: Bit(PackShift(t, g, value), j) ==> Bit(g.mask, j)
  {
    var piece := PackShift(t, g, value);
    assert forall j: nat :: Bit(piece, j) ==> Bit(g.mask, j);
    WithinByteMask(piece, g.mask);
  }

  /** A value with no bit outside a byte mask fits a byte. */
  lemma WithinByteMask(x: nat, mask: nat)
    requires mask < 0x100
    requires forall j: nat :: Bit(x, j) ==> Bit(mask, j)
    ensures x < 0x100
  {
    Pow2Values();
    HighBitsClear(mask, 8);
    BitsBelow(x, 8);
  }

  /** The pieces stored in a byte lie within the masks cleared in it. */
  lemma {:induction false} PieceWithinMask(segs: seq<Segment>, i: nat, t: TypeLength, value: nat)
    requires PackFits(segs, t) && value < Pow2(t)
    ensures forall j: nat :: Bit(PieceAt(segs, i, t, value), j) ==> Bit(MaskAt(segs, i), j)
  {
    ZeroHasNoBitsAtAll();
    if segs != [] {
      var p, g := segs[..|segs| - 1], segs[|segs| - 1];
      PieceWithinMask(p, i, t, value);
      PackShiftWithinMask(t, g, value);
    }
  }

  /** Every bit of a segment's mask is among the bits cleared in its byte. */
  lemma {:induction false} MaskAtCovers(segs: seq<Segment>, k: nat)
    requires k < |segs| && segs[k].mask < 0x100
    ensures forall j: nat :: Bit(segs[k].mask, j) ==> Bit(MaskAt(segs, segs[k].index), j)
  {
    Pow2Values();
    HighBitsClear(segs[k].mask, 8);
    if k < |segs| - 1 {
      var p := segs[..|segs| - 1];
      MaskAtCovers(p, k);
    }
  }

  /** The masks cleared in byte i avoid m when every segment on byte i does. */
  lemma {:induction false} MaskAtAvoids(segs: seq<Segment>, i: nat, m: nat)
    requires forall k :: 0 <= k < |segs| && segs[k].index == i ==> NoCommonBits(segs[k].mask, m)
    ensures NoCommonBits(MaskAt(segs, i), m)
  {
    ZeroHasNoBitsAtAll();
    if segs != [] {
      var p := segs[..|segs| - 1];
      MaskAtAvoids(p, i, m);
    }
  }

  /** On the bits of one segment's mask, the byte receives exactly that segment's piece. */
  lemma {:induction false} PieceAtOn(segs: seq<Segment>, k: nat, t: TypeLength, value: nat)
    requires PackFits(segs, t) && value < Pow2(t) && k < |segs|
    requires SharedBytesDisjoint(segs)
    ensures forall j: nat :: Bit(segs[k].mask, j) ==>
      Bit(PieceAt(segs, segs[k].index, t, value), j) == Bit(PackShift(t, segs[k], value), j)
  {
    var n := |segs|;
    var p, g, i := segs[..n - 1], segs[n - 1], segs[k].index;
    DisjointPrefix(segs, p, g);
    var a := PieceAt(p, i, t, value);
    var other := if g.index == i then PackShift(t, g, value) else 0;
    assert PieceAt(segs, i, t, value) == Or(a, other, 8);
    Pow2Values();
    ZeroHasNoBitsAtAll();
    PackShiftWithinMask(t, g, value);
    if k == n - 1 {
      MaskAtAvoids(p, i, g.mask);
      PieceWithinMask(p, i, t, value);
      OrKeepsRight(a, other, g.mask, other);
    } else {
      PieceAtOn(p, k, t, value);
      assert p[k] == segs[k];
      assert NoCommonBits(segs[k].mask, other) by {
        if g.index == i {
          assert NoCommonBits(segs[k].mask, g.mask);
        }
      }
      OrKeepsLeft(a, other, segs[k].mask, PackShift(t, segs[k], value));
    }
  }

  /** The prefix of a disjoint segment list is disjoint, and its masks on the last segment's byte avoid that segment's mask. */
  lemma DisjointPrefix(segs: seq<Segment>, p: seq<Segment>, g: Segment)
    requires SharedBytesDisjoint(segs) && segs != []
    requires p == segs[..|segs| - 1] && g == segs[|segs| - 1]
    ensures SharedBytesDisjoint(p)
    ensures forall k :: 0 <= k < |p| && p[k].index == g.index ==> NoCommonBits(p[k].mask, g.mask)
  {
    forall k | 0 <= k < |p| && p[k].index == g.index
      ensures NoCommonBits(p[k].mask, g.mask)
    {
      assert p[k] == segs[k];
    }
  }

  /** On the bits of m, a | b agrees with x when a does and b has none of them set. */
  lemma OrKeepsLeft(a: nat, b: nat, m: nat, x: nat)
    requires a < 0x100 && b < 0x100
    requires forall j: nat :: Bit(m, j) ==> Bit(a, j) == Bit(x, j)
    requires NoCommonBits(m, b)
    ensures forall j: nat :: Bit(m, j) ==> Bit(Or(a, b, 8), j) == Bit(x, j)
  {
    Pow2Values();
    HighBitsClear(a, 8);
  }

  /** On the bits of m, a | b agrees with x when b does and a has none of them set. */
  lemma OrKeepsRight(a: nat, b: nat, m: nat, x: nat)
    requires a < 0x100 && b < 0x100
    requires NoCommonBits(m, a)
    requires forall j: nat :: Bit(m, j) ==> Bit(b, j) == Bit(x, j)
    ensures forall j: nat :: Bit(m, j) ==> Bit(Or(a, b, 8), j) == Bit(x, j)
  {
    Pow2Values();
    HighBitsClear(b, 8);
  }

  /**
   * Byte i after clear_<signal>(): the bits of the masks that name byte i are
   * zero and every other bit is the old one.
   */
  lemma ClearedBits(bytes: seq<uint8>, segs: seq<Segment>, i: nat)
    requires forall k :: 0 <= k < |segs| ==> segs[k].index < |bytes|
    requires i < |bytes|
    ensures forall j: nat :: Bit(Cleared(bytes, segs)[i], j) == (Bit(bytes[i], j) && !Bit(MaskAt(segs, i), j))
  {
    ClearedAt(bytes, segs, i);
    Pow2Values();
    HighBitsClear(bytes[i], 8);
  }

  /** Byte i after the setter: the piece on the bits of the masks cleared there, the old bits elsewhere. */
  lemma PackedAt(bytes: seq<uint8>, sig: NumericSignal, value: nat, i: nat)
    requires Fits(sig, |bytes|) && value < Pow2(sig.typeLength) && i < |bytes|
    ensures
      forall j: nat :: Bit(Packed(bytes, sig, value)[i], j) ==
        (if Bit(MaskAt(sig.segments, i), j) then Bit(PieceAt(sig.segments, i, sig.typeLength, value), j)
         else Bit(bytes[i], j))
  {
    var segs, t := sig.segments, sig.typeLength;
    ClearedAt(bytes, segs, i);
    OredInAt(Cleared(bytes, segs), segs, t, value, i);
    PieceWithinMask(segs, i, t, value);
    Pow2Values();
    HighBitsClear(bytes[i], 8);
    HighBitsClear(PieceAt(segs, i, t, value), 8);
  }

  /** A getter line reads the same from two bytes that agree on its mask. */
  lemma UnpackShiftAgree(t: TypeLength, g: Segment, x: uint8, y: uint8)
    requires g.shift < t && g.mask < 0x100
    requires AgreeOn(x, y, g.mask)
    ensures UnpackShift(t, g, x) == UnpackShift(t, g, y)
  {
    BitsEqual(And(x, g.mask, 16), And(y, g.mask, 16));
  }

  /** The getter line of a segment reads from a freshly packed buffer the value bits the segment carries. */
  lemma SegmentReadsBack(bytes: seq<uint8>, sig: NumericSignal, value: nat, k: nat)
    requires WellFormed(sig, |bytes|) && value < Pow2(sig.typeLength) && k < |sig.segments|
    ensures UnpackShift(sig.typeLength, Inverted(sig.segments)[k], Packed(bytes, sig, value)[sig.segments[k].index])
         == And(value, FieldBits(sig.segments[k], sig.typeLength), sig.typeLength)
  {
    var segs, t := sig.segments, sig.typeLength;
    var g := segs[k];
    PackedAt(bytes, sig, value, g.index);
    MaskAtCovers(segs, k);
    PieceAtOn(segs, k, t, value);
    ByteReadsBack(t, g, Inverted(segs)[k], value, Packed(bytes, sig, value)[g.index]);
  }

  /** A byte that holds a segment's piece on the segment's mask gives back the value bits of that segment. */
  lemma ByteReadsBack(t: TypeLength, g: Segment, ug: Segment, value: nat, b: uint8)
    requires value < Pow2(t) && g.shift < t && g.mask < 0x100
    requires ug == g.(direction := Flip(g.direction))
    requires forall j: nat :: Bit(g.mask, j) ==> Bit(b, j) == Bit(PackShift(t, g, value), j)
    ensures UnpackShift(t, ug, b) == And(value, FieldBits(g, t), t)
  {
    var piece := PackShift(t, g, value);
    PackShiftWithinMask(t, g, value);
    Pow2Values();
    assert AgreeOn(b, piece, ug.mask);
    UnpackShiftAgree(t, ug, b, piece);
    match g.direction
    case Left => MirrorLeftPack(t, value, g.shift, g.mask);
    case Right => MirrorRightPack(t, value, g.shift, g.mask);
  }

  /** The first n getter lines collect the value bits carried by the first n segments. */
  lemma {:induction false} AccumulatedReadsBack(bytes: seq<uint8>, sig: NumericSignal, value: nat, n: nat)
    requires WellFormed(sig, |bytes|) && value < Pow2(sig.typeLength) && n <= |sig.segments|
    ensures SegmentsFit(Inverted(sig.segments)[..n], sig.typeLength, |bytes|)
    ensures Accumulated(Packed(bytes, sig, value), Inverted(sig.segments)[..n], sig.typeLength)
         == And(value, FieldUnion(sig.segments[..n], sig.typeLength), sig.typeLength)
  {
    var segs, t := sig.segments, sig.typeLength;
    var b := Packed(bytes, sig, value);
    PrefixFits(Inverted(segs), t, |bytes|, n);
    if n == 0 {
      ZeroHasNoBitsAtAll();
      BitsEqual(And(value, 0, t), 0);
    } else {
      AccumulatedReadsBack(bytes, sig, value, n - 1);
      SegmentReadsBack(bytes, sig, value, n - 1);
      AccumulatedStep(b, Inverted(segs), t, n);
      FieldUnionStep(segs, t, n);
      DistributeAnd(value, FieldUnion(segs[..n - 1], t), FieldBits(segs[n - 1], t), t);
    }
  }

  lemma FieldUnionStep(segs: seq<Segment>, t: nat, n: nat)
    requires 0 < n <= |segs|
    ensures FieldUnion(segs[..n], t) == Or(FieldUnion(segs[..n - 1], t), FieldBits(segs[n - 1], t), t)
  {
    assert segs[..n][..n - 1] == segs[..n - 1];
  }

  /** (v & u) | (v & f) == v & (u | f). */
  lemma DistributeAnd(v: nat, u: nat, f: nat, t: nat)
    ensures Or(And(v, u, t), And(v, f, t), t) == And(v, Or(u, f, t), t)
  {
    BitsEqual(Or(And(v, u, t), And(v, f, t), t), And(v, Or(u, f, t), t));
  }

  /** Once every getter line has been accounted for, the getter's result is what they collected. */
  lemma AccumulatedIsUnpacked(b: seq<uint8>, sig: NumericSignal, value: nat)
    requires Fits(sig, |b|) && FieldUnion(sig.segments, sig.typeLength) == Pow2(sig.length) - 1
    requires SegmentsFit(Inverted(sig.segments)[..|sig.segments|], sig.typeLength, |b|)
    requires Accumulated(b, Inverted(sig.segments)[..|sig.segments|], sig.typeLength)
          == And(value, FieldUnion(sig.segments[..|sig.segments|], sig.typeLength), sig.typeLength)
    ensures Unpacked(b, sig) == And(value, Pow2(sig.length) - 1, sig.typeLength)
  {
    var segs := sig.segments;
    InvertedFits(segs, sig.typeLength, |b|);
    assert Inverted(segs)[..|segs|] == Inverted(segs);
    assert segs[..|segs|] == segs;
  }

  /** All getter lines together collect the low L bits of the value. */
  lemma AllReadBack(bytes: seq<uint8>, sig: NumericSignal, value: nat)
    requires WellFormed(sig, |bytes|) && value < Pow2(sig.typeLength)
    ensures Unpacked(Packed(bytes, sig, value), sig) == And(value, Pow2(sig.length) - 1, sig.typeLength)
  {
    AccumulatedReadsBack(bytes, sig, value, |sig.segments|);
    AccumulatedIsUnpacked(Packed(bytes, sig, value), sig, value);
  }

  /** A getter result that is the value under a mask of L ones is the low L bits of the value. */
  lemma MaskedIsLow(b: seq<uint8>, sig: NumericSignal, value: nat)
    requires Fits(sig, |b|) && value < Pow2(sig.typeLength)
    requires Unpacked(b, sig) == And(value, Pow2(sig.length) - 1, sig.typeLength)
    ensures Unpacked(b, sig) == Low(value, sig.length)
  {
    MaskIsLow(value, sig.length, sig.typeLength);
  }

  /** x & ((1 << L) - 1) in a T-bit type, L <= T, is the low L bits of x. */
  lemma MaskIsLow(v: nat, l: nat, t: nat)
    requires l <= t
    ensures And(v, Pow2(l) - 1, t) == Low(v, l)
  {
    OnesBits(l, Pow2(l) - 1);
    BitsEqual(And(v, Pow2(l) - 1, t), Low(v, l));
  }

  /** The getter reads back the low L bits of what the setter stored (the stored value mod 2^L, by LowIsMod). */
  lemma PackUnpackRoundTrip(bytes: seq<uint8>, sig: NumericSignal, value: nat)
    requires WellFormed(sig, |bytes|) && value < Pow2(sig.typeLength)
    ensures Unpacked(Packed(bytes, sig, value), sig) == Low(value, sig.length)
  {
    AllReadBack(bytes, sig, value);
    MaskedIsLow(Packed(bytes, sig, value), sig, value);
  }

  /** An unsigned getter returns exactly the raw value its setter stored. */
  lemma UnsignedRoundTrip(bytes: seq<uint8>, sig: NumericSignal, raw: nat)
    requires WellFormed(sig, |bytes|) && !sig.isSigned && raw < Pow2(sig.length)
    ensures raw < Pow2(sig.typeLength)
    ensures RawValue(Packed(bytes, sig, raw), sig) == raw
  {
    Pow2Monotone(sig.length, sig.typeLength);
    PackUnpackRoundTrip(bytes, sig, raw);
    LowOfSmall(raw, sig.length);
  }

  /** A signed getter returns exactly the raw value in -2^(L-1) .. 2^(L-1)-1 its setter stored as uintT_t. */
  lemma SignedRoundTrip(bytes: seq<uint8>, sig: NumericSignal, raw: int)
    requires WellFormed(sig, |bytes|) && sig.isSigned
    requires -(Pow2(sig.length - 1) as int) <= raw < Pow2(sig.length - 1)
    ensures Encoding(raw, sig.typeLength) < Pow2(sig.typeLength)
    ensures RawValue(Packed(bytes, sig, Encoding(raw, sig.typeLength)), sig) == raw
  {
    PackUnpackRoundTrip(bytes, sig, Encoding(raw, sig.typeLength));
    SignedRawValue(Packed(bytes, sig, Encoding(raw, sig.typeLength)), sig, raw);
  }

  /** A signed getter that collects the low L bits of a raw value's encoding returns that raw value. */
  lemma SignedRawValue(b: seq<uint8>, sig: NumericSignal, raw: int)
    requires Fits(sig, |b|) && sig.isSigned
    requires -(Pow2(sig.length - 1) as int) <= raw < Pow2(sig.length - 1)
    requires Unpacked(b, sig) == Low(Encoding(raw, sig.typeLength), sig.length)
    ensures RawValue(b, sig) == raw
  {
    SignedFieldReading(raw, sig.typeLength, sig.length);
  }

  /**
   * The low L bits of the T-bit encoding of a raw value in -2^(L-1) .. 2^(L-1)-1,
   * sign-extended and read as intT_t, are that raw value.
   */
  lemma SignedFieldReading(raw: int, t: TypeLength, l: nat)
    requires 0 < l <= t && -(Pow2(l - 1) as int) <= raw < Pow2(l - 1)
    ensures Low(Encoding(raw, t), l) < Pow2(t)
    ensures ToSigned(SignExtended(Low(Encoding(raw, t), l), t, l), t) == raw
  {
    var x := Low(Encoding(raw, t), l);
    LowOfEncoding(raw, t, l);
    Pow2Monotone(l, t);
    SignedReading(x, t, l);
    TwosComplementOfResidue(raw, x, Pow2(l), Pow2(l - 1));
  }

  /** The low L bits of the encoding of a small raw value: raw itself, or raw + 2^L when negative. */
  lemma LowOfEncoding(raw: int, t: TypeLength, l: nat)
    requires 0 < l <= t && -(Pow2(l - 1) as int) <= raw < Pow2(l - 1)
    ensures Low(Encoding(raw, t), l) == if raw >= 0 then raw else raw + Pow2(l)
  {
    var e := Encoding(raw, t);
    assert e == raw % Pow2(t);
    LowIsMod(e, l);
    Pow2Add(t - l, l);
    assert Pow2(l) == 2 * Pow2(l - 1);
    ResidueOfSmall(raw, Pow2(l), Pow2(l - 1), Pow2(t), Pow2(t - l));
  }

  lemma TwosComplementOfResidue(raw: int, x: int, pl: int, pl1: int)
    requires pl == 2 * pl1 && -pl1 <= raw < pl1 && x == (if raw >= 0 then raw else raw + pl)
    ensures (if x >= pl1 then x - pl else x) == raw
  {
  }

  lemma ResidueOfSmall(raw: int, pl: nat, pl1: nat, pt: nat, c: nat)
    requires pl == 2 * pl1 && pt == c * pl && c >= 1 && -(pl1 as int) <= raw < pl1
    ensures pl1 >= 1 ==> (raw % pt) % pl == if raw >= 0 then raw else raw + pl
  {
    if pl1 >= 1 {
      MulMonotone(1, c, pl);
      if raw >= 0 {
        ModSmall(raw, pt);
        ModSmall(raw, pl);
      } else {
        ModOfNegative(raw, pt);
        DivModUnique(raw + pt, pl, c - 1, raw + pl);
      }
    }
  }

  /** Four-bit fields in a uint8_t: 0b1000 reads as -8 and 0b0111 as 7. */
  lemma SignedReadingExample()
    ensures ToSigned(SignExtended(8, 8, 4), 8) == -8
    ensures ToSigned(SignExtended(7, 8, 4), 8) == 7
  {
    Pow2Values();
    assert Pow2(4) == 16;
    SignedReading(8, 8, 4);
    SignedReading(7, 8, 4);
  }

  // ---------------------------------------------------------------------------
  // Setting and clearing one signal.
  // ---------------------------------------------------------------------------

  /** Clearing twice clears no more than clearing once. */
  lemma ClearIdempotent(bytes: seq<uint8>, segs: seq<Segment>)
    requires forall k :: 0 <= k < |segs| ==> segs[k].index < |bytes|
    ensures Cleared(Cleared(bytes, segs), segs) == Cleared(bytes, segs)
  {
    var c := Cleared(bytes, segs);
    forall i | 0 <= i < |bytes| ensures Cleared(c, segs)[i] == c[i] {
      ClearedAt(bytes, segs, i);
      ClearedAt(c, segs, i);
      var m := MaskAt(segs, i);
      BitsEqual(ClearByte(ClearByte(bytes[i], m), m), ClearByte(bytes[i], m));
    }
  }

  /** The later of two setter calls wins: setting v1 then v2 leaves what setting v2 alone leaves. */
  lemma LastSetWins(bytes: seq<uint8>, sig: NumericSignal, v1: nat, v2: nat)
    requires Fits(sig, |bytes|) && v1 < Pow2(sig.typeLength) && v2 < Pow2(sig.typeLength)
    ensures Packed(Packed(bytes, sig, v1), sig, v2) == Packed(bytes, sig, v2)
  {
    var b1 := Packed(bytes, sig, v1);
    forall i | 0 <= i < |bytes| ensures Packed(b1, sig, v2)[i] == Packed(bytes, sig, v2)[i] {
      PackedAt(bytes, sig, v1, i);
      PackedAt(b1, sig, v2, i);
      PackedAt(bytes, sig, v2, i);
      BitsEqual(Packed(b1, sig, v2)[i], Packed(bytes, sig, v2)[i]);
    }
  }

  /** Setting the same value twice changes nothing the second time. */
  lemma SetIdempotent(bytes: seq<uint8>, sig: NumericSignal, value: nat)
    requires Fits(sig, |bytes|) && value < Pow2(sig.typeLength)
    ensures Packed(Packed(bytes, sig, value), sig, value) == Packed(bytes, sig, value)
  {
    LastSetWins(bytes, sig, value, value);
  }

  /** Bytes no segment names are left alone by both clear and set. */
  lemma UntouchedBytes(bytes: seq<uint8>, sig: NumericSignal, value: nat, i: nat)
    requires Fits(sig, |bytes|) && value < Pow2(sig.typeLength) && i < |bytes|
    requires forall k :: 0 <= k < |sig.segments| ==> sig.segments[k].index != i
    ensures Cleared(bytes, sig.segments)[i] == bytes[i]
    ensures Packed(bytes, sig, value)[i] == bytes[i]
  {
    var segs := sig.segments;
    ZeroHasNoBitsAtAll();
    MaskAtAvoids(segs, i, 0xFF);
    Pow2Values();
    OnesBits(8, 0xFF);
    HighBitsClear(bytes[i], 8);
    ClearedAt(bytes, segs, i);
    BitsEqual(Cleared(bytes, segs)[i], bytes[i]);
    PackedAt(bytes, sig, value, i);
    BitsEqual(Packed(bytes, sig, value)[i], bytes[i]);
  }

  // ---------------------------------------------------------------------------
  // Signals of one frame do not interfere.
  // ---------------------------------------------------------------------------

  /** The getter lines read the same from two buffers that agree on the masks they read. */
  lemma {:induction false} AccumulatedAgree(b1: seq<uint8>, b2: seq<uint8>, usegs: seq<Segment>, t: TypeLength)
    requires |b1| == |b2| && SegmentsFit(usegs, t, |b1|)
    requires forall k :: 0 <= k < |usegs| ==> AgreeOn(b1[usegs[k].index], b2[usegs[k].index], usegs[k].mask)
    ensures Accumulated(b1, usegs, t) == Accumulated(b2, usegs, t)
  {
    if usegs != [] {
      var g := usegs[|usegs| - 1];
      AccumulatedAgree(b1, b2, usegs[..|usegs| - 1], t);
      UnpackShiftAgree(t, g, b1[g.index], b2[g.index]);
    }
  }

  /** A signal's value depends only on the bits of its masks. */
  lemma RawValueAgree(b1: seq<uint8>, b2: seq<uint8>, sig: NumericSignal)
    requires |b1| == |b2| && Fits(sig, |b1|)
    requires forall k :: 0 <= k < |sig.segments| ==>
      AgreeOn(b1[sig.segments[k].index], b2[sig.segments[k].index], sig.segments[k].mask)
    ensures RawValue(b1, sig) == RawValue(b2, sig)
  {
    InvertedFits(sig.segments, sig.typeLength, |b1|);
    AccumulatedAgree(b1, b2, Inverted(sig.segments), sig.typeLength);
  }

  /** Setting or clearing one signal leaves the value of every signal disjoint from it unchanged. */
  lemma OtherSignalsUnchanged(bytes: seq<uint8>, sig: NumericSignal, other: NumericSignal, value: nat)
    requires Fits(sig, |bytes|) && Fits(other, |bytes|) && value < Pow2(sig.typeLength)
    requires SignalsDisjoint(sig.segments, other.segments)
    ensures RawValue(Packed(bytes, sig, value), other) == RawValue(bytes, other)
    ensures RawValue(Cleared(bytes, sig.segments), other) == RawValue(bytes, other)
  {
    var segs, osegs := sig.segments, other.segments;
    var p, c := Packed(bytes, sig, value), Cleared(bytes, segs);
    forall k | 0 <= k < |osegs|
      ensures AgreeOn(p[osegs[k].index], bytes[osegs[k].index], osegs[k].mask)
      ensures AgreeOn(c[osegs[k].index], bytes[osegs[k].index], osegs[k].mask)
    {
      var i := osegs[k].index;
      MaskAtAvoids(segs, i, osegs[k].mask);
      SlotAgrees(bytes, sig, value, i, osegs[k].mask);
    }
    RawValueAgree(p, bytes, other);
    RawValueAgree(c, bytes, other);
  }

  /** Bits of byte i outside every mask the signal has there survive both the clear and the setter. */
  lemma SlotAgrees(bytes: seq<uint8>, sig: NumericSignal, value: nat, i: nat, m: nat)
    requires Fits(sig, |bytes|) && value < Pow2(sig.typeLength) && i < |bytes|
    requires NoCommonBits(MaskAt(sig.segments, i), m)
    ensures AgreeOn(Packed(bytes, sig, value)[i], bytes[i], m)
    ensures AgreeOn(Cleared(bytes, sig.segments)[i], bytes[i], m)
  {
    PackedAt(bytes, sig, value, i);
    ClearedBits(bytes, sig.segments, i);
  }
}
