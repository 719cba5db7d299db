/**
 * The raw range predicate RawInRange that the generator emits for every signal
 * (_generate_is_in_range in cpp_source.py).
 *
 * The generator turns the signal's declared physical bounds into raw bounds
 * with Decimal arithmetic, truncates them toward zero for integer types, and
 * emits a comparison only for a bound that is strictly tighter than the bound
 * of the raw type; with no comparison left the predicate is `true`.
 */
module RangeCheck {
  import opened Optional

  /**
   * What the generator reads from one signal. The field-width limits
   * (minimumValue, maximumValue) and the type limits (minimumTypeValue,
   * maximumTypeValue) come from the signal wrapper class of the C generator.
   */
  datatype RangeSignal = RangeSignal(
    isString: bool,
    isFloat: bool,
    scale: real,
    offset: real,
    minimum: Option<real>,
    maximum: Option<real>,
    minimumValue: Option<real>,
    maximumValue: Option<real>,
    minimumTypeValue: Option<real>,
    maximumTypeValue: Option<real>)

  /** The emitted check: value >= lo (when present) && value <= hi (when present). */
  datatype RawBounds = RawBounds(lo: Option<real>, hi: Option<real>)

  /**
   * The generator's own preconditions: Decimal division by a zero scale
   * raises, and so does comparing a field-width limit with a missing type
   * limit when no declared bound takes precedence.
   */
  predicate Computable(d: RangeSignal)
  {
    (!d.isString ==> d.scale != 0.0) &&
    (!d.isString && d.minimum.None? && d.minimumValue.Some? ==> d.minimumTypeValue.Some?) &&
    (!d.isString && d.maximum.None? && d.maximumValue.Some? ==> d.maximumTypeValue.Some?)
  }

  /** Python's int() on a Decimal: truncation toward zero. */
  function TruncateTowardZero(x: real): (r: int)
    ensures 0.0 <= x ==> r as real <= x < r as real + 1.0
    ensures x < 0.0 ==> r as real - 1.0 < x <= r as real
  {
    if x >= 0.0 then x.Floor else -((-x).Floor)
  }

  /** Truncating an integral value leaves it unchanged. */
  lemma TruncateIntegral(x: real)
    requires x == x.Floor as real
    ensures TruncateTowardZero(x) as real == x
  {
    if x < 0.0 {
      assert (-x).Floor == -x.Floor;
    }
  }

  /** Decimal(int(b)) for integer types, b unchanged for floating-point types. */
  function Truncated(d: RangeSignal, b: real): real
  {
    if d.isFloat then b else TruncateTowardZero(b) as real
  }

  /** The lower bound before it is compared with the type bound. */
  function CandidateLow(d: RangeSignal): Option<real>
    requires Computable(d) && !d.isString
  {
    if d.minimum.Some? then Some(d.minimum.value / d.scale - d.offset / d.scale)
    else if d.minimumValue.Some? && d.minimumValue.value > d.minimumTypeValue.value then Some(d.minimumValue.value)
    else None
  }

  /** The upper bound before it is compared with the type bound. */
  function CandidateHigh(d: RangeSignal): Option<real>
    requires Computable(d) && !d.isString
  {
    if d.maximum.Some? then Some(d.maximum.value / d.scale - d.offset / d.scale)
    else if d.maximumValue.Some? && d.maximumValue.value < d.maximumTypeValue.value then Some(d.maximumValue.value)
    else None
  }

  /** The bounds the generated RawInRange compares against. */
  function RawRange(d: RangeSignal): (b: RawBounds)
    requires Computable(d)
    ensures d.isString ==> b == RawBounds(None, None)
    ensures b.lo.Some? && d.minimumTypeValue.Some? ==> b.lo.value > d.minimumTypeValue.value
    ensures b.hi.Some? && d.maximumTypeValue.Some? ==> b.hi.value < d.maximumTypeValue.value
    ensures !d.isFloat && b.lo.Some? ==> b.lo.value == b.lo.value.Floor as real
    ensures !d.isFloat && b.hi.Some? ==> b.hi.value == b.hi.value.Floor as real
  {
    if d.isString then RawBounds(None, None)
    else
      var lo :=
        match CandidateLow(d)
        case None => None
        case Some(c) =>
          var m := Truncated(d, c);
          if d.minimumTypeValue.None? || m > d.minimumTypeValue.value then Some(m) else None;
      var hi :=
        match CandidateHigh(d)
        case None => None
        case Some(c) =>
          var m := Truncated(d, c);
          if d.maximumTypeValue.None? || m < d.maximumTypeValue.value then Some(m) else None;
      RawBounds(lo, hi)
  }

  /** The generated RawInRange(value), with each bound literal read as its exact value (the C++ type suffix is not applied). */
  predicate InRange(b: RawBounds, value: real)
  {
    (b.lo.None? || value >= b.lo.value) && (b.hi.None? || value <= b.hi.value)
  }

  /** A string signal accepts every value. */
  lemma StringSignalAlwaysInRange(d: RangeSignal, value: real)
    requires Computable(d) && d.isString
    ensures InRange(RawRange(d), value)
  {
  }

  /** With no comparison emitted the predicate is `true`. */
  lemma NoBoundAlwaysInRange(d: RangeSignal, value: real)
    requires Computable(d) && RawRange(d).lo.None? && RawRange(d).hi.None?
    ensures InRange(RawRange(d), value)
  {
  }

  /** The physical value of raw value v: v * scale + offset. */
  function Physical(d: RangeSignal, v: real): real
  {
    v * d.scale + d.offset
  }

  /**
   * A declared minimum becomes the raw value whose physical value is that
   * minimum; an emitted bound is that raw value for floating-point types and
   * that raw value truncated toward zero for integer types.
   */
  lemma DeclaredMinimum(d: RangeSignal)
    requires Computable(d) && !d.isString && d.minimum.Some?
    ensures CandidateLow(d).Some? && Physical(d, CandidateLow(d).value) == d.minimum.value
    ensures RawRange(d).lo.Some? && d.isFloat ==> RawRange(d).lo.value == CandidateLow(d).value
    ensures RawRange(d).lo.Some? && !d.isFloat ==>
      var c, lo := CandidateLow(d).value, RawRange(d).lo.value;
      (0.0 <= c ==> lo <= c < lo + 1.0) && (c < 0.0 ==> lo - 1.0 < c <= lo)
  {
    Unscale(d.minimum.value, d.scale, d.offset);
  }

  /** The same for a declared maximum. */
  lemma DeclaredMaximum(d: RangeSignal)
    requires Computable(d) && !d.isString && d.maximum.Some?
    ensures CandidateHigh(d).Some? && Physical(d, CandidateHigh(d).value) == d.maximum.value
    ensures RawRange(d).hi.Some? && d.isFloat ==> RawRange(d).hi.value == CandidateHigh(d).value
    ensures RawRange(d).hi.Some? && !d.isFloat ==>
      var c, hi := CandidateHigh(d).value, RawRange(d).hi.value;
      (0.0 <= c ==> hi <= c < hi + 1.0) && (c < 0.0 ==> hi - 1.0 < c <= hi)
  {
    Unscale(d.maximum.value, d.scale, d.offset);
  }

  /** b / s - o / s is the raw value whose physical value is b. */
  lemma Unscale(b: real, s: real, o: real)
    requires s != 0.0
    ensures (b / s - o / s) * s + o == b
  {
    assert (b / s) * s == b;
    assert (o / s) * s == o;
  }

  /** For a positive scale, comparing with a raw bound is comparing physical values; a negative scale turns the comparison around. */
  lemma ScaledBound(v: real, b: real, s: real, o: real)
    requires s != 0.0
    ensures s > 0.0 ==> (v >= b / s - o / s <==> v * s + o >= b) && (v <= b / s - o / s <==> v * s + o <= b)
    ensures s < 0.0 ==> (v >= b / s - o / s <==> v * s + o <= b) && (v <= b / s - o / s <==> v * s + o >= b)
  {
    var c := b / s - o / s;
    Unscale(b, s, o);
    assert v * s + o - b == (v - c) * s;
    if s > 0.0 {
      if v >= c { assert (v - c) * s >= 0.0; } else { assert (v - c) * s < 0.0; }
      if v <= c { assert (v - c) * s <= 0.0; } else { assert (v - c) * s > 0.0; }
    } else {
      if v >= c { assert (v - c) * s <= 0.0; } else { assert (v - c) * s > 0.0; }
      if v <= c { assert (v - c) * s >= 0.0; } else { assert (v - c) * s < 0.0; }
    }
  }

  /** An integral value at or above c is at or above c truncated toward zero; one at or below c is at or below it. */
  lemma TruncationKeepsIntegers(c: real, v: real)
    requires v == v.Floor as real
    ensures v >= c ==> v >= TruncateTowardZero(c) as real
    ensures v <= c ==> v <= TruncateTowardZero(c) as real
  {
    var w := v.Floor;
    if c < 0.0 {
      FloorOfIntegral(-w, -c);
      assert TruncateTowardZero(c) == -((-c).Floor);
    } else {
      FloorOfIntegral(w, c);
      assert TruncateTowardZero(c) == c.Floor;
    }
  }

  /** An integer w is at most x exactly when it is at most the floor of x. */
  lemma FloorOfIntegral(w: int, x: real)
    ensures w as real <= x <==> w <= x.Floor
  {
  }

  /**
   * For a positive scale, the emitted check accepts every raw value the type
   * can hold whose physical value lies within the declared bounds and which
   * lies within the field-width limits.
   */
  lemma PhysicalBoundsAccepted(d: RangeSignal, v: real)
    requires Computable(d) && !d.isString && d.scale > 0.0
    requires d.isFloat || v == v.Floor as real
    requires d.minimum.Some? ==> d.minimum.value <= Physical(d, v)
    requires d.maximum.Some? ==> Physical(d, v) <= d.maximum.value
    requires d.minimumValue.Some? ==> d.minimumValue.value <= v
    requires d.maximumValue.Some? ==> v <= d.maximumValue.value
    ensures InRange(RawRange(d), v)
  {
    LowerBoundAccepts(d, v);
    UpperBoundAccepts(d, v);
  }

  /** The lower half of PhysicalBoundsAccepted. */
  lemma LowerBoundAccepts(d: RangeSignal, v: real)
    requires Computable(d) && !d.isString && d.scale > 0.0
    requires d.isFloat || v == v.Floor as real
    requires d.minimum.Some? ==> d.minimum.value <= Physical(d, v)
    requires d.minimumValue.Some? ==> d.minimumValue.value <= v
    ensures RawRange(d).lo.None? || v >= RawRange(d).lo.value
  {
    match CandidateLow(d)
    case None =>
    case Some(c) =>
      assert v >= c by {
        if d.minimum.Some? {
          ScaledBound(v, d.minimum.value, d.scale, d.offset);
        }
      }
      if !d.isFloat {
        TruncationKeepsIntegers(c, v);
      }
  }

  /** The upper half of PhysicalBoundsAccepted. */
  lemma UpperBoundAccepts(d: RangeSignal, v: real)
    requires Computable(d) && !d.isString && d.scale > 0.0
    requires d.isFloat || v == v.Floor as real
    requires d.maximum.Some? ==> Physical(d, v) <= d.maximum.value
    requires d.maximumValue.Some? ==> v <= d.maximumValue.value
    ensures RawRange(d).hi.None? || v <= RawRange(d).hi.value
  {
    match CandidateHigh(d)
    case None =>
    case Some(c) =>
      assert v <= c by {
        if d.maximum.Some? {
          ScaledBound(v, d.maximum.value, d.scale, d.offset);
        }
      }
      if !d.isFloat {
        TruncationKeepsIntegers(c, v);
      }
  }

  /**
   * For a floating-point signal with a positive scale and both bounds
   * declared, the emitted check accepts a value the type can hold exactly
   * when its physical value lies within the declared bounds.
   */
  lemma FloatRangeExact(d: RangeSignal, v: real)
    requires Computable(d) && !d.isString && d.isFloat && d.scale > 0.0
    requires d.minimum.Some? && d.maximum.Some?
    requires d.minimumTypeValue.Some? ==> v >= d.minimumTypeValue.value
    requires d.maximumTypeValue.Some? ==> v <= d.maximumTypeValue.value
    ensures InRange(RawRange(d), v) <==> d.minimum.value <= Physical(d, v) <= d.maximum.value
  {
    DroppedBoundsAreRedundant(d, v);
    ScaledBound(v, d.minimum.value, d.scale, d.offset);
    ScaledBound(v, d.maximum.value, d.scale, d.offset);
  }

  /**
   * Without a declared minimum, an integral field-width minimum is the lower
   * bound exactly when it is above the type minimum.
   */
  lemma FieldWidthMinimum(d: RangeSignal)
    requires Computable(d) && !d.isString && d.minimum.None?
    requires d.minimumValue.Some? ==> d.minimumValue.value == d.minimumValue.value.Floor as real
    ensures RawRange(d).lo
         == (if d.minimumValue.Some? && d.minimumValue.value > d.minimumTypeValue.value then d.minimumValue else None)
  {
    if d.minimumValue.Some? {
      TruncateIntegral(d.minimumValue.value);
    }
  }

  /**
   * Without a declared maximum, an integral field-width maximum is the upper
   * bound exactly when it is below the type maximum.
   */
  lemma FieldWidthMaximum(d: RangeSignal)
    requires Computable(d) && !d.isString && d.maximum.None?
    requires d.maximumValue.Some? ==> d.maximumValue.value == d.maximumValue.value.Floor as real
    ensures RawRange(d).hi
         == (if d.maximumValue.Some? && d.maximumValue.value < d.maximumTypeValue.value then d.maximumValue else None)
  {
    if d.maximumValue.Some? {
      TruncateIntegral(d.maximumValue.value);
    }
  }

  /**
   * Dropping a bound that is not tighter than the type bound changes nothing
   * for the values the raw type can hold: on that domain the emitted check
   * accepts exactly the values within the truncated candidate bounds.
   */
  lemma DroppedBoundsAreRedundant(d: RangeSignal, value: real)
    requires Computable(d) && !d.isString
    requires d.minimumTypeValue.Some? ==> value >= d.minimumTypeValue.value
    requires d.maximumTypeValue.Some? ==> value <= d.maximumTypeValue.value
    ensures InRange(RawRange(d), value)
        <==> (CandidateLow(d).None? || value >= Truncated(d, CandidateLow(d).value)) &&
             (CandidateHigh(d).None? || value <= Truncated(d, CandidateHigh(d).value))
  {
  }

  // ---------------------------------------------------------------------------
  // Two behaviours of the bound computation, and the bounds evidently meant.
  // ---------------------------------------------------------------------------

  /**
   * A negative scale: the declared bounds are divided by the scale without
   * being swapped, so with scale -1 and physical bounds 0 .. 10 on an int8_t
   * the generated condition is value >= 0 && value <= -10, which no value passes, although
   * raw -5 has physical value 5.
   */
  lemma NegativeScaleRejectsAll(d: RangeSignal, v: real)
    requires d == RangeSignal(false, false, -1.0, 0.0, Some(0.0), Some(10.0), None, None, Some(-128.0), Some(127.0))
    ensures RawRange(d) == RawBounds(Some(0.0), Some(-10.0))
    ensures !InRange(RawRange(d), v)
    ensures d.minimum.value <= Physical(d, -5.0) <= d.maximum.value
  {
    assert CandidateLow(d) == Some(0.0);
    assert CandidateHigh(d) == Some(-10.0);
    TruncateIntegral(0.0);
    TruncateIntegral(-10.0);
  }

  /**
   * Truncation toward zero of a fractional minimum: a declared minimum of
   * 2.5 on a uint8_t with scale 1 gives value >= 2, which accepts raw 2,
   * whose physical value 2 is below the minimum.
   */
  lemma TruncatedMinimumAdmitsBelow(d: RangeSignal)
    requires d == RangeSignal(false, false, 1.0, 0.0, Some(2.5), None, None, None, Some(0.0), Some(255.0))
    ensures RawRange(d) == RawBounds(Some(2.0), None)
    ensures InRange(RawRange(d), 2.0) && Physical(d, 2.0) < d.minimum.value
  {
    assert CandidateLow(d) == Some(2.5);
    assert TruncateTowardZero(2.5) == 2;
  }

  /** The declared bound that limits the raw value from below: the minimum for a positive scale, the maximum for a negative one. */
  function LowSource(d: RangeSignal): Option<real>
  {
    if d.scale > 0.0 then d.minimum else d.maximum
  }

  /** The declared bound that limits the raw value from above. */
  function HighSource(d: RangeSignal): Option<real>
  {
    if d.scale > 0.0 then d.maximum else d.minimum
  }

  /** The smallest integer at or above x. */
  function Ceiling(x: real): int
  {
    -((-x).Floor)
  }

  /** The intended raw lower bound before the type comparison: the declared bound meant for it, or the field-width minimum. */
  function IntendedCandidateLow(d: RangeSignal): Option<real>
    requires Computable(d) && !d.isString
  {
    if LowSource(d).Some? then Some(LowSource(d).value / d.scale - d.offset / d.scale)
    else if d.minimumValue.Some? && (d.minimumTypeValue.None? || d.minimumValue.value > d.minimumTypeValue.value)
    then d.minimumValue
    else None
  }

  /** The intended raw upper bound before the type comparison. */
  function IntendedCandidateHigh(d: RangeSignal): Option<real>
    requires Computable(d) && !d.isString
  {
    if HighSource(d).Some? then Some(HighSource(d).value / d.scale - d.offset / d.scale)
    else if d.maximumValue.Some? && (d.maximumTypeValue.None? || d.maximumValue.value < d.maximumTypeValue.value)
    then d.maximumValue
    else None
  }

  /**
   * The bounds evidently meant: the declared bounds swapped for a negative
   * scale, the lower bound rounded up and the upper bound rounded down for
   * integer types, each kept only when tighter than the type bound.
   */
  function IntendedRawRange(d: RangeSignal): (b: RawBounds)
    requires Computable(d)
    ensures d.isString ==> b == RawBounds(None, None)
    ensures b.lo.Some? && d.minimumTypeValue.Some? ==> b.lo.value > d.minimumTypeValue.value
    ensures b.hi.Some? && d.maximumTypeValue.Some? ==> b.hi.value < d.maximumTypeValue.value
  {
    if d.isString then RawBounds(None, None)
    else
      var lo :=
        match IntendedCandidateLow(d)
        case None => None
        case Some(c) =>
          var m := if d.isFloat then c else Ceiling(c) as real;
          if d.minimumTypeValue.None? || m > d.minimumTypeValue.value then Some(m) else None;
      var hi :=
        match IntendedCandidateHigh(d)
        case None => None
        case Some(c) =>
          var m := if d.isFloat then c else c.Floor as real;
          if d.maximumTypeValue.None? || m < d.maximumTypeValue.value then Some(m) else None;
      RawBounds(lo, hi)
  }

  /** An integer is at or above x exactly when it is at or above the ceiling of x. */
  lemma CeilingOfIntegral(w: int, x: real)
    ensures x <= w as real <==> Ceiling(x) <= w
  {
    FloorOfIntegral(-w, -x);
  }

  /**
   * With both bounds declared, for either sign of the scale, the intended
   * check accepts a value the type can hold (an integer for an integer type)
   * exactly when its physical value lies within the declared bounds.
   */
  lemma IntendedRangeExact(d: RangeSignal, v: real)
    requires Computable(d) && !d.isString && d.minimum.Some? && d.maximum.Some?
    requires d.isFloat || v == v.Floor as real
    requires d.minimumTypeValue.Some? ==> v >= d.minimumTypeValue.value
    requires d.maximumTypeValue.Some? ==> v <= d.maximumTypeValue.value
    ensures InRange(IntendedRawRange(d), v) <==> d.minimum.value <= Physical(d, v) <= d.maximum.value
  {
    IntendedLowerMeaning(d, v);
    IntendedUpperMeaning(d, v);
  }

  /** The intended lower check states the declared bound that limits the raw value from below. */
  lemma IntendedLowerMeaning(d: RangeSignal, v: real)
    requires Computable(d) && !d.isString && d.minimum.Some? && d.maximum.Some?
    requires d.isFloat || v == v.Floor as real
    requires d.minimumTypeValue.Some? ==> v >= d.minimumTypeValue.value
    ensures (IntendedRawRange(d).lo.None? || v >= IntendedRawRange(d).lo.value) <==>
            if d.scale > 0.0 then d.minimum.value <= Physical(d, v) else Physical(d, v) <= d.maximum.value
  {
    IntendedLowerBound(d, v);
    ScaledBound(v, LowSource(d).value, d.scale, d.offset);
  }

  /** The intended upper check states the declared bound that limits the raw value from above. */
  lemma IntendedUpperMeaning(d: RangeSignal, v: real)
    requires Computable(d) && !d.isString && d.minimum.Some? && d.maximum.Some?
    requires d.isFloat || v == v.Floor as real
    requires d.maximumTypeValue.Some? ==> v <= d.maximumTypeValue.value
    ensures (IntendedRawRange(d).hi.None? || v <= IntendedRawRange(d).hi.value) <==>
            if d.scale > 0.0 then Physical(d, v) <= d.maximum.value else d.minimum.value <= Physical(d, v)
  {
    IntendedUpperBound(d, v);
    ScaledBound(v, HighSource(d).value, d.scale, d.offset);
  }

  /** The intended lower check passes exactly when v is at or above the exact raw bound. */
  lemma IntendedLowerBound(d: RangeSignal, v: real)
    requires Computable(d) && !d.isString && LowSource(d).Some?
    requires d.isFloat || v == v.Floor as real
    requires d.minimumTypeValue.Some? ==> v >= d.minimumTypeValue.value
    ensures IntendedCandidateLow(d) == Some(LowSource(d).value / d.scale - d.offset / d.scale)
    ensures (IntendedRawRange(d).lo.None? || v >= IntendedRawRange(d).lo.value) <==> v >= IntendedCandidateLow(d).value
  {
    if !d.isFloat {
      CeilingOfIntegral(v.Floor, IntendedCandidateLow(d).value);
    }
  }

  /** The intended upper check passes exactly when v is at or below the exact raw bound. */
  lemma IntendedUpperBound(d: RangeSignal, v: real)
    requires Computable(d) && !d.isString && HighSource(d).Some?
    requires d.isFloat || v == v.Floor as real
    requires d.maximumTypeValue.Some? ==> v <= d.maximumTypeValue.value
    ensures IntendedCandidateHigh(d) == Some(HighSource(d).value / d.scale - d.offset / d.scale)
    ensures (IntendedRawRange(d).hi.None? || v <= IntendedRawRange(d).hi.value) <==> v <= IntendedCandidateHigh(d).value
  {
    if !d.isFloat {
      FloorOfIntegral(v.Floor, IntendedCandidateHigh(d).value);
    }
  }
}
