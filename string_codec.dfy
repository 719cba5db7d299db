/**
 * String signals: a signal whose unit is "string" or "str" (in any letter
 * case) is carried as characters, one per byte, in the byte-aligned span
 * start / 8 .. start / 8 + length / 8 of the frame. Its setter copies the
 * characters in (truncating), its getter copies them out up to the first
 * 0x00 or 0xFF byte.
 */
module StringCodec {
  import opened Bits
  import opened Optional
  import Codec
  import CodecProperties
  import EnumNames

  // ---------------------------------------------------------------------------
  // Classification and C++ types.
  // ---------------------------------------------------------------------------

  /** A missing or empty unit is not a string unit; otherwise the lowercased unit is "string" or "str". */
  predicate IsStringSignal(unit: Option<string>)
  {
    unit.Some? && unit.value != "" && (EnumNames.Lower(unit.value) == "string" || EnumNames.Lower(unit.value) == "str")
  }

  datatype CppType = StdString | Double | Named(name: string)

  /** The physical type of the generated Signal: std::string for string signals, double otherwise. */
  function PhysicalType(unit: Option<string>): (r: CppType)
    ensures r == StdString <==> IsStringSignal(unit)
    ensures r.StdString? || r.Double?
  {
    if IsStringSignal(unit) then StdString else Double
  }

  /** The raw type of the generated Signal: std::string for string signals, the signal's own type name otherwise. */
  function RawType(unit: Option<string>, typeName: string): (r: CppType)
    ensures r == StdString <==> IsStringSignal(unit)
    ensures !IsStringSignal(unit) ==> r == Named(typeName)
  {
    if IsStringSignal(unit) then StdString else Named(typeName)
  }

  /** Letter case does not matter to the classification. */
  lemma StringUnitShape(u: string)
    ensures IsStringSignal(Some(u)) == IsStringSignal(Some(EnumNames.Lower(u)))
  {
    assert EnumNames.Lower(EnumNames.Lower(u)) == EnumNames.Lower(u);
  }

  /** Some units as the generator sees them. */
  lemma StringUnitExamples()
    ensures IsStringSignal(Some("STRING")) && IsStringSignal(Some("Str")) && IsStringSignal(Some("sTrInG"))
    ensures !IsStringSignal(None) && !IsStringSignal(Some("")) && !IsStringSignal(Some("strings"))
    ensures !IsStringSignal(Some("km/h"))
  {
    assert EnumNames.Lower("STRING") == "string";
    assert EnumNames.Lower("Str") == "str";
    assert EnumNames.Lower("sTrInG") == "string";
    assert EnumNames.Lower("strings")[6] == 's';
    assert EnumNames.Lower("km/h")[0] == 'k';
  }

  /** Both generated types of a signal are std::string, or neither is. */
  lemma TypesAgree(unit: Option<string>, typeName: string)
    ensures PhysicalType(unit) == StdString <==> RawType(unit, typeName) == StdString
    ensures PhysicalType(unit) == Double <==> RawType(unit, typeName) == Named(typeName)
  {
  }

  // ---------------------------------------------------------------------------
  // The setter.
  // ---------------------------------------------------------------------------

  /** bytes with w written from position at on. */
  function Overwritten(bytes: seq<uint8>, at: nat, w: seq<uint8>): (r: seq<uint8>)
    requires at + |w| <= |bytes|
    ensures |r| == |bytes|
    ensures forall p :: 0 <= p < |r| ==> r[p] == if at <= p < at + |w| then w[p - at] else bytes[p]
  {
    bytes[..at] + w + bytes[at + |w|..]
  }

  /** The first n characters of value, or all of them when there are fewer. */
  function Truncated(value: seq<uint8>, n: nat): (r: seq<uint8>)
    ensures |r| <= n && |r| <= |value| && r == value[..|r|]
    ensures |r| == n || r == value
  {
    if |value| <= n then value else value[..n]
  }

  /** A cleared buffer after the copy loop of the string setter: the characters written from byte start / 8 on. */
  function StringWritten(cleared: seq<uint8>, start: nat, length: nat, value: seq<uint8>): seq<uint8>
    requires start / 8 + length / 8 <= |cleared|
  {
    Overwritten(cleared, start / 8, Truncated(value, length / 8))
  }

  /** The buffer after the string setter: the field cleared, then the characters copied in from byte start / 8. */
  function StringPacked(bytes: seq<uint8>, segs: seq<Codec.Segment>, start: nat, length: nat, value: seq<uint8>): seq<uint8>
    requires forall k :: 0 <= k < |segs| ==> segs[k].index < |bytes|
    requires start / 8 + length / 8 <= |bytes|
  {
    StringWritten(Codec.Cleared(bytes, segs), start, length, value)
  }

  /**
   * set_<signal>(value) for a string signal: clear the field, copy the
   * characters to buffer_[start / 8 ..] stopping at start / 8 + length / 8,
   * return true.
   */
  method SetString(buffer: array<uint8>, segs: seq<Codec.Segment>, start: nat, length: nat, value: seq<uint8>)
    returns (ok: bool)
    requires forall k :: 0 <= k < |segs| ==> segs[k].index < buffer.Length
    requires start / 8 + length / 8 <= buffer.Length
    modifies buffer
    ensures ok
    ensures buffer[..] == StringPacked(old(buffer[..]), segs, start, length, value)
  {
    Codec.ClearSignal(buffer, segs);
    CopyIn(buffer, start / 8, length / 8, value);
    return true;
  }

  /** The copy loop of the string setter: buffer_[s + i] = value[i] while i < |value| and i < n. */
  method CopyIn(buffer: array<uint8>, s: nat, n: nat, value: seq<uint8>)
    requires s + n <= buffer.Length
    modifies buffer
    ensures buffer[..] == Overwritten(old(buffer[..]), s, Truncated(value, n))
  {
    ghost var before := buffer[..];
    var index := s;
    var i := 0;
    while i < |value|
      invariant 0 <= i <= |value| && i <= n && index == s + i
      invariant buffer[..] == Overwritten(before, s, value[..i])
    {
      if index >= n + s {
        break;
      }
      buffer[index] := value[i];
      index := index + 1;
      i := i + 1;
    }
    assert buffer[..] == Overwritten(before, s, Truncated(value, n)) by {
      if i == |value| {
        assert value[..i] == value;
      } else {
        assert i == n;
      }
    }
  }

  /** The setter writes at most length / 8 characters and none outside the span; other bytes are as the clear left them. */
  lemma StringSetterStaysInSpan(bytes: seq<uint8>, segs: seq<Codec.Segment>, start: nat, length: nat, value: seq<uint8>, p: nat)
    requires forall k :: 0 <= k < |segs| ==> segs[k].index < |bytes|
    requires start / 8 + length / 8 <= |bytes| && p < |bytes|
    ensures p < start / 8 || p >= start / 8 + length / 8 ==>
      StringPacked(bytes, segs, start, length, value)[p] == Codec.Cleared(bytes, segs)[p]
    ensures start / 8 <= p < start / 8 + length / 8 && p - start / 8 < |value| ==>
      StringPacked(bytes, segs, start, length, value)[p] == value[p - start / 8]
  {
    WrittenStaysInSpan(Codec.Cleared(bytes, segs), start, length, value, p);
  }

  lemma WrittenStaysInSpan(cleared: seq<uint8>, start: nat, length: nat, value: seq<uint8>, p: nat)
    requires start / 8 + length / 8 <= |cleared| && p < |cleared|
    ensures p < start / 8 || p >= start / 8 + length / 8 ==> StringWritten(cleared, start, length, value)[p] == cleared[p]
    ensures start / 8 <= p < start / 8 + length / 8 && p - start / 8 < |value| ==>
      StringWritten(cleared, start, length, value)[p] == value[p - start / 8]
  {
  }

  // ---------------------------------------------------------------------------
  // The getter.
  // ---------------------------------------------------------------------------

  /** The getter stops at 0x00 and 0xFF. */
  predicate IsTerminator(c: uint8)
  {
    c == 0 || c == 0xFF
  }

  /** The characters of span before its first terminator. */
  function TakeString(span: seq<uint8>): (r: seq<uint8>)
    ensures |r| <= |span| && r == span[..|r|]
    ensures forall k :: 0 <= k < |r| ==> !IsTerminator(r[k])
    ensures |r| < |span| ==> IsTerminator(span[|r|])
  {
    if span == [] || IsTerminator(span[0]) then [] else [span[0]] + TakeString(span[1..])
  }

  /** TakeString is the only prefix without a terminator that ends the span or stops at one. */
  lemma {:induction false} TakeStringUnique(span: seq<uint8>, r: seq<uint8>)
    requires |r| <= |span| && r == span[..|r|]
    requires forall k :: 0 <= k < |r| ==> !IsTerminator(r[k])
    requires |r| < |span| ==> IsTerminator(span[|r|])
    ensures TakeString(span) == r
  {
    if r != [] {
      assert span[0] == r[0];
      TakeStringUnique(span[1..], r[1..]);
    }
  }

  /** std::string(buff): the characters of a NUL-terminated array before its first NUL. */
  function CString(buff: seq<uint8>): (r: seq<uint8>)
    requires exists k :: 0 <= k < |buff| && buff[k] == 0
    ensures |r| < |buff| && r == buff[..|r|] && buff[|r|] == 0
    ensures forall k :: 0 <= k < |r| ==> r[k] != 0
  {
    if buff[0] == 0 then []
    else
      var k :| 0 <= k < |buff| && buff[k] == 0;
      assert buff[1..][k - 1] == 0;
      [buff[0]] + CString(buff[1..])
  }

  /** CString stops exactly at the NUL that follows NUL-free characters. */
  lemma {:induction false} CStringOfTerminated(buff: seq<uint8>, n: nat)
    requires n < |buff| && buff[n] == 0
    requires forall k :: 0 <= k < n ==> buff[k] != 0
    ensures CString(buff) == buff[..n]
  {
    if n > 0 {
      assert buff[1..][n - 1] == 0;
      CStringOfTerminated(buff[1..], n - 1);
    }
  }

  /**
   * get_<signal>() for a string signal: copy buffer_[start / 8 + index] into a
   * local char array of length / 8 + 1 while index < length / 8 and the byte
   * is not 0x00 or 0xFF, NUL-terminate it and build the std::string.
   */
  method GetString(buffer: array<uint8>, start: nat, length: nat) returns (r: seq<uint8>)
    requires start / 8 + length / 8 <= buffer.Length
    ensures r == TakeString(buffer[start / 8 .. start / 8 + length / 8])
    ensures |r| <= length / 8
  {
    r := CopyOut(buffer, start / 8, length / 8);
  }

  /** The getter's loop over the n bytes from s, into a NUL-terminated buffer of n + 1 bytes. */
  method CopyOut(buffer: array<uint8>, s: nat, n: nat) returns (r: seq<uint8>)
    requires s + n <= buffer.Length
    ensures r == TakeString(buffer[s .. s + n])
  {
    ghost var span := buffer[s .. s + n];
    var buff := new uint8[n + 1];
    var index := 0;
    while index < n
      invariant 0 <= index <= n
      invariant buff[..index] == span[..index]
      invariant forall p :: 0 <= p < index ==> !IsTerminator(span[p])
    {
      var c := buffer[index + s];
      assert c == span[index];
      if c == 0xFF || c == 0 {
        break;
      }
      buff[index] := c;
      index := index + 1;
    }
    ghost var copied := buff[..index];
    buff[index] := 0;
    assert buff[..index] == copied;
    CopyIsTakeString(span, buff[..], index);
    r := CString(buff[..]);
  }

  /** The NUL-terminated copy the getter builds holds exactly TakeString of the span. */
  lemma CopyIsTakeString(span: seq<uint8>, buff: seq<uint8>, index: nat)
    requires index <= |span| && index < |buff| && buff[index] == 0
    requires buff[..index] == span[..index]
    requires forall p :: 0 <= p < index ==> !IsTerminator(span[p])
    requires index == |span| || IsTerminator(span[index])
    ensures CString(buff) == TakeString(span)
  {
    forall k | 0 <= k < index ensures buff[k] != 0 {
      assert buff[k] == buff[..index][k];
    }
    CStringOfTerminated(buff, index);
    TakeStringUnique(span, buff[..index]);
  }

  // ---------------------------------------------------------------------------
  // Round trip.
  // ---------------------------------------------------------------------------

  /** A segment with full mask zeroes its byte. */
  lemma FullMaskClears(bytes: seq<uint8>, segs: seq<Codec.Segment>, k: nat)
    requires forall k :: 0 <= k < |segs| ==> segs[k].index < |bytes|
    requires k < |segs| && segs[k].mask == 0xFF
    ensures Codec.Cleared(bytes, segs)[segs[k].index] == 0
  {
    var i := segs[k].index;
    var m := CodecProperties.MaskAt(segs, i);
    CodecProperties.ClearedAt(bytes, segs, i);
    CodecProperties.MaskAtCovers(segs, k);
    Pow2Values();
    OnesBits(8, 0xFF);
    ZeroHasNoBitsAtAll();
    BitsEqual(Codec.ClearByte(bytes[i], m), 0);
  }

  /**
   * The getter returns what the setter copied in: the first length / 8
   * characters of a value without terminator bytes, provided the clear zeroes
   * the span (as full-byte segments do).
   */
  lemma StringRoundTrip(bytes: seq<uint8>, segs: seq<Codec.Segment>, start: nat, length: nat, value: seq<uint8>)
    requires forall k :: 0 <= k < |segs| ==> segs[k].index < |bytes|
    requires start / 8 + length / 8 <= |bytes|
    requires forall p :: start / 8 <= p < start / 8 + length / 8 ==> Codec.Cleared(bytes, segs)[p] == 0
    requires forall k :: 0 <= k < |value| ==> !IsTerminator(value[k])
    ensures TakeString(StringPacked(bytes, segs, start, length, value)[start / 8 .. start / 8 + length / 8])
         == Truncated(value, length / 8)
  {
    WrittenReadsBack(Codec.Cleared(bytes, segs), start, length, value);
  }

  lemma WrittenReadsBack(cleared: seq<uint8>, start: nat, length: nat, value: seq<uint8>)
    requires start / 8 + length / 8 <= |cleared|
    requires forall p :: start / 8 <= p < start / 8 + length / 8 ==> cleared[p] == 0
    requires forall k :: 0 <= k < |value| ==> !IsTerminator(value[k])
    ensures TakeString(StringWritten(cleared, start, length, value)[start / 8 .. start / 8 + length / 8])
         == Truncated(value, length / 8)
  {
    var s, n := start / 8, length / 8;
    var span := StringWritten(cleared, start, length, value)[s .. s + n];
    var w := Truncated(value, n);
    assert span[..|w|] == w;
    TakeStringUnique(span, w);
  }
}
