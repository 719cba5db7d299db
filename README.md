# cantools C++ generator codec in Dafny

cantools turns a CAN database into C++ message classes. This project models
what the generated code does, and proves properties of that model. It does
not model the C++ text the generator prints.

- **Numeric signals.** The setter first runs the `RawInRange` guard, then
  `clear_<signal>()`, then ORs `pack_<dir>_shift(encoded, shift, mask)` into
  every byte the signal touches. The getter `Raw()` OR-accumulates
  `unpack_<dir>_shift(buffer_[i], shift, mask)` and applies the optional sign
  extension.
- **String signals.** They are copied in with truncation and read out up to
  the first `0x00` or `0xFF` byte.
- **`RawInRange`.** The raw range predicate the generator derives from a
  signal's bounds.
- **J1939.** The priority and PGN fields of a J1939 identifier, as laid out in
  section 5.2 of SAE J1939-21, plus the runtime `Frame::pgn_`.
- **Enum constants.** How their names are formed and the order they are
  emitted in.
- **Runtime `Frame` classes.** The ones in the two runtime headers.

Values are natural numbers below 2^w, and the bitwise operators are defined
bit by bit (module `Bits`). The segment list a signal is split into (byte,
shift, direction, mask) is an input. It comes from code that is not part of
this model.

The modules are:

- `Bits`: the operators and their arithmetic meaning.
- `DbcShift` and `FrameShift`: the `uint16_t` shift helpers of `DBC.h` and the
  `uint8_t` ones of `Frame.h`.
- `Codec`: the numeric setter, clear and getter, as methods over an `array`,
  each proved against a function of the buffer contents.
- `CodecProperties`: a bit-exact description of a byte after the setter runs,
  the round trips, and non-interference.
- `StringCodec`, `RangeCheck`, `J1939` and `EnumNames`.
- `DbcFrame`: a class holding a byte array.

The runtime `pgn_` is `(id >> 8) & 0x3FFFF`. It is not the generator's
`_compute_pgn`. The PGNs agree for PDU2 frames (PF ≥ 240). For PDU1 frames
`pgn_` keeps the PDU-specific byte that `_compute_pgn` zeroes (see
`J1939.FramePgnMeaning`).

The docstring of `_format_enum_name` gives `"kImAC0nst"` as an example. The
code itself yields `"kIMAC0nst"`, because the apostrophe splits `"I"` from
`"m"`. This model follows the code (`EnumNames.Example`).

## Model

| member | source | states |
|---|---|---|
| DbcShift.PackLeftShiftWithinMask | cantools/database/can/templates/DBC.h:18-22 | pack_left_shift is ((value << shift) mod 2^16) & mask, has no bit outside mask, and fits a byte when mask < 0x100 |
| DbcShift.PackRightShiftWithinMask | cantools/database/can/templates/DBC.h:24-28 | pack_right_shift is ((value >> shift) mod 2^16) & mask, has no bit outside mask, and fits a byte when mask < 0x100 |
| DbcShift.UnpackRightShiftBound | cantools/database/can/templates/DBC.h:36-40 | unpack_right_shift is ((value & mask) mod 2^T) / 2^shift, so it never exceeds mask >> shift |
| DbcShift.UnpackLeftShiftLowBitsZero | cantools/database/can/templates/DBC.h:30-34 | unpack_left_shift is ((value & mask) * 2^shift) mod 2^T, so its low shift bits are zero |
| DbcShift.MirrorLeftPack | cantools/database/can/templates/DBC.h:18-40 | unpack_right_shift of pack_left_shift with the same shift and byte mask gives back value & (mask >> shift) |
| DbcShift.MirrorRightPack | cantools/database/can/templates/DBC.h:18-40 | unpack_left_shift of pack_right_shift with the same shift and byte mask gives back value & (mask << shift), taken modulo 2^T |
| FrameShift.AgreesWithDbc | cantools/database/can/templates/Frame.h:6-28 | each uint8_t helper of Frame.h yields the same value as the uint16_t helper of DBC.h for a byte mask |
| FrameShift.PackWithinMask | cantools/database/can/templates/Frame.h:6-16 | both uint8_t pack helpers fit a byte and set no bit outside the mask |
| FrameShift.UnpackBounds | cantools/database/can/templates/Frame.h:18-28 | unpack_right_shift is at most mask >> shift; unpack_left_shift has its low shift bits zero |
| FrameShift.FrameKeepsArguments | cantools/database/can/templates/Frame.h:30-45 | a Frame's getters return its constructor arguments, and standard() is the negation of extended() |
| FrameShift.Mirror | cantools/database/can/templates/Frame.h:6-28 | an unpack after a pack in the opposite direction, with the same shift and mask, recovers the value bits under the mask |
| Codec.SignExtended | cantools/database/can/cpp_source.py:215-220 | no change when L = T; for an L-bit x, adds 2^T - 2^L exactly when x >= 2^(L-1) |
| Codec.SignExtensionMaskBits | cantools/database/can/cpp_source.py:493-497 | the mask ((1 << (T-L)) - 1) << L has exactly bits L..T-1 set, equals 2^T - 2^L, and is zero (no extension emitted) exactly when L = T |
| Codec.SignExtensionMeaning | cantools/database/can/cpp_source.py:493-503 | the test of bit L-1 holds exactly for x >= 2^(L-1), and ORing in the mask then adds 2^T - 2^L |
| Codec.TopBitMeansUpperHalf | cantools/database/can/cpp_source.py:216 | for x below 2^L, `x & (1 << (L-1))` is non-zero exactly when x >= 2^(L-1) |
| Codec.SignedReading | cantools/database/can/cpp_source.py:493-507 | the signed getter reads an L-bit field as two's complement: raw - 2^L when bit L-1 is set, raw otherwise |
| Codec.Encoding | cantools/database/can/cpp_source.py:341-344 | the uintT_t encoding of a raw value is below 2^T, is the value itself when it is non-negative, and reads back as the value under static_cast<intT_t> for every value in range |
| Codec.ClearSignal | cantools/database/can/cpp_source.py:363-370 | clear_<signal>() leaves the buffer equal to the clear lines applied in order to the old contents |
| Codec.OrSegments | cantools/database/can/cpp_source.py:350-358 | the OR lines leave the buffer equal to the old contents with each segment's packed piece ORed into its byte, in order |
| Codec.SetSignal | cantools/database/can/cpp_source.py:336-360 | returns exactly RawInRange of the encoding (read as intT_t when the signal is signed); on false the buffer is unchanged; on true it holds the clear followed by the OR lines |
| Codec.Collect | cantools/database/can/cpp_source.py:480-491 | the getter's accumulator, started at zero, ends as the OR of the unpack lines over the buffer |
| Codec.ExtendSign | cantools/database/can/cpp_source.py:493-502 | the emitted sign extension turns the accumulator into SignExtended of it: unchanged when L = T, otherwise bits L..T-1 set exactly when bit L-1 is |
| Codec.Raw | cantools/database/can/cpp_source.py:470-511 | Raw() returns the OR of the unpack lines over a zeroed accumulator, sign-extended and read as intT_t when the signal is signed |
| CodecProperties.ClearedAt | cantools/database/can/cpp_source.py:363-370 | byte i after the clear is byte i with every mask that names i cleared |
| CodecProperties.ClearedBits | cantools/database/can/cpp_source.py:363-370 | after the clear, a bit of byte i is zero if a mask naming i has it, and is the old bit otherwise |
| CodecProperties.OredInAt | cantools/database/can/cpp_source.py:348-358 | byte i after the OR lines is byte i ORed with every piece packed into i |
| CodecProperties.PackShiftWithinMask | cantools/database/can/cpp_source.py:350-357 | each packed piece fits a byte and has no bit outside its segment's mask |
| CodecProperties.PackedAt | cantools/database/can/cpp_source.py:347-358 | after the setter, byte i holds the packed piece on the bits of its masks and the old bits everywhere else |
| CodecProperties.PackUnpackRoundTrip | cantools/database/can/cpp_source.py:350-358 | for a well-formed layout covering L bits, what the getter collects after the setter is the low L bits of the encoded value, that is, the value mod 2^L |
| CodecProperties.UnsignedRoundTrip | cantools/database/can/cpp_source.py:483-491 | an unsigned raw value below 2^L reads back unchanged after it is set |
| CodecProperties.SignedRoundTrip | cantools/database/can/cpp_source.py:493-507 | a signed raw value in -2^(L-1) .. 2^(L-1)-1, encoded to uintT_t and set, reads back unchanged |
| CodecProperties.SignedReadingExample | cantools/database/can/cpp_source.py:215-220 | a 4-bit field in an 8-bit type reads 8 as -8 and 7 as 7 |
| CodecProperties.ClearIdempotent | cantools/database/can/cpp_source.py:363-370 | clearing twice is clearing once |
| CodecProperties.LastSetWins | cantools/database/can/cpp_source.py:347-358 | setting v1, then v2, leaves the buffer as setting v2 alone |
| CodecProperties.SetIdempotent | cantools/database/can/cpp_source.py:347-358 | setting the same value twice is setting it once |
| CodecProperties.UntouchedBytes | cantools/database/can/cpp_source.py:348-370 | a byte that no segment names is unchanged by the clear and by the setter |
| CodecProperties.RawValueAgree | cantools/database/can/cpp_source.py:483-507 | two buffers that agree on a signal's mask bits give it the same Raw() |
| CodecProperties.OtherSignalsUnchanged | cantools/database/can/cpp_source.py:347-370 | setting or clearing one signal leaves the Raw() of every signal with disjoint bits unchanged |
| StringCodec.PhysicalType | cantools/database/can/cpp_source.py:243-246 | the physical type is std::string exactly for a string signal, and double otherwise |
| StringCodec.RawType | cantools/database/can/cpp_source.py:248-251 | the raw type is std::string exactly for a string signal, and the signal's own type name otherwise |
| StringCodec.StringUnitShape | cantools/database/can/cpp_source.py:240-241 | the classification ignores letter case |
| StringCodec.StringUnitExamples | cantools/database/can/cpp_source.py:240-241 | "STRING", "Str" and "sTrInG" are string units; no unit, "", "strings" and "km/h" are not |
| StringCodec.TypesAgree | cantools/database/can/cpp_source.py:243-251 | the physical type and the raw type are std::string together, or double and the type name together |
| StringCodec.SetString | cantools/database/can/cpp_source.py:319-333 | the string setter always returns true and leaves the cleared buffer with the value, cut to length//8 bytes, written from byte start//8 |
| StringCodec.CopyIn | cantools/database/can/cpp_source.py:324-330 | the copy loop writes the value, cut to n bytes, from byte s on and leaves every other byte as it was |
| StringCodec.StringSetterStaysInSpan | cantools/database/can/cpp_source.py:319-333 | outside bytes start//8 .. start//8 + length//8 the setter only clears; inside, it writes the value's bytes in order |
| StringCodec.TakeString | cantools/database/can/cpp_source.py:456-463 | the text read out is a prefix of the span with no 0x00 or 0xFF in it, cut at the first such byte |
| StringCodec.TakeStringUnique | cantools/database/can/cpp_source.py:456-463 | any prefix with those three properties is the text read out |
| StringCodec.CString | cantools/database/can/cpp_source.py:466 | std::string(buff) is the bytes before the first 0 |
| StringCodec.GetString | cantools/database/can/cpp_source.py:452-467 | the string getter returns the span's bytes up to the first 0x00 or 0xFF, at most length//8 of them |
| StringCodec.CopyOut | cantools/database/can/cpp_source.py:455-465 | the read loop over n bytes from s collects exactly the bytes before the first 0x00 or 0xFF, and std::string of the NUL-terminated copy is that text |
| StringCodec.FullMaskClears | cantools/database/can/cpp_source.py:363-370 | a segment with mask 0xFF leaves its byte zero after the clear |
| StringCodec.StringRoundTrip | cantools/database/can/cpp_source.py:319-333 | when the clear zeroes the span, a value with no terminator bytes reads back as the value cut to length//8 bytes |
| RangeCheck.TruncateTowardZero | cantools/database/can/cpp_source.py:616 | Python int() on a real: the integer toward zero, within 1 of x |
| RangeCheck.RawRange | cantools/database/can/cpp_source.py:580-643 | no bound for a string signal; an emitted bound is strictly tighter than the type bound, and integral for a non-float type |
| RangeCheck.StringSignalAlwaysInRange | cantools/database/can/cpp_source.py:588-590 | a string signal's check is `true` |
| RangeCheck.NoBoundAlwaysInRange | cantools/database/can/cpp_source.py:634-635 | with no bound emitted, every value is in range |
| RangeCheck.DeclaredMinimum | cantools/database/can/cpp_source.py:592-622 | the raw candidate for a declared minimum is the raw value whose physical value (raw * scale + offset) is that minimum; an emitted bound equals it for a float type and lies within 1 of it, toward zero, for an integer type |
| RangeCheck.DeclaredMaximum | cantools/database/can/cpp_source.py:592-632 | the same for a declared maximum |
| RangeCheck.PhysicalBoundsAccepted | cantools/database/can/cpp_source.py:592-632 | with a positive scale, a raw value whose physical value lies within the declared bounds and which lies within the field-width limits passes the emitted check |
| RangeCheck.FloatRangeExact | cantools/database/can/cpp_source.py:592-632 | for a float signal with a positive scale and both bounds declared, a value within the type limits passes exactly when its physical value lies within the declared bounds |
| RangeCheck.NegativeScaleRejectsAll | cantools/database/can/cpp_source.py:597-601 | with scale -1 and bounds [0, 10] on an int8 signal the emitted bounds are raw >= 0 and raw <= -10, so no value passes, although raw -5 has physical value 5 |
| RangeCheck.TruncatedMinimumAdmitsBelow | cantools/database/can/cpp_source.py:614-622 | a minimum of 2.5 on a uint8 signal with scale 1 is emitted as raw >= 2, which admits raw 2 with physical value below the minimum |
| RangeCheck.IntendedRawRange | cantools/database/can/cpp_source.py:592-632 | the intended bounds: none for a string signal, and a kept bound is strictly tighter than the type bound |
| RangeCheck.IntendedRangeExact | cantools/database/can/cpp_source.py:592-632 | for either sign of the scale, with both bounds declared, a value within the type limits (integral for an integer type) passes the intended check exactly when its physical value lies within the declared bounds |
| RangeCheck.FieldWidthMinimum | cantools/database/can/cpp_source.py:603-622 | with no declared minimum, an integral field-width minimum is the bound exactly when it exceeds the type minimum |
| RangeCheck.FieldWidthMaximum | cantools/database/can/cpp_source.py:607-632 | with no declared maximum, an integral field-width maximum is the bound exactly when it is below the type maximum |
| RangeCheck.DroppedBoundsAreRedundant | cantools/database/can/cpp_source.py:614-632 | on values within the type bounds, the emitted check accepts exactly the values within the truncated candidate bounds, so a dropped bound excludes nothing |
| J1939.PriorityRange | cantools/database/can/cpp_source.py:686-689 | the priority is bits 26-28 of the identifier, so it is below 8 |
| J1939.PduFields | cantools/database/can/cpp_source.py:710-713 | reserved, data page, PDU specific and PDU format are bits 25, 24, 8-15 and 16-23 of the identifier |
| J1939.PgnBits | cantools/database/can/cpp_source.py:692-723 | the PGN is R<<17, DP<<16, PF<<8 and GE combined, where GE is PS for PF >= 240 and 0 otherwise; it is below 2^18, and its low byte is 0 for PDU1 |
| J1939.PgnOfPdu2 | cantools/database/can/cpp_source.py:714-722 | for PF >= 240 the PGN is bits 8-25 of the identifier |
| J1939.HexDigits | cantools/database/can/cpp_source.py:723 | Python hex() digits: lowercase, at least one, a leading zero only for zero |
| J1939.HexRoundTrip | cantools/database/can/cpp_source.py:723 | the hexadecimal digits read back as the number |
| J1939.PgnText | cantools/database/can/cpp_source.py:723 | the PGN text is "0x" followed by digits that read back as the PGN |
| J1939.Example | cantools/database/can/cpp_source.py:686-723 | 0x18FEF100 has priority 6 and PGN text "0xfef1" |
| J1939.FramePgnMeaning | cantools/database/can/templates/DBC.h:61 | pgn_ is bits 8-25 of the identifier for an extended frame and 0x40000 otherwise; it equals the generator's PGN for PF >= 240 and keeps the PS byte for PF < 240 |
| EnumNames.Split | cantools/database/can/cpp_source.py:651 | re.split on non-alphanumerics yields at least one token, and every token is alphanumeric |
| EnumNames.MatchesCharWise | cantools/database/can/cpp_source.py:646-652 | capitalising every token and joining them is the one-pass rule: drop separators, upper-case the first character of a run, lower-case the rest |
| EnumNames.NameShape | cantools/database/can/cpp_source.py:646-652 | an enum name is "k" followed by alphanumerics only, and is at most one character longer than the choice name |
| EnumNames.Example | cantools/database/can/cpp_source.py:648-651 | "I'm_a C0nst" becomes "kIMAC0nst" |
| EnumNames.SortByValue | cantools/database/can/cpp_source.py:660 | sorting the unique choices gives a permutation of them in strictly ascending raw value |
| EnumNames.ChoiceConstants | cantools/database/can/cpp_source.py:655-664 | one constant per unique choice, in strictly ascending value, typed int for a signed and uint for an unsigned signal; none without choices |
| EnumNames.ChoiceConstantsSound | cantools/database/can/cpp_source.py:660-662 | every emitted (value, name) is a unique choice under its formatted name |
| EnumNames.ChoiceConstantsComplete | cantools/database/can/cpp_source.py:660-662 | every unique choice is emitted as (value, formatted name) |
| DbcFrame.Frame.constructor | cantools/database/can/templates/DBC.h:54-64 | keeps the arguments, sets pgn_ from the identifier and extended flag, and allocates a zeroed buffer of the capacity that counts as data |
| DbcFrame.Frame.WithBuffer | cantools/database/can/templates/DBC.h:80-90 | keeps the arguments and the caller's buffer, with pgn_ set and the given data length |
| DbcFrame.Frame.Clear | cantools/database/can/templates/DBC.h:118 | zeroes the first buffer_capacity_ bytes and keeps every other byte of the buffer |
| DbcFrame.Frame.HexString | cantools/database/can/templates/DBC.h:93-100 | returns the hexadecimal text of the data bytes |
| DbcFrame.Frame.BinaryString | cantools/database/can/templates/DBC.h:102-112 | returns the binary text of the data bytes |
| DbcFrame.FramePgnMeaning | cantools/database/can/templates/DBC.h:61 | a frame's PGN is bits 8-25 of its identifier when extended and J1939_INVALID_PGN when standard; standard is not extended |
| DbcFrame.ZeroedMeaning | cantools/database/can/templates/DBC.h:118 | the clear zeroes exactly the first n bytes, keeps the rest, and clearing twice is clearing once |
| DbcFrame.HexOf | cantools/database/can/templates/DBC.h:93-100 | the hexadecimal text has two lowercase hex digits per byte |
| DbcFrame.HexOfLayout | cantools/database/can/templates/DBC.h:96-98 | characters 2i and 2i+1 are the two digits of byte i |
| DbcFrame.ByteHexReadsBack | cantools/database/can/templates/DBC.h:97 | the two zero-padded digits of a byte read back as the byte |
| DbcFrame.HexReadsBack | cantools/database/can/templates/DBC.h:93-100 | every two-character group of the hexadecimal text reads back as its byte |
| DbcFrame.HexOfZeros | cantools/database/can/templates/DBC.h:93-118 | a zeroed buffer prints as '0' characters only |
| DbcFrame.BinaryOf | cantools/database/can/templates/DBC.h:102-112 | the binary text has length 9n-1 for n > 0 bytes and is empty for none |
| DbcFrame.BinaryLayout | cantools/database/can/templates/DBC.h:104-110 | characters 9i..9i+7 are the bits of byte i, and a space follows every byte but the last |
| DbcFrame.ByteBitsReadBack | cantools/database/can/templates/DBC.h:105-106 | the eight characters std::bitset<8> prints, most significant first, read back as the byte |
| DbcFrame.BinaryReadsBack | cantools/database/can/templates/DBC.h:102-112 | every eight-character group of the binary text reads back as its byte |

## Findings

| source | as written | input that shows it | evidently intended | confidence | as-written member | corrected member |
|---|---|---|---|---|---|---|
| cantools/database/can/cpp_source.py:597-601 | both declared bounds are divided by the scale without swapping them, so with a negative scale the minimum's image is above the maximum's | scale -1, offset 0, minimum 0, maximum 10, int8: the generated condition is `value >= 0 && value <= -10`, which rejects raw -5 (physical 5) and every other value. On an unsigned type the printed `-10u` wraps and the condition accepts every value instead (see `RangeCheck.InRange` under Left out) | with a negative scale, the maximum limits the raw value from below and the minimum from above | high, not executed | RangeCheck.NegativeScaleRejectsAll | RangeCheck.IntendedRangeExact |
| cantools/database/can/cpp_source.py:614-630 | `int()` truncates a fractional raw bound toward zero, which loosens a positive minimum and a negative maximum | scale 1, offset 0, minimum 2.5, uint8: the generated condition is `value >= 2`, which accepts raw 2 (physical 2, below 2.5) | round the lower bound up and the upper bound down, so that an integer raw value passes exactly when its physical value is within the bounds. This is exact only for the raw value given to `RawInRange`. `Signal::InRange` (DBC.h:211-214) passes `Encode(value)`, which truncates (DBC.h:222-223). With the rounded-up `value >= 3`, physical 2.7 encodes to raw 2 and is rejected, where the code's `value >= 2` accepts it. The corrected member is therefore not a fix for the physical-value path | medium, not executed | RangeCheck.TruncatedMinimumAdmitsBelow | RangeCheck.IntendedRangeExact |

## Left out

- Text emission is not modelled: the header and source templates, declarations, definitions, the ostream operators, constructor parameters and the `time.ctime()` date. They are formatting, not behaviour.
- The command-line front end is not modelled. It parses arguments and writes files.
- Multiplexed signals are not modelled. The mux pack and unpack formatters call the signal formatters with the wrong number of arguments and cannot run; a mux entry gives only a warning and an empty body.
- `Signal::Encode`, `Decode`, `Real` and `InRange` are not modelled. They use `double` arithmetic. The string `Encode` copies a fixed 8 bytes from `c_str()`, which is foreign memory behaviour. The setter receives the encoded value as an input.
- `segments()`, the type length, and the field-width and type limits come from the C generator's signal wrapper, which is not part of this model. They are inputs. The literal suffix `signal.type_suffix` comes from the same wrapper. It is not an input: the model drops it (see `RangeCheck.InRange` below). The layout is assumed well formed where a property needs it.
- `Computable` excludes the inputs on which the Python generator raises: Decimal division by a zero scale, and comparing a field-width limit with a missing type limit.
- `RangeCheck.RawRange`: Decimal arithmetic is modelled as exact reals.
- `RangeCheck.PhysicalBoundsAccepted` and `RangeCheck.FloatRangeExact` are stated for a positive scale only. With a negative scale the emitted check is wrong (see Findings).
- `Codec.SetSignal`, `Codec.Raw` and `Codec.RangeArgument` model integer raw types only (a signal's type_name, cpp_source.py:251, with RawDataType at DBC.h:202-205). For a float or double signal the model does not capture what the generated code does. `return x;` (cpp_source.py:508) converts the unsigned accumulator to the float type by value, not by its bit pattern. `Encode` into `uintT_t` (cpp_source.py:341) truncates a floating-point result. `RawInRange(const float&)` (cpp_source.py:347) receives the unsigned encoding's value, whereas `RangeArgument` reads a signed encoding as `intT_t`.
- `_format_decimal` is not modelled. The model keeps the bound's value, not its printed form.
- `RangeCheck.InRange` compares the raw value with each bound's exact value, and `Codec.SetSignal`'s result inherits this. The generated condition appends `signal.type_suffix` to every bound literal (cpp_source.py:611, 622, 632), and the C++ meaning of that suffix is not modelled. With an unsigned suffix (`u`, `ull`) a negative bound wraps. Take a uint8 signal with scale -1, offset 0 and bounds [0, 10]. The minimum 0 is dropped because it is not above the type minimum, and the maximum is printed as `-10u`, which is 4294967286. The C++ therefore accepts every value, while `RangeCheck.InRange(RangeCheck.RawRange(d), v)` rejects every value. A float suffix such as `f` rounds a bound to single precision, which the model does not capture either.
- `DbcShift` and `FrameShift` helpers require the shift to be below the type width. The generator never emits a larger shift, and a larger one is undefined behaviour in C++.
- `J1939.Field`: the mask is applied as a 32-bit AND. This is exact because every J1939 mask is below 2^32, while Python ANDs unbounded integers.
- `StringCodec.IsStringSignal`: lowercasing covers ASCII letters only, and non-ASCII characters stay as they are. Python's `str.lower` also lowercases non-ASCII letters.
- Signals without choices are modelled by an empty list of unique choices. How `unique_choices` removes duplicate names is not part of this model.
- `_signal_ostream_body`'s enum printing is not modelled (text emission).
- `DbcFrame.Frame.IsSingleFrame` and `DbcFrame.Frame.Standard` are predicates whose bodies are the source's own expressions. `DbcFrame.FramePgnMeaning` states `standard() == !extended()`.
- The getters of both `Frame` classes are their fields, so they return the constructor arguments by construction.
- DBC.h's `unique_ptr` constructor, and the difference between an owned and a borrowed buffer, are not modelled. `DbcFrame.Frame.WithBuffer` stands for both buffer-taking constructors, and buffer ownership only matters for memory management.
- The `buffer()` and `cbuffer()` getters are not modelled. The model's `buffer` field is the array itself.
- Reading or writing past the end of the buffer is undefined behaviour in C++. `Clear`, `HexString`, `BinaryString`, the setters and the getters therefore require their bytes to lie within the array.
