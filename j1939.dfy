/**
 * J1939 identifier fields (SAE J1939-21, section 5.2): the 29-bit extended
 * identifier is priority (bits 26-28), reserved (25), data page (24), PDU
 * format (16-23), PDU specific (8-15) and source address (0-7). The
 * generator derives a message's priority and PGN text from its frame id; the
 * runtime Frame class derives its own pgn_ from the id.
 */
module J1939 {
  import opened Bits

  // The runtime constants of DBC.h.
  const PgnOffset: nat := 8
  const PgnMask: nat := 0x3FFFF
  const InvalidPgn: nat := 0x40000
  const InvalidSpn: nat := 0

  // The generator's masks and offsets.
  const PriorityOffset: nat := 26
  const PriorityMask: nat := 0x1C000000
  const ReservedOffset: nat := 25
  const ReservedOffsetPgn: nat := 17
  const ReservedMask: nat := 0x02000000
  const DataPageOffset: nat := 24
  const DataPageOffsetPgn: nat := 16
  const DataPageMask: nat := 0x01000000
  const PduSpecificOffset: nat := 8
  const PduSpecificMask: nat := 0xff00
  const PduFormatOffset: nat := 16
  const PduFormatOffsetPgn: nat := 8
  const PduFormatMask: nat := 0xff0000
  const GroupExtensionOffsetPgn: nat := 0

  /** PDU formats from 240 on are PDU2, whose PDU specific byte is a group extension. */
  const Pdu2Start: nat := 240

  /**
   * (id & mask) >> offset on Python integers. Every mask used lies below bit
   * 32, so a 32-bit AND keeps all the bits Python's unbounded AND keeps.
   */
  function Field(id: nat, mask: nat, offset: nat): nat
  {
    ShiftRight(And(id, mask, 32), offset, 32)
  }

  function Priority(id: nat): nat
  {
    Field(id, PriorityMask, PriorityOffset)
  }

  function PduFormat(id: nat): nat
  {
    Field(id, PduFormatMask, PduFormatOffset)
  }

  function PduSpecific(id: nat): nat
  {
    Field(id, PduSpecificMask, PduSpecificOffset)
  }

  /** The generator's PGN: group extension | PDU format << 8 | data page << 16 | reserved << 17. */
  function PgnValue(id: nat): nat
  {
    var reserved := Field(id, ReservedMask, ReservedOffset);
    var dataPage := Field(id, DataPageMask, DataPageOffset);
    var pduSpecific := PduSpecific(id);
    var pduFormat := PduFormat(id);
    var groupExtension := if pduFormat < Pdu2Start then 0 else pduSpecific;
    Or(0,
       Or(Or(Or(ShiftLeft(groupExtension, GroupExtensionOffsetPgn, 32),
                ShiftLeft(pduFormat, PduFormatOffsetPgn, 32), 32),
             ShiftLeft(dataPage, DataPageOffsetPgn, 32), 32),
          ShiftLeft(reserved, ReservedOffsetPgn, 32), 32),
       32)
  }

  /** The generator's PGN text: Python's hex() of the PGN. */
  function Pgn(id: nat): string
  {
    "0x" + HexDigits(PgnValue(id))
  }

  /** Frame::pgn_: (id >> 8) & 0x3FFFF for an extended frame, the invalid PGN otherwise. */
  function FramePgn(id: uint32, extended: bool): nat
  {
    if extended then And(ShiftRight(id, PgnOffset, 32), PgnMask, 32) else InvalidPgn
  }

  // ---------------------------------------------------------------------------
  // Python hex() digits.
  // ---------------------------------------------------------------------------

  predicate IsHexDigit(c: char)
  {
    '0' <= c <= '9' || 'a' <= c <= 'f'
  }

  /** The lowercase digit of a value below 16. */
  function HexDigit(d: nat): (c: char)
    requires d < 16
    ensures IsHexDigit(c) && DigitValue(c) == d
  {
    if d < 10 then ('0' as int + d) as char else ('a' as int + d - 10) as char
  }

  function DigitValue(c: char): (d: nat)
    requires IsHexDigit(c)
    ensures d < 16
  {
    if c <= '9' then c as int - '0' as int else c as int - 'a' as int + 10
  }

  /** The lowercase hexadecimal digits of n, without leading zeros ("0" for zero). */
  function HexDigits(n: nat): (r: string)
    ensures |r| >= 1
    ensures forall k :: 0 <= k < |r| ==> IsHexDigit(r[k])
    ensures n > 0 <==> r[0] != '0'
    decreases n
  {
    if n < 16 then [HexDigit(n)] else HexDigits(n / 16) + [HexDigit(n % 16)]
  }

  /** The number a string of hexadecimal digits denotes. */
  function ParseHex(s: string): nat
    requires forall k :: 0 <= k < |s| ==> IsHexDigit(s[k])
  {
    if s == [] then 0 else ParseHex(s[..|s| - 1]) * 16 + DigitValue(s[|s| - 1])
  }

  // ---------------------------------------------------------------------------
  // Properties.
  // ---------------------------------------------------------------------------

  lemma Pow2Constants()
    ensures Pow2(2) == 4 && Pow2(3) == 8 && Pow2(8) == 0x100 && Pow2(10) == 0x400
    ensures Pow2(16) == 0x1_0000 && Pow2(17) == 0x2_0000 && Pow2(18) == 0x4_0000
    ensures Pow2(24) == 0x100_0000 && Pow2(25) == 0x200_0000 && Pow2(26) == 0x400_0000
    ensures Pow2(32) == 0x1_0000_0000
  {
    Pow2Values();
    assert Pow2(2) == 4;
    Pow2Add(8, 2);
    Pow2Add(16, 1);
    Pow2Add(16, 2);
    Pow2Add(16, 8);
    Pow2Add(24, 1);
    Pow2Add(24, 2);
  }

  /** A mask of n ones at offset s selects bits s .. s+n-1: the field is (id / 2^s) mod 2^n. */
  lemma FieldOf(id: nat, n: nat, s: nat, mask: nat)
    requires mask == (Pow2(n) - 1) * Pow2(s) && s + n <= 32
    ensures Field(id, mask, s) < Pow2(n)
    ensures forall j: nat :: Bit(Field(id, mask, s), j) == (j < n && Bit(id, j + s))
    ensures Field(id, mask, s) == (id / Pow2(s)) % Pow2(n)
  {
    MaskOfOnes(n, s, mask);
    FieldBitsOf(id, n, s, mask);
  }

  lemma MaskOfOnes(n: nat, s: nat, mask: nat)
    requires mask == (Pow2(n) - 1) * Pow2(s)
    ensures forall j: nat :: Bit(mask, j) == (s <= j < s + n)
  {
    OnesBits(n, Pow2(n) - 1);
    MulBits(Pow2(n) - 1, s);
  }

  lemma FieldBitsOf(id: nat, n: nat, s: nat, mask: nat)
    requires forall j: nat :: Bit(mask, j) == (s <= j < s + n)
    requires s + n <= 32
    ensures Field(id, mask, s) < Pow2(n)
    ensures forall j: nat :: Bit(Field(id, mask, s), j) == (j < n && Bit(id, j + s))
    ensures Field(id, mask, s) == (id / Pow2(s)) % Pow2(n)
  {
    var f := Field(id, mask, s);
    forall j: nat ensures Bit(f, j) == (j < n && Bit(id, j + s)) {
      assert Bit(mask, j + s) == (j < n);
    }
    BitFieldIsDivMod(id, f, s, n);
  }

  /** The priority is bits 26-28 of the id, so it is one of 0 .. 7. */
  lemma PriorityRange(id: nat)
    ensures Priority(id) < 8
    ensures Priority(id) == (id / 0x400_0000) % 8
  {
    Pow2Constants();
    FieldOf(id, 3, 26, PriorityMask);
  }

  lemma PduFields(id: nat)
    ensures PduFormat(id) < 0x100 && PduSpecific(id) < 0x100
    ensures forall j: nat :: Bit(PduFormat(id), j) == (j < 8 && Bit(id, j + 16))
    ensures forall j: nat :: Bit(PduSpecific(id), j) == (j < 8 && Bit(id, j + 8))
    ensures PduFormat(id) == (id / 0x1_0000) % 0x100
    ensures Field(id, ReservedMask, ReservedOffset) < 2 && Field(id, DataPageMask, DataPageOffset) < 2
    ensures forall j: nat :: Bit(Field(id, ReservedMask, ReservedOffset), j) == (j < 1 && Bit(id, j + 25))
    ensures forall j: nat :: Bit(Field(id, DataPageMask, DataPageOffset), j) == (j < 1 && Bit(id, j + 24))
  {
    Pow2Constants();
    assert Pow2(1) == 2;
    FieldOf(id, 8, 16, PduFormatMask);
    FieldOf(id, 8, 8, PduSpecificMask);
    FieldOf(id, 1, 25, ReservedMask);
    FieldOf(id, 1, 24, DataPageMask);
  }

  /**
   * PGN bit j is id bit j + 8 for j < 18, except that the low byte is zero
   * for PDU1 (PDU format below 240); so the PGN is below 2^18.
   */
  lemma PgnBits(id: nat)
    ensures forall j: nat :: Bit(PgnValue(id), j) == (j < 18 && Bit(id, j + 8) && (j >= 8 || PduFormat(id) >= 240))
    ensures PgnValue(id) < 0x4_0000
    ensures PduFormat(id) >= 240 ==> PgnValue(id) == (id / 0x100) % 0x4_0000
    ensures PduFormat(id) < 240 ==> PgnValue(id) % 0x100 == 0
  {
    Pow2Constants();
    PduFields(id);
    var reserved := Field(id, ReservedMask, ReservedOffset);
    var dataPage := Field(id, DataPageMask, DataPageOffset);
    var pduFormat := PduFormat(id);
    var groupExtension := if pduFormat < Pdu2Start then 0 else PduSpecific(id);
    ZeroHasNoBitsAtAll();
    PgnAssembly(groupExtension, pduFormat, dataPage, reserved);
    var p := PgnValue(id);
    forall j: nat ensures Bit(p, j) == (j < 18 && Bit(id, j + 8) && (j >= 8 || pduFormat >= 240)) {
      if j < 8 {
      } else if j < 16 {
        assert Bit(pduFormat, j - 8) == Bit(id, j + 8);
      } else if j == 16 {
        assert Bit(dataPage, 0) == Bit(id, 24);
      } else if j == 17 {
        assert Bit(reserved, 0) == Bit(id, 25);
      }
    }
    BitsBelow(p, 18);
    if pduFormat >= 240 {
      BitFieldIsDivMod(id, p, 8, 18);
    } else {
      ModBits(p, 8);
      BitsEqual(p % Pow2(8), 0);
    }
  }

  /** The four PGN parts land on bits 0-7, 8-15, 16 and 17. */
  lemma PgnAssembly(groupExtension: nat, pduFormat: nat, dataPage: nat, reserved: nat)
    requires groupExtension < 0x100 && pduFormat < 0x100 && dataPage < 2 && reserved < 2
    ensures forall j: nat ::
      Bit(Or(0, Or(Or(Or(ShiftLeft(groupExtension, 0, 32), ShiftLeft(pduFormat, 8, 32), 32),
                      ShiftLeft(dataPage, 16, 32), 32),
                   ShiftLeft(reserved, 17, 32), 32), 32), j)
      == ((j < 8 && Bit(groupExtension, j)) || (8 <= j < 16 && Bit(pduFormat, j - 8)) ||
          (j == 16 && Bit(dataPage, 0)) || (j == 17 && Bit(reserved, 0)))
  {
    Pow2Constants();
    assert Pow2(1) == 2;
    ZeroHasNoBitsAtAll();
    HighBitsClear(groupExtension, 8);
    HighBitsClear(pduFormat, 8);
    HighBitsClear(dataPage, 1);
    HighBitsClear(reserved, 1);
    var a := ShiftLeft(groupExtension, 0, 32);
    var b := ShiftLeft(pduFormat, 8, 32);
    var c := ShiftLeft(dataPage, 16, 32);
    var d := ShiftLeft(reserved, 17, 32);
    forall j: nat
      ensures Bit(Or(0, Or(Or(Or(a, b, 32), c, 32), d, 32), 32), j)
           == ((j < 8 && Bit(groupExtension, j)) || (8 <= j < 16 && Bit(pduFormat, j - 8)) ||
               (j == 16 && Bit(dataPage, 0)) || (j == 17 && Bit(reserved, 0)))
    {
      if j < 8 {
        assert !Bit(b, j) && !Bit(c, j) && !Bit(d, j);
      } else if j < 16 {
        assert !Bit(a, j) && !Bit(c, j) && !Bit(d, j);
      } else if j < 18 {
        assert !Bit(a, j) && !Bit(b, j);
      } else {
        assert !Bit(a, j) && !Bit(b, j) && !Bit(c, j) && !Bit(d, j);
      }
    }
  }

  /** A PDU2 identifier's format and specific bytes, bits 8 .. 23, belong to the PGN unchanged. */
  lemma PgnOfPdu2(id: nat)
    requires (id / 0x1_0000) % 0x100 >= 240
    ensures PgnValue(id) == (id / 0x100) % 0x4_0000
  {
    PduFields(id);
    PgnBits(id);
  }

  /**
   * Frame::pgn_ is id bits 8 .. 25 on an extended frame and the invalid PGN
   * 0x40000 (not a valid PGN) otherwise. It agrees with the generator's PGN
   * for PDU2 but keeps the PDU specific byte for PDU1.
   */
  lemma FramePgnMeaning(id: uint32, extended: bool)
    ensures extended ==> FramePgn(id, extended) < 0x4_0000 && FramePgn(id, extended) == (id / 0x100) % 0x4_0000
    ensures !extended ==> FramePgn(id, extended) == InvalidPgn && InvalidPgn >= 0x4_0000
    ensures extended && PduFormat(id) >= 240 ==> FramePgn(id, extended) == PgnValue(id)
    ensures extended && PduFormat(id) < 240 ==> FramePgn(id, extended) == PgnValue(id) + PduSpecific(id)
  {
    if extended {
      Pow2Constants();
      var f := FramePgn(id, extended);
      OnesBits(18, PgnMask);
      DivBits(id, 8);
      ModBits(id / Pow2(8), 18);
      BitsEqual(f, (id / Pow2(8)) % Pow2(18));
      PgnBits(id);
      PduFields(id);
      if PduFormat(id) < 240 {
        var p, s := PgnValue(id), PduSpecific(id);
        HighBitsClear(p, 18);
        Pow2Monotone(8, 18);
        DisjointOrIsSum(p, s, 18);
        BitsEqual(f, Or(p, s, 18));
      }
    }
  }

  /** Reading the hexadecimal digits back gives the number. */
  lemma {:induction false} HexRoundTrip(n: nat)
    ensures ParseHex(HexDigits(n)) == n
    decreases n
  {
    if n >= 16 {
      HexRoundTrip(n / 16);
      var s := HexDigits(n);
      assert s[..|s| - 1] == HexDigits(n / 16);
    }
  }

  /** The PGN text is "0x" followed by at most five digits that read back as the PGN. */
  lemma PgnText(id: nat)
    ensures |Pgn(id)| >= 3 && Pgn(id)[..2] == "0x"
    ensures ParseHex(Pgn(id)[2..]) == PgnValue(id) < 0x4_0000
  {
    PgnBits(id);
    HexRoundTrip(PgnValue(id));
    assert Pgn(id)[2..] == HexDigits(PgnValue(id));
  }

  /** The identifier 0x18FEF100 has priority 6 and PGN text "0xfef1". */
  lemma Example(id: nat)
    requires id == 0x18FEF100
    ensures Priority(id) == 6
    ensures Pgn(id) == "0xfef1"
  {
    PriorityRange(id);
    DivModUnique(id, 0x400_0000, 6, 0xFE_F100);
    DivModUnique(6, 8, 0, 6);
    DivModUnique(id, 0x1_0000, 0x18FE, 0xF100);
    DivModUnique(0x18FE, 0x100, 0x18, 0xFE);
    PgnOfPdu2(id);
    DivModUnique(id, 0x100, 0x18_FEF1, 0);
    DivModUnique(0x18_FEF1, 0x4_0000, 6, 0xFEF1);
    assert HexDigits(0xF) == "f";
    assert HexDigits(0xFE) == "fe";
    assert HexDigits(0xFEF) == "fef";
  }
}
