/**
 * The runtime Frame class of the generated code: a CAN frame's identity
 * (identifier, name, extended flag, cycle time, J1939 PGN) and a byte buffer
 * with its capacity and the length of the data in it, together with the
 * buffer utilities Clear, HexString and BinaryString.
 */
module DbcFrame {
  import opened Bits
  import J1939

  /** kSingleFrameCapacity: a frame of at most this many bytes needs no fast packet protocol. */
  const SingleFrameCapacity: nat := 8

  // ---------------------------------------------------------------------------
  // The text forms of a buffer.
  // ---------------------------------------------------------------------------

  /** `std::setw(2)` with fill '0' of a byte in `std::hex`: two lowercase digits, high one first. */
  function ByteHex(b: uint8): (r: string)
    ensures |r| == 2 && J1939.IsHexDigit(r[0]) && J1939.IsHexDigit(r[1])
  {
    [J1939.HexDigit(b / 16), J1939.HexDigit(b % 16)]
  }

  /** The hexadecimal text of a run of bytes, each byte as two digits. */
  function HexOf(bytes: seq<uint8>): (r: string)
    ensures |r| == 2 * |bytes|
    ensures forall k :: 0 <= k < |r| ==> J1939.IsHexDigit(r[k])
  {
    if bytes == [] then "" else HexOf(bytes[..|bytes| - 1]) + ByteHex(bytes[|bytes| - 1])
  }

  /** The character `std::bitset` prints for one bit. */
  function BitChar(x: nat, j: nat): char
  {
    if Bit(x, j) then '1' else '0'
  }

  /** `std::bitset<8>(b)` printed: its eight bits, most significant first. */
  function ByteBits(b: uint8): (r: string)
    ensures |r| == 8
  {
    seq(8, k requires 0 <= k < 8 => BitChar(b, 7 - k))
  }

  /** The binary text of a run of bytes: each byte's eight bits, with one space between bytes. */
  function BinaryOf(bytes: seq<uint8>): (r: string)
    ensures |r| == if bytes == [] then 0 else 9 * |bytes| - 1
  {
    if |bytes| == 0 then ""
    else if |bytes| == 1 then ByteBits(bytes[0])
    else BinaryOf(bytes[..|bytes| - 1]) + " " + ByteBits(bytes[|bytes| - 1])
  }

  /** The number a string of '0' and '1' denotes, most significant digit first. */
  function ReadBinary(s: string): nat
  {
    if s == [] then 0 else 2 * ReadBinary(s[..|s| - 1]) + (if s[|s| - 1] == '1' then 1 else 0)
  }

  /** std::fill_n(buffer, n, 0): the first n bytes zero, the rest as they were. */
  function Zeroed(bytes: seq<uint8>, n: nat): (r: seq<uint8>)
    ensures |r| == |bytes|
  {
    seq(|bytes|, k requires 0 <= k < |bytes| => if k < n then 0 else bytes[k])
  }

  // ---------------------------------------------------------------------------
  // The frame.
  // ---------------------------------------------------------------------------

  class Frame {
    const id: uint32
    const name: string
    /** buffer_capacity_: the expected length of the message, in bytes. */
    const bufferCapacity: uint32
    const extended: bool
    /** cycle_time_: zero when the database gives none. */
    const cycleTime: uint32
    const pgn: nat
    const buffer: array<uint8>
    /** data_length_: the number of bytes of data in the buffer. */
    const dataLength: nat

    /** pgn_ is fixed at construction from the identifier and the extended flag. */
    predicate Valid()
    {
      pgn == J1939.FramePgn(id, extended)
    }

    /** The empty-buffer constructor: a fresh zeroed buffer of the capacity, all of it data. */
    constructor (id: uint32, name: string, bufferCapacity: uint32, extended: bool, cycleTime: uint32)
      ensures Valid()
      ensures this.id == id && this.name == name && this.bufferCapacity == bufferCapacity
      ensures this.extended == extended && this.cycleTime == cycleTime
      ensures fresh(buffer) && buffer.Length == bufferCapacity && dataLength == bufferCapacity
      ensures forall k :: 0 <= k < buffer.Length ==> buffer[k] == 0
    {
      this.id := id;
      this.name := name;
      this.bufferCapacity := bufferCapacity;
      this.extended := extended;
      this.cycleTime := cycleTime;
      pgn := J1939.FramePgn(id, extended);
      buffer := new uint8[bufferCapacity](_ => 0);
      dataLength := bufferCapacity;
    }

    /** The constructors over a caller's buffer: the buffer itself, holding bufferSize bytes of data. */
    constructor WithBuffer(id: uint32, name: string, bufferCapacity: uint32, extended: bool, cycleTime: uint32,
                           buffer: array<uint8>, bufferSize: nat)
      ensures Valid()
      ensures this.id == id && this.name == name && this.bufferCapacity == bufferCapacity
      ensures this.extended == extended && this.cycleTime == cycleTime
      ensures this.buffer == buffer && dataLength == bufferSize
    {
      this.id := id;
      this.name := name;
      this.bufferCapacity := bufferCapacity;
      this.extended := extended;
      this.cycleTime := cycleTime;
      pgn := J1939.FramePgn(id, extended);
      this.buffer := buffer;
      dataLength := bufferSize;
    }

    /** Whether the frame fits one CAN frame, or needs the fast packet protocol. */
    predicate IsSingleFrame()
    {
      bufferCapacity <= SingleFrameCapacity
    }

    predicate Standard()
    {
      !extended
    }

    /** Clear: the first bufferCapacity bytes of the buffer become zero; nothing else changes. */
    method Clear()
      requires bufferCapacity <= buffer.Length
      modifies buffer
      ensures buffer[..] == Zeroed(old(buffer[..]), bufferCapacity)
    {
      ghost var before := buffer[..];
      for i := 0 to bufferCapacity
        invariant forall k :: 0 <= k < buffer.Length ==> buffer[k] == (if k < i then 0 else before[k])
      {
        buffer[i] := 0;
      }
    }

    /** HexString: the data bytes in hexadecimal, two digits per byte. */
    method HexString() returns (s: string)
      requires dataLength <= buffer.Length
      ensures s == HexOf(buffer[..dataLength])
    {
      s := "";
      for i := 0 to dataLength
        invariant s == HexOf(buffer[..i])
      {
        assert buffer[..i + 1][..i] == buffer[..i];
        s := s + ByteHex(buffer[i]);
      }
    }

    /** BinaryString: the data bytes in binary, eight digits per byte, separated by spaces. */
    method BinaryString() returns (s: string)
      requires dataLength <= buffer.Length
      ensures s == BinaryOf(buffer[..dataLength])
    {
      s := "";
      for i := 0 to dataLength
        invariant s == BinaryOf(buffer[..i]) + (if 0 < i < dataLength then " " else "")
      {
        assert buffer[..i + 1][..i] == buffer[..i];
        s := s + ByteBits(buffer[i]);
        if i < dataLength - 1 {
          s := s + " ";
        }
      }
    }
  }

  // ---------------------------------------------------------------------------
  // Properties.
  // ---------------------------------------------------------------------------

  /**
   * The PGN of an extended frame is bits 8 to 25 of its identifier; a standard
   * frame carries the invalid PGN, which no 18-bit PGN equals.
   */
  lemma FramePgnMeaning(f: Frame)
    requires f.Valid()
    ensures f.extended ==> f.pgn < 0x4_0000 && f.pgn == (f.id / 0x100) % 0x4_0000
    ensures f.Standard() ==> f.pgn == J1939.InvalidPgn
    ensures f.Standard() != f.extended
  {
    J1939.FramePgnMeaning(f.id, f.extended);
  }

  /** Zeroed clears exactly the first n bytes (capped at the length) and keeps the others. */
  lemma ZeroedMeaning(bytes: seq<uint8>, n: nat)
    requires n <= |bytes|
    ensures Zeroed(bytes, n)[..n] == seq(n, _ => 0)
    ensures Zeroed(bytes, n)[n..] == bytes[n..]
    ensures Zeroed(Zeroed(bytes, n), n) == Zeroed(bytes, n)
  {
  }

  /** Byte i occupies characters 2i and 2i + 1 of the hexadecimal text. */
  lemma {:induction false} HexOfLayout(bytes: seq<uint8>, i: nat)
    requires i < |bytes|
    ensures HexOf(bytes)[2 * i..2 * i + 2] == ByteHex(bytes[i])
    decreases |bytes|
  {
    var n := |bytes|;
    if i < n - 1 {
      HexOfLayout(bytes[..n - 1], i);
      assert bytes[..n - 1][i] == bytes[i];
      assert HexOf(bytes)[2 * i..2 * i + 2] == HexOf(bytes[..n - 1])[2 * i..2 * i + 2];
    }
  }

  /** The two digits of a byte read back as the byte. */
  lemma ByteHexReadsBack(b: uint8)
    ensures J1939.ParseHex(ByteHex(b)) == b
  {
    var h := ByteHex(b);
    assert h[..1] == [h[0]] && [h[0]][..0] == [];
    assert J1939.ParseHex([h[0]]) == b / 16;
  }

  /** Each two-digit group reads back as its byte: the text is zero padded, never shortened. */
  lemma HexReadsBack(bytes: seq<uint8>, i: nat)
    requires i < |bytes|
    ensures J1939.ParseHex(HexOf(bytes)[2 * i..2 * i + 2]) == bytes[i]
  {
    HexOfLayout(bytes, i);
    ByteHexReadsBack(bytes[i]);
  }

  /** A cleared buffer prints as zeros only. */
  lemma {:induction false} HexOfZeros(n: nat)
    ensures HexOf(seq(n, _ => 0)) == seq(2 * n, _ => '0')
  {
    if n > 0 {
      HexOfZeros(n - 1);
      assert seq(n, _ => 0)[..n - 1] == seq(n - 1, _ => 0);
    }
  }

  /**
   * Byte i occupies characters 9i to 9i + 7 of the binary text, and a space
   * follows it unless it is the last byte.
   */
  lemma {:induction false} BinaryLayout(bytes: seq<uint8>, i: nat)
    requires i < |bytes|
    ensures BinaryOf(bytes)[9 * i..9 * i + 8] == ByteBits(bytes[i])
    ensures i < |bytes| - 1 ==> BinaryOf(bytes)[9 * i + 8] == ' '
    decreases |bytes|
  {
    var n := |bytes|;
    if i < n - 1 {
      var front := bytes[..n - 1];
      BinaryLayout(front, i);
      assert front[i] == bytes[i];
      assert BinaryOf(bytes) == BinaryOf(front) + " " + ByteBits(bytes[n - 1]);
      assert BinaryOf(bytes)[9 * i..9 * i + 8] == BinaryOf(front)[9 * i..9 * i + 8];
      if i < n - 2 {
        assert BinaryOf(bytes)[9 * i + 8] == BinaryOf(front)[9 * i + 8];
      }
    }
  }

  /** The n low bits of x, most significant first. */
  function MsbFirst(x: nat, n: nat): (r: string)
    ensures |r| == n
  {
    seq(n, k requires 0 <= k < n => BitChar(x, n - 1 - k))
  }

  /** Dropping the last digit of x's n + 1 low bits leaves the n low bits of x / 2. */
  lemma MsbFirstFront(x: nat, n: nat)
    ensures MsbFirst(x, n + 1)[..n] == MsbFirst(x / 2, n)
  {
    var s, t := MsbFirst(x, n + 1), MsbFirst(x / 2, n);
    forall k | 0 <= k < n ensures s[k] == t[k] {
      assert s[k] == BitChar(x, n - k) && t[k] == BitChar(x / 2, n - 1 - k);
      assert Bit(x, n - k) == Bit(x / 2, n - 1 - k);
    }
  }

  lemma {:induction false} MsbFirstReadsBack(x: nat, n: nat)
    ensures ReadBinary(MsbFirst(x, n)) == x % Pow2(n)
  {
    if n > 0 {
      var s := MsbFirst(x, n);
      MsbFirstFront(x, n - 1);
      MsbFirstReadsBack(x / 2, n - 1);
      HalveQuotient(x, Pow2(n - 1));
      assert s[n - 1] == BitChar(x, 0);
      assert ReadBinary(s) == 2 * ReadBinary(MsbFirst(x / 2, n - 1)) + x % 2;
    }
  }

  /** The eight digits of a byte read back as the byte. */
  lemma ByteBitsReadBack(b: uint8)
    ensures ReadBinary(ByteBits(b)) == b
  {
    assert ByteBits(b) == MsbFirst(b, 8);
    MsbFirstReadsBack(b, 8);
    Pow2Values();
    ModSmall(b, Pow2(8));
  }

  /** Each eight-digit group of the binary text reads back as its byte. */
  lemma BinaryReadsBack(bytes: seq<uint8>, i: nat)
    requires i < |bytes|
    ensures ReadBinary(BinaryOf(bytes)[9 * i..9 * i + 8]) == bytes[i]
  {
    BinaryLayout(bytes, i);
    ByteBitsReadBack(bytes[i]);
  }
}
