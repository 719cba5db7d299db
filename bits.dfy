/**
 * Unsigned machine integers as natural numbers, and the bitwise operators the
 * generated C++ code and the Python generator use on them.
 *
 * A w-bit unsigned value is a nat below Pow2(w). Every operator that works on
 * bits is written over the bit view Bit(x, j) and carries, as its contract, the
 * bit-by-bit meaning of the C++ operator; the lemmas at the end tie the shift
 * and mask operators to division, multiplication and remainder by powers of two.
 */
module Bits {

  type uint8 = x: nat | x < 0x100
  type uint16 = x: nat | x < 0x1_0000
  type uint32 = x: nat | x < 0x1_0000_0000

  /** 2 to the power n. */
  function Pow2(n: nat): (r: nat)
    ensures r >= 1
  {
    if n == 0 then 1 else 2 * Pow2(n - 1)
  }

  /**
   * Bit j of x; bit 0 is the least significant one. Only naturals are ever
   * asked for their bits; the argument is an int so that a quotient such as
   * x / Pow2(s) can be passed without first proving it non-negative.
   */
  predicate Bit(x: int, j: nat)
    decreases j
  {
    if j == 0 then x % 2 == 1 else Bit(x / 2, j - 1)
  }

  /** The number whose bit j is b[j] (least significant bit first). */
  function FromBits(b: seq<bool>): nat
  {
    if b == [] then 0 else (if b[0] then 1 else 0) + 2 * FromBits(b[1..])
  }

  lemma {:induction false} FromBitsCorrect(b: seq<bool>)
    ensures FromBits(b) < Pow2(|b|)
    ensures forall j: nat :: Bit(FromBits(b), j) == (j < |b| && b[j])
  {
    if b == [] {
      forall j: nat ensures !Bit(0, j) {
        ZeroHasNoBits(j);
      }
    } else {
      FromBitsCorrect(b[1..]);
      var x, y := FromBits(b), FromBits(b[1..]);
      assert x % 2 == (if b[0] then 1 else 0) && x / 2 == y;
      forall j: nat ensures Bit(x, j) == (j < |b| && b[j]) {
        if j > 0 {
          assert Bit(x, j) == Bit(y, j - 1);
          assert j - 1 < |b[1..]| ==> b[1..][j - 1] == b[j];
        }
      }
    }
  }

  lemma {:induction false} ZeroHasNoBits(j: nat)
    ensures !Bit(0, j)
  {
    if j > 0 {
      ZeroHasNoBits(j - 1);
    }
  }

  lemma ZeroHasNoBitsAtAll()
    ensures forall j: nat :: !Bit(0, j)
  {
    forall j: nat ensures !Bit(0, j) {
      ZeroHasNoBits(j);
    }
  }

  /** A value below 2^w has no bit at position w or above. */
  lemma {:induction false} HighBitsClear(x: nat, w: nat)
    requires x < Pow2(w)
    ensures forall j: nat :: j >= w ==> !Bit(x, j)
  {
    if w == 0 {
      assert x == 0;
      forall j: nat ensures !Bit(x, j) {
        ZeroHasNoBits(j);
      }
    } else {
      HighBitsClear(x / 2, w - 1);
      forall j: nat | j >= w ensures !Bit(x, j) {
        assert Bit(x, j) == Bit(x / 2, j - 1);
      }
    }
  }

  /** Two numbers with the same bits are equal. */
  lemma {:induction false} BitsEqual(x: nat, y: nat)
    requires forall j: nat :: Bit(x, j) == Bit(y, j)
    ensures x == y
    decreases x + y
  {
    if x != 0 || y != 0 {
      assert Bit(x, 0) == Bit(y, 0);
      forall j: nat ensures Bit(x / 2, j) == Bit(y / 2, j) {
        assert Bit(x, j + 1) == Bit(y, j + 1);
      }
      BitsEqual(x / 2, y / 2);
    }
  }

  /** The low w bits of x, that is a cast to a w-bit unsigned type. */
  function Low(x: nat, w: nat): (r: nat)
    ensures r < Pow2(w)
    ensures forall j: nat :: Bit(r, j) == (j < w && Bit(x, j))
  {
    var b := seq(w, j requires 0 <= j => Bit(x, j));
    FromBitsCorrect(b);
    FromBits(b)
  }

  /** x & y computed in a w-bit unsigned type. */
  function And(x: nat, y: nat, w: nat): (r: nat)
    ensures r < Pow2(w)
    ensures forall j: nat :: Bit(r, j) == (j < w && Bit(x, j) && Bit(y, j))
  {
    var b := seq(w, j requires 0 <= j => Bit(x, j) && Bit(y, j));
    FromBitsCorrect(b);
    FromBits(b)
  }

  /** x | y computed in a w-bit unsigned type. */
  function Or(x: nat, y: nat, w: nat): (r: nat)
    ensures r < Pow2(w)
    ensures forall j: nat :: Bit(r, j) == (j < w && (Bit(x, j) || Bit(y, j)))
  {
    var b := seq(w, j requires 0 <= j => Bit(x, j) || Bit(y, j));
    FromBitsCorrect(b);
    FromBits(b)
  }

  /** ~x computed in a w-bit unsigned type. */
  function Not(x: nat, w: nat): (r: nat)
    ensures r < Pow2(w)
    ensures forall j: nat :: Bit(r, j) == (j < w && !Bit(x, j))
  {
    var b := seq(w, j requires 0 <= j => !Bit(x, j));
    FromBitsCorrect(b);
    FromBits(b)
  }

  /** x << s computed in a w-bit unsigned type (bits shifted past w are lost). */
  function ShiftLeft(x: nat, s: nat, w: nat): (r: nat)
    ensures r < Pow2(w)
    ensures forall j: nat :: Bit(r, j) == (s <= j < w && Bit(x, j - s))
  {
    var b := seq(w, j requires 0 <= j => s <= j && Bit(x, j - s));
    FromBitsCorrect(b);
    FromBits(b)
  }

  /** x >> s, keeping the low w bits of the result. */
  function ShiftRight(x: nat, s: nat, w: nat): (r: nat)
    ensures r < Pow2(w)
    ensures forall j: nat :: Bit(r, j) == (j < w && Bit(x, j + s))
  {
    var b := seq(w, j requires 0 <= j => Bit(x, j + s));
    FromBitsCorrect(b);
    FromBits(b)
  }

  // ---------------------------------------------------------------------------
  // Arithmetic meaning of the bit view.
  // ---------------------------------------------------------------------------

  lemma {:induction false} Pow2Add(a: nat, b: nat)
    ensures Pow2(a + b) == Pow2(a) * Pow2(b)
  {
    if a > 0 {
      Pow2Add(a - 1, b);
    }
  }

  lemma {:induction false} Pow2Monotone(a: nat, b: nat)
    requires a <= b
    ensures Pow2(a) <= Pow2(b)
  {
    if a < b {
      Pow2Monotone(a, b - 1);
    }
  }

  /** Multiplying by the same factor keeps the order. */
  lemma MulMonotone(a: nat, b: nat, d: nat)
    requires a <= b
    ensures a * d <= b * d
  {
    var k := b - a;
    assert b * d == a * d + k * d;
  }

  /** Euclidean division is unique. */
  lemma DivModUnique(x: nat, d: nat, q: nat, r: nat)
    requires d > 0 && r < d && x == q * d + r
    ensures x / d == q && x % d == r
  {
    var q', r' := x / d, x % d;
    assert x == q' * d + r';
    if q' > q {
      MulMonotone(q + 1, q', d);
    } else if q' < q {
      MulMonotone(q' + 1, q, d);
    }
  }

  lemma HalveQuotient(x: nat, p: nat)
    requires p > 0
    ensures x / (2 * p) == (x / 2) / p
    ensures x % (2 * p) == x % 2 + 2 * ((x / 2) % p)
  {
    var q, r := (x / 2) / p, (x / 2) % p;
    assert x / 2 == q * p + r;
    assert x == q * (2 * p) + (2 * r + x % 2);
    DivModUnique(x, 2 * p, q, 2 * r + x % 2);
  }

  /** Bit j of x / 2^s is bit j + s of x: division by 2^s is x >> s. */
  lemma {:induction false} DivBits(x: nat, s: nat)
    ensures forall j: nat :: Bit(x / Pow2(s), j) == Bit(x, j + s)
  {
    if s > 0 {
      HalveQuotient(x, Pow2(s - 1));
      DivBits(x / 2, s - 1);
      forall j: nat ensures Bit(x / Pow2(s), j) == Bit(x, j + s) {
        assert Bit(x, j + s) == Bit(x / 2, j + s - 1);
      }
    }
  }

  /** Bit j of x * 2^s is bit j - s of x: multiplication by 2^s is x << s. */
  lemma {:induction false} MulBits(x: nat, s: nat)
    ensures forall j: nat :: Bit(x * Pow2(s), j) == (j >= s && Bit(x, j - s))
  {
    if s > 0 {
      MulBits(x, s - 1);
      var y := x * Pow2(s - 1);
      assert x * Pow2(s) == 2 * y;
      forall j: nat ensures Bit(2 * y, j) == (j >= s && Bit(x, j - s)) {
        if j > 0 {
          assert Bit(2 * y, j) == Bit(y, j - 1);
        }
      }
    }
  }

  /** Bit j of x % 2^w is bit j of x below w and clear above. */
  lemma {:induction false} ModBits(x: nat, w: nat)
    ensures forall j: nat :: Bit(x % Pow2(w), j) == (j < w && Bit(x, j))
  {
    if w == 0 {
      forall j: nat ensures !Bit(x % Pow2(w), j) {
        ZeroHasNoBits(j);
      }
    } else {
      var p := Pow2(w - 1);
      HalveQuotient(x, p);
      ModBits(x / 2, w - 1);
      var z := (x / 2) % p;
      var m := x % Pow2(w);
      assert m == x % 2 + 2 * z;
      assert m % 2 == x % 2 && m / 2 == z;
      forall j: nat ensures Bit(m, j) == (j < w && Bit(x, j)) {
        if j > 0 {
          assert Bit(m, j) == Bit(z, j - 1);
          assert Bit(x, j) == Bit(x / 2, j - 1);
        }
      }
    }
  }

  lemma LowIsMod(x: nat, w: nat)
    ensures Low(x, w) == x % Pow2(w)
  {
    ModBits(x, w);
    BitsEqual(Low(x, w), x % Pow2(w));
  }

  lemma ShiftRightIsDiv(x: nat, s: nat, w: nat)
    ensures ShiftRight(x, s, w) == (x / Pow2(s)) % Pow2(w)
  {
    DivBits(x, s);
    DivLe(x, Pow2(s));
    ModBits(x / Pow2(s), w);
    BitsEqual(ShiftRight(x, s, w), (x / Pow2(s)) % Pow2(w));
  }

  lemma ShiftLeftIsMul(x: nat, s: nat, w: nat)
    ensures ShiftLeft(x, s, w) == (x * Pow2(s)) % Pow2(w)
  {
    MulBits(x, s);
    ModBits(x * Pow2(s), w);
    BitsEqual(ShiftLeft(x, s, w), (x * Pow2(s)) % Pow2(w));
  }

  /** 2^n - 1 has exactly the bits 0 .. n-1. */
  lemma {:induction false} OnesBits(n: nat, m: nat)
    requires m == Pow2(n) - 1
    ensures forall j: nat :: Bit(m, j) == (j < n)
  {
    if n == 0 {
      forall j: nat ensures !Bit(0, j) {
        ZeroHasNoBits(j);
      }
    } else {
      var y := Pow2(n - 1) - 1;
      OnesBits(n - 1, y);
      assert m == 2 * y + 1;
      forall j: nat ensures Bit(m, j) == (j < n) {
        if j > 0 {
          assert Bit(m, j) == Bit(y, j - 1);
        }
      }
    }
  }

  /** 2^n has exactly the bit n. */
  lemma PowerBit(n: nat)
    ensures forall j: nat :: Bit(Pow2(n), j) == (j == n)
  {
    MulBits(1, n);
    forall i: nat ensures Bit(1, i) == (i == 0) {
      if i > 0 {
        ZeroHasNoBits(i - 1);
      }
    }
  }

  /** Adding numbers with no common bit produces no carry. */
  lemma {:induction false} NoCarry(x: nat, y: nat, j: nat)
    requires forall i: nat :: !(Bit(x, i) && Bit(y, i))
    ensures Bit(x + y, j) == (Bit(x, j) || Bit(y, j))
  {
    assert !(Bit(x, 0) && Bit(y, 0));
    if j > 0 {
      assert (x + y) / 2 == x / 2 + y / 2;
      forall i: nat ensures !(Bit(x / 2, i) && Bit(y / 2, i)) {
        assert !(Bit(x, i + 1) && Bit(y, i + 1));
      }
      NoCarry(x / 2, y / 2, j - 1);
    }
  }

  /** On disjoint bits, x | y is x + y. */
  lemma DisjointOrIsSum(x: nat, y: nat, w: nat)
    requires x < Pow2(w) && y < Pow2(w)
    requires forall i: nat :: !(Bit(x, i) && Bit(y, i))
    ensures Or(x, y, w) == x + y
  {
    HighBitsClear(x, w);
    HighBitsClear(y, w);
    forall j: nat ensures Bit(Or(x, y, w), j) == Bit(x + y, j) {
      NoCarry(x, y, j);
    }
    BitsEqual(Or(x, y, w), x + y);
  }

  /** A value below 2^w is unchanged by a cast to w or more bits. */
  lemma LowOfSmall(x: nat, w: nat)
    requires x < Pow2(w)
    ensures Low(x, w) == x
  {
    HighBitsClear(x, w);
    BitsEqual(Low(x, w), x);
  }

  /** A value with no bit at position w or above is below 2^w. */
  lemma BitsBelow(x: nat, w: nat)
    requires forall j: nat :: j >= w ==> !Bit(x, j)
    ensures x < Pow2(w)
  {
    BitsEqual(Low(x, w), x);
  }

  /** A value whose bits are among the bits of y is at most y. */
  lemma {:induction false} SubsetBitsLe(x: nat, y: nat)
    requires forall j: nat :: Bit(x, j) ==> Bit(y, j)
    ensures x <= y
    decreases x + y
  {
    if x != 0 {
      assert Bit(x, 0) ==> Bit(y, 0);
      forall j: nat ensures Bit(x / 2, j) ==> Bit(y / 2, j) {
        assert Bit(x, j + 1) ==> Bit(y, j + 1);
      }
      if y == 0 {
        forall j: nat ensures Bit(x, j) == Bit(0, j) {
          ZeroHasNoBits(j);
        }
        BitsEqual(x, 0);
      } else {
        SubsetBitsLe(x / 2, y / 2);
      }
    }
  }

  /** A quotient of a value below m is below m and so unchanged by % m. */
  lemma QuotientBelow(n: nat, p: nat, m: nat)
    requires n < m && p >= 1
    ensures n / p <= n && (n / p) % m == n / p
  {
    DivLe(n, p);
    ModSmall(n / p, m);
  }

  lemma DivLe(x: nat, d: nat)
    requires d >= 1
    ensures 0 <= x / d <= x
  {
  }

  lemma ModSmall(x: nat, m: nat)
    requires x < m
    ensures x % m == x
  {
  }

  /** (x mod 2^w) << s, in w bits, is x * 2^s mod 2^w. */
  lemma ShiftLeftOfLow(x: nat, s: nat, w: nat)
    ensures ShiftLeft(Low(x, w), s, w) == (x * Pow2(s)) % Pow2(w)
  {
    MulBits(x, s);
    ModBits(x * Pow2(s), w);
    BitsEqual(ShiftLeft(Low(x, w), s, w), (x * Pow2(s)) % Pow2(w));
  }

  /** (x mod 2^w) >> s, in w bits, is (x mod 2^w) / 2^s. */
  lemma ShiftRightOfLow(x: nat, s: nat, w: nat)
    ensures ShiftRight(Low(x, w), s, w) == (x % Pow2(w)) / Pow2(s)
  {
    var n := Low(x, w);
    LowIsMod(x, w);
    ShiftRightIsDiv(n, s, w);
    QuotientBelow(n, Pow2(s), Pow2(w));
  }

  /** Shifting right the masked bits of x gives at most mask / 2^s. */
  lemma ShiftRightMaskedBound(x: nat, mask: nat, s: nat, u: nat, w: nat)
    ensures ShiftRight(Low(And(x, mask, u), w), s, w) <= mask / Pow2(s)
  {
    DivBits(mask, s);
    SubsetBitsLe(ShiftRight(Low(And(x, mask, u), w), s, w), mask / Pow2(s));
  }

  /** Masking a w-bit value with 2^n - 1 keeps its residue modulo 2^n. */
  lemma MaskLowIsMod(x: nat, n: nat, w: nat)
    requires n <= w && x < Pow2(w)
    ensures And(x, Pow2(n) - 1, w) == x % Pow2(n)
  {
    OnesBits(n, Pow2(n) - 1);
    ModBits(x, n);
    HighBitsClear(x, w);
    BitsEqual(And(x, Pow2(n) - 1, w), x % Pow2(n));
  }

  /** A number whose bits are bits s .. s+n-1 of x is (x / 2^s) mod 2^n. */
  lemma BitFieldIsDivMod(x: nat, f: nat, s: nat, n: nat)
    requires forall j: nat :: Bit(f, j) == (j < n && Bit(x, j + s))
    ensures f == (x / Pow2(s)) % Pow2(n) && f < Pow2(n)
  {
    BitsEqual(f, ShiftRight(x, s, n));
    ShiftRightIsDiv(x, s, n);
  }

  /** Euclidean remainder of a small negative number. */
  lemma ModOfNegative(x: int, d: nat)
    requires 0 < d && -(d as int) <= x < 0
    ensures x % d == x + d
  {
    var q, r := x / d, x % d;
    if q >= 0 {
      assert q * d >= 0;
    }
  }

  lemma Pow2Values()
    ensures Pow2(3) == 8 && Pow2(8) == 0x100 && Pow2(16) == 0x1_0000 && Pow2(32) == 0x1_0000_0000
  {
    assert Pow2(4) == 16;
    Pow2Add(4, 4);
    Pow2Add(8, 8);
    Pow2Add(16, 16);
  }
}
