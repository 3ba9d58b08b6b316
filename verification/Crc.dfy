/** crc16_ccitt of fota.c, and what it computes: the remainder of dividing the message polynomial by
    x^16 + x^12 + x^5 + 1, starting from zero (section 2 of ITU-T V.41).

    `ByteStep` is one turn of the loop.  Its effect is worked out bit by bit: a byte adds eight bits
    to the quotient, and the generator is subtracted once for each that is set.  Division is stated
    without the register, coefficient by coefficient, and has one quotient and one remainder.

    Words are numbers; shifts are products and quotients, `& 0xff` is the remainder (Bits.AndIsMod),
    and the casts to 16 bits are written out. */
module Crc {
  import opened Basics
  import opened Bits

  // ----- bits -----

  /** Bit `i` of `n`, counted from the lowest. */
  predicate Bit(n: nat, i: nat)
    decreases i
  {
    if i == 0 then n % 2 == 1 else Bit(n / 2, i - 1)
  }

  function Or(a: nat, b: nat): nat
    decreases a + b
  {
    if a == 0 && b == 0 then 0 else (if a % 2 == 1 || b % 2 == 1 then 1 else 0) + 2 * Or(a / 2, b / 2)
  }

  lemma {:induction false} XorBit(a: nat, b: nat, i: nat)
    ensures Bit(Xor(a, b), i) == (Bit(a, i) != Bit(b, i))
    decreases i
  {
    HalfXor(a, b);
    hide Xor;
    if i > 0 {
      XorBit(a / 2, b / 2, i - 1);
    }
  }

  lemma {:induction false} OrBit(a: nat, b: nat, i: nat)
    ensures Bit(Or(a, b), i) == (Bit(a, i) || Bit(b, i))
    decreases i
  {
    if a == 0 && b == 0 {
      ZeroBit(i);
    } else if i > 0 {
      OrBit(a / 2, b / 2, i - 1);
      assert Or(a, b) / 2 == Or(a / 2, b / 2);
    }
  }

  lemma {:induction false} ZeroBit(i: nat)
    ensures !Bit(0, i)
  {
    if i > 0 {
      ZeroBit(i - 1);
    }
  }

  lemma {:induction false} ModBit(n: nat, k: nat, i: nat)
    ensures Bit(n % Pow2(k), i) == (i < k && Bit(n, i))
    decreases k
  {
    if k == 0 {
      assert Pow2(0) == 1;
      ZeroBit(i);
    } else {
      HalfMod(n, Pow2(k - 1));
      if i > 0 {
        ModBit(n / 2, k - 1, i - 1);
        assert (n % Pow2(k)) / 2 == (n / 2) % Pow2(k - 1);
      }
    }
  }

  lemma {:induction false} ShlBit(n: nat, k: nat, i: nat)
    ensures Bit(n * Pow2(k), i) == (k <= i && Bit(n, i - k))
    decreases k
  {
    if k > 0 {
      var p := n * Pow2(k - 1);
      assert n * Pow2(k) == 2 * p by {
        assert Pow2(k) == 2 * Pow2(k - 1);
      }
      if i > 0 {
        ShlBit(n, k - 1, i - 1);
      }
    } else {
      assert n * Pow2(0) == n;
    }
  }

  lemma ShrBit4(n: nat, i: nat)
    ensures Bit(n / 0x10, i) == Bit(n, i + 4)
  {
    assert n / 2 / 2 == n / 4 && n / 4 / 2 == n / 8 && n / 8 / 2 == n / 0x10;
    assert Bit(n, i + 4) == Bit(n / 2, i + 3) == Bit(n / 4, i + 2) == Bit(n / 8, i + 1) == Bit(n / 0x10, i);
  }

  lemma ShrBit8(n: nat, i: nat)
    ensures Bit(n / 0x100, i) == Bit(n, i + 8)
  {
    ShrBit4(n, i + 4);
    ShrBit4(n / 0x10, i);
    assert n / 0x10 / 0x10 == n / 0x100;
  }

  /** Numbers of `k` bits with the same bits are the same. */
  lemma {:induction false} SameBits(a: nat, b: nat, k: nat)
    requires a < Pow2(k) && b < Pow2(k) && forall i :: 0 <= i < k ==> Bit(a, i) == Bit(b, i)
    ensures a == b
    decreases k
  {
    if k > 0 {
      assert Bit(a, 0) == Bit(b, 0);
      forall i | 0 <= i < k - 1
        ensures Bit(a / 2, i) == Bit(b / 2, i)
      {
        assert Bit(a, i + 1) == Bit(b, i + 1);
      }
      SameBits(a / 2, b / 2, k - 1);
    } else {
      assert a == 0 && b == 0;
    }
  }

  lemma HighBits(n: nat, k: nat, i: nat)
    requires n < Pow2(k) && k <= i
    ensures !Bit(n, i)
  {
    ModUnique(n, Pow2(k), 0, n);
    ModBit(n, k, i);
  }

  // ----- the code -----

  /** One turn of the loop: the shifts and xors on the 16-bit accumulator. */
  function ByteStep(crc: word, b: byte): word {
    var c1 := Or(crc / 0x100, crc * 0x100) % 0x1_0000;
    var c2 := Xor(c1, b) % 0x1_0000;
    var c3 := Xor(c2, c2 % 0x100 / 0x10) % 0x1_0000;
    var c4 := Xor(c3, c3 * 0x100 * 0x10) % 0x1_0000;
    Xor(c4, c4 % 0x100 * 0x10 * 2) % 0x1_0000
  }

  function Crc16(s: seq<byte>): word {
    if s == [] then 0 else ByteStep(Crc16(s[..|s| - 1]), s[|s| - 1])
  }

  /** crc16_ccitt on `buffer[at..at + length]`. */
  method Crc16Ccitt(buffer: array<byte>, at: nat, length: nat) returns (crc16: word)
    requires at + length <= buffer.Length
    ensures crc16 == Crc16(buffer[at..at + length])
  {
    crc16 := 0;
    var left: nat, p: nat := length, at;
    while left != 0
      invariant left + p == at + length && at <= p
      invariant crc16 == Crc16(buffer[at..p])
    {
      assert buffer[at..p + 1][..p - at] == buffer[at..p];
      crc16 := ByteStep(crc16, buffer[p]);
      p, left := p + 1, left - 1;
    }
  }

  // ----- one step, bit by bit -----

  /** The eight quotient bits that a byte adds, as a byte. */
  function QuotientByte(crc: word, b: byte): byte {
    var x := Xor(crc / 0x100, b) % 0x100;
    Xor(x, x / 0x10) % 0x100
  }

  predicate Sum(a: bool, b: bool) {
    a != b
  }

  /** The low 8 bits of a word; `% Pow2(8)` and `% 0x100` are the same. */
  lemma ModBit8(n: nat, i: nat)
    ensures Bit(n % 0x100, i) == (i < 8 && Bit(n, i))
  {
    Pow2Values();
    ModBit(n, 8, i);
  }

  lemma ModBit16(n: nat, i: nat)
    ensures Bit(n % 0x1_0000, i) == (i < 16 && Bit(n, i))
  {
    Pow2Values();
    ModBit(n, 16, i);
  }

  lemma HighByteBits(n: byte, i: nat)
    requires 8 <= i
    ensures !Bit(n, i)
  {
    Pow2Values();
    HighBits(n, 8, i);
  }

  lemma ShlBit5(n: nat, i: nat)
    ensures Bit(n * 0x10 * 2, i) == (5 <= i && Bit(n, i - 5))
  {
    Pow2Values();
    ShlBit(n, 5, i);
    assert n * 0x10 * 2 == n * 0x20;
  }

  lemma ShlBit12(n: nat, i: nat)
    ensures Bit(n * 0x100 * 0x10, i) == (12 <= i && Bit(n, i - 12))
  {
    Pow2Values();
    ShlBit(n, 12, i);
    assert n * 0x100 * 0x10 == n * 0x1000;
  }

  lemma ShlBit8(n: nat, i: nat)
    ensures Bit(n * 0x100, i) == (8 <= i && Bit(n, i - 8))
  {
    Pow2Values();
    ShlBit(n, 8, i);
  }

  /** The bits of the quotient byte. */
  lemma QuotientBits(crc: word, b: byte, i: nat)
    requires i < 8
    ensures Bit(QuotientByte(crc, b), i) ==
      Sum(Sum(Bit(crc, i + 8), Bit(b, i)), i < 4 && Sum(Bit(crc, i + 12), Bit(b, i + 4)))
  {
    hide Bit;
    var x := Xor(crc / 0x100, b) % 0x100;
    forall j | 0 <= j < 8
      ensures Bit(x, j) == Sum(Bit(crc, j + 8), Bit(b, j))
    {
      ModBit8(Xor(crc / 0x100, b), j);
      XorBit(crc / 0x100, b, j);
      ShrBit8(crc, j);
    }
    ModBit8(Xor(x, x / 0x10), i);
    XorBit(x, x / 0x10, i);
    ShrBit4(x, i);
    if i >= 4 {
      HighByteBits(x, i + 4);
    }
  }

  /** The bits of the accumulator after each statement of the loop. */
  lemma SwapBits(crc: word, b: byte, i: nat)
    requires i < 16
    ensures Bit(Xor(Or(crc / 0x100, crc * 0x100) % 0x1_0000, b) % 0x1_0000, i) ==
      if i < 8 then Sum(Bit(crc, i + 8), Bit(b, i)) else Bit(crc, i - 8)
  {
    hide Bit;
    var swapped := Or(crc / 0x100, crc * 0x100);
    ModBit16(Xor(swapped % 0x1_0000, b), i);
    XorBit(swapped % 0x1_0000, b, i);
    ModBit16(swapped, i);
    OrBit(crc / 0x100, crc * 0x100, i);
    ShrBit8(crc, i);
    ShlBit8(crc, i);
    if i >= 8 {
      HighByteBits(b, i);
      HighByteBits(crc / 0x100, i);
    }
  }

  lemma FoldBits(crc: word, b: byte, c2: word, i: nat)
    requires i < 16
    requires forall j :: 0 <= j < 16 ==>
      Bit(c2, j) == if j < 8 then Sum(Bit(crc, j + 8), Bit(b, j)) else Bit(crc, j - 8)
    ensures Bit(Xor(c2, c2 % 0x100 / 0x10) % 0x1_0000, i) ==
      if i < 8 then Bit(QuotientByte(crc, b), i) else Bit(crc, i - 8)
  {
    hide Bit;
    ModBit16(Xor(c2, c2 % 0x100 / 0x10), i);
    XorBit(c2, c2 % 0x100 / 0x10, i);
    ShrBit4(c2 % 0x100, i);
    ModBit8(c2, i + 4);
    if i < 8 {
      QuotientBits(crc, b, i);
      assert i < 4 ==> Bit(c2, i + 4) == Sum(Bit(crc, i + 12), Bit(b, i + 4));
    }
  }

  /** The last two statements. */
  lemma LastBits(c3: word, i: nat)
    requires i < 16
    ensures var c4 := Xor(c3, c3 * 0x100 * 0x10) % 0x1_0000;
      Bit(Xor(c4, c4 % 0x100 * 0x10 * 2) % 0x1_0000, i) ==
      Sum(Sum(Bit(c3, i), 12 <= i && Bit(c3, i - 12)), 5 <= i < 13 && Bit(c3, i - 5))
  {
    hide Bit;
    var c4 := Xor(c3, c3 * 0x100 * 0x10) % 0x1_0000;
    var low := c4 % 0x100;
    ModBit16(Xor(c4, low * 0x10 * 2), i);
    XorBit(c4, low * 0x10 * 2, i);
    ShlBit5(low, i);
    if i >= 5 {
      ModBit8(c4, i - 5);
      AccumulatedBit(c3, i - 5);
    }
    AccumulatedBit(c3, i);
  }

  lemma AccumulatedBit(c3: word, i: nat)
    requires i < 16
    ensures Bit(Xor(c3, c3 * 0x100 * 0x10) % 0x1_0000, i) == Sum(Bit(c3, i), 12 <= i && Bit(c3, i - 12))
  {
    hide Bit;
    ModBit16(Xor(c3, c3 * 0x100 * 0x10), i);
    XorBit(c3, c3 * 0x100 * 0x10, i);
    ShlBit12(c3, i);
  }

  /** The bits of the accumulator after a step. */
  lemma StepBits(crc: word, b: byte, i: nat)
    requires i < 16
    ensures Bit(ByteStep(crc, b), i) ==
      Sum(Sum(if i < 8 then Bit(QuotientByte(crc, b), i) else Bit(crc, i - 8),
              12 <= i && Bit(QuotientByte(crc, b), i - 12)),
          5 <= i < 13 && Bit(QuotientByte(crc, b), i - 5))
  {
    hide Bit, QuotientByte, Xor, Or;
    var c2 := Xor(Or(crc / 0x100, crc * 0x100) % 0x1_0000, b) % 0x1_0000;
    var c3 := Xor(c2, c2 % 0x100 / 0x10) % 0x1_0000;
    forall j | 0 <= j < 16
      ensures Bit(c2, j) == if j < 8 then Sum(Bit(crc, j + 8), Bit(b, j)) else Bit(crc, j - 8)
    {
      SwapBits(crc, b, j);
    }
    FoldBits(crc, b, c2, i);
    LastBits(c3, i);
    if i >= 12 {
      FoldBits(crc, b, c2, i - 12);
    }
    if 5 <= i < 13 {
      FoldBits(crc, b, c2, i - 5);
    }
  }

  // ----- polynomial division -----

  /** The coefficients of the message, highest first: the bits of its bytes, highest bit first. */
  predicate Coefficient(s: seq<byte>, k: int) {
    0 <= k < 8 * |s| && Bit(s[k / 8], 7 - k % 8)
  }

  /** The coefficient of the remainder, counted from where the quotient ends. */
  predicate Rest(r: word, k: int) {
    0 <= k < 16 && Bit(r, 15 - k)
  }

  /** Coefficient `k`, from the highest, of the quotient times x^16 + x^12 + x^5 + 1. */
  predicate Product(q: seq<byte>, k: int) {
    Sum(Sum(Coefficient(q, k), Coefficient(q, k - 4)), Sum(Coefficient(q, k - 11), Coefficient(q, k - 16)))
  }

  /** The message followed by 16 zero bits is the quotient times the generator, plus `r`. */
  ghost predicate Divides(s: seq<byte>, q: seq<byte>, r: word) {
    |q| == |s| && forall k :: 0 <= k < 8 * |s| + 16 ==> DividesAt(s, q, r, k)
  }

  predicate DividesAt(s: seq<byte>, q: seq<byte>, r: word, k: int) {
    Coefficient(s, k) == Sum(Product(q, k), Rest(r, k - 8 * |s|))
  }

  function Quotient(s: seq<byte>): (q: seq<byte>)
    ensures |q| == |s|
  {
    if s == [] then [] else Quotient(s[..|s| - 1]) + [QuotientByte(Crc16(s[..|s| - 1]), s[|s| - 1])]
  }

  /** A coefficient of a message with one more byte. */
  lemma Appended(s: seq<byte>, b: byte, k: int)
    ensures Coefficient(s + [b], k) ==
      if k < 8 * |s| then Coefficient(s, k) else k < 8 * |s| + 8 && Bit(b, 7 - (k - 8 * |s|))
  {
    if 8 * |s| <= k < 8 * |s| + 8 {
      assert k / 8 == |s| && k % 8 == k - 8 * |s|;
    }
  }

  lemma DividesMore(s: seq<byte>, q: seq<byte>, r: word, b: byte, k: int)
    requires |q| == |s| && Divides(s, q, r) && 0 <= k < 8 * |s| + 24
    ensures DividesAt(s + [b], q + [QuotientByte(r, b)], ByteStep(r, b), k)
  {
    hide Bit, QuotientByte, ByteStep;
    assert forall j :: 8 * |s| <= j ==> !Coefficient(s, j) && !Coefficient(q, j);
    hide Coefficient;
    var n, y := 8 * |s|, QuotientByte(r, b);
    Appended(s, b, k);
    Appended(q, y, k);
    Appended(q, y, k - 4);
    Appended(q, y, k - 11);
    Appended(q, y, k - 16);
    if k < n {
      assert DividesAt(s, q, r, k);
    } else if k < n + 8 {
      assert DividesAt(s, q, r, k);
      QuotientBits(r, b, 7 - (k - n));
      if k - n >= 4 {
        QuotientBits(r, b, 11 - (k - n));
      }
    } else {
      if k < n + 16 {
        assert DividesAt(s, q, r, k);
      }
      StepBits(r, b, 15 - (k - n - 8));
    }
  }

  /** The code divides. */
  lemma {:induction false} CrcDivides(s: seq<byte>)
    ensures Divides(s, Quotient(s), Crc16(s))
  {
    hide Bit, QuotientByte, ByteStep, Divides, DividesAt;
    if s == [] {
      NothingDivides();
    } else {
      var most, b := s[..|s| - 1], s[|s| - 1];
      CrcDivides(most);
      assert s == most + [b];
      StepDivides(most, Quotient(most), Crc16(most), b);
    }
  }

  lemma NothingDivides()
    ensures Divides([], [], 0)
  {
    forall i | 0 <= i < 16
      ensures !Bit(0, i)
    {
      ZeroBit(i);
    }
  }

  lemma StepDivides(s: seq<byte>, q: seq<byte>, r: word, b: byte)
    requires |q| == |s| && Divides(s, q, r)
    ensures Divides(s + [b], q + [QuotientByte(r, b)], ByteStep(r, b))
  {
    hide DividesAt;
    forall k | 0 <= k < 8 * |s| + 24
      ensures DividesAt(s + [b], q + [QuotientByte(r, b)], ByteStep(r, b), k)
    {
      DividesMore(s, q, r, b, k);
    }
  }

  /** Quotient coefficients are forced one by one, from the highest. */
  lemma {:induction false} SameCoefficients(s: seq<byte>, q: seq<byte>, r: word, p: seq<byte>, t: word, k: nat)
    requires Divides(s, q, r) && Divides(s, p, t) && k <= 8 * |s|
    ensures forall j :: j < k ==> Coefficient(q, j) == Coefficient(p, j)
    decreases k
  {
    if k > 0 {
      SameCoefficients(s, q, r, p, t, k - 1);
      assert DividesAt(s, q, r, k - 1) && DividesAt(s, p, t, k - 1);
      hide Coefficient;
    } else {
      assert forall j :: j < 0 ==> !Coefficient(q, j) && !Coefficient(p, j);
    }
  }

  lemma SameBytes(q: seq<byte>, p: seq<byte>)
    requires |q| == |p| && forall j :: j < 8 * |q| ==> Coefficient(q, j) == Coefficient(p, j)
    ensures q == p
  {
    forall m | 0 <= m < |q|
      ensures q[m] == p[m]
    {
      forall i | 0 <= i < 8
        ensures Bit(q[m], i) == Bit(p[m], i)
      {
        var k := 8 * m + (7 - i);
        assert k / 8 == m && k % 8 == 7 - i;
        assert Coefficient(q, k) == Coefficient(p, k);
      }
      Pow2Values();
      SameBits(q[m], p[m], 8);
    }
  }

  /** There is one quotient and one remainder. */
  lemma DivisionIsUnique(s: seq<byte>, q: seq<byte>, r: word, p: seq<byte>, t: word)
    requires Divides(s, q, r) && Divides(s, p, t)
    ensures q == p && r == t
  {
    SameCoefficients(s, q, r, p, t, 8 * |s|);
    SameBytes(q, p);
    forall i | 0 <= i < 16
      ensures Bit(r, i) == Bit(t, i)
    {
      var k := 8 * |s| + 15 - i;
      assert DividesAt(s, q, r, k) && DividesAt(s, p, t, k);
    }
    Pow2Values();
    SameBits(r, t, 16);
  }

  /** The CRC of a buffer is the remainder, and nothing else is. */
  lemma CrcIsRemainder(s: seq<byte>, r: word)
    ensures r == Crc16(s) <==> exists q :: Divides(s, q, r)
  {
    CrcDivides(s);
    forall q | Divides(s, q, r)
      ensures r == Crc16(s)
    {
      DivisionIsUnique(s, q, r, Quotient(s), Crc16(s));
    }
  }

  // ----- the check of a block -----

  lemma LowByteIs(n: word, l: byte)
    requires forall i :: 0 <= i < 8 ==> Bit(n, i) == Bit(l, i)
    ensures n % 0x100 == l
  {
    Pow2Values();
    forall i | 0 <= i < 8
      ensures Bit(n % 0x100, i) == Bit(l, i)
    {
      ModBit8(n, i);
    }
    SameBits(n % 0x100, l, 8);
  }

  /** No quotient bit is set exactly when the byte is the high byte of the register. */
  lemma NoQuotientBit(crc: word, b: byte)
    requires forall i :: 0 <= i < 8 ==> !Bit(QuotientByte(crc, b), i)
    ensures crc / 0x100 == b
  {
    hide Bit, QuotientByte;
    forall i | 0 <= i < 8
      ensures Bit(crc / 0x100, i) == Bit(b, i)
    {
      ShrBit8(crc, i);
      QuotientBits(crc, b, i);
      if i < 4 {
        QuotientBits(crc, b, i + 4);
        assert !Bit(QuotientByte(crc, b), i + 4);
      }
    }
    Pow2Values();
    SameBits(crc / 0x100, b, 8);
  }

  lemma OwnByteNoQuotient(crc: word, b: byte, i: nat)
    requires crc / 0x100 == b && i < 8
    ensures !Bit(QuotientByte(crc, b), i)
  {
    hide Bit, QuotientByte;
    QuotientBits(crc, b, i);
    ShrBit8(crc, i);
    if i < 4 {
      ShrBit8(crc, i + 4);
    }
  }

  lemma WordBits(h: byte, l: byte, i: nat)
    requires i < 16
    ensures Bit(0x100 * h + l, i) == if i < 8 then Bit(l, i) else Bit(h, i - 8)
  {
    var n := 0x100 * h + l;
    assert n / 0x100 == h && n % 0x100 == l;
    ModBit8(n, i);
    if i >= 8 {
      ShrBit8(n, i - 8);
    }
  }

  /** If a step leaves a zero low byte, there was no quotient bit, and the low byte moved up. */
  lemma ShiftedOut(crc: word, h: byte, l: byte, i: nat)
    requires ByteStep(crc, h) == 0x100 * l && i < 8
    ensures !Bit(QuotientByte(crc, h), i) && Bit(crc, i) == Bit(l, i)
  {
    hide Bit, QuotientByte, ByteStep;
    LowQuotient(crc, h, l, i);
    StepBits(crc, h, i + 8);
    ShlBit8(l, i + 8);
    if i >= 4 {
      LowQuotient(crc, h, l, i - 4);
    }
    if i + 3 < 8 {
      LowQuotient(crc, h, l, i + 3);
    }
  }

  lemma LowQuotient(crc: word, h: byte, l: byte, i: nat)
    requires ByteStep(crc, h) == 0x100 * l && i < 8
    ensures !Bit(QuotientByte(crc, h), i)
  {
    hide Bit, QuotientByte, ByteStep;
    StepBits(crc, h, i);
    ShlBit8(l, i);
    if i >= 5 {
      StepBits(crc, h, i - 5);
      ShlBit8(l, i - 5);
    }
  }

  /** A step on the register's own high byte shifts it out, and no other byte does. */
  lemma StepShiftsOut(crc: word, h: byte, l: byte)
    ensures ByteStep(crc, h) == 0x100 * l <==> crc == 0x100 * h + l
  {
    hide Bit, QuotientByte, ByteStep;
    Pow2Values();
    if ByteStep(crc, h) == 0x100 * l {
      forall i | 0 <= i < 8
        ensures !Bit(QuotientByte(crc, h), i) && Bit(crc, i) == Bit(l, i)
      {
        ShiftedOut(crc, h, l, i);
      }
      NoQuotientBit(crc, h);
      LowByteIs(crc, l);
    } else if crc == 0x100 * h + l {
      forall i | 0 <= i < 16
        ensures Bit(ByteStep(crc, h), i) == Bit(0x100 * l, i)
      {
        StepBits(crc, h, i);
        ShlBit8(l, i);
        OwnByteNoQuotient(crc, h, if i < 8 then i else i - 8);
        if i >= 8 {
          WordBits(h, l, i - 8);
        }
        if 5 <= i < 13 {
          OwnByteNoQuotient(crc, h, i - 5);
        }
        if i >= 12 {
          OwnByteNoQuotient(crc, h, i - 12);
        }
      }
      SameBits(ByteStep(crc, h), 0x100 * l, 16);
    }
  }

  /** Two bytes after a buffer make the CRC zero exactly when they are its CRC, high byte first. */
  lemma OwnCrcGivesZero(s: seq<byte>, h: byte, l: byte)
    ensures Crc16(s + [h, l]) == 0 <==> Crc16(s) == 0x100 * h + l
  {
    hide ByteStep;
    var one, two := s + [h], s + [h, l];
    assert two[..|s| + 1] == one && one[..|s|] == s;
    assert Crc16(two) == ByteStep(Crc16(one), l) && Crc16(one) == ByteStep(Crc16(s), h);
    StepShiftsOut(Crc16(s), h, l);
    StepShiftsOut(Crc16(one), l, 0);
  }
}
