/** Bitwise operations of the C code on unsigned numbers.

    `And` and `Xor` work on numbers of any width, bit by bit from the lowest.  The hash table masks
    with them, the WebSocket masks messages, and the CRC is made of them.  Masking with a power of two
    less one is taking the remainder, xor with the same number undoes itself, and neither leaves the
    width of its operands.  Shifts are products and quotients with powers of two, written out where
    they are used. */
module Bits {

  function Pow2(k: nat): (p: nat)
    ensures p > 0
  {
    if k == 0 then 1 else 2 * Pow2(k - 1)
  }

  lemma Pow2Values()
    ensures Pow2(5) == 0x20 && Pow2(8) == 0x100 && Pow2(12) == 0x1000 && Pow2(16) == 0x1_0000
  {
    assert Pow2(4) == 0x10;
    assert Pow2(8) == 16 * Pow2(4);
    assert Pow2(12) == 16 * Pow2(8);
    assert Pow2(16) == 16 * Pow2(12);
  }

  function And(a: nat, b: nat): nat
    decreases b
  {
    if b == 0 then 0 else (if a % 2 == 1 && b % 2 == 1 then 1 else 0) + 2 * And(a / 2, b / 2)
  }

  function Xor(a: nat, b: nat): nat
    decreases a + b
  {
    if a == 0 && b == 0 then 0 else (a + b) % 2 + 2 * Xor(a / 2, b / 2)
  }

  lemma {:induction false} AndAtMost(a: nat, b: nat)
    ensures And(a, b) <= b
    decreases b
  {
    if b != 0 {
      AndAtMost(a / 2, b / 2);
    }
  }

  lemma HalfMod(a: nat, p: nat)
    requires p > 0
    ensures a % (2 * p) == a % 2 + 2 * ((a / 2) % p)
  {
    var q := (a / 2) / p;
    var r := a % 2 + 2 * ((a / 2) % p);
    assert a / 2 == p * q + (a / 2) % p;
    assert a == (2 * p) * q + r by {
      assert 2 * (p * q) == (2 * p) * q;
    }
    ModUnique(a, 2 * p, q, r);
  }

  lemma ModUnique(a: nat, m: nat, q: nat, r: nat)
    requires a == m * q + r && r < m
    ensures a % m == r
  {
    var d := a / m - q;
    assert a == m * (a / m) + a % m;
    assert m * (a / m) - m * q == m * d;
  }

  /** Halving a mask of ones gives the next shorter one. */
  lemma HalfMask(p: nat)
    requires p > 0
    ensures (2 * p - 1) / 2 == p - 1 && (2 * p - 1) % 2 == 1
  {
  }

  lemma AndNone(a: nat)
    ensures And(a, 0) == 0 == a % 1
  {
  }

  /** Of the lowest bit and the others, a mask of ones keeps the lowest and masks the others. */
  lemma AndHalves(a: nat, p: nat)
    requires p > 0
    ensures And(a, 2 * p - 1) == a % 2 + 2 * And(a / 2, p - 1)
  {
    HalfMask(p);
  }

  /** Masking with a power of two less one is taking the remainder. */
  lemma {:induction false} AndIsMod(a: nat, k: nat)
    ensures And(a, Pow2(k) - 1) == a % Pow2(k)
    decreases k
  {
    hide And;
    if k == 0 {
      AndNone(a);
    } else {
      var p := Pow2(k - 1);
      AndIsMod(a / 2, k - 1);
      AndHalves(a, p);
      HalfMod(a, p);
    }
  }

  lemma HalfXor(a: nat, b: nat)
    ensures Xor(a, b) / 2 == Xor(a / 2, b / 2) && Xor(a, b) % 2 == (a + b) % 2
  {
  }

  lemma Parity(a: nat, b: nat, x: nat)
    requires x % 2 == (a + b) % 2
    ensures (x + b) % 2 == a % 2
  {
  }

  lemma {:induction false} XorUndoes(a: nat, b: nat)
    ensures Xor(Xor(a, b), b) == a
    decreases a + b
  {
    if a != 0 || b != 0 {
      XorUndoes(a / 2, b / 2);
      HalfXor(a, b);
      HalfXor(Xor(a, b), b);
      Parity(a, b, Xor(a, b));
      hide Xor;
    }
  }

  lemma {:induction false} XorBelow(a: nat, b: nat, k: nat)
    requires a < Pow2(k) && b < Pow2(k)
    ensures Xor(a, b) < Pow2(k)
    decreases k
  {
    if k > 0 {
      XorBelow(a / 2, b / 2, k - 1);
    } else {
      assert a == 0 && b == 0;
    }
  }
}
