/** Arithmetic counterparts of the bit operations the cipher performs on
    unsigned words.  On a non-negative value, a right shift by n halves it n
    times, a mask of the low n bits keeps the last n binary digits, a left
    shift doubles n times, and an `|` of two disjoint bit ranges is an
    addition; exclusive or is defined digit by digit.  Each definition
    recurses one bit at a time, so every step of every proof stays in
    linear integer arithmetic. */
module Bits {

  /** 2^n */
  function Pow2(n: nat): (p: nat)
    ensures p >= 1
  {
    if n == 0 then 1 else 2 * Pow2(n - 1)
  }

  lemma {:induction false} Pow2Monotone(a: nat, b: nat)
    requires a <= b
    ensures Pow2(a) <= Pow2(b)
  {
    if a < b {
      Pow2Monotone(a, b - 1);
    }
  }

  lemma Pow2Strict(a: nat, b: nat)
    requires a < b
    ensures Pow2(a) < Pow2(b)
  {
    Pow2Monotone(a + 1, b);
  }

  /** The powers of two that bound half blocks, words and intervals. */
  lemma Pow2Constants()
    ensures Pow2(31) == 0x8000_0000
    ensures Pow2(32) == 0x1_0000_0000
    ensures Pow2(62) == 0x4000_0000_0000_0000
    ensures Pow2(64) == 0x1_0000_0000_0000_0000
  {
    assert Pow2(8) == 0x100;
    assert Pow2(16) == 0x1_0000 by { Pow2Shift(8, 8); }
    assert Pow2(24) == 0x100_0000 by { Pow2Shift(16, 8); }
    assert Pow2(31) == 0x8000_0000 by { Pow2Shift(24, 7); }
    assert Pow2(32) == 0x1_0000_0000 by { Pow2Shift(24, 8); }
    assert Pow2(39) == 0x80_0000_0000 by { Pow2Shift(31, 8); }
    assert Pow2(47) == 0x8000_0000_0000 by { Pow2Shift(39, 8); }
    assert Pow2(55) == 0x80_0000_0000_0000 by { Pow2Shift(47, 8); }
    assert Pow2(62) == 0x4000_0000_0000_0000 by { Pow2Shift(55, 7); }
    assert Pow2(64) == 0x1_0000_0000_0000_0000 by { Pow2Shift(62, 2); }
  }

  /** 2^(a + b) == 2^a * 2^b */
  lemma {:induction false} Pow2Shift(a: nat, b: nat)
    ensures Pow2(a + b) == Pow2(a) * Pow2(b)
  {
    if b > 0 {
      Pow2Shift(a, b - 1);
    }
  }

  /** x >> n */
  function Shr(x: nat, n: nat): nat {
    if n == 0 then x else Shr(x / 2, n - 1)
  }

  /** x & (2^n - 1) */
  function Low(x: nat, n: nat): nat {
    if n == 0 then 0 else 2 * Low(x / 2, n - 1) + x % 2
  }

  /** x << n */
  function Shl(x: nat, n: nat): nat {
    if n == 0 then x else 2 * Shl(x, n - 1)
  }

  lemma {:induction false} LowBound(x: nat, n: nat)
    ensures Low(x, n) < Pow2(n)
  {
    if n > 0 {
      LowBound(x / 2, n - 1);
    }
  }

  /** The high part shifted back plus the low part is the value itself. */
  lemma {:induction false} ShrLow(x: nat, n: nat)
    ensures Shl(Shr(x, n), n) + Low(x, n) == x
  {
    if n > 0 {
      ShrLow(x / 2, n - 1);
      ShlHalf(Shr(x / 2, n - 1), n);
    }
  }

  lemma ShlHalf(x: nat, n: nat)
    requires n > 0
    ensures Shl(x, n) == 2 * Shl(x, n - 1)
  {
  }

  /** The high part of a value below 2^(n+m) has fewer than m bits. */
  lemma {:induction false} ShrBound(x: nat, n: nat, m: nat)
    requires x < Pow2(n + m)
    ensures Shr(x, n) < Pow2(m)
  {
    if n > 0 {
      ShrBound(x / 2, n - 1, m);
    }
  }

  /** Shifting an m-bit value left by n and adding an n-bit value gives a
      value below 2^(n+m), whose high and low parts are the two operands. */
  lemma {:induction false} ShlAdd(hi: nat, lo: nat, n: nat, m: nat)
    requires hi < Pow2(m) && lo < Pow2(n)
    ensures Shl(hi, n) + lo < Pow2(n + m)
    ensures Shr(Shl(hi, n) + lo, n) == hi
    ensures Low(Shl(hi, n) + lo, n) == lo
  {
    if n > 0 {
      ShlAdd(hi, lo / 2, n - 1, m);
      var x := Shl(hi, n) + lo;
      assert x / 2 == Shl(hi, n - 1) + lo / 2;
    }
  }

  /** The quotient and remainder of a Euclidean division are determined by
      the equation x == q * d + r with 0 <= r < d. */
  lemma DivModUnique(x: int, d: int, q: int, r: int)
    requires d > 0 && 0 <= r < d && x == q * d + r
    ensures x / d == q && x % d == r
  {
    var q', r' := x / d, x % d;
    assert x == q' * d + r';
    assert (q - q') * d == r' - r;
    if q > q' {
      assert (q - q') * d >= d by { MulAtLeast(q - q', d); }
      assert false;
    } else if q < q' {
      assert (q' - q) * d >= d by { MulAtLeast(q' - q, d); }
      assert false;
    }
  }

  lemma MulAtLeast(m: int, d: int)
    requires m >= 1 && d > 0
    ensures m * d >= d
  {
  }

  /** Bitwise exclusive or of two naturals. */
  function Xor(a: nat, b: nat): nat
    decreases a + b
  {
    if a == 0 && b == 0 then 0 else 2 * Xor(a / 2, b / 2) + (a % 2 + b % 2) % 2
  }

  /** Exclusive or acts on the lowest bit and the remaining bits separately. */
  lemma XorBits(a: nat, b: nat)
    ensures Xor(a, b) % 2 == (a % 2 + b % 2) % 2
    ensures Xor(a, b) / 2 == Xor(a / 2, b / 2)
  {
    if a == 0 && b == 0 {
      assert Xor(a / 2, b / 2) == 0;
    }
    DivModUnique(Xor(a, b), 2, Xor(a / 2, b / 2), (a % 2 + b % 2) % 2);
  }

  /** (l ^ a ^ b) & (2^n - 1), computed bit by bit over the low n bits. */
  function MaskedXor(l: nat, a: nat, b: nat, n: nat): (z: nat)
  {
    if n == 0 then 0 else 2 * MaskedXor(l / 2, a / 2, b / 2, n - 1) + (l % 2 + a % 2 + b % 2) % 2
  }

  lemma {:induction false} MaskedXorBound(l: nat, a: nat, b: nat, n: nat)
    ensures MaskedXor(l, a, b, n) < Pow2(n)
  {
    if n > 0 {
      MaskedXorBound(l / 2, a / 2, b / 2, n - 1);
    }
  }

  /** MaskedXor agrees with masking the bitwise exclusive or of the three
      operands. */
  lemma {:induction false} MaskedXorIsXor(l: nat, a: nat, b: nat, n: nat)
    ensures MaskedXor(l, a, b, n) == Low(Xor(Xor(l, a), b), n)
  {
    if n > 0 {
      var x := Xor(l, a);
      var y := Xor(x, b);
      XorBits(l, a);
      XorBits(x, b);
      assert y / 2 == Xor(Xor(l / 2, a / 2), b / 2);
      assert y % 2 == (l % 2 + a % 2 + b % 2) % 2 by {
        ParityAssoc(l % 2, a % 2, b % 2);
      }
      MaskedXorIsXor(l / 2, a / 2, b / 2, n - 1);
      assert Low(y, n) == 2 * Low(y / 2, n - 1) + y % 2;
    }
  }

  lemma ParityAssoc(x: nat, a: nat, b: nat)
    requires x < 2 && a < 2 && b < 2
    ensures ((x + a) % 2 + b) % 2 == (x + a + b) % 2
  {
  }

  lemma ParityCancel(x: nat, a: nat, b: nat)
    requires x < 2 && a < 2 && b < 2
    ensures ((x + a + b) % 2 + a + b) % 2 == x
  {
  }

  /** Xoring the same two words into the low n bits twice restores a value
      that already fits in n bits: the step that makes a Feistel round
      invertible. */
  lemma {:induction false} MaskedXorTwice(l: nat, a: nat, b: nat, n: nat)
    requires l < Pow2(n)
    ensures MaskedXor(MaskedXor(l, a, b, n), a, b, n) == l
  {
    if n > 0 {
      var bit := (l % 2 + a % 2 + b % 2) % 2;
      var z' := MaskedXor(l / 2, a / 2, b / 2, n - 1);
      var z := MaskedXor(l, a, b, n);
      assert z == 2 * z' + bit;
      DivModUnique(z, 2, z', bit);
      assert l / 2 < Pow2(n - 1);
      MaskedXorTwice(l / 2, a / 2, b / 2, n - 1);
      ParityCancel(l % 2, a % 2, b % 2);
      assert MaskedXor(z, a, b, n) == 2 * MaskedXor(z / 2, a / 2, b / 2, n - 1) + (z % 2 + a % 2 + b % 2) % 2;
    }
  }
}
