/** Unsigned 32-bit words and bytes as bounded naturals, with the bitwise
    operators that the JavaScript checksum uses.

    JavaScript's `^` and `&` work on the 32-bit two's-complement pattern of
    their operands and `>>>` on the unsigned reading of it. Every word here
    is that unsigned reading, so `x ^ y` is `Xor(x, y)`, `x >>> k` is
    `Shr(x, k)` and `x & (2^k - 1)` is `Low(x, k)`. */
module Bitwise {

  type byte = x: nat | x < 256

  type u32 = x: nat | x < 0x1_0000_0000

  /** 2 to the power `n`. */
  function Pow2(n: nat): (p: nat)
    ensures p >= 1
  {
    if n == 0 then 1 else 2 * Pow2(n - 1)
  }

  /** Bitwise exclusive or, one binary digit at a time from the lowest. */
  function Xor(a: nat, b: nat): nat
    decreases a + b
  {
    if a == 0 && b == 0 then 0 else 2 * Xor(a / 2, b / 2) + Differ(a, b)
  }

  /** The lowest digit of `a ^ b`: 1 when the lowest digits differ. */
  function Differ(a: nat, b: nat): nat {
    if a % 2 == b % 2 then 0 else 1
  }

  /** `x` shifted right by `k` binary places (`x >>> k`). */
  function Shr(x: nat, k: nat): nat {
    if k == 0 then x else Shr(x / 2, k - 1)
  }

  /** The lowest `k` binary digits of `x` (`x & (2^k - 1)`). */
  function Low(x: nat, k: nat): nat {
    if k == 0 then 0 else 2 * Low(x / 2, k - 1) + x % 2
  }

  /** `x` with its lowest `k` binary digits cleared. */
  function High(x: nat, k: nat): nat {
    if k == 0 then x else 2 * High(x / 2, k - 1)
  }

  lemma Pow2Values()
    ensures Pow2(8) == 256
    ensures Pow2(32) == 0x1_0000_0000
  {
    assert Pow2(4) == 16 by {
      assert Pow2(1) == 2;
      assert Pow2(2) == 4;
      assert Pow2(3) == 8;
    }
    assert Pow2(8) == 256 by {
      assert Pow2(5) == 32;
      assert Pow2(6) == 64;
      assert Pow2(7) == 128;
    }
    assert Pow2(16) == 0x1_0000 by {
      assert Pow2(9) == 512;
      assert Pow2(10) == 1024;
      assert Pow2(11) == 2048;
      assert Pow2(12) == 4096;
      assert Pow2(13) == 8192;
      assert Pow2(14) == 16384;
      assert Pow2(15) == 32768;
    }
    assert Pow2(24) == 0x100_0000 by {
      assert Pow2(17) == 0x2_0000;
      assert Pow2(18) == 0x4_0000;
      assert Pow2(19) == 0x8_0000;
      assert Pow2(20) == 0x10_0000;
      assert Pow2(21) == 0x20_0000;
      assert Pow2(22) == 0x40_0000;
      assert Pow2(23) == 0x80_0000;
    }
    assert Pow2(25) == 0x200_0000;
    assert Pow2(26) == 0x400_0000;
    assert Pow2(27) == 0x800_0000;
    assert Pow2(28) == 0x1000_0000;
    assert Pow2(29) == 0x2000_0000;
    assert Pow2(30) == 0x4000_0000;
    assert Pow2(31) == 0x8000_0000;
  }

  /** Appending the digit `r` to `h` and taking it off again. */
  lemma Digits(h: nat, r: nat)
    requires r < 2
    ensures (2 * h + r) % 2 == r && (2 * h + r) / 2 == h
  {
  }

  /** A number written as `2 * h + r` has lowest digit `r` and remaining
      digits `h`. */
  lemma SplitDigits(x: nat, h: nat, r: nat)
    requires r < 2 && x == 2 * h + r
    ensures x % 2 == r && x / 2 == h
  {
  }

  /** Two naturals with the same lowest digit and the same remaining digits
      are equal. */
  lemma EqualByDigits(x: nat, y: nat)
    requires x % 2 == y % 2 && x / 2 == y / 2
    ensures x == y
  {
  }

  /** One unfolding of `Xor`, as an equation. */
  lemma XorUnfold(a: nat, b: nat)
    ensures Xor(a, b) == 2 * Xor(a / 2, b / 2) + Differ(a, b)
  {
  }

  /** The lowest digit and the remaining digits of an exclusive or. */
  lemma XorHalf(a: nat, b: nat)
    ensures Xor(a, b) % 2 == Differ(a, b)
    ensures Xor(a, b) / 2 == Xor(a / 2, b / 2)
  {
    XorUnfold(a, b);
    SplitDigits(Xor(a, b), Xor(a / 2, b / 2), Differ(a, b));
  }

  /** Zero is the identity of exclusive or. */
  lemma {:induction false} XorZero(a: nat)
    ensures Xor(a, 0) == a
    ensures Xor(0, a) == a
  {
    if a != 0 {
      XorZero(a / 2);
    }
  }

  lemma {:induction false} XorComm(a: nat, b: nat)
    ensures Xor(a, b) == Xor(b, a)
    decreases a + b
  {
    if a != 0 || b != 0 {
      XorComm(a / 2, b / 2);
    }
  }

  /** Every word cancels itself. */
  lemma {:induction false} XorSelf(a: nat)
    ensures Xor(a, a) == 0
  {
    if a != 0 {
      XorSelf(a / 2);
    }
  }

  lemma {:induction false} XorAssoc(a: nat, b: nat, c: nat)
    ensures Xor(Xor(a, b), c) == Xor(a, Xor(b, c))
    decreases a + b + c
  {
    if a != 0 || b != 0 || c != 0 {
      var ab, bc := Xor(a, b), Xor(b, c);
      var l, r := Xor(ab, c), Xor(a, bc);
      XorHalf(a, b);
      XorHalf(b, c);
      XorHalf(ab, c);
      XorHalf(a, bc);
      XorAssoc(a / 2, b / 2, c / 2);
      assert l / 2 == r / 2;
      assert l % 2 == r % 2;
      EqualByDigits(l, r);
    }
  }

  /** The exclusive or of two `n`-digit numbers has `n` digits. */
  lemma {:induction false} XorBound(a: nat, b: nat, n: nat)
    requires a < Pow2(n) && b < Pow2(n)
    ensures Xor(a, b) < Pow2(n)
  {
    if n > 0 && (a != 0 || b != 0) {
      XorBound(a / 2, b / 2, n - 1);
    }
  }

  /** A 32-bit exclusive or stays within 32 bits. */
  lemma XorU32(a: u32, b: u32)
    ensures Xor(a, b) < 0x1_0000_0000
  {
    Pow2Values();
    XorBound(a, b, 32);
  }

  /** XOR with all ones below `2^n` is the complement. */
  lemma {:induction false} XorAllOnes(c: nat, n: nat)
    requires c < Pow2(n)
    ensures Xor(c, Pow2(n) - 1) == Pow2(n) - 1 - c
  {
    if n > 0 {
      var p, m := Pow2(n - 1), Pow2(n) - 1;
      SplitDigits(m, p - 1, 1);
      assert c / 2 < p;
      XorAllOnes(c / 2, n - 1);
      XorUnfold(c, m);
      assert Differ(c, m) == 1 - c % 2;
    }
  }

  /** Shifting right distributes over exclusive or. */
  lemma {:induction false} XorShr(a: nat, b: nat, k: nat)
    ensures Shr(Xor(a, b), k) == Xor(Shr(a, k), Shr(b, k))
  {
    if k > 0 {
      XorHalf(a, b);
      XorShr(a / 2, b / 2, k - 1);
    }
  }

  /** A number with at most `k` digits is cleared by a shift of `k`. */
  lemma {:induction false} ShrSmall(x: nat, k: nat)
    requires x < Pow2(k)
    ensures Shr(x, k) == 0
  {
    if k > 0 {
      ShrSmall(x / 2, k - 1);
    }
  }

  /** The low part has at most `k` digits. */
  lemma {:induction false} LowBound(x: nat, k: nat)
    ensures Low(x, k) < Pow2(k)
  {
    if k > 0 {
      LowBound(x / 2, k - 1);
    }
  }

  /** A number is its low part plus its high part, and the high part has no
      low digits. */
  lemma {:induction false} LowHigh(x: nat, k: nat)
    ensures Low(x, k) + High(x, k) == x
    ensures Low(High(x, k), k) == 0
  {
    if k > 0 {
      var h := High(x / 2, k - 1);
      LowHigh(x / 2, k - 1);
      Digits(h, 0);
    }
  }

  /** If the lowest `k` digits of `hi` are clear and `lo` has at most `k`
      digits, exclusive or is addition. */
  lemma {:induction false} XorDisjoint(lo: nat, hi: nat, k: nat)
    requires lo < Pow2(k) && Low(hi, k) == 0
    ensures Xor(lo, hi) == lo + hi
  {
    if k == 0 {
      XorZero(hi);
    } else if lo != 0 || hi != 0 {
      assert hi % 2 == 0 && Low(hi / 2, k - 1) == 0;
      XorDisjoint(lo / 2, hi / 2, k - 1);
      assert Xor(lo, hi) == 2 * (lo / 2 + hi / 2) + lo % 2;
    }
  }
}
