/**
 * Bit-level helpers for the G.711 companders: powers of two, exclusive or
 * on naturals (bit by bit, least significant first) and the segment number
 * both companders derive from the highest set bit of a 15-bit magnitude.
 */
module Bits {
  import opened Types

  /** 2^n, the value of `1 << n`. */
  function Pow2(n: nat): (r: nat)
    ensures r >= 1
  {
    if n == 0 then 1 else 2 * Pow2(n - 1)
  }

  lemma {:induction false} Pow2Monotone(a: nat, b: nat)
    requires a <= b
    ensures Pow2(a) <= Pow2(b)
  {
    if a < b {
      Pow2Monotone(a, b - 1);
    }
  }

  lemma Pow2Values()
    ensures Pow2(0) == 1 && Pow2(1) == 2 && Pow2(2) == 4
    ensures Pow2(3) == 8 && Pow2(4) == 16 && Pow2(5) == 32 && Pow2(6) == 64 && Pow2(7) == 128
    ensures Pow2(8) == 256 && Pow2(9) == 512 && Pow2(10) == 1024 && Pow2(11) == 2048
    ensures Pow2(12) == 4096 && Pow2(13) == 8192 && Pow2(14) == 16384 && Pow2(15) == 32768
  {
    assert Pow2(3) == 8;
    assert Pow2(7) == 128;
    assert Pow2(11) == 2048;
  }

  lemma {:induction false} Pow2Add(a: nat, b: nat)
    ensures Pow2(a + b) == Pow2(a) * Pow2(b)
  {
    if b > 0 {
      Pow2Add(a, b - 1);
    }
  }

  lemma MulLe(a: int, b: int, d: int)
    requires d > 0 && a <= b
    ensures a * d <= b * d
  {
    assert b * d - a * d == (b - a) * d;
  }

  /** Quotient and remainder are determined by `x == q * d + rem` with `0 <= rem < d`. */
  lemma DivUnique(x: int, d: int, q: int, rem: int)
    requires d > 0 && 0 <= rem < d && x == q * d + rem
    ensures x / d == q && x % d == rem
  {
    var k := x / d;
    if k > q {
      MulLe(q, k - 1, d);
      assert false;
    } else if k < q {
      MulLe(k, q - 1, d);
      assert false;
    }
  }

  lemma QuotientRange(x: int, d: int, lo: int, hi: int)
    requires d > 0 && lo * d <= x < hi * d
    ensures lo <= x / d < hi
  {
    var q := x / d;
    if q < lo {
      MulLe(q, lo - 1, d);
      assert false;
    } else if q >= hi {
      MulLe(hi, q, d);
      assert false;
    }
  }

  /** `a ^ b`: the bits set in exactly one of `a` and `b`. */
  function Xor(a: nat, b: nat): nat
    decreases a + b
  {
    if a == 0 && b == 0 then 0
    else (if a % 2 == b % 2 then 0 else 1) + 2 * Xor(a / 2, b / 2)
  }

  lemma Halves(x: nat, bit: nat, rest: nat)
    requires bit < 2 && x == bit + 2 * rest
    ensures x % 2 == bit && x / 2 == rest
  {
  }

  /** The low bit of `a ^ b` and the exclusive or of the bits above it. */
  lemma XorStep(a: nat, b: nat)
    ensures Xor(a, b) % 2 == (if a % 2 == b % 2 then 0 else 1) && Xor(a, b) / 2 == Xor(a / 2, b / 2)
  {
    Halves(Xor(a, b), if a % 2 == b % 2 then 0 else 1, Xor(a / 2, b / 2));
  }

  lemma {:induction false} XorZero(a: nat)
    ensures Xor(a, 0) == a && Xor(0, a) == a
    decreases a
  {
    if a != 0 {
      XorZero(a / 2);
    }
  }

  lemma {:induction false} XorCommutes(a: nat, b: nat)
    ensures Xor(a, b) == Xor(b, a)
    decreases a + b
  {
    if a != 0 || b != 0 {
      XorCommutes(a / 2, b / 2);
    }
  }

  /** Exclusive or with the same mask twice gives the original value back. */
  lemma {:induction false} XorTwice(a: nat, b: nat)
    ensures Xor(Xor(a, b), b) == a
    decreases a + b
  {
    var x := Xor(a, b);
    XorStep(a, b);
    if a != 0 || b != 0 {
      XorTwice(a / 2, b / 2);
      assert Xor(x, b) == (if x % 2 == b % 2 then 0 else 1) + 2 * Xor(x / 2, b / 2);
    }
  }

  /** Two masks can be applied in either order. */
  lemma {:induction false} XorSwap(a: nat, b: nat, c: nat)
    ensures Xor(Xor(a, b), c) == Xor(Xor(a, c), b)
    decreases a + b + c
  {
    var ab := Xor(a, b);
    var ac := Xor(a, c);
    XorStep(a, b);
    XorStep(a, c);
    if a != 0 || b != 0 || c != 0 {
      XorSwap(a / 2, b / 2, c / 2);
      assert Xor(ab, c) == (if ab % 2 == c % 2 then 0 else 1) + 2 * Xor(ab / 2, c / 2);
      assert Xor(ac, b) == (if ac % 2 == b % 2 then 0 else 1) + 2 * Xor(ac / 2, b / 2);
    }
  }

  /** A bit above both operands passes through the exclusive or unchanged. */
  lemma {:induction false} XorHighBit(a: nat, c: nat, k: nat)
    requires a < Pow2(k) && c < Pow2(k)
    ensures Xor(a + Pow2(k), c) == Xor(a, c) + Pow2(k)
  {
    if k == 0 {
      assert a == 0 && c == 0;
    } else {
      var p := Pow2(k - 1);
      assert Pow2(k) == 2 * p;
      Halves(a + 2 * p, a % 2, a / 2 + p);
      assert a / 2 < p && c / 2 < p;
      XorHighBit(a / 2, c / 2, k - 1);
      assert Xor(a + 2 * p, c) == (if a % 2 == c % 2 then 0 else 1) + 2 * Xor(a / 2 + p, c / 2);
    }
  }

  /** The exclusive or of two values below 2^k is below 2^k. */
  lemma {:induction false} XorBelow(a: nat, b: nat, k: nat)
    requires a < Pow2(k) && b < Pow2(k)
    ensures Xor(a, b) < Pow2(k)
  {
    if k > 0 && (a != 0 || b != 0) {
      XorBelow(a / 2, b / 2, k - 1);
    }
  }

  /** The exclusive or of two bytes is a byte. */
  lemma XorByte(a: byte, b: byte)
    ensures Xor(a, b) < 256
  {
    Pow2Values();
    XorBelow(a, b, 8);
  }

  /** `b ^ 0x80` on a byte: the sign bit toggled. */
  lemma FlipTop(b: byte)
    ensures Xor(b, 0x80) == if b < 128 then b + 128 else b - 128
  {
    assert Pow2(7) == 128;
    if b < 128 {
      XorHighBit(0, b, 7);
      XorZero(b);
      XorCommutes(b, 128);
    } else {
      XorHighBit(b - 128, 0, 7);
      XorZero(b - 128);
      XorTwice(b - 128, 128);
      XorCommutes(b - 128, 128);
    }
  }

  /**
   * The segment of a magnitude below 2^15: 0 when no bit from bit 8 up is
   * set, otherwise the position of the highest set bit minus 7.
   */
  function Segment(x: nat): (e: nat)
    requires x < 32768
    ensures e <= 7
    ensures e == 0 <==> x < 256
  {
    if x < 256 then 0
    else if x < 512 then 1
    else if x < 1024 then 2
    else if x < 2048 then 3
    else if x < 4096 then 4
    else if x < 8192 then 5
    else if x < 16384 then 6
    else 7
  }

  /** A nonzero segment is the power of two the magnitude's highest bit stands for. */
  lemma SegmentBracket(x: nat)
    requires x < 32768
    ensures Segment(x) > 0 ==> 128 * Pow2(Segment(x)) <= x < 256 * Pow2(Segment(x))
  {
    Pow2Values();
  }

  /** Only one segment brackets a magnitude. */
  lemma SegmentUnique(x: nat, e: nat)
    requires x < 32768 && 1 <= e
    requires 128 * Pow2(e) <= x < 256 * Pow2(e)
    ensures Segment(x) == e
  {
    var s := Segment(x);
    SegmentBracket(x);
    Pow2Values();
    if s < e {
      Pow2Monotone(s + 1, e);
    } else if s > e {
      Pow2Monotone(e + 1, s);
    }
  }

  /** `(pcm >> 8) & 0x80`: bit 15 of the sample moved to bit 7. */
  lemma SignBit(pcm: int16)
    ensures (pcm / 256) % 256 / 128 * 128 == if pcm < 0 then 128 else 0
  {
  }

  /** `x & d` for a power of two `d`, on a value below `2 * d`: set exactly when `x >= d`. */
  lemma BitTest(x: int, d: int)
    requires d >= 1 && 0 <= x < 2 * d
    ensures (x / d) % 2 == 1 <==> x >= d
  {
    if x >= d {
      DivUnique(x, d, 1, x - d);
    } else {
      DivUnique(x, d, 0, x);
    }
  }
}
