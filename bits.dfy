/** Integer bit operations used by the Galois-field engine, on non-negative
    integers: powers of two, bitwise exclusive or (`^`), bitwise or (`|`) and
    the C# remainder operator (`%`, which truncates toward zero). */
module Bits {

  /** 2^k, so that `1 << k` is Pow2(k) and `x >> k` is x / Pow2(k). */
  function Pow2(k: nat): (r: nat)
    ensures r >= 1
  {
    if k == 0 then 1 else 2 * Pow2(k - 1)
  }

  /** Bitwise exclusive or, defined one bit at a time from the low end. */
  function Xor(a: nat, b: nat): nat
    decreases a + b
  {
    if a == 0 && b == 0 then 0 else 2 * Xor(a / 2, b / 2) + (if a % 2 == b % 2 then 0 else 1)
  }

  /** Bitwise or, defined one bit at a time from the low end. */
  function Or(a: nat, b: nat): nat
    decreases a + b
  {
    if a == 0 && b == 0 then 0 else 2 * Or(a / 2, b / 2) + (if a % 2 + b % 2 > 0 then 1 else 0)
  }

  /** C#'s `%` on int: the remainder takes the sign of the dividend. */
  function Rem(x: int, m: int): (r: int)
    requires m > 0
    ensures x >= 0 ==> 0 <= r < m
    ensures x < 0 ==> -m < r <= 0
  {
    if x >= 0 then x % m else -((-x) % m)
  }

  /** C#'s 32-bit `int` arithmetic: x reduced modulo 2^32 into [-2^31, 2^31). */
  function Wrap32(x: int): (r: int)
    ensures -0x8000_0000 <= r < 0x8000_0000
    ensures (x - r) % 0x1_0000_0000 == 0
    ensures -0x8000_0000 <= x < 0x8000_0000 ==> r == x
    ensures 0x8000_0000 <= x < 0x1_0000_0000 ==> r == x - 0x1_0000_0000
  {
    var m := x % 0x1_0000_0000;
    if m < 0x8000_0000 then m else m - 0x1_0000_0000
  }

  /** A 32-bit product of a sign or a non-negative factor: exact below 2^31, negative from 2^31 to 2^32. */
  lemma Wrap32Product(value: int, p: int)
    ensures value == -1 && 0 <= p < 0x8000_0000 ==> Wrap32(value * p) == value * p
    ensures 0 <= value && 0 <= p && value * p < 0x8000_0000 ==> Wrap32(value * p) == value * p
    ensures 0 <= value && 0 <= p && 0x8000_0000 <= value * p < 0x1_0000_0000 ==> Wrap32(value * p) < 0
  {
    if value == -1 {
      assert value * p == -p;
    } else if 0 <= value && 0 <= p {
      MulNonneg(value, p);
    }
  }

  /** The defining equation of Xor also holds when both operands are zero. */
  lemma XorUnfold(a: nat, b: nat)
    ensures Xor(a, b) == 2 * Xor(a / 2, b / 2) + (if a % 2 == b % 2 then 0 else 1)
  {
  }

  /** The high bits and the low bit of a Xor. */
  lemma XorHalves(a: nat, b: nat)
    ensures Xor(a, b) / 2 == Xor(a / 2, b / 2)
    ensures Xor(a, b) % 2 == (if a % 2 == b % 2 then 0 else 1)
  {
    XorUnfold(a, b);
    DivModUnique(Xor(a, b), 2, Xor(a / 2, b / 2), if a % 2 == b % 2 then 0 else 1);
  }

  lemma {:induction false} XorZero(a: nat)
    ensures Xor(a, 0) == a && Xor(0, a) == a
  {
    if a != 0 {
      XorZero(a / 2);
    }
  }

  lemma {:induction false} XorSelf(a: nat)
    ensures Xor(a, a) == 0
  {
    if a != 0 {
      XorSelf(a / 2);
    }
  }

  lemma {:induction false} XorComm(a: nat, b: nat)
    ensures Xor(a, b) == Xor(b, a)
    decreases a + b
  {
    if a != 0 || b != 0 {
      XorComm(a / 2, b / 2);
    }
  }

  lemma {:induction false} XorAssoc(a: nat, b: nat, c: nat)
    ensures Xor(Xor(a, b), c) == Xor(a, Xor(b, c))
    decreases a + b + c
  {
    if a != 0 || b != 0 || c != 0 {
      var lo := if (a % 2 == b % 2) == (c % 2 == 0) then 0 else 1;
      assert Xor(Xor(a, b), c) == 2 * Xor(Xor(a / 2, b / 2), c / 2) + lo by {
        XorHalves(a, b);
        XorUnfold(Xor(a, b), c);
      }
      assert Xor(a, Xor(b, c)) == 2 * Xor(a / 2, Xor(b / 2, c / 2)) + lo by {
        XorHalves(b, c);
        XorUnfold(a, Xor(b, c));
      }
      XorAssoc(a / 2, b / 2, c / 2);
    } else {
      XorZero(0);
    }
  }

  /** Regrouping four operands, a consequence of associativity and commutativity. */
  lemma XorSwap(a: nat, b: nat, c: nat, d: nat)
    ensures Xor(Xor(a, b), Xor(c, d)) == Xor(Xor(a, c), Xor(b, d))
  {
    calc {
      Xor(Xor(a, b), Xor(c, d));
      { XorAssoc(a, b, Xor(c, d)); }
      Xor(a, Xor(b, Xor(c, d)));
      { XorAssoc(b, c, d); XorComm(b, c); XorAssoc(c, b, d); }
      Xor(a, Xor(c, Xor(b, d)));
      { XorAssoc(a, c, Xor(b, d)); }
      Xor(Xor(a, c), Xor(b, d));
    }
  }

  /** Xor-ing with the same operand twice gives the original back. */
  lemma XorCancel(a: nat, b: nat)
    ensures Xor(Xor(a, b), b) == a
  {
    XorAssoc(a, b, b);
    XorSelf(b);
    XorZero(a);
  }

  /** Xor of two values is zero exactly when they are equal. */
  lemma XorZeroIff(a: nat, b: nat)
    ensures Xor(a, b) == 0 <==> a == b
  {
    XorCancel(a, b);
    XorZero(b);
    if a == b {
      XorSelf(a);
    }
  }

  /** Xor of two k-bit values is a k-bit value. */
  lemma {:induction false} XorBound(a: nat, b: nat, k: nat)
    requires a < Pow2(k) && b < Pow2(k)
    ensures Xor(a, b) < Pow2(k)
  {
    if k == 0 {
      XorZero(0);
    } else {
      XorBound(a / 2, b / 2, k - 1);
      XorUnfold(a, b);
    }
  }

  /** t shifted left by k bits, t * 2^k (`t << k`). */
  function Shl(t: nat, k: nat): (r: nat)
    ensures t == 0 ==> r == 0
    ensures t == 1 ==> r == Pow2(k)
  {
    if k == 0 then t else 2 * Shl(t, k - 1)
  }

  /** Doubling commutes with Xor. */
  lemma XorDouble(a: nat, b: nat)
    ensures Xor(2 * a, 2 * b) == 2 * Xor(a, b)
  {
    XorSplit(a, 0, b, 0, 1);
    XorZero(0);
    assert Shl(a, 1) == 2 * a && Shl(b, 1) == 2 * b && Shl(Xor(a, b), 1) == 2 * Xor(a, b);
  }

  /** The bitwise or of two values is zero exactly when both are zero. */
  lemma {:induction false} OrZero(a: nat, b: nat)
    ensures Or(a, b) == 0 <==> a == 0 && b == 0
    decreases a + b
  {
    if a != 0 || b != 0 {
      OrZero(a / 2, b / 2);
    }
  }

  /** C#'s remainder of a product: -(b mod m) when a is -1, the Euclidean
      remainder when both factors are non-negative. */
  lemma RemProduct(a: int, b: int, m: int)
    requires 0 <= b && 0 < m
    ensures a == -1 ==> Rem(a * b, m) == -(b % m)
    ensures 0 <= a ==> Rem(a * b, m) == (a * b) % m
  {
    if a == -1 {
      assert a * b == -b;
    } else if 0 <= a {
      assert 0 <= a * b;
    }
  }

  /** A product of non-negative factors is non-negative. */
  lemma MulNonneg(a: int, b: int)
    requires 0 <= a && 0 <= b
    ensures 0 <= a * b
  {
  }

  /** A product grows with its first factor. */
  lemma MulMono(a: int, b: int, c: int)
    requires a <= b && 0 <= c
    ensures a * c <= b * c
  {
    assert b * c - a * c == (b - a) * c;
    MulNonneg(b - a, c);
  }

  /** A bound on b·c carries over to the smaller product a·c, also for a negative c. */
  lemma MulBelow(a: nat, b: nat, c: int, bound: int)
    requires a <= b && (b * c < bound || c * b < bound) && 0 < bound
    ensures a * c < bound && c * a < bound
  {
    assert b * c == c * b;
    if 0 <= c {
      MulMono(a, b, c);
    } else {
      MulNonneg(a, -c);
      assert a * c == -(a * -c);
    }
  }

  /** A product with one factor decreased by one: t·p = (p - 1)·t + t. */
  lemma MulPred(t: int, p: int)
    ensures t * p == (p - 1) * t + t
  {
  }

  lemma MulAtLeast(e: int, d: int)
    requires e >= 1 && d > 0
    ensures e * d >= d
  {
    assert e * d == (e - 1) * d + d;
    assert (e - 1) * d >= 0;
  }

  /** Quotient and remainder are determined by the Euclidean equation. */
  lemma DivModUnique(x: int, d: int, q: int, r: int)
    requires d > 0 && 0 <= r < d && x == q * d + r
    ensures x / d == q && x % d == r
  {
    var q', r' := x / d, x % d;
    assert x == q' * d + r';
    if q' > q {
      assert (q' - q) * d == q' * d - q * d;
      MulAtLeast(q' - q, d);
    } else if q' < q {
      assert (q - q') * d == q * d - q' * d;
      MulAtLeast(q - q', d);
    }
  }

  /** The bits of a from position k up (`a >> k`). */
  function Hi(a: nat, k: nat): nat
  {
    if k == 0 then a else Hi(a / 2, k - 1)
  }

  /** The low k bits of a. */
  function Lo(a: nat, k: nat): nat
  {
    if k == 0 then 0 else 2 * Lo(a / 2, k - 1) + a % 2
  }

  /** A value split at bit k: the bits above, shifted back, plus the bits below. */
  lemma {:induction false} HiLo(a: nat, k: nat)
    ensures a == Shl(Hi(a, k), k) + Lo(a, k) && Lo(a, k) < Pow2(k)
  {
    if k > 0 {
      HiLo(a / 2, k - 1);
    }
  }

  /** Hi and Lo are determined by the split equation. */
  lemma {:induction false} HiLoUnique(a: nat, k: nat, t: nat, r: nat)
    requires a == Shl(t, k) + r && r < Pow2(k)
    ensures Hi(a, k) == t && Lo(a, k) == r
  {
    if k > 0 {
      HiLoUnique(a / 2, k - 1, t, r / 2);
    }
  }

  /** Xor of two values given by their high parts and low bits. */
  lemma XorLowBit(a: nat, x: nat, b: nat, y: nat)
    requires x <= 1 && y <= 1
    ensures Xor(2 * a + x, 2 * b + y) == 2 * Xor(a, b) + (if x == y then 0 else 1)
  {
    XorUnfold(2 * a + x, 2 * b + y);
  }

  /** The bits of a Xor from position k up are the Xor of those bits. */
  lemma {:induction false} XorHi(a: nat, b: nat, k: nat)
    ensures Hi(Xor(a, b), k) == Xor(Hi(a, k), Hi(b, k))
  {
    if k > 0 {
      XorHalves(a, b);
      XorHi(a / 2, b / 2, k - 1);
    }
  }

  /** The low k bits of a Xor are the Xor of the low k bits. */
  lemma {:induction false} XorLo(a: nat, b: nat, k: nat)
    ensures Lo(Xor(a, b), k) == Xor(Lo(a, k), Lo(b, k))
  {
    if k == 0 {
      XorZero(0);
    } else {
      var la, lb := Lo(a / 2, k - 1), Lo(b / 2, k - 1);
      calc {
        Lo(Xor(a, b), k);
        { XorHalves(a, b); }
        2 * Lo(Xor(a / 2, b / 2), k - 1) + (if a % 2 == b % 2 then 0 else 1);
        { XorLo(a / 2, b / 2, k - 1); }
        2 * Xor(la, lb) + (if a % 2 == b % 2 then 0 else 1);
        { XorLowBit(la, a % 2, lb, b % 2); }
        Xor(Lo(a, k), Lo(b, k));
      }
    }
  }

  /** Xor acts separately on the bits below position k and on those above it. */
  lemma XorSplit(t1: nat, r1: nat, t2: nat, r2: nat, k: nat)
    requires r1 < Pow2(k) && r2 < Pow2(k)
    ensures Xor(Shl(t1, k) + r1, Shl(t2, k) + r2) == Shl(Xor(t1, t2), k) + Xor(r1, r2)
  {
    var a, b := Shl(t1, k) + r1, Shl(t2, k) + r2;
    HiLoUnique(a, k, t1, r1);
    HiLoUnique(b, k, t2, r2);
    XorHi(a, b, k);
    XorLo(a, b, k);
    HiLo(Xor(a, b), k);
  }

  /** The Xor of two bits is a bit, set exactly when they differ. */
  lemma XorBit(a: nat, b: nat)
    requires a <= 1 && b <= 1
    ensures Xor(a, b) <= 1 && (Xor(a, b) == 1 <==> a != b)
  {
    XorZero(0);
    XorZero(1);
    XorSelf(1);
  }

  /** Subtracting the modulus does not change a remainder. */
  lemma ModSub(i: nat, m: nat)
    requires 0 < m <= i
    ensures i % m == (i - m) % m
  {
    var q, r := (i - m) / m, (i - m) % m;
    assert i - m == q * m + r;
    assert i == (q + 1) * m + r;
    DivModUnique(i, m, q + 1, r);
  }

  lemma {:induction false} Pow2Mono(a: nat, b: nat)
    requires a <= b
    ensures Pow2(a) <= Pow2(b)
  {
    if a < b {
      Pow2Mono(a, b - 1);
    }
  }

  /** A symbol width of at most 16 bits gives values below 0x10000. */
  lemma Pow2Sixteen(k: nat)
    requires k <= 16
    ensures Pow2(k) <= 0x10000
  {
    Pow2Mono(k, 16);
    Pow2At16();
  }

  /** Exactly 0x10000 values at width 16. */
  lemma Pow2At16()
    ensures Pow2(16) == 0x10000
  {
    assert Pow2(1) == 2;
    assert Pow2(2) == 4;
    assert Pow2(3) == 8;
    assert Pow2(4) == 16;
    assert Pow2(5) == 32;
    assert Pow2(6) == 64;
    assert Pow2(7) == 128;
    assert Pow2(8) == 256;
    assert Pow2(9) == 512;
    assert Pow2(10) == 1024;
    assert Pow2(11) == 2048;
    assert Pow2(12) == 4096;
    assert Pow2(13) == 8192;
    assert Pow2(14) == 16384;
    assert Pow2(15) == 32768;
  }
}
