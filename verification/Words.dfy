/**
 Fixed-width unsigned integers and the bitwise operators on them.

 A word is a natural number; the width is a subset type, so storing a result
 that would wrap is a proof obligation. The operators are defined by halving, and
 one lemma per operator says what it does to each bit.
 */
module Words {

  type u8 = x: int | 0 <= x < 0x100
  type u16 = x: int | 0 <= x < 0x1_0000
  type u32 = x: int | 0 <= x < 0x1_0000_0000
  type u64 = x: int | 0 <= x < 0x1_0000_0000_0000_0000

  function Pow2(n: nat): (p: nat)
    ensures p > 0
  {
    if n == 0 then 1 else 2 * Pow2(n - 1)
  }

  /** Bit k of w, bit 0 being the least significant. */
  predicate Bit(w: nat, k: nat) {
    if k == 0 then w % 2 == 1 else Bit(w / 2, k - 1)
  }

  function Shl(w: nat, k: nat): nat {
    if k == 0 then w else 2 * Shl(w, k - 1)
  }

  function Shr(w: nat, k: nat): nat {
    if k == 0 then w else Shr(w / 2, k - 1)
  }

  function And(a: nat, b: nat): nat {
    if a == 0 || b == 0 then 0
    else 2 * And(a / 2, b / 2) + (if a % 2 == 1 && b % 2 == 1 then 1 else 0)
  }

  function Or(a: nat, b: nat): nat
    decreases a + b
  {
    if a == 0 && b == 0 then 0
    else 2 * Or(a / 2, b / 2) + (if a % 2 == 1 || b % 2 == 1 then 1 else 0)
  }

  function Xor(a: nat, b: nat): nat
    decreases a + b
  {
    if a == 0 && b == 0 then 0
    else 2 * Xor(a / 2, b / 2) + (if a % 2 != b % 2 then 1 else 0)
  }

  /** The word of n ones. */
  function Mask(n: nat): nat {
    Pow2(n) - 1
  }

  /** The n-bit complement of w. */
  function Not(w: nat, n: nat): nat
    requires w < Pow2(n)
  {
    Pow2(n) - 1 - w
  }

  // ----- what each operator does to a bit

  lemma {:induction false} BitZero(i: nat)
    ensures !Bit(0, i)
  {
    if i > 0 { BitZero(i - 1); }
  }

  lemma {:induction false} BitShl(w: nat, k: nat, i: nat)
    ensures Bit(Shl(w, k), i) == (k <= i && Bit(w, i - k))
    decreases k
  {
    if k > 0 && i > 0 {
      assert Shl(w, k) / 2 == Shl(w, k - 1);
      BitShl(w, k - 1, i - 1);
    }
  }

  lemma {:induction false} BitShr(w: nat, k: nat, i: nat)
    ensures Bit(Shr(w, k), i) == Bit(w, i + k)
    decreases k
  {
    if k > 0 { BitShr(w / 2, k - 1, i); }
  }

  lemma HalfOfDouble(n: nat, bit: nat)
    requires bit < 2
    ensures (2 * n + bit) / 2 == n && (2 * n + bit) % 2 == bit
  {
  }

  lemma {:induction false} BitAnd(a: nat, b: nat, i: nat)
    ensures Bit(And(a, b), i) == (Bit(a, i) && Bit(b, i))
    decreases i
  {
    if a == 0 || b == 0 {
      BitZero(i);
    } else {
      HalfOfDouble(And(a / 2, b / 2), if a % 2 == 1 && b % 2 == 1 then 1 else 0);
      if i > 0 { BitAnd(a / 2, b / 2, i - 1); }
    }
  }

  lemma {:induction false} BitOr(a: nat, b: nat, i: nat)
    ensures Bit(Or(a, b), i) == (Bit(a, i) || Bit(b, i))
    decreases i
  {
    if a == 0 && b == 0 {
      BitZero(i);
    } else {
      HalfOfDouble(Or(a / 2, b / 2), if a % 2 == 1 || b % 2 == 1 then 1 else 0);
      if i > 0 { BitOr(a / 2, b / 2, i - 1); }
    }
  }

  lemma {:induction false} BitXor(a: nat, b: nat, i: nat)
    ensures Bit(Xor(a, b), i) == (Bit(a, i) != Bit(b, i))
    decreases i
  {
    if a == 0 && b == 0 {
      BitZero(i);
    } else {
      HalfOfDouble(Xor(a / 2, b / 2), if a % 2 != b % 2 then 1 else 0);
      if i > 0 { BitXor(a / 2, b / 2, i - 1); }
    }
  }

  lemma {:induction false} BitMask(n: nat, i: nat)
    ensures Bit(Mask(n), i) == (i < n)
    decreases n
  {
    if n == 0 {
      BitZero(i);
    } else if i > 0 {
      assert Mask(n) / 2 == Mask(n - 1);
      BitMask(n - 1, i - 1);
    }
  }

  lemma {:induction false} BitNot(w: nat, n: nat, i: nat)
    requires w < Pow2(n)
    ensures Bit(Not(w, n), i) == (i < n && !Bit(w, i))
    decreases n
  {
    if n == 0 {
      BitZero(i);
    } else if i > 0 {
      HalfOfComplement(w, Pow2(n - 1));
      BitNot(w / 2, n - 1, i - 1);
    } else {
      HalfOfComplement(w, Pow2(n - 1));
    }
  }

  lemma HalfOfComplement(w: nat, p: nat)
    requires w < 2 * p
    ensures (2 * p - 1 - w) / 2 == p - 1 - w / 2
    ensures (2 * p - 1 - w) % 2 != w % 2
  {
  }

  lemma {:induction false} BitMod(w: nat, n: nat, i: nat)
    ensures Bit(w % Pow2(n), i) == (i < n && Bit(w, i))
    decreases n
  {
    if n == 0 {
      BitZero(i);
    } else {
      HalfMod(w, n);
      if i > 0 { BitMod(w / 2, n - 1, i - 1); }
    }
  }

  lemma HalfMod(w: nat, n: nat)
    requires n > 0
    ensures (w % Pow2(n)) / 2 == (w / 2) % Pow2(n - 1)
    ensures (w % Pow2(n)) % 2 == w % 2
  {
    DivModOfHalf(w, Pow2(n - 1));
  }

  /** Dividing by 2 * p is halving and then dividing by p. */
  lemma DivModOfHalf(w: nat, p: nat)
    requires p > 0
    ensures w / (2 * p) == (w / 2) / p
    ensures w % (2 * p) == 2 * ((w / 2) % p) + w % 2
  {
    var half := w / 2;
    var q, r := half / p, half % p;
    DivModSum(half, p);
    MulTwice(p, q);
    DivModUnique(w, 2 * p, q, 2 * r + w % 2);
  }

  lemma DivModSum(n: nat, d: nat)
    requires d > 0
    ensures n == d * (n / d) + n % d && 0 <= n % d < d
  {
  }

  lemma MulTwice(a: int, b: int)
    ensures (2 * a) * b == 2 * (a * b) && a * (2 * b) == 2 * (a * b)
  {
  }

  lemma DivModUnique(n: int, d: int, q: int, r: int)
    requires 0 <= r < d
    requires n == d * q + r
    ensures n / d == q && n % d == r
  {
    var q', r' := n / d, n % d;
    assert n == d * q' + r' && 0 <= r' < d;
    if q' < q {
      MulMonotone(d, q' + 1, q);
    } else if q < q' {
      MulMonotone(d, q + 1, q');
    }
  }

  lemma MulMonotone(d: nat, x: int, y: int)
    requires x <= y
    ensures d * x <= d * y
  {
  }

  // ----- words as sets of bits

  /** Two words with the same bits are equal. */
  lemma {:induction false} SameBits(a: nat, b: nat)
    requires forall i: nat :: Bit(a, i) == Bit(b, i)
    ensures a == b
    decreases a + b
  {
    assert Bit(a, 0) == Bit(b, 0);
    if a + b > 0 {
      forall i: nat
        ensures Bit(a / 2, i) == Bit(b / 2, i)
      {
        assert Bit(a, i + 1) == Bit(b, i + 1);
      }
      SameBits(a / 2, b / 2);
    }
  }

  /** A word below 2^n has no bit at or above n. */
  lemma {:induction false} HighBitsZero(w: nat, n: nat, i: nat)
    requires w < Pow2(n) && n <= i
    ensures !Bit(w, i)
    decreases n
  {
    if n == 0 {
      BitZero(i);
    } else {
      HighBitsZero(w / 2, n - 1, i - 1);
    }
  }

  /** A word with no bit at or above n is below 2^n. */
  lemma {:induction false} BoundFromBits(w: nat, n: nat)
    requires forall i: nat :: n <= i ==> !Bit(w, i)
    ensures w < Pow2(n)
    decreases n
  {
    if n == 0 {
      forall i: nat
        ensures Bit(w, i) == Bit(0, i)
      {
        BitZero(i);
      }
      SameBits(w, 0);
    } else {
      forall i: nat | n - 1 <= i
        ensures !Bit(w / 2, i)
      {
        assert !Bit(w, i + 1);
      }
      BoundFromBits(w / 2, n - 1);
    }
  }

  /** Masking to n bits is reduction modulo 2^n. */
  lemma AndMaskIsMod(w: nat, n: nat)
    ensures And(w, Mask(n)) == w % Pow2(n)
  {
    forall i: nat
      ensures Bit(And(w, Mask(n)), i) == Bit(w % Pow2(n), i)
    {
      BitAnd(w, Mask(n), i);
      BitMask(n, i);
      BitMod(w, n, i);
    }
    SameBits(And(w, Mask(n)), w % Pow2(n));
  }

  lemma {:induction false} ShlIsMul(w: nat, k: nat)
    ensures Shl(w, k) == w * Pow2(k)
    decreases k
  {
    if k > 0 {
      ShlIsMul(w, k - 1);
      MulTwice(w, Pow2(k - 1));
    }
  }

  /** Or-ing a word into bits that the other one leaves clear adds the two. */
  lemma {:induction false} OrIsSum(low: nat, high: nat, k: nat)
    requires low < Pow2(k)
    ensures Or(low, Shl(high, k)) == low + Shl(high, k)
    decreases k
  {
    if k == 0 {
      OrZero(high);
    } else {
      assert Shl(high, k) == 2 * Shl(high, k - 1);
      OrIsSum(low / 2, high, k - 1);
      if low == 0 && Shl(high, k) == 0 {
      } else {
        assert Or(low, Shl(high, k)) == 2 * Or(low / 2, Shl(high, k - 1)) + low % 2;
      }
    }
  }

  lemma {:induction false} OrZero(w: nat)
    ensures Or(0, w) == w
  {
    if w > 0 { OrZero(w / 2); }
  }

  lemma {:induction false} Pow2Monotone(m: nat, n: nat)
    requires m <= n
    ensures Pow2(m) <= Pow2(n)
    decreases n - m
  {
    if m < n { Pow2Monotone(m + 1, n); }
  }

  /** Two bytes or-ed together, the low one first. */
  function LittleEndian16(b0: u8, b1: u8): (w: u16)
    ensures w == (b0 as int) + 0x100 * (b1 as int)
  {
    Pow2Values();
    ShlIsMul(b1, 8);
    OrIsSum(b0, b1, 8);
    Or(b0, Shl(b1, 8))
  }

  function LittleEndian24(b0: u8, b1: u8, b2: u8): (w: u32)
    ensures w == (b0 as int) + 0x100 * (b1 as int) + 0x1_0000 * (b2 as int)
  {
    Pow2Values();
    ShlIsMul(b2, 16);
    OrIsSum(LittleEndian16(b0, b1), b2, 16);
    Or(LittleEndian16(b0, b1), Shl(b2, 16))
  }

  /** The powers of two the width types are built from. */
  lemma Pow2Values()
    ensures Pow2(7) == 0x80 && Pow2(8) == 0x100 && Pow2(16) == 0x1_0000
    ensures Pow2(32) == 0x1_0000_0000
    ensures Pow2(63) == 0x8000_0000_0000_0000
    ensures Pow2(64) == 0x1_0000_0000_0000_0000
  {
    assert Pow2(4) == 0x10;
    assert Pow2(7) == 0x80;
    assert Pow2(8) == 0x100;
    assert Pow2(12) == 0x1000;
    assert Pow2(16) == 0x1_0000;
    Pow2Sum(16, 16);
    Pow2Sum(32, 32);
  }

  lemma {:induction false} Pow2Sum(m: nat, n: nat)
    ensures Pow2(m + n) == Pow2(m) * Pow2(n)
    decreases n
  {
    if n > 0 {
      Pow2Sum(m, n - 1);
      MulTwice(Pow2(m), Pow2(n - 1));
    }
  }
}
