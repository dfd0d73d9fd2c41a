/** The integer and real arithmetic of the codec: masks, sign extension, rounding. */
module CodecArithmetic {
  import opened Words

  const TWO_63 := 0x8000_0000_0000_0000
  const TWO_64 := 0x1_0000_0000_0000_0000

  /** The low bits of a 64-bit word, with the full and the empty width spelled out. */
  function LowMask(bits: nat): (m: u64)
    requires bits <= 64
    ensures m == Mask(bits)
  {
    Pow2Values();
    Pow2Monotone(bits, 64);
    if bits == 0 then 0
    else if bits >= 64 then TWO_64 - 1
    else ShlIsMul(1, bits); Shl(1, bits) - 1
  }

  /** A 64-bit word read as two's complement. */
  function ToSigned(w: u64): int {
    if w >= TWO_63 then w - TWO_64 else w
  }

  /** An integer stored in a 64-bit word. */
  function ToWord(n: int): u64 {
    n % TWO_64
  }

  /** Flip the sign bit, then subtract it, in 64-bit arithmetic. */
  function SignExtend(value: u64, bits: nat): int
    requires 1 <= bits <= 64
  {
    if bits >= 64 then ToSigned(value)
    else
      XorTopBit(value, bits - 1);
      var signBit := Shl(1, bits - 1);
      ToSigned(ToWord(Xor(value, signBit) % TWO_64 - signBit))
  }

  /** Flipping bit k adds or removes 2^k. */
  lemma {:induction false} XorTopBit(w: nat, k: nat)
    ensures Xor(w, Shl(1, k)) == if Bit(w, k) then w - Shl(1, k) else w + Shl(1, k)
    decreases k
  {
    if k == 0 {
      assert Xor(w, 1) == 2 * Xor(w / 2, 0) + (if w % 2 != 1 then 1 else 0);
      XorZero(w / 2);
    } else {
      var s := Shl(1, k - 1);
      assert Shl(1, k) == 2 * s;
      XorTopBit(w / 2, k - 1);
      ShlIsMul(1, k - 1);
      assert Xor(w, 2 * s) == 2 * Xor(w / 2, s) + w % 2;
    }
  }

  lemma {:induction false} XorZero(w: nat)
    ensures Xor(w, 0) == w
  {
    if w > 0 { XorZero(w / 2); }
  }

  /** The top bit of a word says which half of its range it is in. */
  lemma {:induction false} TopBit(w: nat, k: nat)
    requires w < Pow2(k + 1)
    ensures Bit(w, k) <==> w >= Pow2(k)
    decreases k
  {
    if k > 0 { TopBit(w / 2, k - 1); }
  }

  /** Sign extension reads a bits-wide word as two's complement. */
  lemma SignExtendMeans(value: u64, bits: nat)
    requires 1 <= bits <= 64 && value < Pow2(bits)
    ensures SignExtend(value, bits) == if value >= Pow2(bits - 1) then value - Pow2(bits) else value
  {
    hide Xor, Bit, Shl, Pow2, ToWord;
    Pow2Values();
    Pow2Doubles(bits - 1);
    if bits < 64 {
      XorTopBit(value, bits - 1);
      TopBit(value, bits - 1);
      ShlIsMul(1, bits - 1);
      Pow2Monotone(bits, 63);
      FlipAndSubtract(value, Pow2(bits - 1));
    }
  }

  lemma Pow2Doubles(n: nat)
    ensures Pow2(n + 1) == 2 * Pow2(n)
  {
  }

  lemma FlipAndSubtract(value: nat, half: nat)
    requires value < 2 * half <= TWO_63
    ensures var flipped := if value >= half then value - half else value + half;
            ToSigned(ToWord(flipped % TWO_64 - half)) == if value >= half then value - 2 * half else value
  {
  }

  /** The two's-complement range of a field. */
  predicate FitsSigned(n: int, bits: nat)
    requires bits >= 1
  {
    var half: int := Pow2(bits - 1);
    -half <= n < half
  }

  /** Masking an in-range integer and sign extending it gives the integer back. */
  lemma SignExtendInvertsMask(n: int, bits: nat)
    requires 1 <= bits <= 64 && FitsSigned(n, bits)
    ensures SignExtend(FieldWord(n, bits), bits) == n
  {
    hide SignExtend, FieldWord;
    var w := FieldWord(n, bits);
    assert Pow2(bits) == 2 * Pow2(bits - 1);
    if n >= 0 {
      DivModUnique(n, Pow2(bits), 0, n);
    } else {
      DivModUnique(n, Pow2(bits), -1, n + Pow2(bits));
    }
    SignExtendMeans(w, bits);
  }

  /** An integer cast to 64 bits and masked to a field. */
  function FieldWord(n: int, bits: nat): (w: u64)
    requires bits <= 64
    ensures w == n % Pow2(bits)
  {
    MaskedWord(n, bits);
    And(ToWord(n), LowMask(bits))
  }

  /** Storing an integer in 64 bits and masking it keeps its residue. */
  lemma MaskedWord(n: int, bits: nat)
    requires bits <= 64
    ensures And(ToWord(n), LowMask(bits)) == n % Pow2(bits)
    ensures n % Pow2(bits) < TWO_64
  {
    hide And, LowMask;
    AndMaskIsMod(ToWord(n), bits);
    Pow2Values();
    Pow2Sum(64 - bits, bits);
    Pow2Monotone(bits, 64);
    ModOfMod(n, Pow2(64 - bits), Pow2(bits));
  }

  lemma ModOfMod(n: int, a: nat, b: nat)
    requires a > 0 && b > 0
    ensures a * b > 0 && (n % (a * b)) % b == n % b
  {
    MulPositive(a, b);
    var q, r := n / (a * b), n % (a * b);
    var s, t := r / b, r % b;
    assert n == (a * b) * q + (b * s + t);
    assert (a * b) * q == b * (a * q) by { MulSwap(a, b, q); }
    assert b * (a * q) + b * s == b * (a * q + s);
    DivModUnique(n, b, a * q + s, t);
  }

  lemma MulPositive(a: nat, b: nat)
    requires a > 0 && b > 0
    ensures a * b > 0
  {
  }

  lemma MulSwap(a: int, b: int, q: int)
    ensures (a * b) * q == b * (a * q)
  {
  }

  // ----- rounding

  /** Round half away from zero. */
  function Round(x: real): int {
    if x >= 0.0 then (x + 0.5).Floor else -((0.5 - x).Floor)
  }

  function Abs(x: real): real {
    if x < 0.0 then -x else x
  }

  lemma RoundIsNear(x: real)
    ensures Abs(Round(x) as real - x) <= 0.5
  {
  }

  /** The nearest integer; of two equally near ones, the one further from zero. */
  lemma RoundExactlyWhen(x: real, n: int)
    ensures Round(x) == n
            <==> Abs(n as real - x) < 0.5 || (Abs(n as real - x) == 0.5 && Abs(n as real) > Abs(x))
  {
    if x >= 0.0 {
      FloorExactlyWhen(x + 0.5, n);
    } else {
      FloorExactlyWhen(0.5 - x, -n);
    }
  }

  lemma FloorExactlyWhen(y: real, n: int)
    ensures y.Floor == n <==> n as real <= y < n as real + 1.0
  {
  }

  lemma RoundOfInteger(n: int)
    ensures Round(n as real) == n
  {
    if n >= 0 {
      assert (n as real + 0.5).Floor == n;
    } else {
      assert (0.5 - n as real).Floor == -n;
    }
  }

  /** Scaling back a rounded quotient x of c - offset misses c by at most half the scale. */
  lemma ScaledRoundIsNear(c: real, offset: real, scale: real, x: real)
    requires x * scale == c - offset
    ensures Abs(Round(x) as real * scale + offset - c) <= Abs(scale) / 2.0
  {
    hide Round;
    var r := Round(x) as real;
    RoundIsNear(x);
    Distribute(r, x, scale);
    NearProduct(r * scale + offset - c, r - x, scale);
  }

  /** A product with a factor of at most a half is at most half the other factor. */
  lemma NearProduct(e: real, d: real, s: real)
    requires e == d * s && Abs(d) <= 0.5
    ensures Abs(e) <= Abs(s) / 2.0
  {
    hide Abs;
    ProductBound(d, s);
  }

  lemma Distribute(a: real, b: real, s: real)
    ensures (a - b) * s == a * s - b * s
  {
  }

  lemma QuotientTimes(a: real, b: real)
    requires b != 0.0
    ensures (a / b) * b == a
  {
  }

  lemma ProductBound(d: real, s: real)
    requires Abs(d) <= 0.5
    ensures Abs(d * s) <= Abs(s) / 2.0
  {
    AbsOfProduct(d, s);
    ProductMonotone(Abs(d), 0.5, Abs(s));
    assert 0.5 * Abs(s) == Abs(s) / 2.0;
  }

  lemma AbsOfProduct(d: real, s: real)
    ensures Abs(d * s) == Abs(d) * Abs(s)
  {
    SignOfProduct(Abs(d), Abs(s));
    assert (-d) * s == -(d * s) && d * (-s) == -(d * s) && (-d) * (-s) == d * s;
  }

  lemma SignOfProduct(x: real, y: real)
    requires x >= 0.0 && y >= 0.0
    ensures x * y >= 0.0
  {
  }

  lemma ProductMonotone(x: real, y: real, b: real)
    requires x <= y && b >= 0.0
    ensures x * b <= y * b
  {
  }

  /** Dividing a scaled integer by its scale gives the integer. */
  lemma UnscaleInteger(n: int, offset: real, scale: real)
    requires scale != 0.0
    ensures (n as real * scale + offset - offset) / scale == n as real
  {
    var x := n as real;
    assert x * scale + offset - offset == x * scale;
    QuotientOfProduct(x, scale);
  }

  lemma QuotientOfProduct(x: real, s: real)
    requires s != 0.0
    ensures (x * s) / s == x
  {
  }
}
