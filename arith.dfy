/**
 * Powers of two, Euclidean division facts and bit length of natural numbers.
 * Every bit, byte and limb accessor of the integer type is stated against
 * these definitions.
 */
module Arith {

  /** 2^n. */
  function Pow2(n: nat): (r: nat)
    ensures r >= 1
  {
    if n == 0 then 1 else 2 * Pow2(n - 1)
  }

  lemma {:induction false} Pow2Add(a: nat, b: nat)
    ensures Pow2(a + b) == Pow2(a) * Pow2(b)
  {
    if a > 0 {
      Pow2Add(a - 1, b);
      assert Pow2(a + b) == 2 * Pow2(a - 1 + b);
    }
  }

  lemma Pow2Le(a: nat, b: nat)
    requires a <= b
    ensures Pow2(a) <= Pow2(b)
  {
    Pow2Add(a, b - a);
  }

  lemma Pow2Mono(a: int, b: int)
    requires a >= 0 && b >= 0
    ensures a <= b ==> Pow2(a) <= Pow2(b)
  {
    if a <= b { Pow2Le(a, b); }
  }

  lemma Pow2Lt(a: nat, b: nat)
    requires a < b
    ensures 2 * Pow2(a) <= Pow2(b)
  {
    Pow2Le(a + 1, b);
  }

  lemma Pow2Byte()
    ensures Pow2(8) == 256
  {
  }

  /** The divisor and remainder of x by d are determined by x == d * q + r with 0 <= r < d. */
  lemma DivModUnique(x: int, d: int, q: int, r: int)
    requires d > 0 && 0 <= r < d && x == d * q + r
    ensures x / d == q && x % d == r
  {
    var e := q - x / d;
    assert x == d * (x / d) + x % d;
    assert d * e == x % d - r;
    MulSign(d, e);
  }

  /** The quotient of naturals is a natural no larger than the dividend. */
  lemma DivNat(x: nat, d: nat)
    requires d > 0
    ensures 0 <= x / d <= x
  {
    var q := x / d;
    assert x == d * q + x % d;
    MulSign(d, q);
    if q > 0 {
      MulLe(q, 1, d);
      assert q <= d * q;
    }
  }

  lemma MulLe(d: int, a: int, b: int)
    requires d >= 0 && a <= b
    ensures d * a <= d * b
  {
    assert d * b - d * a == d * (b - a);
  }

  lemma MulSign(d: int, e: int)
    requires d > 0
    ensures e >= 1 ==> d * e >= d
    ensures e <= -1 ==> d * e <= -d
  {
    if e >= 1 { MulLe(d, 1, e); }
    if e <= -1 { MulLe(d, e, -1); }
  }

  /** Adding a multiple of the divisor shifts the quotient and keeps the remainder. */
  lemma DivAddMul(a: nat, d: nat, k: nat)
    requires d > 0
    ensures (a + d * k) / d == a / d + k
    ensures (a + d * k) % d == a % d
  {
    assert a == d * (a / d) + a % d;
    assert a + d * k == d * (a / d + k) + a % d;
    DivModUnique(a + d * k, d, a / d + k, a % d);
  }

  /** Dividing by a product is dividing twice; the remainder splits likewise. */
  lemma DivDiv(x: nat, a: nat, b: nat)
    requires a > 0 && b > 0
    ensures x / (a * b) == (x / a) / b
    ensures x % (a * b) == a * ((x / a) % b) + x % a
  {
    var q1, r1 := x / a, x % a;
    var q2, r2 := q1 / b, q1 % b;
    assert x == a * q1 + r1;
    assert q1 == b * q2 + r2;
    assert x == (a * b) * q2 + (a * r2 + r1);
    assert a * r2 <= a * (b - 1) by { MulLe(a, r2, b - 1); }
    DivModUnique(x, a * b, q2, a * r2 + r1);
  }

  /** DivPow2Add for a sum c given by its own name. */
  lemma DivPow2Sum(x: nat, a: nat, b: nat, c: nat)
    requires c == a + b
    ensures x / Pow2(c) == (x / Pow2(a)) / Pow2(b)
  {
    DivPow2Add(x, a, b);
  }

  lemma DivPow2Add(x: nat, a: nat, b: nat)
    ensures x / Pow2(a + b) == (x / Pow2(a)) / Pow2(b)
  {
    Pow2Add(a, b);
    DivDiv(x, Pow2(a), Pow2(b));
  }

  /** Reading x / p modulo c is unaffected by first reducing x modulo a multiple p * c * k. */
  lemma DivModOfMod(x: nat, p: nat, c: nat, k: nat, pc: nat, m: nat)
    requires p > 0 && c > 0 && k > 0 && m > 0 && pc == p * c && m == pc * k
    ensures ((x % m) / p) % c == (x / p) % c
  {
    var R, Q := x % m, x / m;
    var kq := MulNat(k, Q);
    var ckq := MulNat(c, kq);
    assert x == m * Q + R;
    MulAssoc4(p, c, k, Q);
    assert x == R + p * ckq;
    DivAddMul(R, p, ckq);
    DivNat(R, p);
    DivAddMul(R / p, c, kq);
  }

  /** The product of two naturals, as a natural. */
  function MulNat(a: nat, b: nat): (r: nat)
    ensures r == a * b
  {
    a * b
  }

  lemma MulAssoc(a: nat, b: nat, c: nat)
    ensures a * (b * c) == (a * b) * c
  {
  }

  lemma MulAssoc4(a: nat, b: nat, c: nat, d: nat)
    ensures ((a * b) * c) * d == a * (b * (c * d))
  {
  }

  /**
   * Equal exponents give equal powers. Calling this with two spellings of the
   * same exponent spares the solver from rewriting inside Pow2.
   */
  lemma Pow2Congruence(a: nat, b: nat)
    requires a == b
    ensures Pow2(a) == Pow2(b)
  {
  }

  /** Pow2Add for a sum c given by its own name. */
  lemma Pow2Sum(a: nat, b: nat, c: nat)
    requires c == a + b
    ensures Pow2(c) == Pow2(a) * Pow2(b)
  {
    Pow2Add(a, b);
  }

  /** 2^a splits at any s <= a. */
  lemma Pow2Split(a: nat, s: nat)
    requires s <= a
    ensures Pow2(a) == Pow2(s) * Pow2(a - s)
  {
    Pow2Add(s, a - s);
  }

  /** Reading c bits at offset b of x is unaffected by truncating x to a >= b + c bits. */
  lemma ModDivMod(x: nat, a: nat, b: nat, c: nat)
    requires b + c <= a
    ensures ((x % Pow2(a)) / Pow2(b)) % Pow2(c) == (x / Pow2(b)) % Pow2(c)
  {
    var s := b + c;
    var p, q, k, pq, m := Pow2(b), Pow2(c), Pow2(a - s), Pow2(s), Pow2(a);
    Pow2Add(b, c);
    Pow2Split(a, s);
    DivModOfMod(x, p, q, k, pq, m);
  }

  /** Truncating to a bits and then to b <= a bits is truncating to b bits. */
  lemma ModModPow2(x: nat, a: nat, b: nat)
    requires b <= a
    ensures (x % Pow2(a)) % Pow2(b) == x % Pow2(b)
  {
    ModDivMod(x, a, 0, b);
  }

  /** Number of bits needed to write x: 0 for zero, else the position of the top set bit plus one. */
  function BitLen(x: nat): (r: nat)
    ensures r == 0 <==> x == 0
    ensures x > 0 ==> Pow2(r - 1) <= x < Pow2(r)
  {
    if x == 0 then 0 else 1 + BitLen(x / 2)
  }

  /** The bounds of BitLen determine it. */
  lemma BitLenUnique(x: nat, t: nat)
    requires t >= 1 && Pow2(t - 1) <= x < Pow2(t)
    ensures BitLen(x) == t
  {
    var b := BitLen(x);
    Pow2Mono(b, t - 1);
    Pow2Mono(t, b - 1);
  }

  lemma BitLenBound(x: nat, t: nat)
    requires x < Pow2(t)
    ensures BitLen(x) <= t
  {
    if x > 0 {
      Pow2Mono(t, BitLen(x) - 1);
    }
  }

  lemma MulMono(d: int, a: int, b: int)
    requires d >= 0
    ensures a <= b ==> d * a <= d * b
  {
    if a <= b { MulLe(d, a, b); }
  }

  /** x < d * b bounds the quotient x / d below b. */
  lemma QuotientBelow(x: nat, d: nat, b: nat)
    requires d > 0 && x < d * b
    ensures x / d < b
  {
    assert x == d * (x / d) + x % d;
    MulMono(d, b, x / d);
  }

  /** Bit k of x (0 or 1). */
  function Bit(x: nat, k: nat): (r: nat)
    ensures r < 2
  {
    (x / Pow2(k)) % 2
  }

  /** Quotient by p of a plus a multiple of p * c, taken modulo c. */
  lemma DivModOfSum(a: nat, p: nat, c: nat, y: nat)
    requires p > 0 && c > 0
    ensures ((a + p * (c * y)) / p) % c == (a / p) % c
  {
    DivAddMul(a, p, c * y);
    DivNat(a, p);
    DivAddMul(a / p, c, y);
  }

  lemma DivLowerBound(x: nat, d: nat, b: nat)
    requires d > 0 && x / d >= b
    ensures x >= d * b
  {
    assert x == d * (x / d) + x % d;
    MulMono(d, b, x / d);
  }

  /** A set bit k puts x at or above 2^k. */
  lemma BitSetLowerBound(x: nat, k: nat)
    requires Bit(x, k) == 1
    ensures Pow2(k) <= x
  {
    DivLowerBound(x, Pow2(k), 1);
  }

  /** Below 2^(t+1) with bit t clear means below 2^t. */
  lemma ClearTopBit(x: nat, t: nat, t1: nat)
    requires t1 == t + 1 && x < Pow2(t1) && Bit(x, t) == 0
    ensures x < Pow2(t)
  {
    Pow2Succ(t, t1);
    QuotientBelow(x, Pow2(t), 2);
    DivNat(x, Pow2(t));
    EvenBelowTwo(x / Pow2(t));
    BelowOneQuotient(x, Pow2(t));
  }

  lemma EvenBelowTwo(q: nat)
    requires q < 2 && q % 2 == 0
    ensures q == 0
  { }

  lemma BelowOneQuotient(x: nat, d: nat)
    requires d > 0 && x / d == 0
    ensures x < d
  {
    assert x == d * (x / d) + x % d;
  }

  /** Adding d to x flips the parity of x / d. */
  lemma AddDivisorParity(x: nat, d: nat)
    requires d > 0 && (x / d) % 2 == 0
    ensures ((x + d) / d) % 2 == 1
  {
    DivAddMul(x, d, 1);
  }

  /** Adding d to x with x / d even leaves x / (d * 2 * f) alone. */
  lemma AddDivisorHigh(x: nat, d: nat, f: nat)
    requires d > 0 && f > 0 && (x / d) % 2 == 0
    ensures (x + d) / (d * (2 * f)) == x / (d * (2 * f))
  {
    AddDivisorQuot(x, d, 2 * f);
    DivDiv(x, d, 2 * f);
    DivNat(x, d);
    EvenSuccessorQuotient(x / d, f);
  }

  lemma AddDivisorQuot(x: nat, d: nat, g: nat)
    requires d > 0 && g > 0
    ensures (x + d) / (d * g) == (x / d + 1) / g
  {
    DivAddMul(x, d, 1);
    DivDiv(x + d, d, g);
  }

  lemma EvenSuccessorQuotient(q: nat, f: nat)
    requires f > 0 && q % 2 == 0
    ensures (q + 1) / (2 * f) == q / (2 * f)
  {
    DivDiv(q + 1, 2, f);
    DivDiv(q, 2, f);
    DivModUnique(q + 1, 2, q / 2, 1);
  }

  /**
   * Adding 2^k to x whose bit k is clear sets bit k and leaves every other
   * bit as it was: it is x | 2^k.
   */
  lemma BitAfterAdd(x: nat, k: nat, j: nat)
    requires Bit(x, k) == 0
    ensures Bit(x + Pow2(k), j) == if j == k then 1 else Bit(x, j)
  {
    if j < k {
      var p, h, y := Pow2(j), Pow2(k - j), Pow2(k - j - 1);
      Pow2Split(k, j);
      assert h == 2 * y;
      LowBitsOfSum(x, p, h, y, Pow2(k));
    } else if j == k {
      AddDivisorParity(x, Pow2(k));
    } else {
      var d, h, f := Pow2(k), Pow2(j - k), Pow2(j - k - 1);
      Pow2Split(j, k);
      assert h == 2 * f;
      HighBitsOfSum(x, d, h, f, Pow2(j));
    }
  }

  /** Adding t == p * 2y leaves bit 0 of the quotient by p alone. */
  lemma LowBitsOfSum(x: nat, p: nat, h: nat, y: nat, t: nat)
    requires p > 0 && h == 2 * y && t == p * h
    ensures ((x + t) / p) % 2 == (x / p) % 2
  {
    DivModOfSum(x, p, 2, y);
  }

  /** Adding d to x with x / d even leaves x / m alone for m == d * 2f. */
  lemma HighBitsOfSum(x: nat, d: nat, h: nat, f: nat, m: nat)
    requires d > 0 && f > 0 && (x / d) % 2 == 0 && h == 2 * f && m == d * h
    ensures (x + d) / m == x / m
  {
    AddDivisorHigh(x, d, f);
  }

  /** Setting a clear bit k < n of x < 2^n stays below 2^n. */
  lemma AddClearBitBound(x: nat, k: nat, n: nat)
    requires k < n && x < Pow2(n) && Bit(x, k) == 0
    ensures x + Pow2(k) < Pow2(n)
  {
    var d, h, g := Pow2(k), Pow2(n - k), Pow2(n - k - 1);
    Pow2Split(n, k);
    assert h == 2 * g;
    AddEvenQuotientBound(x, d, g, h);
  }

  lemma AddEvenQuotientBound(x: nat, d: nat, g: nat, h: nat)
    requires d > 0 && g > 0 && h == 2 * g && x < d * h && (x / d) % 2 == 0
    ensures x + d < d * h
  {
    var q := x / d;
    QuotientBelow(x, d, 2 * g);
    assert q + 2 <= 2 * g;
    assert x + d == d * (q + 1) + x % d;
    MulMono(d, q + 2, 2 * g);
  }

  lemma Pow2Int()
    ensures Pow2(31) == 0x8000_0000 && Pow2(32) == 0x1_0000_0000
  {
    Pow2Byte();
    Pow2Add(8, 8);
    assert Pow2(16) == 0x1_0000;
    Pow2Add(16, 16);
    assert Pow2(32) == 0x1_0000_0000;
    assert Pow2(32) == 2 * Pow2(31);
  }

  /** A remainder of something already below the divisor is itself. */
  lemma ModBelow(x: nat, m: nat)
    requires x < m
    ensures x % m == x
  {
    DivModUnique(x, m, 0, x);
  }

  /** Subtracting 2^k from x whose bit k is set clears bit k and leaves every other bit: it is x & ~2^k. */
  lemma BitAfterSub(x: nat, k: nat, j: nat)
    requires Bit(x, k) == 1
    ensures x >= Pow2(k)
    ensures Bit(x - Pow2(k), j) == if j == k then 0 else Bit(x, j)
  {
    BitSetLowerBound(x, k);
    var d := Pow2(k);
    var y: nat := x - d;
    DivAddMul(y, d, 1);
    assert y + d * 1 == x;
    PredecessorParity(x / d, y / d);
    BitAfterAdd(y, k, j);
  }

  lemma Pow2Succ(k: nat, k1: nat)
    requires k1 == k + 1
    ensures Pow2(k1) == Pow2(k) * 2
  { }

  /** Halving 2^(k + 1) gives 2^k. */
  lemma HalvePow2(m: nat, k: nat, k1: nat)
    requires k1 == k + 1 && m == Pow2(k1)
    ensures m / 2 == Pow2(k)
  { }

  lemma PredecessorParity(a: nat, b: nat)
    requires a == b + 1 && a % 2 == 1
    ensures b % 2 == 0
  {
  }

  /** Bitwise AND of two naturals. */
  function And(x: nat, y: nat): (r: nat)
    ensures r <= x && r <= y
  {
    if x == 0 || y == 0 then 0
    else 2 * And(x / 2, y / 2) + (if x % 2 == 1 && y % 2 == 1 then 1 else 0)
  }

  /** AND with the mask 2^k - 1 keeps the low k bits. */
  lemma {:induction false} AndLowMask(x: nat, k: nat)
    ensures And(x, Pow2(k) - 1) == x % Pow2(k)
  {
    if k == 0 {
      AndMaskOne(x, Pow2(k));
      assert And(x, Pow2(k) - 1) == x % Pow2(k);
    } else if x == 0 {
      ModBelow(0, Pow2(k));
      assert And(x, Pow2(k) - 1) == x % Pow2(k);
    } else {
      var p, h := Pow2(k), Pow2(k - 1);
      assert p == 2 * h;
      MaskHalf(p, h);
      AndOdd(x, p - 1);
      assert And(x / 2, (p - 1) / 2) == And(x / 2, h - 1);
      AndLowMask(x / 2, k - 1);
      ModHalves(x, p, h);
      assert And(x, Pow2(k) - 1) == x % Pow2(k);
    }
  }

  lemma AndMaskOne(x: nat, p: nat)
    requires p == 1
    ensures And(x, p - 1) == x % p
  {
    assert And(x, p - 1) == And(x, 0);
    DivModUnique(x, p, x, 0);
  }

  /** The mask 2h - 1 halves to h - 1 and is odd. */
  lemma MaskHalf(p: nat, h: nat)
    requires h >= 1 && p == 2 * h
    ensures (p - 1) / 2 == h - 1 && (p - 1) % 2 == 1
  {
    DivModUnique(p - 1, 2, h - 1, 1);
  }

  /** x modulo 2h is x / 2 modulo h, shifted up, with the low bit of x below it. */
  lemma ModHalves(x: nat, p: nat, h: nat)
    requires h > 0 && p == 2 * h
    ensures x % p == 2 * ((x / 2) % h) + x % 2
  {
    DivDiv(x, 2, h);
  }

  lemma AndOdd(x: nat, y: nat)
    requires x > 0 && y % 2 == 1
    ensures And(x, y) == 2 * And(x / 2, y / 2) + x % 2
  {
  }

  /**
   * Reading x a byte at a time, most significant first: the f bits above bit
   * e + 8, shifted up by a byte, with the byte at bit e below them, are the
   * f + 8 bits above bit e.
   */
  lemma WindowStep(x: nat, e: nat, e8: nat, f: nat, f8: nat)
    requires e8 == e + 8 && f8 == f + 8
    ensures ((x / Pow2(e8)) % Pow2(f)) * 256 + (x / Pow2(e)) % 256
         == (x / Pow2(e)) % Pow2(f8)
  {
    DivNat(x, Pow2(e));
    var y := x / Pow2(e);
    DivByteShift(x, e, e8);
    Pow2ByteShift(f, f8);
    ShiftedRemainder(y, 256, Pow2(f), Pow2(f8));
  }

  lemma Pow2ByteShift(a: nat, a8: nat)
    requires a8 == a + 8
    ensures Pow2(a8) == 256 * Pow2(a)
  {
    Pow2Sum(a, 8, a8);
    Pow2Byte();
  }

  lemma DivByteShift(x: nat, e: nat, e8: nat)
    requires e8 == e + 8
    ensures x / Pow2(e8) == (x / Pow2(e)) / 256
  {
    Pow2ByteShift(e, e8);
    DivDiv(x, Pow2(e), 256);
  }

  /** Bits of y above a d-sized digit, cut to p, shifted back up, with that digit below them: y modulo d * p. */
  lemma ShiftedRemainder(y: nat, d: nat, p: nat, m: nat)
    requires d == 256 && p > 0 && m == d * p
    ensures ((y / d) % p) * 256 + y % 256 == y % m
  {
    DivDiv(y, d, p);
  }

  /** Setting bit n of m, if clear, by adding 2^n leaves every other bit. */
  lemma BitsAfterSetBit(m: nat, n: nat, r: nat)
    requires r == m + (if Bit(m, n) == 1 then 0 else Pow2(n))
    ensures forall j :: Bit(r, j) == if j == n then 1 else Bit(m, j)
  {
    forall j ensures Bit(r, j) == if j == n then 1 else Bit(m, j) {
      if Bit(m, n) == 0 {
        BitAfterAdd(m, n, j);
      }
    }
  }

  /** Clearing bit n of m, if set, by subtracting 2^n leaves every other bit. */
  lemma BitsAfterClearBit(m: nat, n: nat, r: nat)
    requires r + (if Bit(m, n) == 1 then Pow2(n) else 0) == m
    ensures forall j :: Bit(r, j) == if j == n then 0 else Bit(m, j)
  {
    forall j ensures Bit(r, j) == if j == n then 0 else Bit(m, j) {
      if Bit(m, n) == 1 {
        BitAfterSub(m, n, j);
      }
    }
  }

  /** c bits at s of the w-bit piece x / 2^a are the c bits of x at a + s. */
  lemma WindowOfPiece(x: nat, a: nat, s: nat, e: nat, c: nat, w: nat)
    requires s + c <= w && e == a + s
    ensures (((x / Pow2(a)) % Pow2(w)) / Pow2(s)) % Pow2(c) == (x / Pow2(e)) % Pow2(c)
  {
    DivNat(x, Pow2(a));
    ModDivMod(x / Pow2(a), w, s, c);
    DivPow2Sum(x, a, s, e);
  }
}
