/**
 * Limb sequences: the magnitude a sequence of 64-bit words stands for
 * (least-significant word first) and how bits, bytes and truncations of that
 * magnitude are read off individual words.
 */
module Limbs {
  import opened Arith

  /** Width of one limb (MP_WORD_BITS) and its size in bytes. */
  const WORD_BITS: nat := 64
  const WORD_BYTES: nat := 8
  const WORD_BASE: nat := 0x1_0000_0000_0000_0000

  type Word = x: nat | x < WORD_BASE

  lemma Pow2Word()
    ensures Pow2(WORD_BITS) == WORD_BASE
  {
    Pow2Int();
    Pow2Add(32, 32);
  }
  type Byte = x: nat | x < 256

  /** The magnitude of s: the sum of s[i] * 2^(64 i). */
  function Value(s: seq<Word>): nat
  {
    if s == [] then 0 else s[0] + WORD_BASE * Value(s[1..])
  }

  /** s[i], or 0 past the end of s. */
  function WordAtOf(s: seq<Word>, i: nat): Word
  {
    if i < |s| then s[i] else 0
  }

  /** The index just past the highest nonzero limb of s. */
  function SigWordsOf(s: seq<Word>): (r: nat)
    ensures r <= |s|
    ensures r > 0 ==> s[r - 1] != 0
    ensures forall i :: r <= i < |s| ==> s[i] == 0
  {
    if |s| == 0 then 0
    else if s[|s| - 1] != 0 then |s|
    else SigWordsOf(s[..|s| - 1])
  }

  lemma {:induction false} ValueBound(s: seq<Word>)
    ensures Value(s) < Pow2(WORD_BITS * |s|)
  {
    if s != [] {
      ValueBound(s[1..]);
      var p := Pow2(WORD_BITS * (|s| - 1));
      Pow2Word();
      Pow2Add(WORD_BITS, WORD_BITS * (|s| - 1));
      MulLe(WORD_BASE, Value(s[1..]), p - 1);
    }
  }

  /** The low k limbs and the remaining limbs contribute independently. */
  lemma {:induction false} ValueSplit(s: seq<Word>, k: nat)
    requires k <= |s|
    ensures Value(s) == Value(s[..k]) + Pow2(WORD_BITS * k) * Value(s[k..])
  {
    if k == 0 {
      assert s[..0] == [] && s[0..] == s;
    } else {
      var t := s[1..];
      ValueSplit(t, k - 1);
      assert s[..k][1..] == t[..k - 1];
      assert t[k - 1..] == s[k..];
      assert Value(s[..k]) == s[0] + WORD_BASE * Value(t[..k - 1]);
      Pow2Word();
      Pow2Add(WORD_BITS, WORD_BITS * (k - 1));
      assert WORD_BITS + WORD_BITS * (k - 1) == WORD_BITS * k;
      ShiftSplit(Value(s), s[0], Value(t), Value(t[..k - 1]), Pow2(WORD_BITS * (k - 1)), Value(s[k..]), Pow2(WORD_BITS * k));
    }
  }

  /** One limb below a split value: v = s0 + B * (lo + p * hi) regroups as (s0 + B * lo) + (B * p) * hi. */
  lemma ShiftSplit(v: nat, s0: nat, vt: nat, lo: nat, p: nat, hi: nat, q: nat)
    requires v == s0 + WORD_BASE * vt && vt == lo + p * hi && q == WORD_BASE * p
    ensures v == (s0 + WORD_BASE * lo) + q * hi
  {
    Distrib(WORD_BASE, lo, MulNat(p, hi));
    MulAssoc(WORD_BASE, p, hi);
  }

  lemma ValueAppend(s: seq<Word>, w: Word)
    ensures Value(s + [w]) == Value(s) + Pow2(WORD_BITS * |s|) * w
  {
    var t := s + [w];
    ValueSplit(t, |s|);
    assert t[..|s|] == s;
    assert t[|s|..] == [w];
    assert [w][1..] == [];
    assert Value([w]) == w;
  }

  /** A limb sequence stands for zero exactly when every limb is zero. */
  lemma {:induction false} ValueZeroIff(s: seq<Word>)
    ensures Value(s) == 0 <==> forall i :: 0 <= i < |s| ==> s[i] == 0
  {
    if s != [] {
      ValueZeroIff(s[1..]);
      assert (forall i :: 0 <= i < |s| ==> s[i] == 0)
         <==> s[0] == 0 && forall i :: 0 <= i < |s[1..]| ==> s[1..][i] == 0;
    }
  }

  /** Zero limbs above index k add nothing to the magnitude. */
  lemma ValueZeroTail(s: seq<Word>, k: nat)
    requires k <= |s|
    requires forall i :: k <= i < |s| ==> s[i] == 0
    ensures Value(s) == Value(s[..k])
  {
    ValueSplit(s, k);
    ValueZeroIff(s[k..]);
  }

  /** The limbs from index SigWordsOf(s) on are zero, so the significant prefix carries the magnitude. */
  lemma ValueSigWords(s: seq<Word>)
    ensures Value(s) == Value(s[..SigWordsOf(s)])
    ensures Value(s) == 0 <==> SigWordsOf(s) == 0
  {
    var w := SigWordsOf(s);
    ValueZeroTail(s, w);
    ValueZeroIff(s);
  }

  /** Dividing the magnitude by 2^(64 q) drops the low q limbs; the remainder keeps them. */
  lemma ValueDivMod(s: seq<Word>, q: nat)
    requires q <= |s|
    ensures Value(s) / Pow2(WORD_BITS * q) == Value(s[q..])
    ensures Value(s) % Pow2(WORD_BITS * q) == Value(s[..q])
  {
    ValueSplit(s, q);
    ValueBound(s[..q]);
    DivModUnique(Value(s), Pow2(WORD_BITS * q), Value(s[q..]), Value(s[..q]));
  }

  /** Value of s[q..] with its lowest limb split off at bit r. */
  lemma ValueAtLimb(s: seq<Word>, q: nat, r: nat)
    requires q < |s| && r <= WORD_BITS
    ensures Value(s[q..]) == s[q] + Pow2(r) * (Pow2(WORD_BITS - r) * Value(s[q + 1..]))
  {
    assert s[q..][1..] == s[q + 1..];
    Pow2Word();
    Pow2Add(r, WORD_BITS - r);
    MulAssoc(Pow2(r), Pow2(WORD_BITS - r), Value(s[q + 1..]));
  }

  /** Value of s[q..] with its lowest limb split off at bit r, the next m bits set apart. */
  lemma ValueAtLimbChunk(s: seq<Word>, q: nat, r: nat, m: nat) returns (y: nat)
    requires q < |s| && r + m <= WORD_BITS
    ensures Value(s[q..]) == s[q] + Pow2(r) * (Pow2(m) * y)
  {
    y := MulNat(Pow2(WORD_BITS - r - m), Value(s[q + 1..]));
    ValueAtLimb(s, q, r);
    Pow2Split(WORD_BITS - r, m);
    MulAssoc(Pow2(m), Pow2(WORD_BITS - r - m), Value(s[q + 1..]));
  }

  /**
   * m bits of the magnitude starting at bit n, when they lie within one limb,
   * are the same m bits of that limb (zero past the last limb).
   */
  lemma ValueChunk(s: seq<Word>, n: nat, m: nat)
    requires n % WORD_BITS + m <= WORD_BITS
    ensures (Value(s) / Pow2(n)) % Pow2(m)
         == (WordAtOf(s, n / WORD_BITS) / Pow2(n % WORD_BITS)) % Pow2(m)
  {
    var q, r := n / WORD_BITS, n % WORD_BITS;
    assert n == WORD_BITS * q + r;
    if q >= |s| {
      ValueChunkBeyond(s, n);
      assert WordAtOf(s, q) == 0;
      assert (WordAtOf(s, q) / Pow2(r)) % Pow2(m) == 0;
    } else {
      ValueChunkWithin(s, n, q, r, m);
      assert WordAtOf(s, q) == s[q];
    }
  }

  /** The chunk-reading step of ValueChunkWithin on plain numbers. */
  lemma ChunkOfSum(v: nat, pa: nat, pq: nat, pr: nat, pm: nat, x: nat, w: nat, y: nat)
    requires pa > 0 && pq > 0 && pr > 0 && pm > 0
    requires v / pa == (v / pq) / pr && v / pq == x && x == w + pr * (pm * y)
    ensures (v / pa) % pm == (w / pr) % pm
  {
    DivModOfSum(w, pr, pm, y);
  }

  lemma ZeroDivMod(a: nat, b: nat)
    requires a > 0 && b > 0
    ensures (0 / a) % b == 0
  {
  }

  lemma ValueChunkBeyond(s: seq<Word>, n: nat)
    requires n >= WORD_BITS * |s|
    ensures Value(s) / Pow2(n) == 0
  {
    ValueBound(s);
    Pow2Le(WORD_BITS * |s|, n);
    DivModUnique(Value(s), Pow2(n), 0, Value(s));
  }

  lemma ValueChunkWithin(s: seq<Word>, n: nat, q: nat, r: nat, m: nat)
    requires q < |s| && r + m <= WORD_BITS && n == WORD_BITS * q + r
    ensures (Value(s) / Pow2(n)) % Pow2(m) == (s[q] / Pow2(r)) % Pow2(m)
  {
    DivPow2Sum(Value(s), WORD_BITS * q, r, n);
    ValueDivMod(s, q);
    var y := ValueAtLimbChunk(s, q, r, m);
    ChunkOfSum(Value(s), Pow2(n), Pow2(WORD_BITS * q), Pow2(r), Pow2(m), Value(s[q..]), s[q], y);
  }

  /**
   * The magnitude truncated to n bits keeps the limbs below n / 64 and the low
   * n % 64 bits of limb n / 64.
   */
  lemma ValueModPow2(s: seq<Word>, n: nat)
    requires n / WORD_BITS < |s|
    ensures Value(s) % Pow2(n)
         == Value(s[..n / WORD_BITS]) + Pow2(WORD_BITS * (n / WORD_BITS)) * (s[n / WORD_BITS] % Pow2(n % WORD_BITS))
  {
    var q, r := n / WORD_BITS, n % WORD_BITS;
    ValueModPow2Within(s, n, q, r);
  }

  lemma ValueModPow2Within(s: seq<Word>, n: nat, q: nat, r: nat)
    requires q < |s| && r < WORD_BITS && n == WORD_BITS * q + r
    ensures Value(s) % Pow2(n) == Value(s[..q]) + Pow2(WORD_BITS * q) * (s[q] % Pow2(r))
  {
    var x := Value(s[q..]);
    var y := MulNat(Pow2(WORD_BITS - r), Value(s[q + 1..]));
    Pow2Sum(WORD_BITS * q, r, n);
    ValueDivMod(s, q);
    ValueAtLimb(s, q, r);
    assert x == s[q] + Pow2(r) * y;
    ModOfSplit(Value(s), Pow2(n), Pow2(WORD_BITS * q), Pow2(r), x, Value(s[..q]), s[q], y);
  }

  /** v split at p into x above and lo below, x split at r: v modulo p * r keeps lo and x modulo r. */
  lemma ModOfSplit(v: nat, pa: nat, p: nat, r: nat, x: nat, lo: nat, w: nat, y: nat)
    requires p > 0 && r > 0 && pa == p * r
    requires v / p == x && v % p == lo && x == w + r * y
    ensures v % pa == lo + p * (w % r)
  {
    DivDiv(v, p, r);
    DivAddMul(w, r, y);
    assert (v / p) % r == (w + r * y) % r;
  }

  /** Replacing limb i by w moves the magnitude by (w - s[i]) * 2^(64 i). */
  lemma ValueUpdate(s: seq<Word>, i: nat, w: Word)
    requires i < |s|
    ensures Value(s[i := w]) + Pow2(WORD_BITS * i) * s[i] == Value(s) + Pow2(WORD_BITS * i) * w
  {
    var t := s[i := w];
    ValueAtIndex(s, i);
    ValueAtIndex(t, i);
    assert t[..i] == s[..i];
    assert t[i + 1..] == s[i + 1..];
    SwapAddend(Value(s), Value(t), Value(s[..i]), Pow2(WORD_BITS * i), Value(s[i..]), Value(t[i..]),
               s[i], w, WORD_BASE * Value(s[i + 1..]));
  }

  /** The magnitude around limb i: the limbs below, limb i, and the limbs above. */
  lemma ValueAtIndex(s: seq<Word>, i: nat)
    requires i < |s|
    ensures Value(s) == Value(s[..i]) + Pow2(WORD_BITS * i) * Value(s[i..])
    ensures Value(s[i..]) == s[i] + WORD_BASE * Value(s[i + 1..])
  {
    var u := s[i..];
    ValueSplit(s, i);
    assert u[0] == s[i] && u[1..] == s[i + 1..];
  }

  /** Exchanging addend a for b inside p * (_ + h) changes the total by p * (b - a). */
  lemma SwapAddend(vs: nat, vt: nat, low: nat, p: nat, xs: nat, xt: nat, a: nat, b: nat, h: nat)
    requires vs == low + p * xs && vt == low + p * xt
    requires xs == a + h && xt == b + h
    ensures vt + p * a == vs + p * b
  {
    Distrib(p, a, h);
    Distrib(p, b, h);
  }

  lemma Distrib(p: nat, x: nat, y: nat)
    ensures p * (x + y) == p * x + p * y
  {
  }

  /** A top limb in [lo, hi) scaled by p, plus anything below p, lies in [p * lo, p * hi). */
  lemma TopLimbBounds(v: nat, low: nat, p: nat, top: nat, lo: nat, hi: nat, pl: nat, ph: nat)
    requires low < p && lo <= top < hi && v == low + p * top && pl == p * lo && ph == p * hi
    ensures pl <= v < ph
  {
    MulLe(p, lo, top);
    MulLe(p, top, hi - 1);
  }

  /** Bit length of low + 2^e * top when low < 2^e and top is nonzero. */
  lemma TopLimbBitLen(v: nat, low: nat, e: nat, top: nat)
    requires top > 0 && low < Pow2(e) && v == low + Pow2(e) * top
    ensures BitLen(v) == e + BitLen(top)
  {
    var t := BitLen(top);
    var et := e + t;
    Pow2Sum(e, t - 1, et - 1);
    Pow2Sum(e, t, et);
    TopLimbBounds(v, low, Pow2(e), top, Pow2(t - 1), Pow2(t), Pow2(et - 1), Pow2(et));
    BitLenUnique(v, et);
  }

  /** Bit length of the magnitude read from the top significant limb. */
  lemma ValueBitLen(s: seq<Word>)
    ensures var w := SigWordsOf(s);
            BitLen(Value(s)) == if w == 0 then 0 else WORD_BITS * (w - 1) + BitLen(s[w - 1])
  {
    var w := SigWordsOf(s);
    if w > 0 {
      var low, top := s[..w - 1], s[w - 1];
      assert s[..w] == low + [top];
    }
    ValueSigWords(s);
    if w > 0 {
      var low, top := s[..w - 1], s[w - 1];
      var e := WORD_BITS * (w - 1);
      ValueAppend(low, top);
      ValueBound(low);
      Pow2Congruence(WORD_BITS * |low|, e);
      TopLimbBitLen(Value(s), Value(low), e, top);
    }
  }

  /** Bit n of the magnitude is bit n % 64 of limb n / 64 (zero past the last limb). */
  lemma BitOfValue(s: seq<Word>, n: nat)
    ensures Bit(Value(s), n) == Bit(WordAtOf(s, n / WORD_BITS), n % WORD_BITS)
  {
    ValueChunk(s, n, 1);
    assert Pow2(1) == 2;
  }

  /** Byte n of the magnitude is byte n % 8 of limb n / 8, counted from the low end. */
  lemma ByteOfValue(s: seq<Word>, n: nat)
    ensures (Value(s) / Pow2(8 * n)) % 256
         == (WordAtOf(s, n / WORD_BYTES) / Pow2(8 * (n % WORD_BYTES))) % 256
  {
    var m := 8 * n;
    DivModUnique(m, WORD_BITS, n / WORD_BYTES, 8 * (n % WORD_BYTES));
    ValueChunk(s, m, 8);
    Pow2Byte();
  }

  /** Byte i of w counted from the most significant end (get_byte). */
  function GetByte(i: nat, w: Word): Byte
    requires i < WORD_BYTES
  {
    (w / Pow2(8 * (WORD_BYTES - 1 - i))) % 256
  }

  /** w | (1 << k): bit k set, every other bit kept. */
  function WordSetBit(w: Word, k: nat): (r: Word)
    requires k < WORD_BITS
    ensures forall j :: Bit(r, j) == if j == k then 1 else Bit(w, j)
  {
    if Bit(w, k) == 1 then w
    else
      BitsAfterSetBit(w, k, w + Pow2(k));
      Pow2Word();
      AddClearBitBound(w, k, WORD_BITS);
      w + Pow2(k)
  }

  /** w & ~(1 << k): bit k cleared, every other bit kept. */
  function WordClearBit(w: Word, k: nat): (r: Word)
    requires k < WORD_BITS
    ensures forall j :: Bit(r, j) == if j == k then 0 else Bit(w, j)
  {
    if Bit(w, k) == 0 then w
    else
      BitSetLowerBound(w, k);
      BitsAfterClearBit(w, k, w - Pow2(k));
      w - Pow2(k)
  }

  /** Setting bit n inside the limbs adds 2^n to the magnitude unless the bit was already set. */
  lemma ValueSetBit(s: seq<Word>, n: nat)
    requires n / WORD_BITS < |s|
    ensures Value(s[n / WORD_BITS := WordSetBit(s[n / WORD_BITS], n % WORD_BITS)])
         == Value(s) + (if Bit(Value(s), n) == 1 then 0 else Pow2(n))
  {
    var q, r := n / WORD_BITS, n % WORD_BITS;
    var w := s[q];
    var w2 := WordSetBit(w, r);
    BitOfValue(s, n);
    assert WordAtOf(s, q) == w;
    ValueUpdate(s, q, w2);
    if Bit(w, r) == 0 {
      assert w2 == w + Pow2(r);
      LimbPlace(n, q, r);
      UpdateByDelta(Value(s[q := w2]), Value(s), Pow2(WORD_BITS * q), w, w2, Pow2(r));
    } else {
      assert w2 == w;
    }
  }

  /** Clearing bit n inside the limbs subtracts 2^n from the magnitude if the bit was set. */
  lemma ValueClearBit(s: seq<Word>, n: nat)
    requires n / WORD_BITS < |s|
    ensures Value(s[n / WORD_BITS := WordClearBit(s[n / WORD_BITS], n % WORD_BITS)])
         == Value(s) - (if Bit(Value(s), n) == 1 then Pow2(n) else 0)
  {
    var q, r := n / WORD_BITS, n % WORD_BITS;
    var w := s[q];
    var w2 := WordClearBit(w, r);
    BitOfValue(s, n);
    assert WordAtOf(s, q) == w;
    ValueUpdate(s, q, w2);
    if Bit(w, r) == 1 {
      BitSetLowerBound(w, r);
      assert w == w2 + Pow2(r);
      LimbPlace(n, q, r);
      UpdateByDelta(Value(s), Value(s[q := w2]), Pow2(WORD_BITS * q), w2, w, Pow2(r));
    } else {
      assert w2 == w;
    }
  }

  /** Bit r of limb q is bit 64 q + r of the magnitude: 2^n splits as 2^(64 q) * 2^r. */
  lemma LimbPlace(n: nat, q: nat, r: nat)
    requires q == n / WORD_BITS && r == n % WORD_BITS
    ensures Pow2(WORD_BITS * q) * Pow2(r) == Pow2(n)
  {
    assert n == WORD_BITS * q + r;
    Pow2Add(WORD_BITS * q, r);
  }

  /** If limb w2 = w + d replaces w at weight p, the magnitude grows by p * d. */
  lemma UpdateByDelta(vt: nat, vs: nat, p: nat, w: nat, w2: nat, d: nat)
    requires vt + p * w == vs + p * w2 && w2 == w + d
    ensures vt == vs + p * d
  {
    Distrib(p, w, d);
  }

  /** Appending zero limbs keeps the magnitude. */
  lemma ValueGrow(s: seq<Word>, t: seq<Word>)
    requires |s| <= |t| && t[..|s|] == s
    requires forall i :: |s| <= i < |t| ==> t[i] == 0
    ensures Value(t) == Value(s)
  {
    ValueZeroTail(t, |s|);
  }

  /**
   * Zeroing the limbs above n / 64 and keeping the low n % 64 bits of limb
   * n / 64 truncates the magnitude to n bits.
   */
  lemma ValueMasked(s: seq<Word>, t: seq<Word>, n: nat)
    requires n / WORD_BITS < |s| == |t|
    requires t[..n / WORD_BITS] == s[..n / WORD_BITS]
    requires t[n / WORD_BITS] == And(s[n / WORD_BITS], Pow2(n % WORD_BITS) - 1)
    requires forall i :: n / WORD_BITS < i < |t| ==> t[i] == 0
    ensures Value(t) == Value(s) % Pow2(n)
  {
    var q := n / WORD_BITS;
    var low := s[..q];
    assert t[q] == s[q] % Pow2(n % WORD_BITS) by { AndLowMask(s[q], n % WORD_BITS); }
    assert Value(t) == Value(low + [t[q]]) by {
      ValueZeroTail(t, q + 1);
      assert t[..q + 1] == low + [t[q]];
    }
    ValueAppend(low, t[q]);
    Pow2Congruence(WORD_BITS * |low|, WORD_BITS * q);
    ValueModPow2(s, n);
    SameSum(Value(t), Value(low), Pow2(WORD_BITS * q), t[q], Value(s) % Pow2(n), s[q] % Pow2(n % WORD_BITS));
  }

  /**
   * A low part plus a multiple of the same weight, written twice. Stated over
   * plain naturals so that the solver sees only linear facts, not the Value
   * and Pow2 terms they stand for.
   */
  lemma SameSum(v: nat, lo: nat, p: nat, w: nat, x: nat, w2: nat)
    requires v == lo + p * w && x == lo + p * w2 && w == w2
    ensures v == x
  { }

  /** The magnitude needs at most 64 bits per significant limb. */
  lemma BitLenWithinWords(s: seq<Word>)
    ensures BitLen(Value(s)) <= WORD_BITS * SigWordsOf(s)
  {
    var w := SigWordsOf(s);
    ValueBitLen(s);
    if w > 0 {
      var top := s[w - 1];
      assert BitLen(Value(s)) == WORD_BITS * (w - 1) + BitLen(top);
      Pow2Word();
      BitLenBound(top, WORD_BITS);
    }
  }

  /** byte_at read off the limbs: byte n % 8 of limb n / 8 from the least significant end, 0 past the limbs. */
  lemma ByteAtLimb(s: seq<Word>, n: nat)
    ensures (Value(s) / Pow2(8 * n)) % 256
         == if n / WORD_BYTES >= |s| then 0 else GetByte(WORD_BYTES - n % WORD_BYTES - 1, s[n / WORD_BYTES])
  {
    ByteOfValue(s, n);
    var q := n / WORD_BYTES;
    if q < |s| {
      assert WordAtOf(s, q) == s[q];
      assert WORD_BYTES - 1 - (WORD_BYTES - n % WORD_BYTES - 1) == n % WORD_BYTES;
    } else {
      assert WordAtOf(s, q) == 0;
      ZeroDivMod(Pow2(8 * (n % WORD_BYTES)), 256);
    }
  }

  /**
   * The bit length of the magnitude, from the position topBits of the highest
   * set bit of the top significant limb.
   */
  lemma BitLenFromTopLimb(s: seq<Word>, topBits: nat)
    requires SigWordsOf(s) > 0 && 1 <= topBits
    requires s[SigWordsOf(s) - 1] < Pow2(topBits) && Bit(s[SigWordsOf(s) - 1], topBits - 1) == 1
    ensures BitLen(Value(s)) == (SigWordsOf(s) - 1) * WORD_BITS + topBits
  {
    var top := s[SigWordsOf(s) - 1];
    BitSetLowerBound(top, topBits - 1);
    BitLenUnique(top, topBits);
    ValueBitLen(s);
  }

  /** set_bit(n) on limbs that reach limb n / 64: 2^n added unless bit n was set, every other bit kept. */
  lemma SetBitInLimbs(s: seq<Word>, n: nat, t: seq<Word>)
    requires n / WORD_BITS < |s|
    requires t == s[n / WORD_BITS := WordSetBit(s[n / WORD_BITS], n % WORD_BITS)]
    ensures Value(t) == Value(s) + (if Bit(Value(s), n) == 1 then 0 else Pow2(n))
    ensures forall j :: Bit(Value(t), j) == if j == n then 1 else Bit(Value(s), j)
  {
    ValueSetBit(s, n);
    BitsAfterSetBit(Value(s), n, Value(t));
  }

  /** clear_bit(n) on limbs: 2^n taken away if bit n was set, every other bit kept; nothing changes past the limbs. */
  lemma ClearBitInLimbs(s: seq<Word>, n: nat, t: seq<Word>)
    requires t == if n / WORD_BITS < |s| then s[n / WORD_BITS := WordClearBit(s[n / WORD_BITS], n % WORD_BITS)] else s
    ensures Value(t) + (if Bit(Value(s), n) == 1 then Pow2(n) else 0) == Value(s)
    ensures forall j :: Bit(Value(t), j) == if j == n then 0 else Bit(Value(s), j)
  {
    BitOfValue(s, n);
    if n / WORD_BITS < |s| {
      ValueClearBit(s, n);
    } else {
      assert WordAtOf(s, n / WORD_BITS) == 0;
      ZeroDivMod(Pow2(n % WORD_BITS), 2);
    }
    BitsAfterClearBit(Value(s), n, Value(t));
  }

  /** Below the bit length, bit n lies within the significant limbs. */
  lemma BelowBitLenWithinLimbs(s: seq<Word>, n: nat)
    requires n < BitLen(Value(s))
    ensures n / WORD_BITS < SigWordsOf(s) <= |s|
  {
    BitLenWithinWords(s);
  }

  /** (1 << k) - 1 as a limb, for k < 64. */
  lemma LowMaskIsWord(k: nat)
    requires k < WORD_BITS
    ensures 0 <= Pow2(k) - 1 < WORD_BASE
  {
    Pow2Word();
    Pow2Le(k, WORD_BITS);
  }
}
