/**
 * Unsigned big-endian byte strings: the number a byte string stands for and
 * the fixed-length big-endian encoding of a number. These give binary_encode
 * and binary_decode their meaning.
 */
module BigEndian {
  import opened Arith
  import opened Limbs

  /** The number the bytes of s stand for, most significant byte first. */
  function FromBytes(s: seq<Byte>): nat
  {
    if s == [] then 0 else FromBytes(s[..|s| - 1]) * 256 + s[|s| - 1]
  }

  /** The low len bytes of x, most significant first. */
  function ToBytes(x: nat, len: nat): (r: seq<Byte>)
    ensures |r| == len
  {
    if len == 0 then [] else ToBytes(x / 256, len - 1) + [x % 256]
  }

  lemma {:induction false} FromBytesBound(s: seq<Byte>)
    ensures FromBytes(s) < Pow2(8 * |s|)
  {
    if s != [] {
      var init := s[..|s| - 1];
      FromBytesBound(init);
      Pow2Byte();
      Pow2Add(8 * |init|, 8);
      MulLe(256, FromBytes(init), Pow2(8 * |init|) - 1);
    }
  }

  /** Concatenation places the first part above the second. */
  lemma {:induction false} FromBytesConcat(a: seq<Byte>, b: seq<Byte>)
    ensures FromBytes(a + b) == FromBytes(a) * Pow2(8 * |b|) + FromBytes(b)
  {
    if b == [] {
      assert a + b == a;
    } else {
      var binit := b[..|b| - 1];
      assert (a + b)[..|a + b| - 1] == a + binit;
      FromBytesConcat(a, binit);
      Pow2Byte();
      Pow2Add(8 * |binit|, 8);
      var p := Pow2(8 * |binit|);
      calc {
        FromBytes(a + b);
        FromBytes(a + binit) * 256 + b[|b| - 1];
        (FromBytes(a) * p + FromBytes(binit)) * 256 + b[|b| - 1];
        { MulAssoc(FromBytes(a), p, 256); }
        FromBytes(a) * (p * 256) + (FromBytes(binit) * 256 + b[|b| - 1]);
      }
    }
  }

  /** Decoding the len-byte encoding of x yields x reduced modulo 2^(8 len). */
  lemma {:induction false} ToBytesRoundTrip(x: nat, len: nat)
    ensures FromBytes(ToBytes(x, len)) == x % Pow2(8 * len)
  {
    if len > 0 {
      var r := ToBytes(x, len);
      assert r[..len - 1] == ToBytes(x / 256, len - 1);
      ToBytesRoundTrip(x / 256, len - 1);
      Pow2Byte();
      Pow2Add(8, 8 * (len - 1));
      DivDiv(x, 256, Pow2(8 * (len - 1)));
    } else {
      assert x % 1 == 0;
    }
  }

  /** Encoding the number a byte string stands for, at the string's length, gives the string back. */
  lemma {:induction false} FromBytesRoundTrip(s: seq<Byte>)
    ensures ToBytes(FromBytes(s), |s|) == s
  {
    if s != [] {
      var init := s[..|s| - 1];
      FromBytesRoundTrip(init);
      DivModUnique(FromBytes(s), 256, FromBytes(init), s[|s| - 1]);
      assert s == init + [s[|s| - 1]];
    }
  }

  /** Byte i of the len-byte encoding of x is byte len - 1 - i of x counted from the least significant end. */
  lemma {:induction false} ToBytesAt(x: nat, len: nat, i: nat)
    requires i < len
    ensures ToBytes(x, len)[i] == (x / Pow2(8 * (len - 1 - i))) % 256
  {
    if i < len - 1 {
      ToBytesAt(x / 256, len - 1, i);
      Pow2Byte();
      DivPow2Add(x, 8, 8 * (len - 1 - i - 1));
      assert 8 + 8 * (len - 1 - i - 1) == 8 * (len - 1 - i);
    } else {
      assert Pow2(0) == 1;
    }
  }

  /** The fewest bytes that hold x: (bits + 7) / 8. */
  function ByteLen(x: nat): (r: nat)
    ensures x < Pow2(8 * r)
    ensures r > 0 ==> Pow2(8 * (r - 1)) <= x
  {
    var b := BitLen(x);
    if b == 0 then 0
    else
      Pow2Mono(b, 8 * ((b + 7) / 8));
      Pow2Mono(8 * ((b + 7) / 8 - 1), b - 1);
      (b + 7) / 8
  }

  /** Encoding x in ByteLen(x) bytes and reading them back gives x. */
  lemma EncodeRoundTrip(x: nat)
    ensures FromBytes(ToBytes(x, ByteLen(x))) == x
  {
    ToBytesRoundTrip(x, ByteLen(x));
    ModBelow(x, Pow2(8 * ByteLen(x)));
  }

  /** Shifting p < 2^(8 j), j < 8, up by a byte inside a 64-bit word loses nothing. */
  lemma ShiftByteNoWrap(p: nat, j: nat, b: nat, f: nat, f8: nat)
    requires j < WORD_BYTES && f == 8 * j && f8 == f + 8 && p < Pow2(f) && b < 256
    ensures (p * 256) % WORD_BASE + b == p * 256 + b
    ensures p * 256 + b < Pow2(f8)
    ensures p * 256 + b < WORD_BASE
  {
    Pow2Byte();
    Pow2Sum(f, 8, f8);
    MulLe(256, p, Pow2(f) - 1);
    Pow2Word();
    Pow2Le(f8, WORD_BITS);
    ModBelow(p * 256, WORD_BASE);
  }

  /** One step of binary_decode's inner loop: (w << 8) | b appends byte b to the bytes w was read from. */
  lemma ShiftInByte(acc: seq<Byte>, b: Byte)
    requires |acc| < WORD_BYTES
    ensures (FromBytes(acc) * 256) % WORD_BASE + b == FromBytes(acc + [b])
    ensures FromBytes(acc + [b]) < WORD_BASE
  {
    FromBytesBound(acc);
    ShiftByteNoWrap(FromBytes(acc), |acc|, b, 8 * |acc|, 8 * |acc| + 8);
    assert (acc + [b])[..|acc|] == acc;
  }

  /**
   * t holds the limbs binary_decode builds from the buffer b: limb i is the
   * 8 bytes ending 8 i bytes before the end of b, limb |b| / 8 the leading
   * |b| % 8 bytes, and every limb above it zero.
   */
  ghost predicate DecodedFrom(t: seq<Word>, b: seq<Byte>)
  {
    var q := |b| / WORD_BYTES;
    q < |t|
    && (forall i :: 0 <= i < q ==> t[i] == FromBytes(b[|b| - WORD_BYTES * (i + 1) .. |b| - WORD_BYTES * i]))
    && t[q] == FromBytes(b[.. |b| % WORD_BYTES])
    && (forall i :: q < i < |t| ==> t[i] == 0)
  }

  /** The limbs binary_decode builds stand for the big-endian number in the buffer. */
  lemma ValueDecoded(t: seq<Word>, b: seq<Byte>)
    requires DecodedFrom(t, b)
    ensures Value(t) == FromBytes(b)
  {
    var n, q := |b|, |b| / WORD_BYTES;
    var head, low := b[..n % WORD_BYTES], b[n - WORD_BYTES * q..];
    assert Value(t[..q]) == FromBytes(low) by { ValueDecodedLow(t, b, q); }
    assert Value(t) == Value(t[..q + 1]) by { ValueZeroTail(t, q + 1); }
    assert b == head + low;
    ValueDecodedJoin(t, q, head, low);
  }

  /** The top limb, holding the leading bytes, goes above the limbs holding the rest. */
  lemma ValueDecodedJoin(t: seq<Word>, q: nat, head: seq<Byte>, low: seq<Byte>)
    requires q < |t| && |low| == WORD_BYTES * q
    requires Value(t) == Value(t[..q + 1])
    requires t[q] == FromBytes(head) && Value(t[..q]) == FromBytes(low)
    ensures Value(t) == FromBytes(head + low)
  {
    assert t[..q + 1] == t[..q] + [t[q]];
    ValueAppend(t[..q], t[q]);
    FromBytesConcat(head, low);
    Pow2Congruence(8 * |low|, WORD_BITS * q);
    JoinSums(Value(t), Value(t[..q]), Pow2(WORD_BITS * q), t[q], FromBytes(head + low), FromBytes(head), FromBytes(low));
  }

  /**
   * The two ways of joining the same low part and high part agree. Stated
   * over plain naturals so that the solver sees only linear facts, not the
   * Value, FromBytes and Pow2 terms they stand for.
   */
  lemma JoinSums(v: nat, lo: nat, p: nat, w: nat, x: nat, h: nat, l: nat)
    requires v == lo + p * w && x == h * p + l && w == h && lo == l
    ensures v == x
  { }

  /** The low k limbs stand for the last 8 k bytes of the buffer. */
  lemma {:induction false} ValueDecodedLow(t: seq<Word>, b: seq<Byte>, k: nat)
    requires k <= |t| && WORD_BYTES * k <= |b|
    requires forall i :: 0 <= i < k ==> t[i] == FromBytes(b[|b| - WORD_BYTES * (i + 1) .. |b| - WORD_BYTES * i])
    ensures Value(t[..k]) == FromBytes(b[|b| - WORD_BYTES * k..])
  {
    var n := |b|;
    if k == 0 {
      assert b[n..] == [];
    } else {
      ValueDecodedLow(t, b, k - 1);
      var lo, hi := n - WORD_BYTES * k, n - WORD_BYTES * (k - 1);
      var low, chunk := b[hi..], b[lo..hi];
      assert t[k - 1] == FromBytes(chunk);
      var p := Pow2(WORD_BITS * (k - 1));
      assert t[..k] == t[..k - 1] + [t[k - 1]];
      ValueAppend(t[..k - 1], t[k - 1]);
      assert Value(t[..k]) == FromBytes(low) + p * FromBytes(chunk);
      assert b[lo..] == chunk + low;
      FromBytesConcat(chunk, low);
      assert 8 * |low| == WORD_BITS * (k - 1);
      assert FromBytes(b[lo..]) == FromBytes(chunk) * p + FromBytes(low);
    }
  }
}
