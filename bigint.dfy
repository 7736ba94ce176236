/**
 * The sign-magnitude arbitrary-precision integer of src/math/bigint/bigint.cpp.
 *
 * A BigInt keeps its magnitude in a register of 64-bit limbs, least
 * significant limb first, and a separate sign flag. The register may hold
 * zero limbs above the significant ones; its length is the allocated size.
 */
module BigInts {
  import opened Arith
  import opened Limbs
  import opened BigEndian

  datatype Sign = Negative | Positive

  /** The bases a BigInt is encoded in; UnknownBase stands for any other value of the enumeration's type. */
  datatype Base = Binary | Octal | Decimal | Hexadecimal | UnknownBase(code: int)

  datatype Error = InvalidArgument(message: string)

  datatype Result<T> = Success(value: T) | Failure(error: Error)

  const U32_BASE: nat := 0x1_0000_0000

  /** The width of a C++ int. */
  const INT_BITS: nat := 32

  /** MP_WORD_TOP_BIT: the top bit of a limb. */
  const WORD_TOP_BIT: nat := 0x8000_0000_0000_0000

  /** round_up(n, align): the least multiple of align that is at least n. */
  function RoundUp(n: nat, align: nat): (r: nat)
    requires align > 0
    ensures r % align == 0
    ensures n <= r < n + align
  {
    if n % align == 0 then n
    else
      RoundUpStep(n, align);
      n + (align - n % align)
  }

  lemma RoundUpStep(n: nat, align: nat)
    requires align > 0 && n % align != 0
    ensures (n + (align - n % align)) % align == 0
  {
    assert n == align * (n / align) + n % align;
    assert n + (align - n % align) == align * (n / align + 1);
    DivModUnique(n + (align - n % align), align, n / align + 1, 0);
  }

  /** Bits offset .. offset + length - 1 of x, as a number. */
  function Window(x: nat, offset: nat, length: nat): nat
  {
    (x / Pow2(offset)) % Pow2(length)
  }

  /** The text a base prefix consists of in the string constructor. */
  function BaseMarker(base: Base): string
  {
    match base
    case Hexadecimal => "0x"
    case Octal => "0"
    case _ => ""
  }

  /** What the string constructor reads off the front of its argument. */
  datatype Prefix = Prefix(negative: bool, markers: nat, base: Base)

  /**
   * The prefix scan of the string constructor: an optional '-', then "0x"
   * (hexadecimal, only if at least one character follows it) or "0" (octal,
   * only if at least one character follows it); otherwise decimal.
   */
  function ScanPrefix(str: string): (p: Prefix)
    ensures p.negative <==> |str| > 0 && str[0] == '-'
    ensures p.base == Decimal || p.base == Hexadecimal || p.base == Octal
    ensures p.markers <= |str|
    ensures str[..p.markers] == (if p.negative then "-" else "") + BaseMarker(p.base)
    ensures p.base != Decimal ==> p.markers < |str|
    ensures var sign := if p.negative then 1 else 0;
            p.base == Hexadecimal <==> |str| > sign + 2 && str[sign..sign + 2] == "0x"
    ensures var sign := if p.negative then 1 else 0;
            p.base == Octal <==> p.base != Hexadecimal && |str| > sign + 1 && str[sign] == '0'
  {
    var negative := |str| > 0 && str[0] == '-';
    var markers := if negative then 1 else 0;
    if |str| > markers + 2 && str[markers] == '0' && str[markers + 1] == 'x' then
      assert str[markers..markers + 2] == "0x";
      Prefix(negative, markers + 2, Hexadecimal)
    else if |str| > markers + 1 && str[markers] == '0' then
      Prefix(negative, markers + 1, Octal)
    else
      Prefix(negative, markers, Decimal)
  }

  /** "0x" alone is octal with one marker: hexadecimal needs a digit after the "0x". */
  lemma ScanPrefixBareHexMarker()
    ensures ScanPrefix("0x") == Prefix(false, 1, Octal)
  {
  }

  /** "0" alone is decimal: octal needs a digit after the "0". */
  lemma ScanPrefixLoneZero()
    ensures ScanPrefix("0") == Prefix(false, 0, Decimal)
  {
  }

  lemma ScanPrefixNegativeHex()
    ensures ScanPrefix("-0x1A") == Prefix(true, 3, Hexadecimal)
  {
  }

  /** Hexadecimal digits of the encoding: two per byte. */
  function HexDigits(x: nat): nat
  {
    2 * ByteLen(x)
  }

  /** The hexadecimal digit count is even, enough for x, and at most one byte too many. */
  lemma HexDigitsBounds(x: nat)
    ensures HexDigits(x) % 2 == 0
    ensures x < Pow2(4 * HexDigits(x))
    ensures HexDigits(x) >= 2 ==> Pow2(4 * (HexDigits(x) - 2)) <= x
  {
    var bytes := ByteLen(x);
    var n := HexDigits(x);
    DivModUnique(n, 2, bytes, 0);
    Pow2Congruence(4 * n, 8 * bytes);
    if n >= 2 {
      Pow2Congruence(4 * (n - 2), 8 * (bytes - 1));
    }
  }

  /** Octal digits of the encoding: three bits a digit, the fewest that hold x. */
  function OctalDigits(x: nat): (n: nat)
    ensures x < Pow2(3 * n)
    ensures n > 0 ==> Pow2(3 * (n - 1)) <= x
  {
    var b := BitLen(x);
    var n := (b + 2) / 3;
    Pow2Mono(b, 3 * n);
    if n > 0 then Pow2Mono(3 * (n - 1), b - 1); n else n
  }

  /** bigint_cmp, by its meaning: the three-way comparison of two magnitudes. */
  function CompareMagnitudes(a: nat, b: nat): (r: int)
    ensures r == -1 || r == 0 || r == 1
    ensures r < 0 <==> a < b
    ensures r == 0 <==> a == b
  {
    if a < b then -1 else if a > b then 1 else 0
  }

  /** x wrapped into a two's-complement 32-bit int, for x at most 2^32 outside that range. */
  function Int32(x: int): (r: int)
    requires -0x1_8000_0000 <= x < 0x1_8000_0000
    ensures -0x8000_0000 <= r < 0x8000_0000
    ensures r == x || r == x - U32_BASE || r == x + U32_BASE
  {
    if x >= 0x8000_0000 then x - 0x1_0000_0000
    else if x < -0x8000_0000 then x + 0x1_0000_0000
    else x
  }

  /** An int converted to u64: a negative value wraps modulo 2^64. */
  function ToU64(x: int): (r: Word)
    requires 0 <= x + WORD_BASE && x < WORD_BASE
    ensures r == x || r == x + WORD_BASE
  {
    if x < 0 then x + WORD_BASE else x
  }

  /** 1 << k on a 32-bit int, as x86 computes it: the count taken modulo 32, the result wrapped. */
  function IntShl1(k: nat): (r: int)
    ensures -0x8000_0000 <= r < 0x8000_0000
  {
    Pow2Int();
    Pow2Le(k % 32, INT_BITS - 1);
    Int32(Pow2(k % 32))
  }

  /**
   * The mask (1 << length) - 1 of get_substring as written: an int shift, so
   * it is computed in 32 bits and then widened to u64. The C++ standard leaves
   * an overflowing shift undefined; this models the x86 behaviour.
   */
  function IntShiftMask(length: nat): (m: Word)
    requires length <= 32
    ensures length <= 31 ==> m == Pow2(length) - 1
    ensures length == 32 ==> m == 0
  {
    if length <= 30 then IntShiftMaskSmall(length); ToU64(Int32(IntShl1(length) - 1))
    else if length == 31 then IntShiftMaskOverflow(length); ToU64(Int32(IntShl1(length) - 1))
    else IntShiftMaskWrap(length); ToU64(Int32(IntShl1(length) - 1))
  }

  /** Below 31 the shift neither overflows nor wraps. */
  lemma IntShiftMaskSmall(length: nat)
    requires length <= 30
    ensures ToU64(Int32(IntShl1(length) - 1)) == Pow2(length) - 1
  {
    Pow2BelowInt(length);
    ModBelow(length, 32);
    var p := Pow2(length);
    assert IntShl1(length) == p;
    assert Int32(p - 1) == p - 1;
  }

  lemma Pow2BelowInt(k: nat)
    requires k <= 30
    ensures Pow2(k) < 0x8000_0000
  {
    Pow2Int();
    Pow2Lt(k, INT_BITS - 1);
  }

  /** 1 << 31 is INT_MIN, and INT_MIN - 1 wraps to INT_MAX. */
  lemma IntShiftMaskOverflow(length: nat)
    requires length == 31
    ensures ToU64(Int32(IntShl1(length) - 1)) == Pow2(length) - 1
  {
    Pow2Int();
    Pow2Congruence(length, INT_BITS - 1);
    ModBelow(length, 32);
    assert IntShl1(length) == -0x8000_0000;
    assert Int32(-0x8000_0001) == 0x7FFF_FFFF;
  }

  /** 1 << 32 shifts by 32 % 32 == 0 on x86, giving 1, and the mask is 0. */
  lemma IntShiftMaskWrap(length: nat)
    requires length == 32
    ensures ToU64(Int32(IntShl1(length) - 1)) == 0
  {
    DivModUnique(length, 32, 1, 0);
    assert Pow2(0) == 1;
    assert IntShl1(length) == 1;
  }

  /** The bit position of byte offset / 8, where get_substring's 64-bit piece starts. */
  function PieceStart(offset: nat): (a: nat)
    ensures a == 8 * (offset / 8) && a + offset % 8 == offset
  {
    DivNat(offset, 8);
    MulNat(8, offset / 8)
  }

  /** The u32 get_substring returns, read from the 64-bit piece at byte offset / 8. */
  lemma SubstringOfPiece(x: nat, offset: nat, length: nat, piece: nat, shift: nat)
    requires length <= 32
    requires piece == (x / Pow2(PieceStart(offset))) % Pow2(WORD_BITS)
    requires shift == offset % 8
    ensures (piece / Pow2(shift)) % Pow2(length) == Window(x, offset, length)
  {
    var a := PieceStart(offset);
    WindowOfPiece(x, a, shift, offset, length, WORD_BITS);
  }

  /** A window of at most 32 bits fits a u32. */
  lemma WindowFitsU32(w: nat, length: nat)
    requires length <= 32 && w < Pow2(length)
    ensures w % U32_BASE == w
  {
    Pow2Int();
    Pow2Le(length, INT_BITS);
    ModBelow(w, U32_BASE);
  }

  /** What get_substring returns from its 64-bit piece: shifted right by shift, masked, truncated to a u32. */
  function SubstringFromPiece(piece: nat, shift: nat, mask: nat): nat
  {
    DivNat(piece, Pow2(shift));
    And(piece / Pow2(shift), mask) % U32_BASE
  }

  /** With the mask 2^length - 1 the result is the window of length bits at offset. */
  lemma SubstringMasked(x: nat, offset: nat, length: nat, piece: nat, shift: nat, mask: nat)
    requires length <= 32
    requires piece == (x / Pow2(PieceStart(offset))) % Pow2(WORD_BITS)
    requires shift == offset % 8 && mask == Pow2(length) - 1
    ensures SubstringFromPiece(piece, shift, mask) == Window(x, offset, length)
  {
    DivNat(piece, Pow2(shift));
    var y: nat := piece / Pow2(shift);
    AndLowMask(y, length);
    SubstringOfPiece(x, offset, length, piece, shift);
    var w := Window(x, offset, length);
    assert And(y, mask) == w;
    WindowFitsU32(w, length);
  }

  /** A zero mask gives 0. */
  lemma SubstringZeroMask(piece: nat, shift: nat)
    ensures SubstringFromPiece(piece, shift, 0) == 0
  {
  }

  /** With the int-shift mask, lengths up to 31 give the window and length 32 gives 0. */
  lemma SubstringAsWritten(x: nat, offset: nat, length: nat, piece: nat, shift: nat, mask: nat)
    requires length <= 32
    requires piece == (x / Pow2(PieceStart(offset))) % Pow2(WORD_BITS)
    requires shift == offset % 8 && mask == IntShiftMask(length)
    ensures SubstringFromPiece(piece, shift, mask) == if length == 32 then 0 else Window(x, offset, length)
  {
    if length <= 31 {
      assert mask == Pow2(length) - 1;
      SubstringMasked(x, offset, length, piece, shift, mask);
    } else {
      assert mask == 0;
      SubstringZeroMask(piece, shift);
    }
  }

  /**
   * For the number 1, bits 0 .. 31 hold 1; get_substring(0, 32) as written
   * masks with IntShiftMask(32) == 0 and returns 0.
   */
  lemma SubstringLength32Counterexample()
    ensures IntShiftMask(32) == 0
    ensures Window(1, 0, 32) == 1
  {
    Pow2Int();
    ModBelow(1, Pow2(32));
  }

  /**
   * The scan in bits(): walk a single-bit mask down from the top bit of a
   * nonzero limb until it meets a set bit; the bits counted are the limb's
   * bit length.
   */
  method HighBit(topWord: Word) returns (topBits: nat)
    requires topWord > 0
    ensures 1 <= topBits <= WORD_BITS
    ensures topWord < Pow2(topBits) && Bit(topWord, topBits - 1) == 1
  {
    topBits := WORD_BITS;
    var mask := WORD_TOP_BIT;
    assert mask == Pow2(topBits - 1) && topWord < Pow2(topBits) by { Pow2Word(); }
    // top_word & mask, mask being the single bit 2^(topBits - 1)
    while topBits > 0 && (topWord / mask) % 2 == 0
      invariant 1 <= topBits <= WORD_BITS
      invariant mask == Pow2(topBits - 1)
      invariant topWord < Pow2(topBits)
      decreases topBits
    {
      var next := topBits - 1;
      HighBitStep(topWord, mask, topBits, next);
      mask := mask / 2;
      topBits := next;
    }
    assert (topWord / mask) % 2 == 1;
    assert Bit(topWord, topBits - 1) == (topWord / mask) % 2;
  }

  /** One step of the scan: the mask's bit is clear, so the limb fits one bit fewer. */
  lemma HighBitStep(topWord: nat, mask: nat, topBits: nat, next: nat)
    requires 0 < topWord < Pow2(topBits) && next + 1 == topBits
    requires mask == Pow2(next) && (topWord / mask) % 2 == 0
    ensures next >= 1 && mask / 2 == Pow2(next - 1) && topWord < Pow2(next)
  {
    ClearTopBit(topWord, next, topBits);
    assert next >= 1 by { assert Pow2(0) == 1; }
    HalvePow2(mask, next - 1, next);
  }

  class BigInt {
    /** The limbs, least significant first; reg.Length is size(). */
    var reg: array<Word>
    var signedness: Sign

    /** The magnitude the limbs stand for. */
    function Magnitude(): nat
      reads this`reg, reg
    {
      Value(reg[..])
    }

    /** The value with its sign; a negative zero reads as 0. */
    function SignedValue(): int
      reads this, reg
    {
      if signedness == Negative then -(Magnitude() as int) else Magnitude()
    }

    /** A zero magnitude flagged negative, which the sign operations never produce. */
    predicate NegativeZero()
      reads this, reg
    {
      signedness == Negative && Magnitude() == 0
    }

    /** sig_words(): the index just past the highest nonzero limb. */
    function SigWords(): (r: nat)
      reads this`reg, reg
      ensures r <= reg.Length
      ensures r > 0 ==> reg[r - 1] != 0
      ensures forall i :: r <= i < reg.Length ==> reg[i] == 0
    {
      SigWordsOf(reg[..])
    }

    /** word_at(i): limb i, or 0 past the end of the register. */
    function WordAt(i: nat): Word
      reads this`reg, reg
    {
      if i < reg.Length then reg[i] else 0
    }

    /** is_zero(): no significant limbs. */
    function IsZero(): (b: bool)
      reads this`reg, reg
      ensures b <==> Magnitude() == 0
    {
      ValueSigWords(reg[..]);
      SigWords() == 0
    }

    /** get_bit(n): bit n of the magnitude, false past the register. */
    function GetBit(n: nat): (b: bool)
      reads this`reg, reg
      ensures b <==> Bit(Magnitude(), n) == 1
    {
      BitOfValue(reg[..], n);
      (WordAt(n / WORD_BITS) / Pow2(n % WORD_BITS)) % 2 == 1
    }

    /** byte_at(n): byte n of the magnitude, counted from the least significant end; 0 past the register. */
    function ByteAt(n: nat): (r: Byte)
      reads this`reg, reg
      ensures r == (Magnitude() / Pow2(8 * n)) % 256
    {
      var wordNum := n / WORD_BYTES;
      var byteNum := n % WORD_BYTES;
      ByteAtLimb(reg[..], n);
      if wordNum >= reg.Length then 0
      else GetByte(WORD_BYTES - byteNum - 1, reg[wordNum])
    }

    /** bits(): the bit length of the magnitude, found by scanning the top limb down from its top bit. */
    method Bits() returns (r: nat)
      ensures r == BitLen(Magnitude())
    {
      var words := SigWords();
      ValueSigWords(reg[..]);
      if words == 0 {
        return 0;
      }
      var fullWords := words - 1;
      var topBits := HighBit(WordAt(fullWords));
      BitLenFromTopLimb(reg[..], topBits);
      r := fullWords * WORD_BITS + topBits;
    }

    /** bytes(): the fewest bytes that hold the magnitude. */
    method Bytes() returns (r: nat)
      ensures r == ByteLen(Magnitude())
      ensures Magnitude() < Pow2(8 * r)
      ensures r > 0 ==> Pow2(8 * (r - 1)) <= Magnitude()
    {
      var b := Bits();
      r := (b + 7) / 8;
    }

    /** encoded_size(base): how many digits an encoding in base takes. */
    method EncodedSize(base: Base) returns (r: Result<nat>)
      ensures base == Binary ==> r == Success(ByteLen(Magnitude()))
      ensures base == Hexadecimal ==> r == Success(HexDigits(Magnitude()))
      ensures base == Octal ==> r == Success(OctalDigits(Magnitude()))
      ensures base == Decimal ==> r == Success(BitLen(Magnitude()) * 30102999566 / 100000000000 + 1)
      ensures base.UnknownBase? <==> r.Failure?
    {
      match base {
        case Binary =>
          var n := Bytes();
          r := Success(n);
        case Hexadecimal =>
          var n := Bytes();
          r := Success(2 * n);
        case Octal =>
          var b := Bits();
          r := Success((b + 2) / 3);
        case Decimal =>
          var b := Bits();
          r := Success(b * 30102999566 / 100000000000 + 1);
        case UnknownBase(_) =>
          r := Failure(InvalidArgument("Unknown base for BigInt encoding"));
      }
    }

    /** cmp(n, check_signs): three-way comparison, of signed values or of magnitudes only. */
    function Cmp(n: BigInt, checkSigns: bool): (r: int)
      reads this, reg, n, n.reg
      ensures r == -1 || r == 0 || r == 1
      ensures !checkSigns ==> (r < 0 <==> Magnitude() < n.Magnitude()) && (r == 0 <==> Magnitude() == n.Magnitude())
      ensures checkSigns && signedness == Negative && n.signedness == Positive ==> r == -1
      ensures checkSigns && signedness == Positive && n.signedness == Negative ==> r == 1
      ensures checkSigns && signedness == Negative && n.signedness == Negative ==>
                (r < 0 <==> Magnitude() > n.Magnitude()) && (r == 0 <==> Magnitude() == n.Magnitude())
      ensures checkSigns && !NegativeZero() && !n.NegativeZero() ==>
                (r < 0 <==> SignedValue() < n.SignedValue()) && (r == 0 <==> SignedValue() == n.SignedValue())
    {
      if checkSigns && n.signedness == Positive && signedness == Negative then -1
      else if checkSigns && n.signedness == Negative && signedness == Positive then 1
      else if checkSigns && n.signedness == Negative && signedness == Negative then
        -CompareMagnitudes(Magnitude(), n.Magnitude())
      else CompareMagnitudes(Magnitude(), n.Magnitude())
    }

    /** reverse_sign(): the opposite of the sign flag. */
    function ReverseSign(): (r: Sign)
      reads this
      ensures r != signedness
    {
      if signedness == Positive then Negative else Positive
    }

    /** set_sign(s): a zero magnitude is always stored positive. */
    method SetSign(s: Sign)
      modifies this
      ensures reg == old(reg)
      ensures signedness == if Magnitude() == 0 then Positive else s
      ensures !NegativeZero()
    {
      if IsZero() {
        signedness := Positive;
      } else {
        signedness := s;
      }
    }

    /** flip_sign(): negates the value; zero stays positive. */
    method FlipSign()
      modifies this
      ensures reg == old(reg)
      ensures signedness == if Magnitude() == 0 then Positive else if old(signedness) == Positive then Negative else Positive
      ensures SignedValue() == -old(SignedValue())
      ensures !NegativeZero()
    {
      SetSign(ReverseSign());
    }

    /** Unary minus: a negated copy. */
    method Negate() returns (x: BigInt)
      ensures fresh(x) && fresh(x.reg)
      ensures x.Magnitude() == Magnitude()
      ensures x.SignedValue() == -SignedValue()
      ensures !x.NegativeZero()
    {
      x := new BigInt.Copy(this);
      x.FlipSign();
    }

    /** abs(): a positive copy. */
    method Abs() returns (x: BigInt)
      ensures fresh(x) && fresh(x.reg)
      ensures x.Magnitude() == Magnitude()
      ensures x.signedness == Positive
      ensures x.SignedValue() == Magnitude()
    {
      x := new BigInt.Copy(this);
      x.SetSign(Positive);
    }

    /** MemoryRegion::resize: a register of n limbs keeping the old limbs below n, zeros above. */
    method Resize(n: nat)
      modifies this
      ensures fresh(reg) && reg.Length == n && signedness == old(signedness)
      ensures forall i :: 0 <= i < n ==> reg[i] == if i < old(reg.Length) then old(reg[i]) else 0
    {
      var a := new Word[n](_ => 0);
      forall i | 0 <= i < n && i < reg.Length {
        a[i] := reg[i];
      }
      reg := a;
    }

    /** grow_to(n): make room for n limbs, rounding the size up to a multiple of 8. */
    method GrowTo(n: nat)
      modifies this
      ensures signedness == old(signedness)
      ensures n <= old(reg.Length) ==> reg == old(reg)
      ensures n > old(reg.Length) ==> fresh(reg) && reg.Length == RoundUp(n, 8)
      ensures reg.Length >= n && reg.Length >= old(reg.Length)
      ensures reg[..old(reg.Length)] == old(reg[..])
      ensures forall i :: old(reg.Length) <= i < reg.Length ==> reg[i] == 0
      ensures Magnitude() == old(Magnitude())
    {
      if n > reg.Length {
        Resize(RoundUp(n, 8));
        ValueGrow(old(reg[..]), reg[..]);
      }
    }

    /** grow_reg(n): add n limbs, rounding the size up to a multiple of 8. */
    method GrowReg(n: nat)
      modifies this
      ensures signedness == old(signedness)
      ensures fresh(reg) && reg.Length == RoundUp(old(reg.Length) + n, 8)
      ensures reg[..old(reg.Length)] == old(reg[..])
      ensures forall i :: old(reg.Length) <= i < reg.Length ==> reg[i] == 0
      ensures Magnitude() == old(Magnitude())
    {
      Resize(RoundUp(reg.Length + n, 8));
      ValueGrow(old(reg[..]), reg[..]);
    }

    /** set_bit(n): sets bit n, growing the register only if limb n / 64 lies past it. */
    method SetBit(n: nat)
      modifies this, reg
      ensures signedness == old(signedness)
      ensures Magnitude() == old(Magnitude()) + (if Bit(old(Magnitude()), n) == 1 then 0 else Pow2(n))
      ensures forall j :: Bit(Magnitude(), j) == if j == n then 1 else Bit(old(Magnitude()), j)
      ensures GetBit(n)
      ensures n / WORD_BITS < old(reg.Length) ==> reg == old(reg)
      ensures n / WORD_BITS >= old(reg.Length) ==> fresh(reg) && reg.Length == RoundUp(n / WORD_BITS + 1, 8)
    {
      var which := n / WORD_BITS;
      if which >= reg.Length {
        GrowTo(which + 1);
      }
      ghost var before := reg[..];
      reg[which] := WordSetBit(reg[which], n % WORD_BITS);
      SetBitInLimbs(before, n, reg[..]);
    }

    /** clear_bit(n): clears bit n; nothing happens, and nothing grows, when limb n / 64 lies past the register. */
    method ClearBit(n: nat)
      modifies reg
      ensures Magnitude() == old(Magnitude()) - (if Bit(old(Magnitude()), n) == 1 then Pow2(n) else 0)
      ensures forall j :: Bit(Magnitude(), j) == if j == n then 0 else Bit(old(Magnitude()), j)
      ensures !GetBit(n)
      ensures n / WORD_BITS >= reg.Length ==> reg[..] == old(reg[..])
    {
      ghost var before := reg[..];
      var which := n / WORD_BITS;
      if which < reg.Length {
        reg[which] := WordClearBit(reg[which], n % WORD_BITS);
      }
      ClearBitInLimbs(before, n, reg[..]);
    }

    /** clear(): zero every limb, keeping the size and the sign flag. */
    method Clear()
      modifies reg
      ensures forall i :: 0 <= i < reg.Length ==> reg[i] == 0
      ensures Magnitude() == 0
    {
      forall i | 0 <= i < reg.Length {
        reg[i] := 0;
      }
      ValueZeroIff(reg[..]);
    }

    /** The zeroing loop of mask_bits: every limb above limb k becomes 0. */
    method ZeroAbove(k: nat)
      requires k < reg.Length
      modifies reg
      ensures forall i :: 0 <= i <= k ==> reg[i] == old(reg[i])
      ensures forall i :: k < i < reg.Length ==> reg[i] == 0
    {
      for j := k + 1 to reg.Length
        invariant forall i :: 0 <= i <= k ==> reg[i] == old(reg[i])
        invariant forall i :: k < i < j ==> reg[i] == 0
      {
        reg[j] := 0;
      }
    }

    /** mask_bits(n): keep only the low n bits. */
    method MaskBits(n: nat)
      modifies reg
      ensures Magnitude() == old(Magnitude()) % Pow2(n)
    {
      if n == 0 {
        Clear();
        return;
      }
      var b := Bits();
      if n >= b {
        Pow2Mono(b, n);
        ModBelow(Magnitude(), Pow2(n));
        return;
      }
      var topWord := n / WORD_BITS;
      LowMaskIsWord(n % WORD_BITS);
      var mask: Word := Pow2(n % WORD_BITS) - 1;
      ghost var before := reg[..];
      assert topWord < reg.Length by { BelowBitLenWithinLimbs(before, n); }
      if topWord < reg.Length {
        ZeroAbove(topWord);
      }
      reg[topWord] := And(reg[topWord], mask);
      assert Magnitude() == Value(before) % Pow2(n) by {
        assert reg[..topWord] == before[..topWord];
        ValueMasked(before, reg[..], n);
      }
    }

    /** The 64-bit piece of get_substring: eight bytes starting at byte offset / 8, assembled most significant first. */
    method LoadPiece(offset: nat) returns (piece: Word)
      ensures piece == (Magnitude() / Pow2(PieceStart(offset))) % Pow2(WORD_BITS)
    {
      DivNat(offset, 8);
      var base: nat := offset / 8;
      piece := 0;
      ghost var e: nat := 8 * (base + 8);
      ghost var f: nat := 0;
      assert Pow2(f) == 1;
      for j := 0 to 8
        invariant e == 8 * (base + 8 - j) && f == 8 * j
        invariant piece == (Magnitude() / Pow2(e)) % Pow2(f)
      {
        var b := ByteAt(base + 7 - j);
        ghost var e0, f0 := e, f;
        e, f := e - 8, f + 8;
        Pow2Congruence(8 * (base + 7 - j), e);
        WindowStep(Magnitude(), e, e0, f0, f);
        ShiftByteNoWrap(piece, j, b, f0, f);
        piece := (piece * 256) % WORD_BASE + b;
      }
      Pow2Congruence(e, PieceStart(offset));
      Pow2Congruence(f, WORD_BITS);
    }

    /**
     * get_substring(offset, length) as written: length bits from bit offset,
     * with the int-shift mask of IntShiftMask.
     */
    method GetSubstring(offset: nat, length: nat) returns (r: Result<nat>)
      ensures r.Failure? <==> length > 32
      ensures length <= 31 ==> r == Success(Window(Magnitude(), offset, length))
      ensures length == 32 ==> r == Success(0)
    {
      if length > 32 {
        return Failure(InvalidArgument("BigInt::get_substring: Substring size too big"));
      }
      var piece := LoadPiece(offset);
      var mask := IntShiftMask(length);
      var shift := offset % 8;
      SubstringAsWritten(Magnitude(), offset, length, piece, shift, mask);
      r := Success(SubstringFromPiece(piece, shift, mask));
    }

    /** get_substring with the mask computed as a 64-bit shift, as evidently intended. */
    method GetSubstringCorrected(offset: nat, length: nat) returns (r: Result<nat>)
      ensures r.Failure? <==> length > 32
      ensures length <= 32 ==> r == Success(Window(Magnitude(), offset, length))
    {
      if length > 32 {
        return Failure(InvalidArgument("BigInt::get_substring: Substring size too big"));
      }
      var piece := LoadPiece(offset);
      var mask := Pow2(length) - 1;
      var shift := offset % 8;
      SubstringMasked(Magnitude(), offset, length, piece, shift, mask);
      r := Success(SubstringFromPiece(piece, shift, mask));
    }

    /** binary_encode(output): the bytes() bytes of the magnitude, most significant first. */
    method BinaryEncode(output: array<Byte>)
      requires output.Length >= ByteLen(Magnitude())
      modifies output
      ensures output[..ByteLen(Magnitude())] == ToBytes(Magnitude(), ByteLen(Magnitude()))
      ensures output[ByteLen(Magnitude())..] == old(output[ByteLen(Magnitude())..])
    {
      var sigBytes := Bytes();
      ghost var encoded := ToBytes(Magnitude(), sigBytes);
      for j := 0 to sigBytes
        invariant forall i :: sigBytes - j <= i < sigBytes ==> output[i] == encoded[i]
        invariant forall i :: 0 <= i < sigBytes - j || sigBytes <= i < output.Length ==> output[i] == old(output[i])
      {
        var i := sigBytes - j - 1;
        ToBytesAt(Magnitude(), sigBytes, i);
        Pow2Congruence(8 * (sigBytes - 1 - i), 8 * j);
        output[i] := ByteAt(j);
      }
      assert output[..sigBytes] == encoded;
      assert output[sigBytes..] == old(output[sigBytes..]);
    }

    /**
     * An inner loop of binary_decode: shift bytes lo .. hi - 1 of buf, most
     * significant first, into limb j, which starts out 0.
     */
    method ShiftInBytes(j: nat, buf: seq<Byte>, lo: nat, hi: nat)
      requires j < reg.Length && reg[j] == 0
      requires lo <= hi <= |buf| && hi - lo <= WORD_BYTES
      modifies reg
      ensures reg[j] == FromBytes(buf[lo..hi])
      ensures forall i :: 0 <= i < reg.Length && i != j ==> reg[i] == old(reg[i])
    {
      assert buf[lo..lo] == [];
      for k := lo to hi
        invariant reg[j] == FromBytes(buf[lo..k])
        invariant forall i :: 0 <= i < reg.Length && i != j ==> reg[i] == old(reg[i])
      {
        ShiftInByte(buf[lo..k], buf[k]);
        assert buf[lo..k] + [buf[k]] == buf[lo..k + 1];
        reg[j] := (reg[j] * 256) % WORD_BASE + buf[k];
      }
    }

    /**
     * The outer loop of binary_decode: limb j receives the 8 bytes ending
     * 8 j bytes before position length of buf; the limbs above stay 0.
     */
    method DecodeWords(buf: seq<Byte>, length: nat)
      requires length <= |buf| && length / WORD_BYTES < reg.Length
      requires forall i :: 0 <= i < reg.Length ==> reg[i] == 0
      modifies reg
      ensures forall i :: 0 <= i < length / WORD_BYTES ==>
                reg[i] == FromBytes(buf[length - WORD_BYTES * (i + 1) .. length - WORD_BYTES * i])
      ensures forall i :: length / WORD_BYTES <= i < reg.Length ==> reg[i] == 0
    {
      for j := 0 to length / WORD_BYTES
        invariant forall i :: 0 <= i < j ==> reg[i] == FromBytes(buf[length - WORD_BYTES * (i + 1) .. length - WORD_BYTES * i])
        invariant forall i :: j <= i < reg.Length ==> reg[i] == 0
      {
        var top := length - WORD_BYTES * j;
        ShiftInBytes(j, buf, top - WORD_BYTES, top);
      }
    }

    /**
     * binary_decode(buf, length): the magnitude becomes the big-endian number
     * in the first length bytes of buf; the sign flag is left as it was.
     */
    method BinaryDecode(buf: seq<Byte>, length: nat)
      requires length <= |buf|
      modifies this, reg
      ensures signedness == old(signedness)
      ensures fresh(reg) && reg.Length == RoundUp(length / WORD_BYTES + 1, 8)
      ensures Magnitude() == FromBytes(buf[..length])
    {
      Clear();
      Resize(RoundUp(length / WORD_BYTES + 1, 8));
      DecodeWords(buf, length);
      var q := length / WORD_BYTES;
      ShiftInBytes(q, buf, 0, length % WORD_BYTES);
      assert Magnitude() == FromBytes(buf[..length]) by {
        var t, b := reg[..], buf[..length];
        forall i | 0 <= i < q
          ensures t[i] == FromBytes(b[length - WORD_BYTES * (i + 1) .. length - WORD_BYTES * i])
        {
          assert b[length - WORD_BYTES * (i + 1) .. length - WORD_BYTES * i]
              == buf[length - WORD_BYTES * (i + 1) .. length - WORD_BYTES * i];
        }
        assert t[q] == FromBytes(b[..|b| % WORD_BYTES]) by {
          assert buf[..length % WORD_BYTES] == b[..length % WORD_BYTES];
        }
        ValueDecoded(t, b);
      }
    }

    /** binary_decode(buf) on a whole MemoryRegion. */
    method BinaryDecodeRegion(buf: seq<Byte>)
      modifies this, reg
      ensures signedness == old(signedness)
      ensures fresh(reg) && reg.Length == RoundUp(|buf| / WORD_BYTES + 1, 8)
      ensures Magnitude() == FromBytes(buf)
    {
      BinaryDecode(buf, |buf|);
      assert buf[..|buf|] == buf;
    }

    /** BigInt(u64bit n): a positive number; a nonzero one gets a register of 4 limbs. */
    constructor FromU64(n: nat)
      requires n < WORD_BASE
      ensures fresh(reg)
      ensures Magnitude() == n && signedness == Positive
      ensures reg.Length == if n == 0 then 0 else 4
    {
      // set_sign(Positive) on the still empty register
      reg := new Word[0];
      signedness := Positive;
      new;
      if n != 0 {
        // one 64-bit limb per u64
        var limbsNeeded := 1;
        Resize(4 * limbsNeeded);
        for j := 0 to limbsNeeded
          invariant fresh(reg) && reg.Length == 4 && signedness == Positive
          invariant forall i :: j <= i < 4 ==> reg[i] == 0
          invariant j == 1 ==> reg[0] == n
        {
          reg[j] := (n / Pow2(WORD_BITS * j)) % WORD_BASE;
        }
        ValueZeroTail(reg[..], 1);
        assert reg[..1] == [n];
      } else {
        assert reg[..] == [];
      }
    }

    /** BigInt(Sign s, size_t size): zero, with the sign flag taken as given, even Negative. */
    constructor WithSize(s: Sign, size: nat)
      ensures fresh(reg) && reg.Length == RoundUp(size, 8)
      ensures Magnitude() == 0 && signedness == s
      ensures NegativeZero() <==> s == Negative
    {
      reg := new Word[RoundUp(size, 8)](_ => 0);
      signedness := s;
      new;
      ValueZeroIff(reg[..]);
    }

    /** The BigInt decode returns: the given limbs, positive. */
    constructor FromWords(words: seq<Word>)
      ensures fresh(reg) && reg[..] == words && signedness == Positive
    {
      reg := new Word[|words|](i => if 0 <= i < |words| then words[i] else 0);
      signedness := Positive;
    }

    /**
     * Copy constructor: the significant limbs in a register rounded up to a
     * multiple of 8; a zero copy gets 2 limbs and a positive sign.
     */
    constructor Copy(b: BigInt)
      ensures fresh(reg)
      ensures Magnitude() == b.Magnitude()
      ensures signedness == if b.Magnitude() == 0 then Positive else b.signedness
      ensures reg.Length == if b.Magnitude() == 0 then 2 else RoundUp(b.SigWords(), 8)
    {
      var bWords := b.SigWords();
      ghost var bs := b.reg[..];
      ghost var bm := b.Magnitude();
      ValueSigWords(bs);
      var a: array<Word>;
      if bWords > 0 {
        a := new Word[RoundUp(bWords, 8)](_ => 0);
        forall i | 0 <= i < bWords {
          a[i] := b.reg[i];
        }
        assert a[..bWords] == bs[..bWords];
        ValueGrow(bs[..bWords], a[..]);
        assert Value(a[..]) == bm;
      } else {
        a := new Word[2](_ => 0);
        ValueZeroIff(a[..]);
        assert Value(a[..]) == bm;
      }
      assert b.Magnitude() == bm;
      reg := a;
      // set_sign: the copied magnitude is zero exactly when bWords is.
      signedness := if bWords > 0 then b.signedness else Positive;
    }

    /**
     * Move constructor: takes other's register and sign; other is left with
     * an empty register and a sign flag this model does not promise.
     */
    constructor Move(other: BigInt)
      modifies other
      ensures reg == old(other.reg) && signedness == old(other.signedness)
      ensures fresh(other.reg) && other.reg.Length == 0
    {
      reg := new Word[0];
      signedness := Positive;
      new;
      Swap(other);
    }

    /** Move assignment: a swap, unless other is this object. */
    method MoveAssign(other: BigInt)
      modifies this, other
      ensures reg == old(other.reg) && signedness == old(other.signedness)
      ensures other.reg == old(reg) && other.signedness == old(signedness)
    {
      if this != other {
        Swap(other);
      }
    }

    /** swap(other): exchange registers and sign flags. */
    method Swap(other: BigInt)
      modifies this, other
      ensures reg == old(other.reg) && signedness == old(other.signedness)
      ensures other.reg == old(reg) && other.signedness == old(signedness)
    {
      var r := reg;
      reg := other.reg;
      other.reg := r;
      var s := signedness;
      signedness := other.signedness;
      other.signedness := s;
    }

    /**
     * BigInt(const std::string&): scan the sign and base prefix, decode the
     * rest in that base, then set the sign (a zero stays positive).
     */
    static method FromString(str: string, decode: (string, Base) -> Result<seq<Word>>) returns (r: Result<BigInt>)
      ensures var p := ScanPrefix(str);
              var d := decode(str[p.markers..], p.base);
              (d.Failure? ==> r == Failure(d.error)) &&
              (d.Success? ==> r.Success? && fresh(r.value) && fresh(r.value.reg)
                              && r.value.Magnitude() == Value(d.value)
                              && r.value.signedness == if p.negative && Value(d.value) != 0 then Negative else Positive)
    {
      var p := ScanPrefix(str);
      var d := decode(str[p.markers..], p.base);
      if d.Failure? {
        r := Failure(d.error);
      } else {
        var x := new BigInt.FromWords(d.value);
        x.SetSign(if p.negative then Negative else Positive);
        r := Success(x);
      }
    }

    /** BigInt(const byte input[], size_t length, Base base): decode length bytes of input. */
    static method FromEncoded(input: seq<Byte>, length: nat, base: Base, decode: (seq<Byte>, Base) -> Result<seq<Word>>)
      returns (r: Result<BigInt>)
      requires length <= |input|
      ensures var d := decode(input[..length], base);
              (d.Failure? ==> r == Failure(d.error)) &&
              (d.Success? ==> r.Success? && fresh(r.value) && fresh(r.value.reg)
                              && r.value.Magnitude() == Value(d.value) && r.value.signedness == Positive)
    {
      var d := decode(input[..length], base);
      if d.Failure? {
        r := Failure(d.error);
      } else {
        var x := new BigInt.FromWords(d.value);
        r := Success(x);
      }
    }
  }

  /** cmp(a, b) == -cmp(b, a), with or without signs. */
  lemma CmpAntisymmetric(a: BigInt, b: BigInt, checkSigns: bool)
    ensures a.Cmp(b, checkSigns) == -b.Cmp(a, checkSigns)
  {
  }

  /** cmp(a, a) == 0, with or without signs. */
  lemma CmpReflexive(a: BigInt, checkSigns: bool)
    ensures a.Cmp(a, checkSigns) == 0
  {
  }

  /** A negative zero compares below a positive zero with signs checked, though both stand for 0. */
  lemma CmpNegativeZero(a: BigInt, b: BigInt)
    requires a.NegativeZero() && b.signedness == Positive && b.Magnitude() == 0
    ensures a.SignedValue() == b.SignedValue()
    ensures a.Cmp(b, true) == -1
  {
  }

  /** Masking twice to n bits is masking once. */
  /** get_bit(n) is bit n % 8 of byte_at(n / 8): the bit and byte views of the magnitude agree. */
  lemma GetBitOfByte(a: BigInt, n: nat)
    ensures a.GetBit(n) <==> (a.ByteAt(n / 8) / Pow2(n % 8)) % 2 == 1
  {
    Pow2Byte();
    assert Pow2(1) == 2;
    WindowOfPiece(a.Magnitude(), 8 * (n / 8), n % 8, n, 1, 8);
  }

  lemma MaskBitsIdempotent(x: nat, n: nat)
    ensures (x % Pow2(n)) % Pow2(n) == x % Pow2(n)
  {
    ModModPow2(x, n, n);
  }

  /** Masking to n >= bits() bits changes nothing. */
  lemma MaskBitsAboveLength(x: nat, n: nat)
    requires n >= BitLen(x)
    ensures x % Pow2(n) == x
  {
    Pow2Mono(BitLen(x), n);
    ModBelow(x, Pow2(n));
  }
}
