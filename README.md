# BigInt base operations

This project models the base layer of the `BigInt` class in
`src/math/bigint/bigint.cpp`, a sign-magnitude integer of arbitrary precision.

A `BigInt` holds two pieces of state:

- a register `reg` of 64-bit limbs, least significant limb first, which may
  carry zero limbs above the significant ones;
- a sign flag `signedness`.

The number it stands for is the magnitude Σ reg[i]·2^(64·i), negated when the
flag is `Negative`.

The model is a Dafny `class BigInt` with an `array<Word>` register and a
`Sign` field. The member functions that change the register or the flag are
methods with `modifies` clauses. The queries `byte_at`, `get_bit`, `cmp`,
`reverse_sign`, `sig_words` and `is_zero` are functions that read the heap.
`bits`, `bytes`, `encoded_size` and `get_substring` are methods, because they
run the source's loops.

The loops of the source are `for` and `while` loops with invariants:

- `bits`, where the scan is `HighBit`;
- `mask_bits`, where the loop is `ZeroAbove`;
- `get_substring`, where the loop is `LoadPiece`;
- `binary_encode`;
- `binary_decode`, where the loops are `DecodeWords` and `ShiftInBytes`.

Every contract is stated against the magnitude `Magnitude() == Value(reg[..])`.
The files are:

- `arith.dfy` (module `Arith`): powers of two, Euclidean division facts, bit
  length, and bitwise AND on naturals.
- `limbs.dfy` (module `Limbs`): the value of a limb sequence, `sig_words`,
  `word_at`, `get_byte`, and single-bit updates of a limb.
- `bigendian.dfy` (module `BigEndian`): the big-endian byte strings that
  `binary_encode` and `binary_decode` read and write.
- `bigint.dfy` (module `BigInts`): the class and its operations.

The helpers from the class header, which is not part of this model, are given
their evident meaning:

- `size()` is `reg.Length`;
- `sig_words()` is the index just past the highest nonzero limb;
- `word_at(i)` is `reg[i]`, or 0 past the end;
- `is_zero()` holds when there are no significant limbs;
- `clear()` zeroes every limb.

Two more helpers come from elsewhere:

- `round_up(n, 8)` (rounding.h) is the least multiple of 8 that is at least n;
- `get_byte(i, w)` (get_byte.h) is byte i of w counted from the most
  significant end.

`MemoryRegion::resize` keeps the limbs below the new size and zero-fills the
rest.

Some facts about the code, which the model follows:

- "No negative zero" is not an invariant of the class.
  - `BigInt(Sign, size)` stores the sign as given (`WithSize`).
  - `binary_decode`, `clear_bit` and `mask_bits` never touch the flag, so they
    can leave a zero magnitude flagged negative.
- A register whose size is a multiple of 8 is not an invariant either.
  - The u64 constructor sizes the register at 4 limbs.
  - A zero copy sizes it at 2 limbs.
- In the string constructor, `"0x"` alone scans as octal with one marker,
  because hexadecimal needs a character after the `"0x"`.
- With signs checked, `cmp` orders a negative zero below a positive zero
  (`CmpNegativeZero`).

## Model

| member | source | states |
|---|---|---|
| BigInts.BigInt.FromU64 | src/math/bigint/bigint.cpp:19-31 | BigInt(u64): the magnitude is n and the sign is Positive. Zero keeps an empty register; a nonzero n gets 4 limbs (4·limbs_needed, one limb per u64). |
| BigInts.BigInt.WithSize | src/math/bigint/bigint.cpp:36-40 | BigInt(Sign, size): zero in round_up(size, 8) limbs. The sign is stored as given, so a Negative request gives a negative zero. |
| BigInts.BigInt.Copy | src/math/bigint/bigint.cpp:45-60 | Copy constructor: same magnitude in a fresh register of round_up(sig_words, 8) limbs, or 2 limbs for zero. The sign is copied, except that a zero copy is Positive. |
| BigInts.ScanPrefix | src/math/bigint/bigint.cpp:67-76 | Prefix scan: negative iff the string starts with '-'. The markers consumed are exactly "-"? followed by "0x" or "0". Hexadecimal iff "0x" follows the sign with at least one more character. Otherwise octal iff a '0' follows the sign with at least one more character. |
| BigInts.ScanPrefixBareHexMarker | src/math/bigint/bigint.cpp:72-76 | "0x" alone is octal with one marker. |
| BigInts.ScanPrefixLoneZero | src/math/bigint/bigint.cpp:75-76 | "0" alone is decimal with no marker. |
| BigInts.ScanPrefixNegativeHex | src/math/bigint/bigint.cpp:70-74 | "-0x1A" is negative hexadecimal with three markers. |
| BigInts.BigInt.FromString | src/math/bigint/bigint.cpp:65-83 | String constructor: a decode failure is passed on. Otherwise the magnitude is what decode returns for the text after the markers, and the sign is Negative iff the string was negative and the value is nonzero. |
| BigInts.BigInt.FromEncoded | src/math/bigint/bigint.cpp:88-92 | Byte-buffer constructor: a decode failure is passed on. Otherwise the magnitude is decode's value for the first length bytes, and the sign is Positive. |
| BigInts.BigInt.Move | src/math/bigint/bigint.cpp:106-109 | Move constructor: takes over other's register and sign and leaves other an empty register. |
| BigInts.BigInt.MoveAssign | src/math/bigint/bigint.cpp:114-120 | Move assignment: registers and signs are exchanged; self-assignment changes nothing. |
| BigInts.BigInt.Swap | src/math/bigint/bigint.cpp:125-129 | swap: the two objects exchange registers and sign flags. |
| BigInts.RoundUp | src/math/bigint/bigint.cpp:38 | round_up(n, align) is a multiple of align with n <= r < n + align. |
| BigInts.BigInt.GrowReg | src/math/bigint/bigint.cpp:134-137 | grow_reg(n): the size becomes round_up(size + n, 8). The old limbs are kept, the new ones are 0, and the magnitude and sign are unchanged. |
| BigInts.BigInt.GrowTo | src/math/bigint/bigint.cpp:142-146 | grow_to(n): nothing changes when n <= size. Otherwise the size becomes round_up(n, 8) >= n. The old limbs are kept, the new ones are 0, and the magnitude and sign are unchanged. |
| BigInts.CompareMagnitudes | src/math/bigint/bigint.cpp:158-160 | bigint_cmp by its meaning: -1, 0 or 1 as a < b, a == b or a > b. |
| BigInts.BigInt.Cmp | src/math/bigint/bigint.cpp:151-161 | cmp: without check_signs it orders the magnitudes. With check_signs, negative is below positive, and two negatives compare by reversed magnitude, negative zeros included. Without negative zeros it orders the signed values. |
| BigInts.CmpAntisymmetric | src/math/bigint/bigint.cpp:151-161 | cmp(a, b) == -cmp(b, a), with or without signs. |
| BigInts.CmpReflexive | src/math/bigint/bigint.cpp:151-161 | cmp(a, a) == 0, with or without signs. |
| BigInts.CmpNegativeZero | src/math/bigint/bigint.cpp:153-158 | A negative zero and a positive zero stand for the same value, yet cmp with signs returns -1. |
| BigInts.BigInt.SigWords | src/math/bigint/bigint.cpp:255 | sig_words: every limb at or above the result is 0, and the limb just below it is nonzero. |
| Limbs.ValueSigWords | src/math/bigint/bigint.cpp:255-258 | The significant limbs carry the whole magnitude, and there are none exactly when the magnitude is 0. |
| BigInts.BigInt.IsZero | src/math/bigint/bigint.cpp:293 | is_zero holds iff the magnitude is 0. |
| BigInts.BigInt.ByteAt | src/math/bigint/bigint.cpp:166-174 | byte_at(n) == (magnitude / 256^n) mod 256, which is 0 past the register. |
| BigInts.GetBitOfByte | src/math/bigint/bigint.cpp:166-182 | get_bit(n) agrees with bit n % 8 of byte_at(n / 8). |
| Limbs.ByteAtLimb | src/math/bigint/bigint.cpp:169-173 | Byte n of the magnitude is get_byte(7 - n % 8) of limb n / 8, and 0 when that limb lies past the register. |
| BigInts.BigInt.GetBit | src/math/bigint/bigint.cpp:179-182 | get_bit(n) holds iff bit n of the magnitude is 1, which is false past the register. |
| Limbs.BitOfValue | src/math/bigint/bigint.cpp:181 | Bit n of the magnitude is bit n % 64 of word_at(n / 64). |
| BigInts.BigInt.LoadPiece | src/math/bigint/bigint.cpp:192-194 | The 8-byte loop of get_substring assembles the 64 magnitude bits starting at bit 8·(offset / 8). |
| BigInts.IntShiftMask | src/math/bigint/bigint.cpp:196 | The int mask (1 << length) - 1 widened to u64 is 2^length - 1 for length <= 31, and 0 for length 32, taking x86 shift semantics. |
| BigInts.SubstringMasked | src/math/bigint/bigint.cpp:197-199 | With mask 2^length - 1, ((piece >> shift) & mask) truncated to u32 is the length bits of the magnitude at offset. |
| BigInts.SubstringAsWritten | src/math/bigint/bigint.cpp:196-199 | With the int-shift mask, the result is the window for length <= 31 and 0 for length 32. |
| BigInts.BigInt.GetSubstring | src/math/bigint/bigint.cpp:187-200 | get_substring as written: Invalid_Argument iff length > 32. Otherwise the length bits of the magnitude at offset for length <= 31, and 0 for length 32. |
| BigInts.SubstringLength32Counterexample | src/math/bigint/bigint.cpp:196 | For the number 1, bits 0..31 hold 1, but the length-32 mask is 0. |
| BigInts.BigInt.GetSubstringCorrected | src/math/bigint/bigint.cpp:187-200 | get_substring with a 64-bit mask: Invalid_Argument iff length > 32, else exactly the length bits of the magnitude at offset. |
| BigInts.BigInt.SetBit | src/math/bigint/bigint.cpp:205-211 | set_bit(n): get_bit(n) becomes true, every other bit is kept, and the magnitude gains 2^n iff the bit was clear. The register grows to round_up(n / 64 + 1, 8) only when limb n / 64 lies past it. |
| Limbs.WordSetBit | src/math/bigint/bigint.cpp:208-210 | w \| (1 << k) has bit k set and every other bit of w. |
| BigInts.BigInt.ClearBit | src/math/bigint/bigint.cpp:216-222 | clear_bit(n): get_bit(n) becomes false, every other bit is kept, and the magnitude loses 2^n iff the bit was set. The register is untouched when limb n / 64 lies past it. |
| Limbs.WordClearBit | src/math/bigint/bigint.cpp:219-221 | w & ~(1 << k) has bit k clear and every other bit of w. |
| BigInts.BigInt.ZeroAbove | src/math/bigint/bigint.cpp:235-237 | The zeroing loop of mask_bits: the limbs above top_word become 0, and the rest are kept. |
| BigInts.BigInt.MaskBits | src/math/bigint/bigint.cpp:227-240 | mask_bits(n): the magnitude becomes the old magnitude mod 2^n, which is 0 for n == 0. |
| Limbs.ValueMasked | src/math/bigint/bigint.cpp:232-239 | Keeping the limbs below top_word, AND-ing limb top_word with 2^(n % 64) - 1 and zeroing the rest leaves the magnitude mod 2^n. |
| BigInts.MaskBitsAboveLength | src/math/bigint/bigint.cpp:230 | For n >= bits(), masking to n bits changes nothing. |
| BigInts.MaskBitsIdempotent | src/math/bigint/bigint.cpp:227-240 | Masking twice to n bits is masking once. |
| BigInts.HighBit | src/math/bigint/bigint.cpp:260-264 | The mask scan of bits() stops at the top set bit of a nonzero limb: top_bits is between 1 and 64, the limb is below 2^top_bits, and bit top_bits - 1 is set. |
| Limbs.ValueBitLen | src/math/bigint/bigint.cpp:260-266 | The bit length of the magnitude is 64·(sig_words - 1) plus the bit length of the top significant limb, or 0 when there are no significant limbs. |
| BigInts.BigInt.Bits | src/math/bigint/bigint.cpp:253-267 | bits() is the bit length of the magnitude. It is 0 iff the magnitude is 0, and otherwise 2^(bits-1) <= magnitude < 2^bits. |
| Arith.BitLen | src/math/bigint/bigint.cpp:253-267 | The bit length is 0 iff x == 0, and otherwise 2^(r-1) <= x < 2^r. |
| BigInts.BigInt.Bytes | src/math/bigint/bigint.cpp:245-248 | bytes() == (bits() + 7) / 8, the fewest bytes that hold the magnitude: magnitude < 2^(8·bytes), and 2^(8·(bytes-1)) <= magnitude when bytes > 0. |
| BigEndian.ByteLen | src/math/bigint/bigint.cpp:247 | (bits + 7) / 8 bytes hold x, and one byte fewer does not. |
| BigInts.BigInt.EncodedSize | src/math/bigint/bigint.cpp:272-286 | encoded_size gives bytes() for Binary, 2·bytes() for Hexadecimal, (bits()+2)/3 for Octal, and bits()·0.30102999566 + 1 truncated for Decimal. Any other base is Invalid_Argument. |
| BigInts.HexDigitsBounds | src/math/bigint/bigint.cpp:278-279 | The hexadecimal size is even, its digits hold the magnitude, and it is at most one byte too many. |
| BigInts.OctalDigits | src/math/bigint/bigint.cpp:280-281 | (bits + 2) / 3 octal digits hold x, and one digit fewer does not. |
| BigInts.BigInt.SetSign | src/math/bigint/bigint.cpp:291-297 | set_sign(s): the flag becomes Positive when the magnitude is 0, else s; the register is unchanged. |
| BigInts.BigInt.FlipSign | src/math/bigint/bigint.cpp:302-305 | flip_sign negates the signed value and never leaves a negative zero. |
| BigInts.BigInt.ReverseSign | src/math/bigint/bigint.cpp:310-315 | reverse_sign is the other sign. |
| BigInts.BigInt.Negate | src/math/bigint/bigint.cpp:320-325 | Unary minus: a fresh copy with the same magnitude and the negated signed value, never a negative zero. |
| BigInts.BigInt.Abs | src/math/bigint/bigint.cpp:330-335 | abs: a fresh copy with the same magnitude, always Positive. |
| BigInts.BigInt.BinaryEncode | src/math/bigint/bigint.cpp:340-345 | binary_encode writes exactly bytes() bytes, the big-endian encoding of the magnitude, and leaves the rest of the output untouched. |
| BigEndian.ToBytesAt | src/math/bigint/bigint.cpp:343-344 | Output position sig_bytes - j - 1 receives byte j of the magnitude counted from the low end. |
| BigEndian.EncodeRoundTrip | src/math/bigint/bigint.cpp:340-365 | Decoding the bytes() bytes binary_encode writes gives back the magnitude. |
| BigEndian.FromBytesRoundTrip | src/math/bigint/bigint.cpp:340-365 | Encoding a decoded buffer at the buffer's length gives the buffer back. |
| BigEndian.ToBytesRoundTrip | src/math/bigint/bigint.cpp:340-345 | Decoding a len-byte encoding of x gives x mod 2^(8·len). |
| BigEndian.ShiftInByte | src/math/bigint/bigint.cpp:361 | (w << 8) \| b on a limb that holds fewer than 8 bytes appends b to those bytes, without wrap-around. |
| BigInts.BigInt.ShiftInBytes | src/math/bigint/bigint.cpp:360-364 | The inner loop leaves limb j holding the big-endian number of bytes lo..hi-1 and no other limb changed. |
| BigInts.BigInt.DecodeWords | src/math/bigint/bigint.cpp:357-362 | The outer loop fills limb j with the 8 bytes ending 8·j bytes before length, for every j < length / 8. |
| BigEndian.ValueDecoded | src/math/bigint/bigint.cpp:354-364 | Limbs filled as binary_decode fills them stand for the big-endian number in the buffer. |
| BigInts.BigInt.BinaryDecode | src/math/bigint/bigint.cpp:350-365 | binary_decode: the magnitude becomes Σ buf[i]·256^(length-1-i), in a fresh register of round_up(length / 8 + 1, 8) limbs. The sign flag is untouched. |
| BigInts.BigInt.BinaryDecodeRegion | src/math/bigint/bigint.cpp:370-373 | binary_decode of a whole region is binary_decode of all its bytes. |

## Left out

- The RNG constructor and `randomize`: randomness and the generator are not
  part of this model.
- `decode` in the string and byte-buffer constructors is a parameter of
  `FromString` and `FromEncoded`. It is a function from the text or bytes and
  the base to a limb sequence or an error, because the decoder is not part of
  this model.
- `*this = decode(...)` in those constructors is modelled as taking the decoded
  limbs as the register (`FromWords`). Any copy made along the way is not
  modelled.
- BigInts.BigInt.EncodedSize: the Decimal case uses the exact rational
  30102999566 / 10^11 in place of the double `LOG_2_BASE_10`. Double rounding of
  the product is not modelled.
- BigInts.BigInt.Move: C++ leaves the moved-from sign unspecified after
  `std::swap` with a default-constructed object. The model promises nothing
  about it.
- BigInts.IntShiftMask: an `int` shift by 31 or 32 is undefined in C++. The
  model takes the x86 behaviour (shift count mod 32, two's-complement
  wrap-around).
- Allocation is not modelled: secure memory, `MemoryRegion` capacity versus
  size, and allocation failure. A register is a Dafny array of exactly `size()`
  limbs.
- `bigint_cmp` (mp_core), `get_byte` (get_byte.h) and `round_up` (rounding.h)
  are specified by their meaning, not by their code.
- The limb width is fixed at 64 bits. The 32-bit limb configuration is not
  modelled.

## Findings

| source | as written | input that shows it | evidently intended | confidence | as-written member | corrected member |
|---|---|---|---|---|---|---|
| src/math/bigint/bigint.cpp:196 | `(1 << length) - 1` shifts an `int`, so for length 32 the mask is 0 on x86, and length 31 relies on signed overflow | get_substring(0, 32) on the number 1 returns 0, though bits 0..31 hold 1 | a 64-bit mask `(static_cast<u64bit>(1) << length) - 1`, which returns the full 32-bit window | not executed | BigInts.BigInt.GetSubstring, BigInts.SubstringLength32Counterexample | BigInts.BigInt.GetSubstringCorrected |
