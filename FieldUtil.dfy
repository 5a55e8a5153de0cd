/** Bit-field extraction helpers of the Rust toolchain: `field` and
 * `sign_extend_field` (returning a signed value), the `u16` two's-complement
 * variant of the emulator, and its `field!` macro. */
module FieldUtil {
  import opened Arith

  type u16 = x: int | 0 <= x < 0x1_0000

  /** `u16::MAX >> (16 - bits)`: the low `bits` bits set. */
  function Mask(bits: nat): (m: nat)
    requires 1 <= bits <= 16
    ensures m == Pow2(bits) - 1
  {
    var p, q := Pow2(16 - bits), Pow2(bits);
    Pow2Add(bits, 16 - bits);
    Pow2Values();
    assert 0xffff == (q - 1) * p + (p - 1) by {
      assert q * p == 0x1_0000;
      assert (q - 1) * p == q * p - p;
    }
    DivModUnique(0xffff, p, q - 1, p - 1);
    0xffff / p
  }

  /** `field(v, bits)`: the low `bits` bits of `v` as an unsigned value.
   * A width of 0 or above 16 overflows the shift and panics. */
  function Field(v: u16, bits: nat): (r: nat)
    requires 1 <= bits <= 16
    ensures r < Pow2(bits)
    ensures (v - r) % Pow2(bits) == 0
  {
    var p := Mask(bits) + 1;
    ModMultiple(v, p);
    v % p
  }

  /** The proptest `test_field_complete`: a field value below a padding of
   * arbitrary high bits is read back exactly. */
  lemma FieldOfPadded(value: nat, padding: nat, bits: nat, input: u16)
    requires 1 <= bits <= 16
    requires value < Pow2(bits) && input == value + padding * Pow2(bits)
    ensures Field(input, bits) == value
  {
    DivModUnique(input, Pow2(bits), padding, value);
  }

  /** Only the low `bits` bits of the input matter. */
  lemma FieldIgnoresHighBits(v: u16, w: u16, bits: nat)
    requires 1 <= bits <= 16 && v % Pow2(bits) == w % Pow2(bits)
    ensures Field(v, bits) == Field(w, bits)
  {
  }

  /** Whether bit `k` of `x` is set. */
  predicate BitSet(x: nat, k: nat)
  {
    x / Pow2(k) % 2 == 1
  }

  /** A value below `2 * top` has its bit at `top` set exactly when it is at
   * least `top`. */
  lemma TopBit(x: nat, k: nat)
    requires x < 2 * Pow2(k)
    ensures BitSet(x, k) <==> x >= Pow2(k)
  {
    if x >= Pow2(k) {
      DivModUnique(x, Pow2(k), 1, x - Pow2(k));
    } else {
      DivModUnique(x, Pow2(k), 0, x);
    }
  }

  /** `sign_extend_field(v, bits)`: the low `bits` bits of `v` read as a
   * two's-complement number. The width must be 1 to 15 (`assert_ge!` and
   * `assert_le!` panic otherwise). */
  function SignExtendField(v: u16, bits: nat): (r: int)
    requires 1 <= bits <= 15
    ensures -(Pow2(bits - 1) as int) <= r < Pow2(bits - 1)
    ensures (v - r) % Pow2(bits) == 0
    ensures r >= 0 <==> !BitSet(v % Pow2(bits), bits - 1)
  {
    var p := Pow2(bits);
    var mask := Mask(bits);
    var masked := Field(v, bits);
    assert masked == v % p;
    assert p == 2 * Pow2(bits - 1);
    TopBit(masked, bits - 1);
    ModShift(v, p);
    if BitSet(masked, bits - 1) then masked - mask - 1 else masked
  }

  /** Two's complement of `value` in `bits` bits: `(value as u16) & mask`. */
  function TwosComplement(value: int, bits: nat): (r: nat)
    requires 1 <= bits <= 16 && -(Pow2(bits - 1) as int) <= value < Pow2(bits - 1)
    ensures r < Pow2(bits) && (r - value) % Pow2(bits) == 0
  {
    var p := Pow2(bits);
    assert p == 2 * Pow2(bits - 1);
    if value < 0 then
      DivModUnique(p, p, 1, 0);
      value + p
    else
      DivModUnique(0, p, 0, 0);
      value
  }

  /** The proptest `test_sign_extend_complete`: a signed value stored in the
   * field below arbitrary padding is recovered exactly. */
  lemma SignExtendOfPadded(value: int, padding: nat, bits: nat, input: u16)
    requires 1 <= bits <= 15 && -(Pow2(bits - 1) as int) <= value < Pow2(bits - 1)
    requires input == TwosComplement(value, bits) + padding * Pow2(bits)
    ensures SignExtendField(input, bits) == value
  {
    DivModUnique(input, Pow2(bits), padding, TwosComplement(value, bits));
    TopBit(TwosComplement(value, bits), bits - 1);
  }

  lemma SignExtendIgnoresHighBits(v: u16, w: u16, bits: nat)
    requires 1 <= bits <= 15 && v % Pow2(bits) == w % Pow2(bits)
    ensures SignExtendField(v, bits) == SignExtendField(w, bits)
  {
  }

  /** The examples of `test_sign_extend_examples`. */
  lemma SignExtendExamples()
    ensures SignExtendField(0x2, 2) == -2
    ensures SignExtendField(0x1, 2) == 1
    ensures SignExtendField(0xffa1, 2) == 1
    ensures SignExtendField(0x7f, 7) == -1
  {
    Pow2Values();
  }

  /** `x ^ (1 << k)` for `x < 2 * Pow2(k)`: flip the single bit `k`, which
   * for such `x` is set exactly when `x >= Pow2(k)`. */
  function FlipTopBit(x: nat, k: nat): (r: nat)
    requires x < 2 * Pow2(k)
    ensures r < 2 * Pow2(k)
    ensures r >= Pow2(k) <==> x < Pow2(k)
  {
    if x >= Pow2(k) then x - Pow2(k) else x + Pow2(k)
  }

  /** The emulator's `sign_extend_field`: `(masked ^ top).wrapping_sub(top)`,
   * the sign-extended value as a 16-bit pattern. */
  function SignExtendFieldU16(v: u16, bits: nat): (r: u16)
    requires 1 <= bits <= 15
    ensures r == (SignExtendField(v, bits) + 0x1_0000) % 0x1_0000
  {
    var top := Pow2(bits - 1);
    var masked := Field(v, bits);
    assert Pow2(bits) == 2 * top;
    TopBit(masked, bits - 1);
    var flipped := FlipTopBit(masked, bits - 1);
    assert flipped - top == SignExtendField(v, bits);
    (flipped - top + 0x1_0000) % 0x1_0000
  }

  /** The emulator's examples: `(0b10, 2)`, `(0b01, 2)`, `(0xffa1, 2)`. */
  lemma SignExtendFieldU16Examples()
    ensures SignExtendFieldU16(0x2, 2) == 0xfffe
    ensures SignExtendFieldU16(0x1, 2) == 1
    ensures SignExtendFieldU16(0xffa1, 2) == 1
  {
    SignExtendExamples();
  }

  /** The emulator's `test_sign_extend_complete`: the padded field comes back
   * as the 16-bit pattern of the signed value. */
  lemma SignExtendFieldU16OfPadded(value: int, padding: nat, bits: nat, input: u16)
    requires 1 <= bits <= 15 && -(Pow2(bits - 1) as int) <= value < Pow2(bits - 1)
    requires input == TwosComplement(value, bits) + padding * Pow2(bits)
    ensures SignExtendFieldU16(input, bits) == (value + 0x1_0000) % 0x1_0000
  {
    SignExtendOfPadded(value, padding, bits, input);
  }

  /** The emulator's `field!(e, T)`: the low `T::BITS` bits of `e`, which
   * always fit `T`. */
  function FieldMacro(e: nat, typeBits: nat): (r: nat)
    ensures r < Pow2(typeBits)
    ensures (e - r) % Pow2(typeBits) == 0
  {
    ModMultiple(e, Pow2(typeBits));
    e % Pow2(typeBits)
  }
}
