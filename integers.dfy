/**
 * Odd-width integers: `intN_t<T, bits>` stores a `bits`-bit integer in a
 * built-in integer T that is wider (`int32_t`/`uint32_t` for the 24-bit
 * types, `int64_t`/`uint64_t` for the 40, 48, 50 and 56-bit ones).
 *
 * The backing `_backing` is modelled as its bit pattern: a natural below
 * 2^width. The operators compute on that pattern as the unsigned type of the
 * same width and keep the low `bits` bits (`& computed_mask`); construction
 * and assignment store `static_cast<T>(value)`, which keeps `width` bits and
 * is not masked. The number an intN_t stands for is Value: the low `bits`
 * bits of the backing read as a `bits`-bit integer.
 */
module Integers {
  import opened Bits

  /** The template arguments of one intN_t: `bits`, and T's signedness and width. */
  datatype IntType = IntType(bits: nat, signed: bool, width: nat)
  {
    /**
     * T is a built-in integer at least as wide as `int` and at most 64 bits
     * wide (the ten aliases use 32 and 64), and `bits` is below its width.
     */
    predicate Valid()
    {
      32 <= width <= 64 && 0 < bits < width
    }
  }

  const Int24 := IntType(24, true, 32)
  const Uint24 := IntType(24, false, 32)
  const Int40 := IntType(40, true, 64)
  const Uint40 := IntType(40, false, 64)
  const Int48 := IntType(48, true, 64)
  const Uint48 := IntType(48, false, 64)
  const Int50 := IntType(50, true, 64)
  const Uint50 := IntType(50, false, 64)
  const Int56 := IntType(56, true, 64)
  const Uint56 := IntType(56, false, 64)

  /**
   * The width of a built-in integer type an intN_t converts to. The source
   * converts to 8, 16, 32 and 64 bits; the facts below hold for every width
   * up to 64, so the predicate admits all of them.
   */
  predicate BuiltinWidth(v: nat)
  {
    0 < v <= 64
  }

  // ---------------------------------------------------------------------
  // Integral conversion

  /** x fits a v-bit integer of the given signedness. */
  predicate Representable(x: int, v: nat, signed: bool)
    requires v > 0
  {
    if signed then InSignedRange(x, v) else 0 <= x < Pow2(v)
  }

  /**
   * The C++ conversion of x to a v-bit integer type: the one representable
   * value congruent to x modulo 2^v.
   */
  function Convert(x: int, v: nat, signed: bool): (r: int)
    requires v > 0
    ensures Representable(r, v, signed)
    ensures r % Pow2(v) == x % Pow2(v)
  {
    DivModUnique(x % Pow2(v), Pow2(v), 0, x % Pow2(v));
    if signed then ToSigned(x % Pow2(v), v) else x % Pow2(v)
  }

  /** A representable value converts to itself. */
  lemma ConvertRepresentable(x: int, v: nat, signed: bool)
    requires v > 0 && Representable(x, v, signed)
    ensures Convert(x, v, signed) == x
  {
    if signed {
      ToSignedOfMod(x, v);
    } else {
      DivModUnique(x, Pow2(v), 0, x);
    }
  }

  lemma CastRepresentable(x: int, v: nat, signed: bool)
    requires v > 0
    ensures x % Pow2(v) < Pow2(v)
    ensures Representable(x, v, signed) ==> Convert(x % Pow2(v), v, signed) == x
  {
    ModPow2Mod(x, v, v);
    if Representable(x, v, signed) {
      ConvertRepresentable(x, v, signed);
    }
  }

  /** Congruent values convert alike. */
  lemma ConvertCongruent(x: int, y: int, v: nat, signed: bool)
    requires v > 0 && x % Pow2(v) == y % Pow2(v)
    ensures Convert(x, v, signed) == Convert(y, v, signed)
  {
  }

  /** Reducing modulo a larger power of two first changes nothing. */
  lemma ConvertNarrower(x: int, w: nat, v: nat, signed: bool)
    requires 0 < v <= w
    ensures Convert(x % Pow2(w), v, signed) == Convert(x, v, signed)
  {
    ModPow2Mod(x, w, v);
  }

  // ---------------------------------------------------------------------
  // The backing and what it stands for

  /** `computed_mask`: `(1 << bits) - 1` in T's unsigned type. */
  function ComputedMask(t: IntType): (r: nat)
    requires t.Valid()
    ensures r == LowMask(t.bits)
  {
    assert Pow2(0) == 1;
    ShiftPow2(0, t.bits, t.width);
    ShiftLeft(1, t.bits, t.width) - 1
  }

  /** `static_cast<T>(x)` (and `static_cast<vu_type>(x)`), as a bit pattern. */
  function Cast(t: IntType, x: int): (r: nat)
    requires t.Valid()
    ensures r < Pow2(t.width)
    ensures Representable(x, t.width, t.signed) ==> BackingValue(t, r) == x
  {
    CastRepresentable(x, t.width, t.signed);
    x % Pow2(t.width)
  }

  /** The value of type T whose bit pattern is raw. */
  function BackingValue(t: IntType, raw: nat): (r: int)
    requires t.Valid() && raw < Pow2(t.width)
    ensures Representable(r, t.width, t.signed)
    ensures r % Pow2(t.width) == raw
  {
    DivModUnique(raw, Pow2(t.width), 0, raw);
    Convert(raw, t.width, t.signed)
  }

  /** The `bits`-bit integer a backing stands for: its low `bits` bits. */
  function Value(t: IntType, raw: nat): (r: int)
    requires t.Valid()
    ensures Representable(r, t.bits, t.signed)
    ensures r % Pow2(t.bits) == raw % Pow2(t.bits)
  {
    Convert(raw, t.bits, t.signed)
  }

  /** A backing the operators produce: nothing above the low `bits` bits. */
  predicate Masked(t: IntType, raw: nat)
    requires t.Valid()
  {
    raw < Pow2(t.bits)
  }

  /** A backing that construction from an in-range value produces. */
  predicate Extended(t: IntType, raw: nat)
    requires t.Valid()
  {
    raw == Cast(t, Value(t, raw))
  }

  // ---------------------------------------------------------------------
  // Binary operators

  /** The binary operators, each with its compound-assignment form. */
  datatype Op = Plus | Minus | Times | Quotient | Remainder
              | LeftShift | RightShift | BitOr | BitAnd | BitXor
  {
    predicate IsShift()
    {
      this == LeftShift || this == RightShift
    }

    predicate IsDivision()
    {
      this == Quotient || this == Remainder
    }
  }

  /**
   * The right operand as the operator sees it: a shift count goes through
   * `static_cast<std::uint8_t>`, every other operand through
   * `static_cast<vu_type>`. An intN_t operand enters with its backing's
   * value.
   */
  function Operand(t: IntType, op: Op, rhs: int): (r: nat)
    requires t.Valid()
    ensures r < Pow2(t.width)
    ensures op.IsShift() ==> r < 256
  {
    if op.IsShift() then
      Pow2Values();
      Pow2Monotone(8, t.width);
      rhs % 256
    else Cast(t, rhs)
  }

  /** The operation is defined: no division by zero, no shift past the width. */
  predicate Defined(t: IntType, op: Op, b: nat)
  {
    match op
    case Quotient | Remainder => b != 0
    case LeftShift | RightShift => b < t.width
    case _ => true
  }

  /** `a OP b` computed in T's unsigned type, before the mask. */
  function Wide(t: IntType, op: Op, a: nat, b: nat): (r: nat)
    requires t.Valid() && a < Pow2(t.width) && b < Pow2(t.width)
    requires Defined(t, op, b)
  {
    var m := Pow2(t.width);
    match op
    case Plus => Reduce(a + b, m)
    case Minus => Reduce(a - b, m)
    case Times => Reduce(a * b, m)
    case Quotient => Reduce(a / b, m)
    case Remainder => Reduce(a % b, m)
    case LeftShift => ShiftLeft(a, b, t.width)
    case RightShift => Shr(a, b)
    case BitOr => Or(a, b)
    case BitAnd => And(a, b)
    case BitXor => Xor(a, b)
  }

  /** x modulo m: the arithmetic of an unsigned type with m values. */
  function Reduce(x: int, m: nat): (r: nat)
    requires m > 0
    ensures r < m
  {
    x % m
  }

  /** `{static_cast<T>((vu(_backing) OP vu(rhs)) & computed_mask)}`. */
  function Binary(t: IntType, op: Op, a: nat, b: nat): (r: nat)
    requires t.Valid() && a < Pow2(t.width) && b < Pow2(t.width)
    requires Defined(t, op, b)
    ensures Masked(t, r)
    ensures r == Wide(t, op, a, b) % Pow2(t.bits)
  {
    AndLowMask(Wide(t, op, a, b), t.bits);
    And(Wide(t, op, a, b), ComputedMask(t))
  }

  /** The exact mathematical result of the arithmetic operators. */
  function Exact(op: Op, x: int, y: int): int
    requires op == Plus || op == Minus || op == Times
  {
    match op
    case Plus => x + y
    case Minus => x - y
    case Times => x * y
  }

  // ---------------------------------------------------------------------
  // Unary and logical operators

  /** `-x`: `{-_backing}` negates T's value; the result is not masked. */
  function Negate(t: IntType, raw: nat): (r: nat)
    requires t.Valid() && raw < Pow2(t.width)
    requires !(t.signed && raw == Pow2(t.width - 1))
    ensures r < Pow2(t.width)
  {
    Cast(t, -BackingValue(t, raw))
  }

  /** `~x`: the complement in T's unsigned type, masked. */
  function Complement(t: IntType, raw: nat): (r: nat)
    requires t.Valid() && raw < Pow2(t.width)
    ensures Masked(t, r)
  {
    Pow2Monotone(t.bits, t.width);
    AndLowMask(Not(raw, t.width), t.bits);
    And(Not(raw, t.width), ComputedMask(t))
  }

  /** `++x` and `x++`: `(vu(_backing) + 1U) & computed_mask`. */
  function Increment(t: IntType, raw: nat): (r: nat)
    requires t.Valid() && raw < Pow2(t.width)
    ensures Masked(t, r)
  {
    Binary(t, Plus, raw, Operand(t, Plus, 1))
  }

  /** `--x` and `x--`: `(vu(_backing) - 1U) & computed_mask`. */
  function Decrement(t: IntType, raw: nat): (r: nat)
    requires t.Valid() && raw < Pow2(t.width)
    ensures Masked(t, r)
  {
    Binary(t, Minus, raw, Operand(t, Minus, 1))
  }

  /** On a masked or extended backing, the backing is 0 exactly when the value is. */
  lemma ZeroIsValue(t: IntType, raw: nat)
    requires t.Valid()
    ensures Masked(t, raw) || Extended(t, raw) ==> (raw == 0 <==> Value(t, raw) == 0)
  {
    DivModUnique(0, Pow2(t.bits), 0, 0);
    ConvertRepresentable(0, t.bits, t.signed);
    if Masked(t, raw) {
      DivModUnique(raw, Pow2(t.bits), 0, raw);
    } else if Extended(t, raw) {
      DivModUnique(0, Pow2(t.width), 0, 0);
    }
  }

  /**
   * `!x`, `x || y` and `x && y` test the whole backing against zero; on a
   * backing from an operator or from construction, that is the value.
   */
  function LogicalNot(t: IntType, raw: nat): (b: bool)
    requires t.Valid()
    ensures Masked(t, raw) || Extended(t, raw) ==> (b <==> Value(t, raw) == 0)
  {
    ZeroIsValue(t, raw);
    raw == 0
  }

  function LogicalOr(t: IntType, raw: nat, rhs: int): (b: bool)
    requires t.Valid()
    ensures Masked(t, raw) || Extended(t, raw) ==> (b <==> Value(t, raw) != 0 || rhs != 0)
  {
    ZeroIsValue(t, raw);
    raw != 0 || rhs != 0
  }

  function LogicalAnd(t: IntType, raw: nat, rhs: int): (b: bool)
    requires t.Valid()
    ensures Masked(t, raw) || Extended(t, raw) ==> (b <==> Value(t, raw) != 0 && rhs != 0)
  {
    ZeroIsValue(t, raw);
    raw != 0 && rhs != 0
  }

  // ---------------------------------------------------------------------
  // Sign extension and conversion to the built-in types

  /**
   * `extension_bits` in `sign_extend<U>()` for a v-bit U, as a v-bit pattern:
   * `~static_cast<uu_type>(0U)` (promoted to `int`, hence all ones in
   * `vu_type`, when U is narrower than `int`) AND `~computed_mask` (all ones
   * from bit `bits` up to bit `width`).
   */
  function Extension(t: IntType, v: nat): (r: nat)
    requires t.Valid() && BuiltinWidth(v)
    ensures r < Pow2(v)
  {
    Pow2Monotone(t.bits, t.width);
    var ones := if v < 32 then LowMask(t.width) else LowMask(v);
    Reduce(And(ones, Not(ComputedMask(t), t.width)), Pow2(v))
  }

  /** The extension the sign-fill needs: ones from bit `bits` up to bit v. */
  function ExtensionFixed(t: IntType, v: nat): (r: nat)
    requires t.Valid() && BuiltinWidth(v)
    ensures r < Pow2(v)
  {
    if t.bits < v then
      Pow2Monotone(t.bits, v);
      Pow2(v) - Pow2(t.bits)
    else 0
  }

  /**
   * The body of `sign_extend<U>()` for a v-bit U, with the given extension:
   * `static_cast<U>(_backing)`, OR-ed with the extension when bit `bits - 1`
   * of the backing is set.
   */
  function Smear(t: IntType, raw: nat, v: nat, ext: nat): (r: nat)
    requires t.Valid() && raw < Pow2(t.width) && v > 0 && ext < Pow2(v)
    ensures r < Pow2(v)
  {
    var low := Reduce(BackingValue(t, raw), Pow2(v));
    if Bit(raw, t.bits - 1) then
      OrBound(ext, low, v);
      Or(ext, low)
    else low
  }

  /** `sign_extend<U>()` as written, as a v-bit pattern. */
  function SignExtend(t: IntType, raw: nat, v: nat): (r: nat)
    requires t.Valid() && raw < Pow2(t.width) && BuiltinWidth(v)
    ensures r < Pow2(v)
  {
    Smear(t, raw, v, Extension(t, v))
  }

  /** `sign_extend<U>()` with the extension widened to U before the fill. */
  function SignExtendFixed(t: IntType, raw: nat, v: nat): (r: nat)
    requires t.Valid() && raw < Pow2(t.width) && BuiltinWidth(v)
    ensures r < Pow2(v)
  {
    Smear(t, raw, v, ExtensionFixed(t, v))
  }

  /**
   * `operator intV_t()` (signed T, through `sign_extend`) and
   * `operator uintV_t()` (unsigned T, a plain `static_cast`).
   */
  function ToBuiltin(t: IntType, raw: nat, v: nat): (r: int)
    requires t.Valid() && raw < Pow2(t.width) && BuiltinWidth(v)
    ensures Representable(r, v, t.signed)
  {
    if t.signed then ToSigned(SignExtend(t, raw, v), v) else Convert(raw, v, false)
  }

  /** The conversions with `SignExtendFixed` in place of `sign_extend`. */
  function ToBuiltinFixed(t: IntType, raw: nat, v: nat): (r: int)
    requires t.Valid() && raw < Pow2(t.width) && BuiltinWidth(v)
    ensures Representable(r, v, t.signed)
  {
    if t.signed then ToSigned(SignExtendFixed(t, raw, v), v) else Convert(raw, v, false)
  }

  /** Bit i of the extension as written: set from bit `bits` up to bit `width`. */
  lemma ExtensionBit(t: IntType, v: nat, i: nat)
    requires t.Valid() && BuiltinWidth(v) && i < v
    ensures Bit(Extension(t, v), i) == (t.bits <= i < t.width)
  {
    var n, w := t.bits, t.width;
    Pow2Monotone(n, w);
    var ones := if v < 32 then LowMask(w) else LowMask(v);
    var notMask := Not(ComputedMask(t), w);
    var e := And(ones, notMask);
    assert Extension(t, v) == e % Pow2(v);
    assert Bit(ones, i) by {
      if v < 32 {
        LowMaskBit(w, i);
      } else {
        LowMaskBit(v, i);
      }
    }
    NotMaskBit(t, i);
    AndBit(ones, notMask, i);
    ModPow2Bit(e, v, i);
  }

  /** `~computed_mask` has the bits from `bits` up to `width` set. */
  lemma NotMaskBit(t: IntType, i: nat)
    requires t.Valid()
    ensures LowMask(t.bits) < Pow2(t.width)
    ensures Bit(Not(ComputedMask(t), t.width), i) == (t.bits <= i < t.width)
  {
    Pow2Monotone(t.bits, t.width);
    assert Not(ComputedMask(t), t.width) == Pow2(t.width) - Pow2(t.bits);
    Pow2DiffBit(t.width, t.bits, i);
  }

  /** The extension as written is the intended one for every U no wider than T. */
  lemma ExtensionAgrees(t: IntType, v: nat)
    requires t.Valid() && BuiltinWidth(v) && v <= t.width
    ensures Extension(t, v) == ExtensionFixed(t, v)
  {
    forall i: nat | i < v
      ensures Bit(Extension(t, v), i) == Bit(ExtensionFixed(t, v), i)
    {
      ExtensionBit(t, v, i);
      ExtensionFixedBit(t, v, i);
    }
    BitsEqual(Extension(t, v), ExtensionFixed(t, v), v);
  }

  /** Bit i of the intended extension: set from bit `bits` up to bit v. */
  lemma ExtensionFixedBit(t: IntType, v: nat, i: nat)
    requires t.Valid() && BuiltinWidth(v)
    ensures Bit(ExtensionFixed(t, v), i) == (t.bits <= i < v)
  {
    if t.bits < v {
      Pow2DiffBit(v, t.bits, i);
    } else {
      BitZero(i);
    }
  }

  /** For a U wider than T the extension as written stops at bit `width`. */
  lemma ExtensionStops(t: IntType, v: nat)
    requires t.Valid() && BuiltinWidth(v) && t.width < v
    ensures Pow2(t.bits) <= Pow2(t.width)
    ensures Extension(t, v) == Pow2(t.width) - Pow2(t.bits)
  {
    var n, w := t.bits, t.width;
    Pow2Monotone(n, w);
    Pow2Monotone(w, v);
    var stop: nat := Pow2(w) - Pow2(n);
    assert stop < Pow2(v);
    forall i: nat | i < v
      ensures Bit(Extension(t, v), i) == Bit(stop, i)
    {
      ExtensionBit(t, v, i);
      Pow2DiffBit(w, n, i);
    }
    BitsEqual(Extension(t, v), stop, v);
  }

  /** Filling bits n to v of a pattern below 2^n gives the pattern of raw - 2^n. */
  lemma FillMasked(raw: nat, n: nat, v: nat)
    requires 0 < n < v && raw < Pow2(n)
    ensures Pow2(n) <= Pow2(v)
    ensures Or(Pow2(v) - Pow2(n), raw) == (raw - Pow2(n)) % Pow2(v)
  {
    Pow2Monotone(n, v);
    Pow2Diff(v, n);
    OrShifted(raw, LowMask(v - n), n);
    DivModUnique(raw - Pow2(n), Pow2(v), -1, raw - Pow2(n) + Pow2(v));
  }

  /** Below bit n, raw and raw - 2^n agree. */
  lemma LowBitsMasked(raw: nat, n: nat, v: nat)
    requires v <= n
    ensures raw % Pow2(v) == (raw - Pow2(n)) % Pow2(v)
  {
    Pow2Add(v, n - v);
    assert v + (n - v) == n;
    ModShiftDown(raw, Pow2(n - v), Pow2(v));
  }

  /** A negative value in n bits already has bits n - 1 to v set in its v-bit pattern. */
  lemma FillExtended(val: int, n: nat, v: nat)
    requires 0 < n < v && -(Pow2(n - 1) as int) <= val < 0
    ensures Pow2(n) <= Pow2(v)
    ensures Or(Pow2(v) - Pow2(n), val % Pow2(v)) == val % Pow2(v)
  {
    Pow2Monotone(n, v);
    Pow2Monotone(n - 1, v);
    var ext := Pow2(v) - Pow2(n);
    var s: nat := val + Pow2(n);
    var low := val + Pow2(v);
    DivModUnique(val, Pow2(v), -1, low);
    Pow2Diff(v, n);
    OrShifted(s, LowMask(v - n), n);
    assert Or(ext, s) == low;
    OrTwice(ext, s, v);
  }

  /** With bit `bits - 1` clear, a masked or extended backing is its value. */
  lemma SignBitClear(t: IntType, raw: nat)
    requires t.Valid() && raw < Pow2(t.width) && (Masked(t, raw) || Extended(t, raw))
    requires !Bit(raw, t.bits - 1)
    ensures raw == Value(t, raw) && raw < Pow2(t.bits - 1)
  {
    var n := t.bits;
    var u := raw % Pow2(n);
    ModPow2Bit(raw, n, n - 1);
    TopBit(u, n - 1);
    assert Value(t, raw) == u;
    Pow2Monotone(n, t.width);
    if Masked(t, raw) {
      DivModUnique(raw, Pow2(n), 0, raw);
    } else {
      DivModUnique(u, Pow2(t.width), 0, u);
    }
  }

  /** With bit `bits - 1` set, a signed backing stands for a negative value. */
  lemma SignBitSet(t: IntType, raw: nat)
    requires t.Valid() && t.signed && Bit(raw, t.bits - 1)
    ensures Pow2(t.bits - 1) <= raw % Pow2(t.bits)
    ensures Value(t, raw) == raw % Pow2(t.bits) - Pow2(t.bits)
  {
    var n := t.bits;
    ModPow2Bit(raw, n, n - 1);
    TopBit(raw % Pow2(n), n - 1);
  }

  /** `SignExtendFixed` gives the low v bits of the value, for every U. */
  lemma SignExtendFixedIsValue(t: IntType, raw: nat, v: nat)
    requires t.Valid() && t.signed && raw < Pow2(t.width) && BuiltinWidth(v)
    requires Masked(t, raw) || Extended(t, raw)
    ensures SignExtendFixed(t, raw, v) == Value(t, raw) % Pow2(v)
  {
    if !Bit(raw, t.bits - 1) {
      SignExtendNonNegative(t, raw, v);
    } else if Masked(t, raw) {
      SignExtendMasked(t, raw, v);
    } else {
      SignExtendExtended(t, raw, v);
    }
  }

  lemma SignExtendNonNegative(t: IntType, raw: nat, v: nat)
    requires t.Valid() && t.signed && raw < Pow2(t.width) && BuiltinWidth(v)
    requires Masked(t, raw) || Extended(t, raw)
    requires !Bit(raw, t.bits - 1)
    ensures SignExtendFixed(t, raw, v) == Value(t, raw) % Pow2(v)
  {
    SignBitClear(t, raw);
    Pow2Monotone(t.bits - 1, t.width - 1);
    ConvertRepresentable(raw, t.width, true);
    assert BackingValue(t, raw) == raw;
    SignExtendFixedClear(t, raw, v);
  }

  /** Unfolds `SignExtendFixed` for a backing with bit `bits - 1` clear. */
  lemma SignExtendFixedClear(t: IntType, raw: nat, v: nat)
    requires t.Valid() && raw < Pow2(t.width) && BuiltinWidth(v) && !Bit(raw, t.bits - 1)
    ensures SignExtendFixed(t, raw, v) == BackingValue(t, raw) % Pow2(v)
  {
  }

  /** Unfolds `SignExtendFixed` for a backing with bit `bits - 1` set. */
  lemma SignExtendFixedSet(t: IntType, raw: nat, v: nat)
    requires t.Valid() && raw < Pow2(t.width) && BuiltinWidth(v) && Bit(raw, t.bits - 1)
    ensures SignExtendFixed(t, raw, v) == Or(ExtensionFixed(t, v), BackingValue(t, raw) % Pow2(v))
  {
  }

  lemma SignExtendMasked(t: IntType, raw: nat, v: nat)
    requires t.Valid() && t.signed && raw < Pow2(t.width) && BuiltinWidth(v)
    requires Masked(t, raw) && Bit(raw, t.bits - 1)
    ensures SignExtendFixed(t, raw, v) == Value(t, raw) % Pow2(v)
  {
    var n := t.bits;
    SignBitSet(t, raw);
    DivModUnique(raw, Pow2(n), 0, raw);
    assert Value(t, raw) == raw - Pow2(n);
    MaskedBacking(t, raw);
    SignExtendFixedSet(t, raw, v);
    if n < v {
      FillMaskedFixed(t, v, raw);
    } else {
      assert ExtensionFixed(t, v) == 0;
      LowBitsMasked(raw, n, v);
    }
  }

  /** A masked signed backing reads, as a T, as itself. */
  lemma MaskedBacking(t: IntType, raw: nat)
    requires t.Valid() && t.signed && Masked(t, raw)
    ensures raw < Pow2(t.width) && BackingValue(t, raw) == raw
  {
    Pow2Monotone(t.bits, t.width - 1);
    Pow2Monotone(t.width - 1, t.width);
    ConvertRepresentable(raw, t.width, true);
  }

  lemma FillMaskedFixed(t: IntType, v: nat, raw: nat)
    requires t.Valid() && BuiltinWidth(v) && t.bits < v && raw < Pow2(t.bits)
    ensures Or(ExtensionFixed(t, v), raw % Pow2(v)) == (raw - Pow2(t.bits)) % Pow2(v)
  {
    Pow2Monotone(t.bits, v);
    DivModUnique(raw, Pow2(v), 0, raw);
    FillMasked(raw, t.bits, v);
  }

  lemma SignExtendExtended(t: IntType, raw: nat, v: nat)
    requires t.Valid() && t.signed && raw < Pow2(t.width) && BuiltinWidth(v)
    requires Extended(t, raw) && Bit(raw, t.bits - 1)
    ensures SignExtendFixed(t, raw, v) == Value(t, raw) % Pow2(v)
  {
    ExtendedBacking(t, raw);
    SignBitSet(t, raw);
    SignExtendNegative(t, raw, v, Value(t, raw));
  }

  lemma SignExtendNegative(t: IntType, raw: nat, v: nat, val: int)
    requires t.Valid() && raw < Pow2(t.width) && BuiltinWidth(v) && Bit(raw, t.bits - 1)
    requires BackingValue(t, raw) == val && -(Pow2(t.bits - 1) as int) <= val < 0
    ensures SignExtendFixed(t, raw, v) == val % Pow2(v)
  {
    SignExtendFixedSet(t, raw, v);
    if t.bits < v {
      FillExtendedFixed(t, v, val);
    } else {
      assert ExtensionFixed(t, v) == 0;
    }
  }

  lemma FillExtendedFixed(t: IntType, v: nat, val: int)
    requires t.Valid() && BuiltinWidth(v) && t.bits < v
    requires -(Pow2(t.bits - 1) as int) <= val < 0
    ensures Or(ExtensionFixed(t, v), val % Pow2(v)) == val % Pow2(v)
  {
    FillExtended(val, t.bits, v);
  }

  /** An extended backing reads, as a T, as its value. */
  lemma ExtendedBacking(t: IntType, raw: nat)
    requires t.Valid() && raw < Pow2(t.width) && Extended(t, raw)
    ensures BackingValue(t, raw) == Value(t, raw)
  {
    var val := Value(t, raw);
    if t.signed {
      SignedWiden(val, t.bits, t.width);
    } else {
      Pow2Monotone(t.bits, t.width);
    }
    ConvertNarrower(val, t.width, t.width, t.signed);
    ConvertRepresentable(val, t.width, t.signed);
  }

  /**
   * Every conversion to a built-in type no wider than T gives the value,
   * converted as C++ converts integers.
   */
  lemma ConversionIsValue(t: IntType, raw: nat, v: nat)
    requires t.Valid() && raw < Pow2(t.width) && BuiltinWidth(v) && v <= t.width
    requires Masked(t, raw) || Extended(t, raw)
    ensures ToBuiltin(t, raw, v) == Convert(Value(t, raw), v, t.signed)
  {
    ExtensionAgrees(t, v);
    ConversionFixedIsValue(t, raw, v);
  }

  /** With the widened extension, every conversion gives the value. */
  lemma ConversionFixedIsValue(t: IntType, raw: nat, v: nat)
    requires t.Valid() && raw < Pow2(t.width) && BuiltinWidth(v)
    requires Masked(t, raw) || Extended(t, raw)
    ensures ToBuiltinFixed(t, raw, v) == Convert(Value(t, raw), v, t.signed)
  {
    if t.signed {
      SignExtendFixedIsValue(t, raw, v);
    } else {
      Pow2Monotone(t.bits, t.width);
      DivModUnique(raw % Pow2(t.bits), Pow2(t.width), 0, raw % Pow2(t.bits));
      DivModUnique(raw, Pow2(t.bits), 0, raw);
    }
  }

  // ---------------------------------------------------------------------
  // What the operators compute

  /** Congruent operands give congruent exact results. */
  lemma ExactCongruent(op: Op, x: int, x': int, y: int, y': int, m: int)
    requires op == Plus || op == Minus || op == Times
    requires m > 0 && x % m == x' % m && y % m == y' % m
    ensures Exact(op, x, y) % m == Exact(op, x', y') % m
  {
    match op
    case Plus => ModAdd(x, y, m); ModAdd(x', y', m);
    case Minus => ModSub(x, y, m); ModSub(x', y', m);
    case Times => ModMul(x, y, m); ModMul(x', y', m);
  }

  /**
   * `+`, `-` and `*` and their compound forms wrap: whatever the backing,
   * the result stands for the exact result on the left operand's value,
   * reduced modulo 2^bits.
   */
  lemma ArithmeticWraps(t: IntType, op: Op, a: nat, y: int)
    requires t.Valid() && a < Pow2(t.width)
    requires op == Plus || op == Minus || op == Times
    ensures Value(t, Binary(t, op, a, Operand(t, op, y)))
         == Convert(Exact(op, Value(t, a), y), t.bits, t.signed)
  {
    var n, w := t.bits, t.width;
    var b := Operand(t, op, y);
    var r := Binary(t, op, a, b);
    ModPow2Mod(Exact(op, a, b), w, n);
    ModPow2Mod(y, w, n);
    ExactCongruent(op, a, Value(t, a), b, y, Pow2(n));
    DivModUnique(r, Pow2(n), 0, r);
    ConvertCongruent(r, Exact(op, Value(t, a), y), n, t.signed);
  }

  /** Unsigned `/` and `%` on a masked backing are exact. */
  lemma DivisionUnsigned(t: IntType, a: nat, b: nat)
    requires t.Valid() && !t.signed && a < Pow2(t.width) && Masked(t, a) && 0 < b < Pow2(t.width)
    ensures Value(t, Binary(t, Quotient, a, b)) == Value(t, a) / b
    ensures Value(t, Binary(t, Remainder, a, b)) == Value(t, a) % b
  {
    var n, w := t.bits, t.width;
    var q, m := a / b, a % b;
    DivModUnique(a, Pow2(n), 0, a);
    QuotientBelow(a, b);
    MaskedResult(t, q);
    MaskedResult(t, m);
  }

  /** A quotient or remainder of naturals is at most the dividend. */
  lemma QuotientBelow(a: nat, b: nat)
    requires b > 0
    ensures 0 <= a / b <= a && 0 <= a % b <= a
  {
    DivNonneg(a, b);
    if a / b > 0 {
      MulAtLeast(a / b, b);
    }
  }

  /** A small wide result passes the mask unchanged and reads as itself. */
  lemma MaskedResult(t: IntType, x: nat)
    requires t.Valid() && Masked(t, x) && Representable(x, t.bits, t.signed)
    ensures x < Pow2(t.width)
    ensures Reduce(x, Pow2(t.width)) % Pow2(t.bits) == x
    ensures Value(t, x) == x
  {
    Pow2Monotone(t.bits, t.width);
    DivModUnique(x, Pow2(t.width), 0, x);
    DivModUnique(x, Pow2(t.bits), 0, x);
    ConvertRepresentable(x, t.bits, t.signed);
  }

  /** `<<` multiplies the value by 2^k, reduced modulo 2^bits. */
  lemma ShiftLeftValue(t: IntType, a: nat, y: nat)
    requires t.Valid() && a < Pow2(t.width) && y % 256 < t.width
    ensures Value(t, Binary(t, LeftShift, a, Operand(t, LeftShift, y)))
         == Convert(Value(t, a) * Pow2(y % 256), t.bits, t.signed)
  {
    var k := Operand(t, LeftShift, y);
    ShiftedResidue(t, a, k);
    ConvertCongruent(Binary(t, LeftShift, a, k), Value(t, a) * Pow2(k), t.bits, t.signed);
  }

  lemma ShiftedResidue(t: IntType, a: nat, k: nat)
    requires t.Valid() && a < Pow2(t.width) && k < Pow2(t.width) && k < t.width
    ensures Binary(t, LeftShift, a, k) % Pow2(t.bits) == (Value(t, a) * Pow2(k)) % Pow2(t.bits)
  {
    var n := t.bits;
    var r := Wide(t, LeftShift, a, k) % Pow2(n);
    assert Wide(t, LeftShift, a, k) == (a * Pow2(k)) % Pow2(t.width);
    ModPow2Mod(a * Pow2(k), t.width, n);
    ExactCongruent(Times, a, Value(t, a), Pow2(k), Pow2(k), Pow2(n));
    DivModUnique(r, Pow2(n), 0, r);
  }

  /**
   * `>>` on a masked backing is a logical shift: a non-negative value is
   * halved k times.
   */
  lemma ShiftRightValue(t: IntType, a: nat, y: nat)
    requires t.Valid() && a < Pow2(t.width) && Masked(t, a) && y % 256 < t.width
    ensures Value(t, a) >= 0 ==>
      Value(t, Binary(t, RightShift, a, Operand(t, RightShift, y))) == Value(t, a) / Pow2(y % 256)
  {
    var k := Operand(t, RightShift, y);
    if Value(t, a) >= 0 {
      NonNegativeMasked(t, a);
      ShiftedDown(t, a, k);
      MaskedResult(t, a / Pow2(k));
    }
  }

  /** A masked backing with a non-negative value is that value. */
  lemma NonNegativeMasked(t: IntType, a: nat)
    requires t.Valid() && Masked(t, a) && Value(t, a) >= 0
    ensures Value(t, a) == a
  {
    DivModUnique(a, Pow2(t.bits), 0, a);
    DivModUnique(Value(t, a), Pow2(t.bits), 0, Value(t, a));
  }

  /** On a masked backing, `>>` divides the pattern and stays below it. */
  lemma ShiftedDown(t: IntType, a: nat, k: nat)
    requires t.Valid() && a < Pow2(t.width) && Masked(t, a) && k < Pow2(t.width) && k < t.width
    ensures Binary(t, RightShift, a, k) == a / Pow2(k) <= a
  {
    var q := a / Pow2(k);
    QuotientBelow(a, Pow2(k));
    assert Wide(t, RightShift, a, k) == q;
    DivModUnique(q, Pow2(t.bits), 0, q);
  }

  /** `-x` negates the value, modulo 2^bits. */
  lemma NegateValue(t: IntType, raw: nat)
    requires t.Valid() && raw < Pow2(t.width)
    requires !(t.signed && raw == Pow2(t.width - 1))
    ensures Value(t, Negate(t, raw)) == Convert(-Value(t, raw), t.bits, t.signed)
  {
    var n, w := t.bits, t.width;
    var bv := BackingValue(t, raw);
    ModPow2Mod(-bv, w, n);
    ModPow2Mod(bv, w, n);
    ExactCongruent(Minus, 0, 0, bv, Value(t, raw), Pow2(n));
    ConvertCongruent(Negate(t, raw), -Value(t, raw), n, t.signed);
  }

  /** `~x` stands for -1 - x, modulo 2^bits. */
  lemma ComplementValue(t: IntType, raw: nat)
    requires t.Valid() && raw < Pow2(t.width)
    ensures Value(t, Complement(t, raw)) == Convert(-1 - Value(t, raw), t.bits, t.signed)
  {
    var n, w := t.bits, t.width;
    var c := Complement(t, raw);
    var x := -1 - raw;
    Pow2Monotone(n, w);
    assert c == Not(raw, w) % Pow2(n) by {
      AndLowMask(Not(raw, w), n);
    }
    WrapResidue(x, n, w);
    ExactCongruent(Minus, -1, -1, raw, Value(t, raw), Pow2(n));
    assert Exact(Minus, -1, raw) == x;
    DivModUnique(c, Pow2(n), 0, c);
    assert c % Pow2(n) == (-1 - Value(t, raw)) % Pow2(n);
    ConvertCongruent(c, -1 - Value(t, raw), n, t.signed);
  }

  /** `~uint24_t(0xA5)` is 0xFFFF5A and `~int24_t(165)` is -166. */
  lemma ComplementExamples()
    ensures Complement(Uint24, 0xA5) == 0xFF_FF5A
    ensures Value(Int24, Complement(Int24, 165)) == -166
  {
    Pow2Values();
    ComplementValue(Uint24, 0xA5);
    ComplementValue(Int24, 165);
    DivModUnique(0xA5, Pow2(24), 0, 0xA5);
    DivModUnique(165, Pow2(24), 0, 165);
    ConvertRepresentable(-166, 24, true);
    MaskedResult(Uint24, Complement(Uint24, 0xA5));
    DivModUnique(-166, Pow2(24), -1, 0xFF_FF5A);
  }

  /** The bitwise operators, bit by bit. */
  predicate BitOp(op: Op, x: bool, y: bool)
    requires op == BitOr || op == BitAnd || op == BitXor
  {
    match op
    case BitOr => x || y
    case BitAnd => x && y
    case BitXor => x != y
  }

  /**
   * `|`, `&` and `^` combine the two patterns bit by bit below `bits`; every
   * bit from `bits` up is clear.
   */
  lemma BitwiseBits(t: IntType, op: Op, a: nat, b: nat, i: nat)
    requires t.Valid() && a < Pow2(t.width) && b < Pow2(t.width)
    requires op == BitOr || op == BitAnd || op == BitXor
    ensures Bit(Binary(t, op, a, b), i) == (i < t.bits && BitOp(op, Bit(a, i), Bit(b, i)))
  {
    var wide := Wide(t, op, a, b);
    ModPow2Bit(wide, t.bits, i);
    match op
    case BitOr => OrBit(a, b, i);
    case BitAnd => AndBit(a, b, i);
    case BitXor => XorBit(a, b, i);
  }

  // ---------------------------------------------------------------------
  // Limits

  /** The largest value: 2^(bits-1) - 1 signed, 2^bits - 1 unsigned. */
  function MaxValue(t: IntType): (r: int)
    requires t.Valid()
    ensures Representable(r, t.bits, t.signed)
  {
    if t.signed then Pow2(t.bits - 1) - 1 else Pow2(t.bits) - 1
  }

  /** The smallest value: -2^(bits-1) signed, 0 unsigned. */
  function MinValue(t: IntType): (r: int)
    requires t.Valid()
    ensures Representable(r, t.bits, t.signed)
  {
    if t.signed then -(Pow2(t.bits - 1) as int) else 0
  }

  /** Every value lies between the limits. */
  lemma ValueBounds(t: IntType, raw: nat)
    requires t.Valid()
    ensures MinValue(t) <= Value(t, raw) <= MaxValue(t)
  {
    if t.signed {
      assert InSignedRange(Value(t, raw), t.bits);
    }
  }

  /** One past the largest value wraps to the smallest, and back. */
  lemma LimitsAdjacent(t: IntType)
    requires t.Valid()
    ensures Convert(MaxValue(t) + 1, t.bits, t.signed) == MinValue(t)
    ensures Convert(MinValue(t) - 1, t.bits, t.signed) == MaxValue(t)
  {
    var n := t.bits;
    assert Pow2(n) == 2 * Pow2(n - 1);
    assert MaxValue(t) + 1 == MinValue(t) + Pow2(n) * 1;
    ModShift(MinValue(t), 1, Pow2(n));
    ConvertCongruent(MaxValue(t) + 1, MinValue(t), n, t.signed);
    ConvertRepresentable(MinValue(t), n, t.signed);
    assert MinValue(t) - 1 == MaxValue(t) - Pow2(n) * 1;
    ModShiftDown(MaxValue(t), 1, Pow2(n));
    ConvertCongruent(MinValue(t) - 1, MaxValue(t), n, t.signed);
    ConvertRepresentable(MaxValue(t), n, t.signed);
  }

  /** `++` adds one, and the largest value wraps to the smallest. */
  lemma IncrementWraps(t: IntType, raw: nat)
    requires t.Valid() && raw < Pow2(t.width)
    ensures Value(t, Increment(t, raw))
         == if Value(t, raw) == MaxValue(t) then MinValue(t) else Value(t, raw) + 1
  {
    ArithmeticWraps(t, Plus, raw, 1);
    if Value(t, raw) == MaxValue(t) {
      LimitsAdjacent(t);
    } else {
      ValueBounds(t, raw);
      ConvertRepresentable(Value(t, raw) + 1, t.bits, t.signed);
    }
  }

  /** `--` subtracts one, and the smallest value wraps to the largest. */
  lemma DecrementWraps(t: IntType, raw: nat)
    requires t.Valid() && raw < Pow2(t.width)
    ensures Value(t, Decrement(t, raw))
         == if Value(t, raw) == MinValue(t) then MaxValue(t) else Value(t, raw) - 1
  {
    ArithmeticWraps(t, Minus, raw, 1);
    if Value(t, raw) == MinValue(t) {
      LimitsAdjacent(t);
    } else {
      ValueBounds(t, raw);
      ConvertRepresentable(Value(t, raw) - 1, t.bits, t.signed);
    }
  }

  /**
   * `_max<T>()`: `v_type((vu_type(1U) << (bits - 1U)) - 1U)` for signed T,
   * `~T(0U)` for unsigned T.
   */
  function MaxRaw(t: IntType): (r: nat)
    requires t.Valid()
    ensures r < Pow2(t.width)
  {
    if t.signed then
      ShiftPow2(0, t.bits - 1, t.width);
      Cast(t, ShiftLeft(1, t.bits - 1, t.width) - 1)
    else
      Pow2Monotone(t.bits, t.width);
      Complement(t, Cast(t, 0))
  }

  /** `_min<T>()`: `-_max<T>() - 1` for signed T, `T(0U)` for unsigned T. */
  function MinRaw(t: IntType): (r: nat)
    requires t.Valid()
    ensures r < Pow2(t.width)
  {
    if t.signed then
      MaxRawSigned(t);
      Binary(t, Minus, Negate(t, MaxRaw(t)), Operand(t, Minus, 1))
    else Cast(t, 0)
  }

  lemma MaxRawSigned(t: IntType)
    requires t.Valid() && t.signed
    ensures MaxRaw(t) == Pow2(t.bits - 1) - 1 < Pow2(t.width - 1)
  {
    var n, w := t.bits, t.width;
    var m: nat := Pow2(n - 1) - 1;
    Pow2Monotone(n - 1, w - 1);
    Pow2Monotone(w - 1, w);
    assert Pow2(0) == 1;
    ShiftPow2(0, n - 1, w);
    assert ShiftLeft(1, n - 1, w) - 1 == m;
    DivModUnique(m, Pow2(w), 0, m);
    assert MaxRaw(t) == m;
  }

  /**
   * `numeric_limits<intN_t>::max()` and `min()` stand for the largest and
   * smallest values, and are masked backings.
   */
  lemma Limits(t: IntType)
    requires t.Valid()
    ensures Masked(t, MaxRaw(t)) && Value(t, MaxRaw(t)) == MaxValue(t)
    ensures Masked(t, MinRaw(t)) && Value(t, MinRaw(t)) == MinValue(t)
  {
    if t.signed {
      LimitsSigned(t);
    } else {
      LimitsUnsigned(t);
    }
  }

  lemma LimitsSigned(t: IntType)
    requires t.Valid() && t.signed
    ensures Masked(t, MaxRaw(t)) && Value(t, MaxRaw(t)) == MaxValue(t)
    ensures Masked(t, MinRaw(t)) && Value(t, MinRaw(t)) == MinValue(t)
  {
    var n := t.bits;
    MaxRawSigned(t);
    MaxSigned(t);
    var ng := Negate(t, MaxRaw(t));
    assert MinRaw(t) == Binary(t, Minus, ng, Operand(t, Minus, 1));
    NegateValue(t, MaxRaw(t));
    ConvertRepresentable(-MaxValue(t), n, true);
    assert Value(t, ng) == -MaxValue(t);
    ArithmeticWraps(t, Minus, ng, 1);
    assert Exact(Minus, Value(t, ng), 1) == MinValue(t);
    ConvertRepresentable(MinValue(t), n, true);
  }

  lemma MaxSigned(t: IntType)
    requires t.Valid() && t.signed
    ensures Masked(t, MaxRaw(t)) && Value(t, MaxRaw(t)) == MaxValue(t)
  {
    var m := Pow2(t.bits - 1) - 1;
    MaxRawSigned(t);
    Pow2Monotone(t.bits - 1, t.bits);
    assert Representable(m, t.bits, true);
    MaskedResult(t, m);
  }

  lemma LimitsUnsigned(t: IntType)
    requires t.Valid() && !t.signed
    ensures Masked(t, MaxRaw(t)) && Value(t, MaxRaw(t)) == MaxValue(t)
    ensures Masked(t, MinRaw(t)) && Value(t, MinRaw(t)) == MinValue(t)
  {
    var n := t.bits;
    Pow2Monotone(n, t.width);
    DivModUnique(0, Pow2(t.width), 0, 0);
    MaskedResult(t, 0);
    ComplementValue(t, 0);
    DivModUnique(-1, Pow2(n), -1, Pow2(n) - 1);
    ConvertCongruent(-1, MaxValue(t), n, false);
    ConvertRepresentable(MaxValue(t), n, false);
  }

  // ---------------------------------------------------------------------
  // Comparison

  datatype Ordering = Less | Equal | Greater

  function Compare(x: int, y: int): Ordering
  {
    if x < y then Less else if x > y then Greater else Equal
  }

  /**
   * `x <=> rhs` for a built-in rhs: `sign_extend<T>()` for signed T (the
   * conversion to T), the backing for unsigned T, against `static_cast<T>(rhs)`.
   */
  function CompareInt(t: IntType, raw: nat, rhs: int): (r: Ordering)
    requires t.Valid() && raw < Pow2(t.width)
    ensures Masked(t, raw) || Extended(t, raw) ==> r == Compare(Value(t, raw), Convert(rhs, t.width, t.signed))
  {
    OperandIsValue(t, raw);
    Compare(ToBuiltin(t, raw, t.width), Convert(rhs, t.width, t.signed))
  }

  /** `x == rhs` for a built-in rhs, compared the same way. */
  function EqualsInt(t: IntType, raw: nat, rhs: int): (b: bool)
    requires t.Valid() && raw < Pow2(t.width)
    ensures Masked(t, raw) || Extended(t, raw) ==> (b <==> Value(t, raw) == Convert(rhs, t.width, t.signed))
  {
    OperandIsValue(t, raw);
    ToBuiltin(t, raw, t.width) == Convert(rhs, t.width, t.signed)
  }

  /** A value of a narrower type is a value of T. */
  lemma ValueFitsBacking(t: IntType, raw: nat)
    requires t.Valid()
    ensures Convert(Value(t, raw), t.width, t.signed) == Value(t, raw)
  {
    if t.signed {
      SignedWiden(Value(t, raw), t.bits, t.width);
    } else {
      Pow2Monotone(t.bits, t.width);
    }
    ConvertRepresentable(Value(t, raw), t.width, t.signed);
  }

  /**
   * On a masked or extended backing, the built-in integer `<=>` and `==`
   * read is the value, which `static_cast<T>` leaves alone.
   */
  lemma OperandIsValue(t: IntType, raw: nat)
    requires t.Valid() && raw < Pow2(t.width)
    ensures Masked(t, raw) || Extended(t, raw) ==>
      ToBuiltin(t, raw, t.width) == Value(t, raw) == Convert(Value(t, raw), t.width, t.signed)
  {
    if Masked(t, raw) || Extended(t, raw) {
      ConversionIsValue(t, raw, t.width);
      ValueFitsBacking(t, raw);
    }
  }

  /** The comparisons the tests make, on backings assigned -1 and 10. */
  lemma CompareIntExamples()
    ensures var a := Cast(Int24, -1);
      EqualsInt(Int24, a, -1) && !EqualsInt(Int24, a, 0)
      && CompareInt(Int24, a, 1) == Less && CompareInt(Int24, a, -2) == Greater
    ensures var b := Cast(Uint24, 10);
      EqualsInt(Uint24, b, 10) && !EqualsInt(Uint24, b, 5)
      && CompareInt(Uint24, b, 5) == Greater && CompareInt(Uint24, b, 20) == Less
  {
    Pow2Values();
    var a := Cast(Int24, -1);
    var b := Cast(Uint24, 10);
    ConstructedIsExtended(Int24, -1);
    ConstructedIsExtended(Uint24, 10);
    ConvertRepresentable(-2, 32, true);
    ConvertRepresentable(-1, 32, true);
  }

  /**
   * Construction from a value that fits `bits` bits gives an extended
   * backing standing for that value.
   */
  lemma ConstructedIsExtended(t: IntType, x: int)
    requires t.Valid() && Representable(x, t.bits, t.signed)
    ensures Extended(t, Cast(t, x)) && Value(t, Cast(t, x)) == x
  {
    var n, w := t.bits, t.width;
    if t.signed {
      SignedWiden(x, n, w);
    } else {
      Pow2Monotone(n, w);
    }
    ConvertNarrower(x, w, n, t.signed);
    ConvertRepresentable(x, n, t.signed);
  }

  /** `x <=> y` between two intN_t as written: the backings, read as T. */
  function CompareN(t: IntType, raw: nat, s: IntType, rhsRaw: nat): (r: Ordering)
    requires t.Valid() && raw < Pow2(t.width) && s.Valid() && rhsRaw < Pow2(s.width)
    ensures s == t && Extended(t, raw) && Extended(t, rhsRaw) ==> r == Compare(Value(t, raw), Value(t, rhsRaw))
  {
    ExtendedOperands(t, raw, s, rhsRaw);
    Compare(BackingValue(t, raw), Convert(BackingValue(s, rhsRaw), t.width, t.signed))
  }

  /** `x == y` between two intN_t as written: the backings, read as T. */
  function EqualsN(t: IntType, raw: nat, s: IntType, rhsRaw: nat): (b: bool)
    requires t.Valid() && raw < Pow2(t.width) && s.Valid() && rhsRaw < Pow2(s.width)
    ensures s == t && Extended(t, raw) && Extended(t, rhsRaw) ==> (b <==> Value(t, raw) == Value(t, rhsRaw))
  {
    ExtendedOperands(t, raw, s, rhsRaw);
    BackingValue(t, raw) == Convert(BackingValue(s, rhsRaw), t.width, t.signed)
  }

  /**
   * `int24_t{0} - 1` and `int24_t{-1}` both stand for -1, yet `<=>` ranks the
   * first above `int24_t{0}` and `==` tells the two apart.
   */
  lemma CompareNFinding()
    ensures var m1 := Binary(Int24, Minus, Cast(Int24, 0), Operand(Int24, Minus, 1));
      var e1 := Cast(Int24, -1);
      var zero := Cast(Int24, 0);
      m1 == 0xFF_FFFF && e1 == 0xFFFF_FFFF && zero == 0
      && Value(Int24, m1) == -1 && Value(Int24, e1) == -1 && Value(Int24, zero) == 0
      && CompareN(Int24, m1, Int24, zero) == Greater
      && !EqualsN(Int24, m1, Int24, e1)
  {
    Pow2Values();
    var zero := Cast(Int24, 0);
    DivModUnique(0, Pow2(32), 0, 0);
    ArithmeticWraps(Int24, Minus, zero, 1);
    ConstructedIsExtended(Int24, 0);
    ConstructedIsExtended(Int24, -1);
    DivModUnique(-1, Pow2(32), -1, 0xFFFF_FFFF);
    var m1 := Binary(Int24, Minus, zero, Operand(Int24, Minus, 1));
    DivModUnique(-1, Pow2(24), -1, 0xFF_FFFF);
    ConvertRepresentable(-1, 24, true);
    assert Value(Int24, m1) == -1;
    DivModUnique(m1, Pow2(24), 0, m1);
    assert m1 == 0xFF_FFFF;
    ConvertRepresentable(0xFF_FFFF, 32, true);
    ConvertRepresentable(0, 32, true);
  }

  /** `<=>` between two intN_t comparing the right-hand value converted to T. */
  function CompareNFixed(t: IntType, raw: nat, s: IntType, rhsRaw: nat): Ordering
    requires t.Valid() && raw < Pow2(t.width) && s.Valid() && rhsRaw < Pow2(s.width)
  {
    CompareInt(t, raw, ToBuiltin(s, rhsRaw, s.width))
  }

  /** `==` between two intN_t comparing the right-hand value converted to T. */
  predicate EqualsNFixed(t: IntType, raw: nat, s: IntType, rhsRaw: nat)
    requires t.Valid() && raw < Pow2(t.width) && s.Valid() && rhsRaw < Pow2(s.width)
  {
    EqualsInt(t, raw, ToBuiltin(s, rhsRaw, s.width))
  }

  /**
   * The corrected comparisons compare values: the right-hand value is
   * converted to T as C++ converts integers, and two intN_t of one type
   * compare as their values do.
   */
  lemma CompareNFixedIsValue(t: IntType, raw: nat, s: IntType, rhsRaw: nat)
    requires t.Valid() && raw < Pow2(t.width) && (Masked(t, raw) || Extended(t, raw))
    requires s.Valid() && rhsRaw < Pow2(s.width) && (Masked(s, rhsRaw) || Extended(s, rhsRaw))
    ensures CompareNFixed(t, raw, s, rhsRaw)
         == Compare(Value(t, raw), Convert(Value(s, rhsRaw), t.width, t.signed))
    ensures EqualsNFixed(t, raw, s, rhsRaw)
        <==> Value(t, raw) == Convert(Value(s, rhsRaw), t.width, t.signed)
    ensures s == t ==> CompareNFixed(t, raw, s, rhsRaw) == Compare(Value(t, raw), Value(s, rhsRaw))
  {
    ConversionIsValue(s, rhsRaw, s.width);
    ValueFitsBacking(s, rhsRaw);
    if s == t {
      ValueFitsBacking(t, rhsRaw);
    }
  }

  /** Two extended backings of the same T are read as their values. */
  lemma ExtendedOperands(t: IntType, raw: nat, s: IntType, rhsRaw: nat)
    requires t.Valid() && raw < Pow2(t.width) && s.Valid() && rhsRaw < Pow2(s.width)
    ensures s == t && Extended(t, raw) && Extended(t, rhsRaw) ==>
      BackingValue(t, raw) == Value(t, raw)
      && Convert(BackingValue(s, rhsRaw), t.width, t.signed) == Value(t, rhsRaw)
  {
    if s == t && Extended(t, raw) && Extended(t, rhsRaw) {
      ExtendedBacking(t, raw);
      ExtendedBacking(t, rhsRaw);
      ValueFitsBacking(t, rhsRaw);
    }
  }

  // ---------------------------------------------------------------------
  // Conversion to a type wider than T

  /**
   * `int24_t{0} - 1` stands for -1, but its conversion to `int64_t` is
   * 4294967295: the extension stops at bit 32.
   */
  lemma ConversionFinding()
    ensures Masked(Int24, 0xFF_FFFF) && Value(Int24, 0xFF_FFFF) == -1
    ensures ToBuiltin(Int24, 0xFF_FFFF, 64) == 0xFFFF_FFFF
    ensures ToBuiltinFixed(Int24, 0xFF_FFFF, 64) == -1
  {
    Pow2Values();
    var raw := 0xFF_FFFF;
    DivModUnique(-1, Pow2(24), -1, raw);
    ConvertRepresentable(-1, 24, true);
    ConversionFixedIsValue(Int24, raw, 64);
    ConvertRepresentable(-1, 64, true);
    ExtensionStops(Int24, 64);
    ConvertRepresentable(raw, 32, true);
    DivModUnique(raw, Pow2(64), 0, raw);
    assert Bit(raw, 23) by {
      TopBit(raw, 23);
    }
    assert 0xFF * Pow2(24) == 0xFF00_0000;
    OrShifted(raw, 0xFF, 24);
    DivModUnique(0xFFFF_FFFF, Pow2(64), 0, 0xFFFF_FFFF);
    assert SignExtend(Int24, raw, 64) == 0xFFFF_FFFF;
  }

  /**
   * A backing built by construction or assignment converts to its value at
   * every width, the ones wider than T included.
   */
  lemma ConversionExtendedIsValue(t: IntType, raw: nat, v: nat)
    requires t.Valid() && raw < Pow2(t.width) && BuiltinWidth(v) && Extended(t, raw)
    ensures ToBuiltin(t, raw, v) == Convert(Value(t, raw), v, t.signed)
  {
    if v <= t.width {
      ConversionIsValue(t, raw, v);
    } else {
      ConversionFixedIsValue(t, raw, v);
      if t.signed && Bit(raw, t.bits - 1) {
        ExtensionAbsorbed(t, raw, v);
      }
    }
  }

  /** On a negative extended backing the shorter extension fills nothing new. */
  lemma ExtensionAbsorbed(t: IntType, raw: nat, v: nat)
    requires t.Valid() && t.signed && raw < Pow2(t.width) && BuiltinWidth(v) && t.width < v
    requires Extended(t, raw) && Bit(raw, t.bits - 1)
    ensures SignExtend(t, raw, v) == SignExtendFixed(t, raw, v)
  {
    var val := Value(t, raw);
    var low := BackingValue(t, raw) % Pow2(v);
    ExtendedBacking(t, raw);
    SignBitSet(t, raw);
    SignExtendFixedSet(t, raw, v);
    FillExtendedFixed(t, v, val);
    forall i: nat | i < v && Bit(Extension(t, v), i)
      ensures Bit(ExtensionFixed(t, v), i)
    {
      ExtensionBit(t, v, i);
      ExtensionFixedBit(t, v, i);
    }
    OrAbsorb(Extension(t, v), ExtensionFixed(t, v), low, v);
    assert SignExtend(t, raw, v) == Or(Extension(t, v), low);
  }

  // ---------------------------------------------------------------------
  // Digits

  /**
   * `_sign_correction<T>()`: 1 when `T(-1) < T(0)`, compared as two intN_t,
   * else 0.
   */
  function SignCorrection(t: IntType): (r: nat)
    requires t.Valid()
    ensures r == if t.signed then 1 else 0
  {
    Pow2Monotone(t.bits, t.width);
    CorrectionCompares(t);
    if CompareN(t, Cast(t, -1), t, Cast(t, 0)) == Less then 1 else 0
  }

  lemma CorrectionCompares(t: IntType)
    requires t.Valid()
    ensures CompareN(t, Cast(t, -1), t, Cast(t, 0)) == Less <==> t.signed
  {
    Pow2Monotone(t.bits, t.width);
    var m1, z := Cast(t, -1), Cast(t, 0);
    DivModUnique(0, Pow2(t.width), 0, 0);
    DivModUnique(-1, Pow2(t.width), -1, Pow2(t.width) - 1);
    assert BackingValue(t, z) == 0 by {
      ConvertRepresentable(0, t.width, t.signed);
    }
    if t.signed {
      ConvertRepresentable(-1, t.width, true);
    } else {
      ConvertRepresentable(Pow2(t.width) - 1, t.width, false);
    }
    ConvertRepresentable(0, t.width, t.signed);
  }

  /** `_digits<T>()`: the value bits, `bits` less the sign bit. */
  function Digits(t: IntType): (r: nat)
    requires t.Valid()
    ensures r == if t.signed then t.bits - 1 else t.bits
  {
    t.bits - SignCorrection(t)
  }

  /**
   * `_digits10<T>()`: `digits * 643 / 2136 + 1`, with 643/2136 standing for
   * log10(2); so between 3/10 and 1/3 of the value bits, plus one.
   */
  function Digits10(t: IntType): (r: nat)
    requires t.Valid()
    ensures Digits(t) * 3 / 10 + 1 <= r <= Digits(t) / 3 + 1
  {
    Digits(t) * 643 / 2136 + 1
  }

  /** The limits are spanned by `digits` value bits. */
  lemma DigitsSpanLimits(t: IntType)
    requires t.Valid()
    ensures MaxValue(t) == Pow2(Digits(t)) - 1
    ensures MinValue(t) == if t.signed then -(Pow2(Digits(t)) as int) else 0
  {
  }

  /** The number of decimal digits of x. */
  function DecimalLength(x: nat): (r: nat)
    ensures r >= 1
  {
    if x < 10 then 1 else 1 + DecimalLength(x / 10)
  }

  function Pow10(n: nat): (r: nat)
    ensures r >= 1
  {
    if n == 0 then 1 else 10 * Pow10(n - 1)
  }

  /** A number has d decimal digits exactly when it lies in [10^(d-1), 10^d). */
  lemma {:induction false} DecimalLengthOf(x: nat, d: nat)
    requires d >= 1 && Pow10(d - 1) <= x < Pow10(d)
    ensures DecimalLength(x) == d
  {
    if d > 1 {
      var p := Pow10(d - 2);
      DivModUnique(x, 10, x / 10, x % 10);
      assert p <= x / 10 < 10 * p;
      DecimalLengthOf(x / 10, d - 1);
    }
  }

  lemma Pow10Values()
    ensures Pow10(6) == 1000000 && Pow10(7) == 10000000 && Pow10(8) == 100000000
    ensures Pow10(11) == 100000000000 && Pow10(12) == 1000000000000 && Pow10(13) == 10000000000000
    ensures Pow10(14) == 100000000000000 && Pow10(15) == 1000000000000000
    ensures Pow10(16) == 10000000000000000 && Pow10(17) == 100000000000000000
  {
  }

  /** The powers of two the limits of the aliases need. */
  lemma Pow2OfAliases()
    ensures Pow2(23) == 8388608 && Pow2(24) == 16777216
    ensures Pow2(39) == 549755813888 && Pow2(40) == 1099511627776
    ensures Pow2(47) == 140737488355328 && Pow2(48) == 281474976710656
    ensures Pow2(49) == 562949953421312 && Pow2(50) == 1125899906842624
    ensures Pow2(55) == 36028797018963968 && Pow2(56) == 72057594037927936
  {
    Pow2Values();
    Pow2Add(16, 7);
    Pow2Add(32, 7);
    Pow2Add(40, 7);
    Pow2Add(48, 1);
    Pow2Add(48, 2);
    Pow2Add(48, 7);
  }

  /*
   * For the ten aliases `digits10` is the decimal length of the largest
   * value: int24 7, uint24 8, int40 12, uint40 13, int48 and uint48 15,
   * int50 15, uint50 16, int56 and uint56 17.
   */

  lemma Digits10OfInt24()
    ensures Digits(Int24) == 23 && Digits10(Int24) == 7 == DecimalLength(MaxValue(Int24))
  {
    Pow2OfAliases();
    Pow10Values();
    DecimalLengthOf(MaxValue(Int24), 7);
  }

  lemma Digits10OfUint24()
    ensures Digits(Uint24) == 24 && Digits10(Uint24) == 8 == DecimalLength(MaxValue(Uint24))
  {
    Pow2OfAliases();
    Pow10Values();
    DecimalLengthOf(MaxValue(Uint24), 8);
  }

  lemma Digits10OfInt40()
    ensures Digits(Int40) == 39 && Digits10(Int40) == 12 == DecimalLength(MaxValue(Int40))
  {
    Pow2OfAliases();
    Pow10Values();
    DecimalLengthOf(MaxValue(Int40), 12);
  }

  lemma Digits10OfUint40()
    ensures Digits(Uint40) == 40 && Digits10(Uint40) == 13 == DecimalLength(MaxValue(Uint40))
  {
    Pow2OfAliases();
    Pow10Values();
    DecimalLengthOf(MaxValue(Uint40), 13);
  }

  lemma Digits10OfInt48()
    ensures Digits(Int48) == 47 && Digits10(Int48) == 15 == DecimalLength(MaxValue(Int48))
  {
    Pow2OfAliases();
    Pow10Values();
    DecimalLengthOf(MaxValue(Int48), 15);
  }

  lemma Digits10OfUint48()
    ensures Digits(Uint48) == 48 && Digits10(Uint48) == 15 == DecimalLength(MaxValue(Uint48))
  {
    Pow2OfAliases();
    Pow10Values();
    DecimalLengthOf(MaxValue(Uint48), 15);
  }

  lemma Digits10OfInt50()
    ensures Digits(Int50) == 49 && Digits10(Int50) == 15 == DecimalLength(MaxValue(Int50))
  {
    Pow2OfAliases();
    Pow10Values();
    DecimalLengthOf(MaxValue(Int50), 15);
  }

  lemma Digits10OfUint50()
    ensures Digits(Uint50) == 50 && Digits10(Uint50) == 16 == DecimalLength(MaxValue(Uint50))
  {
    Pow2OfAliases();
    Pow10Values();
    DecimalLengthOf(MaxValue(Uint50), 16);
  }

  lemma Digits10OfInt56()
    ensures Digits(Int56) == 55 && Digits10(Int56) == 17 == DecimalLength(MaxValue(Int56))
  {
    Pow2OfAliases();
    Pow10Values();
    DecimalLengthOf(MaxValue(Int56), 17);
  }

  lemma Digits10OfUint56()
    ensures Digits(Uint56) == 56 && Digits10(Uint56) == 17 == DecimalLength(MaxValue(Uint56))
  {
    Pow2OfAliases();
    Pow10Values();
    DecimalLengthOf(MaxValue(Uint56), 17);
  }

  /** `numeric_limits<int24_t>` and `<uint24_t>`: max, min as the tests give them. */
  lemma LimitsOfInt24()
    ensures MaxValue(Int24) == 8388607 && MinValue(Int24) == -8388608
    ensures MaxValue(Uint24) == 16777215 && MinValue(Uint24) == 0
  {
    Pow2OfAliases();
  }

  // ---------------------------------------------------------------------
  // The object

  /** An `intN_t` object: its type is fixed, its backing changes in place. */
  class IntN {
    const kind: IntType
    var backing: nat

    predicate Valid()
      reads this
    {
      kind.Valid() && backing < Pow2(kind.width)
    }

    /** `_ty a{}`: value-initialisation zeroes the backing. */
    constructor Zero(t: IntType)
      requires t.Valid()
      ensures Valid() && kind == t && backing == 0 && Value(t, backing) == 0
    {
      kind := t;
      backing := 0;
      new;
      DivModUnique(0, Pow2(t.bits), 0, 0);
    }

    /** `intN_t(value)`: `static_cast<T>(value)`, not masked. */
    constructor FromInt(t: IntType, x: int)
      requires t.Valid()
      ensures Valid() && kind == t && backing == Cast(t, x)
      ensures Representable(x, t.bits, t.signed) ==> Extended(t, backing) && Value(t, backing) == x
    {
      kind := t;
      backing := Cast(t, x);
      new;
      if Representable(x, t.bits, t.signed) {
        ConstructedIsExtended(t, x);
      }
    }

    /** `intN_t(intN_t<U, bits> value)`: `static_cast<T>(value._backing)`. */
    constructor FromIntN(t: IntType, other: IntN)
      requires t.Valid() && other.Valid()
      ensures Valid() && kind == t && backing == Cast(t, BackingValue(other.kind, other.backing))
    {
      kind := t;
      backing := Cast(t, BackingValue(other.kind, other.backing));
    }

    /** `operator=(U value)`: `_backing = static_cast<T>(value)`. */
    method Assign(x: int)
      requires Valid()
      modifies this
      ensures Valid() && backing == Cast(kind, x)
      ensures Representable(x, kind.bits, kind.signed) ==> Extended(kind, backing) && Value(kind, backing) == x
    {
      backing := Cast(kind, x);
      if Representable(x, kind.bits, kind.signed) {
        ConstructedIsExtended(kind, x);
      }
    }

    /** `operator=(intN_t<U, bits> value)`: `_backing = static_cast<T>(value._backing)`. */
    method AssignN(other: IntN)
      requires Valid() && other.Valid()
      modifies this
      ensures Valid() && backing == Cast(kind, BackingValue(other.kind, old(other.backing)))
    {
      backing := Cast(kind, BackingValue(other.kind, other.backing));
    }

    /**
     * A compound assignment `x OP= rhs` with a built-in rhs: the backing
     * becomes the masked result; `+=`, `-=` and `*=` wrap.
     */
    method Apply(op: Op, rhs: int)
      requires Valid() && Defined(kind, op, Operand(kind, op, rhs))
      requires op.IsShift() ==> rhs >= 0
      modifies this
      ensures Valid() && Masked(kind, backing)
      ensures backing == Binary(kind, op, old(backing), Operand(kind, op, rhs))
      ensures op == Plus || op == Minus || op == Times ==>
        Value(kind, backing) == Convert(Exact(op, Value(kind, old(backing)), rhs), kind.bits, kind.signed)
    {
      if op == Plus || op == Minus || op == Times {
        ArithmeticWraps(kind, op, backing, rhs);
      }
      backing := Binary(kind, op, backing, Operand(kind, op, rhs));
      Pow2Monotone(kind.bits, kind.width);
    }

    /**
     * `x OP= y` with an intN_t y: y enters with its backing read as its own T.
     * `y` may be `x` itself; its backing is read before the store. The
     * shifts take only a built-in count, so they have no such form.
     */
    method ApplyN(op: Op, other: IntN)
      requires Valid() && other.Valid() && !op.IsShift()
      requires Defined(kind, op, Operand(kind, op, BackingValue(other.kind, other.backing)))
      modifies this
      ensures Valid() && Masked(kind, backing)
      ensures backing == Binary(kind, op, old(backing),
                                Operand(kind, op, BackingValue(other.kind, old(other.backing))))
    {
      var rhs := BackingValue(other.kind, other.backing);
      backing := Binary(kind, op, backing, Operand(kind, op, rhs));
      Pow2Monotone(kind.bits, kind.width);
    }

    /** `++x`: one more, the largest value wrapping to the smallest. */
    method PreIncrement()
      requires Valid()
      modifies this
      ensures Valid() && backing == Increment(kind, old(backing))
      ensures Value(kind, backing)
           == if Value(kind, old(backing)) == MaxValue(kind) then MinValue(kind)
              else Value(kind, old(backing)) + 1
    {
      IncrementWraps(kind, backing);
      backing := Increment(kind, backing);
      Pow2Monotone(kind.bits, kind.width);
    }

    /** `x++`: as `++x`, returning the backing from before. */
    method PostIncrement() returns (previous: nat)
      requires Valid()
      modifies this
      ensures previous == old(backing)
      ensures Valid() && backing == Increment(kind, old(backing))
      ensures Value(kind, backing)
           == if Value(kind, previous) == MaxValue(kind) then MinValue(kind)
              else Value(kind, previous) + 1
    {
      previous := backing;
      PreIncrement();
    }

    /** `--x`: one less, the smallest value wrapping to the largest. */
    method PreDecrement()
      requires Valid()
      modifies this
      ensures Valid() && backing == Decrement(kind, old(backing))
      ensures Value(kind, backing)
           == if Value(kind, old(backing)) == MinValue(kind) then MaxValue(kind)
              else Value(kind, old(backing)) - 1
    {
      DecrementWraps(kind, backing);
      backing := Decrement(kind, backing);
      Pow2Monotone(kind.bits, kind.width);
    }

    /** `x--`: as `--x`, returning the backing from before. */
    method PostDecrement() returns (previous: nat)
      requires Valid()
      modifies this
      ensures previous == old(backing)
      ensures Valid() && backing == Decrement(kind, old(backing))
      ensures Value(kind, backing)
           == if Value(kind, previous) == MinValue(kind) then MaxValue(kind)
              else Value(kind, previous) - 1
    {
      previous := backing;
      PreDecrement();
    }
  }

  /** The tests' `++` and `--` on int24_t and uint24_t at the limits. */
  lemma IncrementDecrementExamples()
    ensures Value(Int24, Increment(Int24, Cast(Int24, 8388607))) == -8388608
    ensures Value(Int24, Decrement(Int24, Cast(Int24, -8388608))) == 8388607
    ensures Value(Uint24, Increment(Uint24, Cast(Uint24, 16777215))) == 0
    ensures Value(Uint24, Decrement(Uint24, Cast(Uint24, 0))) == 16777215
  {
    LimitsOfInt24();
    ConstructedIsExtended(Int24, 8388607);
    ConstructedIsExtended(Int24, -8388608);
    ConstructedIsExtended(Uint24, 16777215);
    ConstructedIsExtended(Uint24, 0);
    IncrementWraps(Int24, Cast(Int24, 8388607));
    DecrementWraps(Int24, Cast(Int24, -8388608));
    IncrementWraps(Uint24, Cast(Uint24, 16777215));
    DecrementWraps(Uint24, Cast(Uint24, 0));
  }
}
