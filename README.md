# Panko utilities in Dafny

This project models the low-level utilities of Panko, a packet capture
library: the byte, integer and text helpers its decoders are built on, plus
the script that generates its `linktype_t` enumeration. There is one module
per source file:

- `Leb128` (`leb128.dfy`): the signed and unsigned LEB128 encoders and
  decoders of section 7.6 of DWARF Version 5. They are written as loops over
  a 64-bit carrier and proved against the reference encoding, with both
  round trips.
- `Integers` (`integers.dfy`): the odd-width `intN_t<T, bits>`. A value is
  its backing word under `computed_mask`. The model covers sign extension,
  the conversion operators, arithmetic, bitwise, shift and compound
  operators, `++`/`--`, `<=>`/`==`, and the `_digits`/`_digits10`/`_max`/`_min`
  limits. The mutating operators are methods of a class over `_backing`.
- `Bitfields` (`bitfield.dfy`): the masks of `bits_t`,
  and `bitfield_t` with `get`/`set`/`clr`/`tgl`, construction and equality.
  The lemmas say that only the field's bits change.
- `ByteArrays` (`bytearray.dfy`): the `from_bytes_be`/`from_bytes_le` folds,
  and the `bytearray_t` view over shared storage. The view has its
  constructors, `slice`, `index`, `at` and `next`.
- `Io` (`io.dfy`): the endian helpers of `io_t`
  (`read_le`/`read_be`/`write_le`/`write_be` and their signed forms), the
  `read`/`write` result rules, and `seek_rel`/`head`/`tail`. They work over
  an in-memory stream that stands in for the raw file.
- `Compressed` (`compressed.dfy`): the five compressed-file wrappers. It
  covers their `MAGIC_MASK`/`MAGIC_VALUE` tests, their stub I/O and their
  move operations.
- `Files` (`files.dfy`): `open`, which reads the header, rewinds, and
  classifies the file by magic.
- `Sys` (`sys.dfy`): `getenv`, `get_home` and `expand_user`, over an
  environment given as a map.
- `Units` (`units.dfy`): the IEC and SI size literals, which wrap modulo
  2^64, and `unix_epoch`.
- `ErrCodes` (`errcodes.dfy`): the three error enumerations and their
  message lookups.
- `LinktypeText` and `LinktypeGen` (`linktype_text.dfy`, `linktype_gen.dfy`):
  `gen_linktype_table.py`. `LinktypeText` covers the Python string
  operations it relies on. `LinktypeGen` covers the record pipeline of
  `main`, `generate_enum` and `generate_strs`, with the printed lines as a
  sequence.

Two modules hold no model of their own:

- `Bits` (`bits.dfy`): powers of two and bitwise operations on naturals,
  characterised bit by bit.
- `Wrappers` (`wrappers.dfy`): `Option` and `Result`.

Integers are unbounded in Dafny, so every fixed width of the source is
written out as a reduction modulo a power of two.

## Model

| member | source | states |
|---|---|---|
| Leb128.UnsignedEncodingShape | src/panko/support/leb128.hh:52-61 | the unsigned encoding sets 0x80 on every byte but the last, and its last group is zero only when it is the only byte (minimal length) |
| Leb128.SignedEncodingShape | src/panko/support/leb128.hh:25-37 | the signed encoding sets 0x80 on every byte but the last, and bit 6 of the last byte is the sign of the value |
| Leb128.PayloadSnoc | src/panko/support/leb128.hh:101-104 | one more byte adds its low 7 bits above the groups already gathered |
| Leb128.UnsignedPayload | src/panko/support/leb128.hh:42-65 | the groups of the unsigned encoding spell the value back |
| Leb128.UnsignedLength | src/panko/support/leb128.hh:42-65 | a value below 2^(7n) is encoded in at most n bytes |
| Leb128.SignedPayload | src/panko/support/leb128.hh:16-40 | the n groups of the signed encoding hold the value modulo 2^(7n), and the value fits in 7n signed bits |
| Leb128.SignedLength | src/panko/support/leb128.hh:16-40 | a value representable in 7n signed bits is encoded in at most n bytes |
| Leb128.UnsignedRoundTrip | src/panko/support/leb128.hh:42-107 | decoding the unsigned encoding of any value of an unsigned T gives it back, and the encoding fits the decoder's carrier |
| Leb128.SignedRoundTrip | src/panko/support/leb128.hh:16-89 | decoding the signed encoding of any value of a signed T gives it back, and the encoding fits the decoder's carrier |
| Leb128.SignedValue | src/panko/support/leb128.hh:67-89 | a signed decode always yields a value in T's range |
| Leb128.EncodeUnsigned | src/panko/support/leb128.hh:42-65 | the do/while loop emits exactly the unsigned encoding of the value |
| Leb128.UnsignedStep | src/panko/support/leb128.hh:53-60 | one round of the unsigned loop emits the first byte of the encoding and continues exactly when the shifted value is non-zero |
| Leb128.EncodeSigned | src/panko/support/leb128.hh:16-40 | the `has_more` loop emits exactly the signed encoding of the value |
| Leb128.SignedStep | src/panko/support/leb128.hh:27-36 | one round of the signed loop stops exactly when the rest is the sign extension of bit 6, emits the first byte of the encoding, and the arithmetic shift moves toward 0 or -1 |
| Leb128.CarrierGroup | src/panko/support/leb128.hh:27 | masking the promoted two's-complement value with 0x7F gives its low group, and testing 0x40 tests that group's top bit |
| Leb128.LowGroup | src/panko/support/leb128.hh:53 | `num & 0x7F` is num modulo 128 |
| Leb128.ContinuationBit | src/panko/support/leb128.hh:33 | setting 0x80 on a 7-bit group adds 128 |
| Leb128.GatherGroups | src/panko/support/leb128.hh:74-80 | the accumulation loop leaves the payload of all groups (reduced to the carrier width) and a shift of 7 per byte |
| Leb128.DecodeUnsigned | src/panko/support/leb128.hh:91-107 | the unsigned decode is the payload truncated to T's width |
| Leb128.DecodeSigned | src/panko/support/leb128.hh:67-89 | the signed decode is the payload sign-extended from its last bit when shorter than T, else truncated to T |
| Leb128.ExtendSign | src/panko/support/leb128.hh:82-87 | the sign-extension loop makes the T-wide value equal, as two's complement, to the payload read as a (shift+1)-bit signed number |
| Leb128.NarrowPayload | src/panko/support/leb128.hh:82 | when fewer bits were read than T has, the gathered value is the untruncated payload |
| Leb128.UnextendedValue | src/panko/support/leb128.hh:82-88 | when no sign extension happens, the result is the payload truncated to T |
| Leb128.SignExtended | src/panko/support/leb128.hh:84-86 | when the loop ends, every bit from shift up to T's width repeats the sign bit |
| Leb128.SignExtendStep | src/panko/support/leb128.hh:85 | one round copies the sign bit one place higher |
| Leb128.NegativeEncodingVectors | tests/support/leb128.cc:54-73 | the signed encodings of -5, -32568 and -21574836 are the bytes the test suite expects |
| Leb128.PositiveEncodingVectors | tests/support/leb128.cc:82-101 | the signed encodings of 18, 25535 and 114848627 are the bytes the test suite expects |
| Leb128.UnsignedEncodingVectors | tests/support/leb128.cc:110-129 | the unsigned encodings of 29, 46637 and 327899725 are the bytes the test suite expects |
| Leb128.SignedDecodingVectors | tests/support/leb128.cc:138-143 | decoding 0x49 as int8_t gives -55 |
| Leb128.SignedDecodingPadded | tests/support/leb128.cc:166-171 | decoding 0xEE 0x00 as int8_t gives 110 |
| Leb128.SignedDecodingExtends | tests/support/leb128.cc:145-150 | decoding 0xCE 0xCD 0x7E as int16_t gives -22834 |
| Leb128.SignedDecodingTruncates | tests/support/leb128.cc:173-178 | decoding 0xB3 0xF7 0x01 as int16_t gives 31667 |
| Leb128.UnsignedDecodingVectors | tests/support/leb128.cc:194-199 | decoding 0xF0 0x01 as uint8_t gives 240 |
| Leb128.UnsignedDecodingWide | tests/support/leb128.cc:201-206 | decoding 0x95 0xA9 0x03 as uint16_t gives 54421 |
| Integers.Convert | src/panko/core/integers.hh:51 | converting an integer to a v-bit type gives the one representable value congruent to it modulo 2^v |
| Integers.ConvertRepresentable | src/panko/core/integers.hh:51 | a value the target type can hold converts to itself |
| Integers.ConvertCongruent | src/panko/core/integers.hh:51 | values congruent modulo 2^v convert alike |
| Integers.ComputedMask | src/panko/core/integers.hh:26 | `computed_mask` is the mask of the low `bits` bits |
| Integers.Cast | src/panko/core/integers.hh:49-52 | the stored bit pattern fits T, and a value T can hold reads back unchanged |
| Integers.BackingValue | src/panko/core/integers.hh:28 | a T bit pattern read as T is representable in T and congruent to the pattern |
| Integers.Value | src/panko/core/integers.hh:20-28 | the value an intN_t stands for is representable in `bits` bits and congruent to its backing's low `bits` bits |
| Integers.Operand | src/panko/core/integers.hh:128-134 | the right operand as the operator sees it fits T's unsigned type, and a shift count goes through `uint8_t` |
| Integers.Binary | src/panko/core/integers.hh:120-453 | every binary operator yields a masked backing: the wide result reduced to the low `bits` bits |
| Integers.Negate | src/panko/core/integers.hh:177-180 | unary minus negates the backing without masking it; the result still fits T |
| Integers.Complement | src/panko/core/integers.hh:455-459 | `~` yields a masked backing |
| Integers.Increment | src/panko/core/integers.hh:461-477 | `++` yields a masked backing |
| Integers.Decrement | src/panko/core/integers.hh:479-495 | `--` yields a masked backing |
| Integers.LogicalNot | src/panko/core/integers.hh:557-561 | on a backing from an operator or from construction, `!x` holds exactly when the value is zero |
| Integers.LogicalOr | src/panko/core/integers.hh:563-579 | on such a backing, logical or holds exactly when the value or the right operand is nonzero |
| Integers.LogicalAnd | src/panko/core/integers.hh:581-597 | on such a backing, logical and holds exactly when the value and the right operand are both nonzero |
| Integers.Extension | src/panko/core/integers.hh:39 | the sign fill as written fits the target type |
| Integers.ExtensionFixed | src/panko/core/integers.hh:38-39 | the intended sign fill (ones from `bits` up to the target width) fits the target type |
| Integers.SignExtend | src/panko/core/integers.hh:30-44 | `sign_extend<U>()` as written yields a U bit pattern |
| Integers.SignExtendFixed | src/panko/core/integers.hh:30-44 | `sign_extend<U>()` with the widened fill yields a U bit pattern |
| Integers.ToBuiltin | src/panko/core/integers.hh:71-117 | the conversion operators as written yield a value representable in the target type |
| Integers.ToBuiltinFixed | src/panko/core/integers.hh:71-117 | the conversion operators with the widened fill yield a value representable in the target type |
| Integers.ExtensionBit | src/panko/core/integers.hh:39 | bit i of the fill as written is set exactly from `bits` up to T's width |
| Integers.ExtensionAgrees | src/panko/core/integers.hh:39 | for every target no wider than T, the fill as written equals the intended one |
| Integers.ExtensionFixedBit | src/panko/core/integers.hh:38 | bit i of the intended fill is set exactly from `bits` up to the target width |
| Integers.ExtensionStops | src/panko/core/integers.hh:39 | for a target wider than T the fill as written stops at T's width |
| Integers.SignBitClear | src/panko/core/integers.hh:33-34 | with the sign bit clear, a masked or constructed backing is its own non-negative value |
| Integers.SignBitSet | src/panko/core/integers.hh:33-34 | with the sign bit set, a signed intN_t stands for a negative value |
| Integers.SignExtendFixedIsValue | src/panko/core/integers.hh:30-44 | the widened sign extension gives the value's bit pattern at every target width |
| Integers.MaskedBacking | src/panko/core/integers.hh:123-125 | a masked signed backing read as T is itself |
| Integers.ExtendedBacking | src/panko/core/integers.hh:49-52 | a backing built by construction or assignment read as T is its value |
| Integers.ConversionIsValue | src/panko/core/integers.hh:71-117 | every conversion to a built-in type no wider than T gives the value, converted as C++ converts integers |
| Integers.ConversionFixedIsValue | src/panko/core/integers.hh:71-117 | with the widened fill, every conversion gives the converted value |
| Integers.ConversionExtendedIsValue | src/panko/core/integers.hh:71-117 | a backing built by construction or assignment converts to its value at every width, wider than T included |
| Integers.ExtensionAbsorbed | src/panko/core/integers.hh:39-40 | on a negative constructed backing the fill as written and the widened one give the same pattern |
| Integers.ConversionFinding | src/panko/core/integers.hh:107-111 | `int24_t{0} - 1` stands for -1, yet its `int64_t` conversion as written is 4294967295; the widened fill gives -1 |
| Integers.ExactCongruent | src/panko/core/integers.hh:120-235 | congruent operands give congruent sums, differences and products |
| Integers.ArithmeticWraps | src/panko/core/integers.hh:120-235 | `+`, `-`, `*` (and the compound forms) give the exact result on the value, wrapped into `bits` bits, whatever the backing |
| Integers.DivisionUnsigned | src/panko/core/integers.hh:237-307 | unsigned `/` and `%` on a masked backing are exact |
| Integers.MaskedResult | src/panko/core/integers.hh:123-125 | a small wide result passes the mask unchanged and reads as itself |
| Integers.ShiftLeftValue | src/panko/core/integers.hh:309-326 | `<<` multiplies the value by 2^k (k the count modulo 256), wrapped into `bits` bits |
| Integers.ShiftRightValue | src/panko/core/integers.hh:328-345 | `>>` on a non-negative masked value divides it by 2^k |
| Integers.ShiftedDown | src/panko/core/integers.hh:332-334 | `>>` on a masked backing is the backing divided by 2^k and no larger |
| Integers.NegateValue | src/panko/core/integers.hh:177-180 | unary minus negates the value modulo 2^bits |
| Integers.ComplementValue | src/panko/core/integers.hh:455-459 | `~x` stands for -1 - x modulo 2^bits |
| Integers.ComplementExamples | tests/core/integers.cc:282-303 | `~int24_t(165)` is -166 and `~uint24_t(0xA5)` is 0xFFFF5A |
| Integers.BitwiseBits | src/panko/core/integers.hh:347-453 | or, and and xor combine the two patterns bit by bit below `bits`, and every bit from `bits` up is clear |
| Integers.MaxValue | src/panko/core/integers.hh:643-653 | the largest value is representable in `bits` bits |
| Integers.MinValue | src/panko/core/integers.hh:655-663 | the smallest value is representable in `bits` bits |
| Integers.ValueBounds | src/panko/core/integers.hh:643-663 | every value lies between the smallest and the largest |
| Integers.LimitsAdjacent | src/panko/core/integers.hh:643-663 | one past the largest value converts to the smallest, and one before the smallest to the largest |
| Integers.IncrementWraps | src/panko/core/integers.hh:461-477 | `++` adds one, and the largest value wraps to the smallest |
| Integers.DecrementWraps | src/panko/core/integers.hh:479-495 | `--` subtracts one, and the smallest value wraps to the largest |
| Integers.MaxRaw | src/panko/core/integers.hh:643-653 | the backing of `_max<T>()` fits T |
| Integers.MinRaw | src/panko/core/integers.hh:655-663 | the backing of `_min<T>()` fits T |
| Integers.MaxRawSigned | src/panko/core/integers.hh:648-649 | the signed maximum's backing is 2^(bits-1) - 1 |
| Integers.Limits | src/panko/core/integers.hh:643-663 | `max()` and `min()` are masked backings standing for the largest and smallest values |
| Integers.ValueFitsBacking | src/panko/core/integers.hh:28 | an intN_t value converts to T unchanged |
| Integers.CompareInt | src/panko/core/integers.hh:512-532 | against a built-in integer, `<=>` on a masked or constructed backing orders the value against the right operand converted to T |
| Integers.EqualsInt | src/panko/core/integers.hh:541-548 | against a built-in integer, `==` on a masked or constructed backing holds exactly when the value equals the right operand converted to T |
| Integers.CompareIntExamples | tests/core/integers.cc:348-376 | the comparisons the test suite makes on an `int24_t` assigned -1 and a `uint24_t` assigned 10 come out as it expects |
| Integers.ConstructedIsExtended | src/panko/core/integers.hh:49-52 | constructing from a value that fits `bits` bits stands for that value |
| Integers.CompareNFinding | src/panko/core/integers.hh:497-539 | `int24_t{0} - 1` and `int24_t{-1}` both stand for -1, yet `<=>` ranks the first above `int24_t{0}` and `==` tells the two apart |
| Integers.CompareNFixedIsValue | src/panko/core/integers.hh:497-539 | the corrected intN_t comparisons compare the left value with the right value converted to T, and two intN_t of one type compare as their values |
| Integers.CompareN | src/panko/core/integers.hh:497-512 | between two constructed `intN_t` of one type, `<=>` as written orders their values |
| Integers.EqualsN | src/panko/core/integers.hh:534-540 | between two constructed `intN_t` of one type, `==` as written holds exactly when their values are equal |
| Integers.SignCorrection | src/panko/core/integers.hh:624-628 | `_sign_correction<T>()` is 1 exactly for signed T |
| Integers.CorrectionCompares | src/panko/core/integers.hh:627 | `T(-1) < T(0)`, compared as two intN_t, holds exactly for signed T |
| Integers.Digits | src/panko/core/integers.hh:630-634 | `_digits<T>()` is the bit count less one for signed T and the bit count for unsigned T |
| Integers.Digits10 | src/panko/core/integers.hh:636-641 | `_digits10<T>()` lies between 3/10 and 1/3 of the value bits, plus one |
| Integers.DigitsSpanLimits | src/panko/core/integers.hh:630-634 | `digits` value bits span exactly the limits |
| Integers.DecimalLengthOf | src/panko/core/integers.hh:636-641 | a number has d decimal digits exactly when it lies in [10^(d-1), 10^d) |
| Integers.Digits10OfInt24 | src/panko/core/integers.hh:636-641 | for int24_t, `digits` is 23 and `digits10` is 7, the decimal length of its maximum |
| Integers.Digits10OfUint24 | src/panko/core/integers.hh:636-641 | for uint24_t, `digits` is 24 and `digits10` is 8, the decimal length of its maximum |
| Integers.Digits10OfInt40 | tests/core/integers.cc:392 | for int40_t, `digits10` is 12, the decimal length of its maximum |
| Integers.Digits10OfUint40 | tests/core/integers.cc:425 | for uint40_t, `digits10` is 13, the decimal length of its maximum |
| Integers.Digits10OfInt48 | tests/core/integers.cc:736 | for int48_t, `digits10` is 15, the decimal length of its maximum |
| Integers.Digits10OfUint48 | tests/core/integers.cc:769 | for uint48_t, `digits10` is 15, the decimal length of its maximum |
| Integers.Digits10OfInt50 | tests/core/integers.cc:1080 | for int50_t, `digits10` is 15, the decimal length of its maximum |
| Integers.Digits10OfUint50 | tests/core/integers.cc:1113 | for uint50_t, `digits10` is 16, the decimal length of its maximum |
| Integers.Digits10OfInt56 | tests/core/integers.cc:1424 | for int56_t, `digits10` is 17, the decimal length of its maximum |
| Integers.Digits10OfUint56 | tests/core/integers.cc:1457 | for uint56_t, `digits10` is 17, the decimal length of its maximum |
| Integers.LimitsOfInt24 | tests/core/integers.cc:57-92 | int24_t spans -8388608..8388607 and uint24_t 0..16777215 |
| Integers.IntN.Zero | src/panko/core/integers.hh:47 | a value-initialised intN_t has a zero backing and stands for 0 |
| Integers.IntN.FromInt | src/panko/core/integers.hh:49-52 | the backing is the value cast to T, and a value that fits stands for itself |
| Integers.IntN.FromIntN | src/panko/core/integers.hh:54-57 | the backing is the other's backing, read as its T, cast to this T |
| Integers.IntN.Assign | src/panko/core/integers.hh:59-63 | the backing becomes the value cast to T, and a value that fits stands for itself |
| Integers.IntN.AssignN | src/panko/core/integers.hh:65-69 | the backing becomes the other's backing cast to T |
| Integers.IntN.Apply | src/panko/core/integers.hh:141-453 | a compound assignment with a built-in operand stores the masked result; `+=`, `-=`, `*=` wrap the exact result |
| Integers.IntN.ApplyN | src/panko/core/integers.hh:141-453 | a compound assignment with an intN_t operand (every operator but the shifts, which take only a built-in count) stores the masked result, the operand read before the store |
| Integers.IntN.PreIncrement | src/panko/core/integers.hh:461-468 | the value goes up by one, the largest wrapping to the smallest |
| Integers.IntN.PostIncrement | src/panko/core/integers.hh:470-477 | as `++x`, returning the backing from before |
| Integers.IntN.PreDecrement | src/panko/core/integers.hh:479-486 | the value goes down by one, the smallest wrapping to the largest |
| Integers.IntN.PostDecrement | src/panko/core/integers.hh:488-495 | as `--x`, returning the backing from before |
| Integers.IncrementDecrementExamples | tests/core/integers.cc:222-264 | `++` at the maximum and `--` at the minimum of int24_t and uint24_t wrap as the test suite expects |
| Bitfields.Size | src/panko/core/bitfield.hh:21-28 | a field spans at least one bit, from `lsb` up to `msb` |
| Bitfields.OneBit | src/panko/core/bitfield.hh:30-31 | `bit_t<idx>` is a valid one-bit field at `idx` |
| Bitfields.Mask | src/panko/core/bitfield.hh:110 | `computed_mask` is 2^(msb+1) - 2^lsb and fits the word |
| Bitfields.MaskValue | src/panko/core/bitfield.hh:110 | the mask expression, evaluated with shifts on the promoted carrier, is exactly the bits lsb to msb |
| Bitfields.MaskBit | src/panko/core/bitfield.hh:110 | bit i of the mask is set exactly inside the field |
| Bitfields.GetField | src/panko/core/bitfield.hh:102-113 | `get<key>()` returns a value that fits in the field's size |
| Bitfields.SetFieldBit | src/panko/core/bitfield.hh:115-126 | `set<key>()` on a one-bit field keeps the word in range |
| Bitfields.SetField | src/panko/core/bitfield.hh:128-137 | `set<key>(value)` keeps the word in range |
| Bitfields.ClearField | src/panko/core/bitfield.hh:140-150 | `clr<key>()` keeps the word in range |
| Bitfields.ResultWidth | src/panko/core/bitfield.hh:47-58 | `smallest_type_for<size>` is at least as wide as the field |
| Bitfields.Complemented | src/panko/core/bitfield.hh:166 | `~get<key>()` handed back to `set` fits T's word |
| Bitfields.ToggleField | src/panko/core/bitfield.hh:152-168 | `tgl<key>()` keeps the word in range |
| Bitfields.GetIsField | src/panko/core/bitfield.hh:112 | `get` is the word's bits lsb to msb moved down to bit 0 |
| Bitfields.GetBit | src/panko/core/bitfield.hh:112 | bit j of what `get` returns is bit lsb + j of the word, for j below the size, and clear above |
| Bitfields.SetValueBit | src/panko/core/bitfield.hh:136 | bit i after `set(value)` is the value's bit i - lsb inside the field and the word's bit outside |
| Bitfields.SetBitBit | src/panko/core/bitfield.hh:125 | bit i after `set()` is set inside the field and unchanged outside |
| Bitfields.ClearBit | src/panko/core/bitfield.hh:149 | bit i after `clr()` is clear inside the field and unchanged outside |
| Bitfields.ComplementedBit | src/panko/core/bitfield.hh:166 | every bit of the complement below the field's size is flipped, despite the promotion to `int` |
| Bitfields.ToggleBit | src/panko/core/bitfield.hh:152-168 | bit i after `tgl()` is flipped inside the field and unchanged outside, for both branches |
| Bitfields.FieldDetermines | src/panko/core/bitfield.hh:76 | a word is determined by one field and the bits outside it |
| Bitfields.SameOutside | src/panko/core/bitfield.hh:76 | two words agree outside a field when all their bits outside it agree |
| Bitfields.SetValueGets | src/panko/core/bitfield.hh:128-137 | after `set(value)` the field reads the value's low `size` bits and nothing outside the field changed |
| Bitfields.SetBitGets | src/panko/core/bitfield.hh:115-126 | after `set()` a one-bit field reads 1 and nothing outside it changed |
| Bitfields.ClearGets | src/panko/core/bitfield.hh:140-150 | after `clr()` the field reads 0 and nothing outside it changed |
| Bitfields.ToggleGets | src/panko/core/bitfield.hh:152-168 | after `tgl()` the field reads its complement within its size and nothing outside it changed |
| Bitfields.OtherFieldKept | src/panko/core/bitfield.hh:102-168 | a change made only inside one field leaves every disjoint field reading as before |
| Bitfields.ToggleTwice | src/panko/core/bitfield.hh:152-168 | toggling twice restores the word |
| Bitfields.SetBitIdempotent | src/panko/core/bitfield.hh:115-126 | `set()` twice is `set()` once |
| Bitfields.ClearIdempotent | src/panko/core/bitfield.hh:140-150 | `clr()` twice is `clr()` once |
| Bitfields.SetValueOverwrites | src/panko/core/bitfield.hh:128-137 | a second `set(value)` overwrites the first |
| Bitfields.SetValueOfGet | src/panko/core/bitfield.hh:104-137 | storing back what `get` read leaves the word unchanged |
| Bitfields.EqualsFinding | src/panko/core/bitfield.hh:185-188 | an 8-bit signed bitfield assigned -1 holds 0xFF, and `== -1` as written is false; compared after conversion it is true |
| Bitfields.AssignedEqualsConverted | src/panko/core/bitfield.hh:97-100 | any value assigned compares equal to itself once converted to the backing type |
| Bitfields.ZeroFields | src/panko/core/bitfield.hh:82 | every field of the zero word reads 0 |
| Bitfields.ValueRoundTrip | src/panko/core/bitfield.hh:86-88 | a T stored in the unsigned backing reads back as the same T |
| Bitfields.Bitfield.Get | src/panko/core/bitfield.hh:102-113 | the field read from the object fits the field's size |
| Bitfields.Bitfield.constructor | src/panko/core/bitfield.hh:82 | a value-initialised bitfield has a zero word and every field reads 0 |
| Bitfields.Bitfield.Copy | src/panko/core/bitfield.hh:83-85 | the copy has the other's layout and word |
| Bitfields.Bitfield.FromValue | src/panko/core/bitfield.hh:86-88 | the word is the value converted to the unsigned type, and it reads back as the value |
| Bitfields.Bitfield.Assign | src/panko/core/bitfield.hh:90-95 | the word becomes the other's word; self-assignment changes nothing |
| Bitfields.Bitfield.AssignValue | src/panko/core/bitfield.hh:97-100 | the word becomes the converted value, which reads back as the value |
| Bitfields.Bitfield.Set | src/panko/core/bitfield.hh:115-126 | the one-bit field reads 1 and every disjoint field keeps its value |
| Bitfields.Bitfield.SetValue | src/panko/core/bitfield.hh:128-137 | the field reads the value's low bits and every disjoint field keeps its value |
| Bitfields.Bitfield.Clr | src/panko/core/bitfield.hh:140-150 | the field reads 0 and every disjoint field keeps its value |
| Bitfields.Bitfield.Tgl | src/panko/core/bitfield.hh:152-168 | the field reads its complement and every disjoint field keeps its value |
| Bitfields.Bitfield.AsValue | src/panko/core/bitfield.hh:170-173 | `operator T()` gives the T whose bit pattern is the word |
| Bitfields.Bitfield.Equals | src/panko/core/bitfield.hh:175-178 | two bitfields of one T compare equal exactly when they read as the same T |
| Bitfields.Bitfield.EqualsValue | src/panko/core/bitfield.hh:185-188 | `== value` as written holds only when the value converted to the backing type is the word, and for T of 32 bits or more exactly then |
| ByteArrays.Reverse | src/panko/core/bytearray.hh:160-224 | byte i of the reversed array is byte n-1-i of the original (the order `from_bytes_le` reads in) |
| ByteArrays.ReverseTwice | src/panko/core/bytearray.hh:160-224 | reversing the bytes twice gives them back, so the big- and little-endian readers are each other's mirror |
| ByteArrays.FromBytesBe | src/panko/core/bytearray.hh:75-138 | the shift-and-OR expression for 1 to 8 bytes is the big-endian value Σ data[i]·256^(n-1-i), below 2^(8n) |
| ByteArrays.FromBytesLe | src/panko/core/bytearray.hh:160-224 | the shift-and-OR expression for 1 to 8 bytes is the little-endian value Σ data[i]·256^i, below 2^(8n) |
| ByteArrays.ByteShifted | src/panko/core/bytearray.hh:78 | a byte shifted up on the 64-bit promoted carrier loses nothing |
| ByteArrays.BigEndianFront | src/panko/core/bytearray.hh:75-138 | in big-endian order the first byte weighs 2^(8(n-1)) |
| ByteArrays.LittleEndianBack | src/panko/core/bytearray.hh:160-224 | in little-endian order the last byte weighs 2^(8(n-1)) |
| ByteArrays.LittleOfReverse | src/panko/core/bytearray.hh:75-224 | the little-endian value of the reversed bytes is the big-endian value of the bytes |
| ByteArrays.FromBytesReversed | src/panko/core/bytearray.hh:75-224 | `from_bytes_le` of the reversed array equals `from_bytes_be` of the array |
| ByteArrays.Decode | src/panko/core/bytearray.hh:82-137 | the final `static_cast<T>` gives the T congruent to the folded value |
| ByteArrays.TypeSize | src/panko/core/bytearray.hh:552-559 | the number of bytes `at` reads holds T's bits and wastes less than a byte |
| ByteArrays.SliceGuardFinding | src/panko/core/bytearray.hh:524-528 | the guard admits `end == length`, for which the inclusive slice needs one byte more than the view has |
| ByteArrays.SliceInsideAdmitted | src/panko/core/bytearray.hh:524 | the corrected guard admits only what the written one admits, and differs from it only at `end == length` |
| ByteArrays.ByteArray.Bytes | src/panko/core/bytearray.hh:47 | the view has exactly `length` bytes |
| ByteArrays.ByteArray.NonEmpty | src/panko/core/bytearray.hh:485-487 | `valid()` holds exactly when the view holds at least one byte |
| ByteArrays.ByteArray.Empty | src/panko/core/bytearray.hh:268 | a default-constructed view has length 0 and offset 0, and is not valid |
| ByteArrays.ByteArray.Sized | src/panko/core/bytearray.hh:280-286 | a sized view owns fresh zeroed storage of that length, offset 0, and is valid exactly when the size is positive |
| ByteArrays.ByteArray.Over | src/panko/core/bytearray.hh:295-374 | a view over a caller's buffer shares it: its bytes are the buffer's, nothing copied |
| ByteArrays.ByteArray.Subslice | src/panko/core/bytearray.hh:256-265 | the sub-slice view shares the parent's storage at the given span and records its offset |
| ByteArrays.ByteArray.Slice | src/panko/core/bytearray.hh:510-529 | out of range exactly when the inclusive range is not inside the view; otherwise a view sharing storage, of length end-start+1, offset start, whose bytes are the parent's bytes start..end |
| ByteArrays.ByteArray.Index | src/panko/core/bytearray.hh:51-73 | always fails with out_of_range; when the bytes lie inside the view they are zeroed in the storage and only `data[0]` is written (with 0) |
| ByteArrays.ByteArray.At | src/panko/core/bytearray.hh:549-569 | always fails with out_of_range, zeroing the bytes it would have read when they lie inside the view |
| ByteArrays.ByteArray.Next | src/panko/core/bytearray.hh:586-603 | always fails with out_of_range and the cursor does not move; when the value would lie inside the view, `at` has first zeroed those bytes of the storage, and otherwise the storage is unchanged |
| ByteArrays.ByteArray.IndexFixed | src/panko/core/bytearray.hh:64-73 | succeeds exactly when the bytes lie inside the view, copying them into `data`; otherwise fails and leaves `data` alone |
| ByteArrays.ByteArray.AtFixed | src/panko/core/bytearray.hh:549-569 | succeeds exactly when the bytes lie inside the view, giving their decoded value in the requested byte order |
| ByteArrays.ByteArray.NextFixed | src/panko/core/bytearray.hh:586-603 | reads at the cursor and moves it past what was read; on failure the cursor stays |
| Io.Zeros | src/panko/support/io/io.hh:117 | the zero-initialised local array: n bytes, all 0 |
| Io.Overwrite | src/panko/support/io/io.hh:58 | a write at an offset replaces exactly the written range, keeps the bytes before and after it, and a gap past the old end reads as zeros |
| Io.LittleEndianBytes | src/panko/support/io/io.hh:269-302 | `write_le`'s array has one byte per byte of the width |
| Io.BigEndianBytes | src/panko/support/io/io.hh:314-347 | `write_be`'s array has one byte per byte of the width |
| Io.LittleEndianTail | src/panko/support/io/io.hh:271-274 | the first byte of `write_le`'s array is the value's low byte, and the rest is `value >> 8` written one byte shorter |
| Io.LittleEndianRoundTrip | src/panko/support/io/io.hh:115-153 | the little-endian value of `write_le`'s array is the value modulo 2^(8n) |
| Io.LittleEndianBytesOfValue | src/panko/support/io/io.hh:115-153 | writing the little-endian value of n bytes gives the same n bytes back |
| Io.BigEndianIsReversed | src/panko/support/io/io.hh:269-347 | `write_be`'s array is `write_le`'s reversed |
| Io.BigEndianRoundTrip | src/panko/support/io/io.hh:167-205 | the big-endian value of `write_be`'s array is the value modulo 2^(8n) |
| Io.BigEndianBytesOfValue | src/panko/support/io/io.hh:167-205 | writing the big-endian value of n bytes gives the same n bytes back |
| Io.Stream.constructor | src/panko/support/io/io.hh:21-22 | a stream starts at position 0 over the given contents |
| Io.Stream.Tell | src/panko/support/io/io.hh:40-41 | `tell()` is -1 exactly on a stream that is not open, else the position |
| Io.Stream.Length | src/panko/support/io/io.hh:42-43 | `length()` is -1 exactly on a stream that is not open, else the size of the contents |
| Io.Stream.Available | src/panko/support/io/io.hh:60 | a read gets all n bytes unless it reaches the end of the contents, and never reads past it |
| Io.Stream.Fetched | src/panko/support/io/io.hh:60 | the bytes a read gets are the contents from the position on, as many as are available |
| Io.Stream.Seek | src/panko/support/io/io.hh:30-31 | `seek(offset, whence)` moves to the target and returns it, or returns -1 and stays when closed or the target is negative |
| Io.Stream.ReadRaw | src/panko/support/io/io.hh:59-60 | the primitive read returns -1 when closed; else the bytes available land at the front of the buffer, the rest of the buffer is kept, and the position advances by the count returned |
| Io.Stream.WriteRaw | src/panko/support/io/io.hh:57-58 | the primitive write returns -1 when closed; else overwrites at the position and advances past the bytes |
| Io.Stream.SeekRel | src/panko/support/io/io.hh:32-39 | `seek_rel` succeeds exactly when the position is known and the target is not negative, and then moves by the offset; otherwise nothing moves |
| Io.Stream.Head | src/panko/support/io/io.hh:44-47 | `head()` succeeds exactly on an open stream and moves to 0 |
| Io.Stream.Tail | src/panko/support/io/io.hh:48-55 | `tail()` succeeds exactly on an open stream and moves to the end |
| Io.Stream.ReadCounted | src/panko/support/io/io.hh:62-70 | a failed primitive gives false with `res_len` untouched; otherwise `res_len` is the count read and the result is true exactly when it equals the length |
| Io.Stream.Read | src/panko/support/io/io.hh:72-106 | `read(value, len)` is true exactly when the whole buffer was filled; the buffer holds what was read |
| Io.Stream.ReadLe | src/panko/support/io/io.hh:115-153 | true exactly when n bytes were read; the value is assembled least significant first from what was read, zero-padded, even when the read fell short |
| Io.Stream.ReadBe | src/panko/support/io/io.hh:167-205 | true exactly when n bytes were read; the value is assembled most significant first from what was read, zero-padded, even when the read fell short |
| Io.Stream.ReadLeSigned | src/panko/support/io/io.hh:155-165 | the signed read is the unsigned little-endian read reinterpreted in two's complement |
| Io.Stream.ReadBeSigned | src/panko/support/io/io.hh:207-217 | the signed read is the unsigned big-endian read reinterpreted in two's complement |
| Io.Stream.Write | src/panko/support/io/io.hh:219-226 | `write(value, len)` is true exactly when every byte was written, and the bytes land at the position |
| Io.Stream.WriteLe | src/panko/support/io/io.hh:269-302 | the value's bytes land at the position least significant first |
| Io.Stream.WriteBe | src/panko/support/io/io.hh:314-347 | the value's bytes land at the position most significant first |
| Io.Stream.WriteLeSigned | src/panko/support/io/io.hh:304-312 | a signed value is written as its two's-complement pattern, least significant first |
| Io.Stream.WriteBeSigned | src/panko/support/io/io.hh:349-357 | a signed value is written as its two's-complement pattern, most significant first |
| Io.ReadBackLe | tests/support/io/raw_file.cc:135-217 | the n bytes `write_le` put down, read little-endian, are the value |
| Io.ReadBackBe | tests/support/io/raw_file.cc:135-217 | the n bytes `write_be` put down, read big-endian, are the value |
| Io.ReadBackLeSigned | tests/support/io/raw_file.cc:135-217 | a signed value written little-endian and read back as the signed type is the same value |
| Io.ReadBackBeSigned | tests/support/io/raw_file.cc:135-217 | a signed value written big-endian and read back as the signed type is the same value |
| Io.WriteThenReadLe | src/panko/support/io/io.hh:32-39 | writing a word, stepping back with `seek_rel` and reading it again gives the word back |
| Compressed.MagicBytes | src/panko/support/io/compressed/gzip_file.hh:17-18 | each format's magic is between one and eight leading bytes of the file |
| Compressed.Low | src/panko/support/io/compressed/gzip_file.hh:17 | the mask ignores 64 less eight bits per magic byte at the bottom of the word |
| Compressed.MaskShape | src/panko/support/io/compressed/bz2_file.hh:17 | every `MAGIC_MASK` is the top bits of the word, down to the last magic byte |
| Compressed.ValueShape | src/panko/support/io/compressed/bz2_file.hh:18 | every `MAGIC_VALUE` is the format's magic bytes, most significant first, placed at the top of the word |
| Compressed.MagicShape | src/panko/support/io/compressed/xz_file.hh:17-18 | mask and value together: the top bits, and the magic bytes placed there |
| Compressed.AndHighMask | src/panko/support/io/compressed/gzip_file.hh:21-23 | masking with the top bits clears exactly the bits below them |
| Compressed.BigEndianConcat | src/panko/support/io/io.hh:167-205 | the big-endian value of two byte runs joined is the first scaled past the second plus the second |
| Compressed.BigEndianInjective | src/panko/support/io/io.hh:167-205 | two byte runs of one length with the same big-endian value are the same bytes |
| Compressed.MagicOfHeader | src/panko/support/file.cc:60-61 | `valid_magic` of the first eight bytes read big-endian holds exactly when those bytes start with the format's magic |
| Compressed.MaskedTop | src/panko/support/io/compressed/gzip_file.hh:21-23 | a word passes a top-bits mask with a given value exactly when its top part equals that value |
| Compressed.ValidMagicIff | src/panko/support/io/compressed/lz4_file.hh:21-23 | for every 64-bit word, `valid_magic` holds exactly when the word's bytes, most significant first, start with the magic bytes |
| Compressed.LowBitsIgnored | src/panko/support/io/compressed/lzma_file.hh:21-23 | two words that agree above the mask pass or fail `valid_magic` together |
| Compressed.PlacedValue | src/panko/support/io/compressed/gzip_file.hh:18 | a value placed at the top of the word fits 64 bits and is unchanged by the mask |
| Compressed.MagicValueValid | src/panko/support/io/compressed/xz_file.hh:17-23 | each `MAGIC_VALUE` fits 64 bits and lies inside its `MAGIC_MASK`, so it passes its own test |
| Compressed.MagicMask | src/panko/support/io/compressed/gzip_file.hh:17 | every format's `MAGIC_MASK` is a 64-bit word that takes in the top bit, the first byte's |
| Compressed.MagicValue | src/panko/support/io/compressed/bz2_file.hh:18 | every format's `MAGIC_VALUE` is a 64-bit word no greater than its mask |
| Compressed.ValidMagic | src/panko/support/io/compressed/bz2_file.hh:21-23 | a word passes `valid_magic` only if it is at least the format's `MAGIC_VALUE`, since masking never increases a word |
| Compressed.AtMostOneFormat | src/panko/support/file.cc:73-92 | no 64-bit word passes two of the five magics |
| Compressed.CompressedFile.constructor | src/panko/support/io/compressed/gzip_file.hh:28-29 | the wrapper takes over the raw file it is given |
| Compressed.CompressedFile.Empty | src/panko/support/io/compressed/gzip_file.hh:25-27 | the default wrapper holds a fresh default raw file, which is not open |
| Compressed.CompressedFile.Moved | src/panko/support/io/compressed/gzip_file.hh:32-34 | the moved-to wrapper holds the other's raw file, and the other is left with a fresh default one |
| Compressed.CompressedFile.MoveAssign | src/panko/support/io/compressed/gzip_file.hh:37-40 | move assignment exchanges the two wrappers' raw files |
| Compressed.CompressedFile.Seek | src/panko/support/io/compressed/gzip_file.hh:57-61 | the `seek` stub returns 0 whatever it is asked |
| Compressed.CompressedFile.Tell | src/panko/support/io/compressed/gzip_file.hh:63-66 | the `tell` stub returns 0 |
| Compressed.CompressedFile.Length | src/panko/support/io/compressed/gzip_file.hh:68-71 | the `length` stub returns 0 |
| Compressed.CompressedFile.ReadRaw | src/panko/support/io/compressed/gzip_file.hh:79-83 | the read primitive reports 0 bytes read |
| Compressed.CompressedFile.WriteRaw | src/panko/support/io/compressed/gzip_file.hh:73-77 | the write primitive reports 0 bytes written |
| Compressed.CompressedFile.SeekRel | src/panko/support/io/io.hh:32-39 | over the stubs, `seek_rel` succeeds exactly for an offset of 0 |
| Compressed.CompressedFile.Head | src/panko/support/io/io.hh:44-47 | over the stubs, `head` always succeeds |
| Compressed.CompressedFile.Tail | src/panko/support/io/io.hh:48-55 | over the stubs, `tail` always succeeds |
| Compressed.CompressedFile.ReadCounted | src/panko/support/io/io.hh:62-70 | over the stubs, a read sets `res_len` to 0 and succeeds exactly when nothing was asked for |
| Compressed.CompressedFile.Write | src/panko/support/io/io.hh:219-226 | over the stubs, a write succeeds exactly when it has no bytes |
| Files.Classify | src/panko/support/file.cc:73-99 | a compressed format is chosen only when its magic accepts the word, zstd only when the zstd magic does |
| Files.ClassifyExact | src/panko/support/file.cc:73-99 | a word is opened as a format exactly when that format's magic accepts it, and as zstd or raw exactly when none of the five does |
| Files.ClassifyHeader | src/panko/support/file.cc:59-99 | a file is opened as a format exactly when its first eight bytes start with that format's magic bytes |
| Files.Open | src/panko/support/file.cc:51-100 | `open` gives a file exactly when it could be opened and holds at least eight bytes; the file is at its start over the same contents, wrapped as its header's magic says |
| Sys.CName | src/panko/support/sys.cc:21-22 | the name the C lookup sees is the longest NUL-free prefix of the view, ended by its first NUL if there is one |
| Sys.Getenv | src/panko/support/sys.cc:15-27 | `getenv` answers nothing for a name not ending in NUL; otherwise it answers exactly when the variable the C string names is set, with its value |
| Sys.CNameTerminated | src/panko/support/sys.cc:17-22 | a NUL-free name with a NUL appended is looked up as that name |
| Sys.GetenvTerminated | src/panko/support/sys.cc:15-27 | `getenv` of a NUL-terminated name is the variable's value when it is set and nothing when it is not |
| Sys.HomeFrom | src/panko/support/sys.cc:46-53 | the home directory is the first variable's value if found, else the home prefix followed by the second's, else "~" |
| Sys.AssembleHome | src/panko/support/sys.cc:29-56 | appending piece by piece to an empty path yields exactly the fallback chain's answer |
| Sys.GetHome | src/panko/support/sys.cc:41-53 | as written, `get_home` is "~" for every environment |
| Sys.GetHomeFinding | src/panko/support/sys.cc:41-47 | with HOME set to "/root", `get_home` still answers "~" rather than "/root" |
| Sys.GetHomeFixed | src/panko/support/sys.cc:29-56 | with NUL-terminated names, the home directory is HOME if set, else "/home/" followed by USER if set, else "~" |
| Sys.ExpandUserWith | src/panko/support/sys.cc:58-70 | a path starting "~/" becomes the home directory followed by the path from its '/'; every other path, including those shorter than two characters, is returned unchanged |
| Sys.ExpandUser | src/panko/support/sys.cc:58-70 | as written, `expand_user` returns every path unchanged |
| Sys.ExpandUserFixed | src/panko/support/sys.cc:58-70 | with the corrected lookup and HOME set, "~/x" expands to HOME followed by "/x"; a path not starting "~/" is kept |
| Sys.ExpandUserFixedIdempotent | src/panko/support/sys.cc:58-70 | with the corrected lookup and a HOME not starting with '~', expanding twice is the same as expanding once |
| Units.Scale | src/panko/core/units.hh:15 | a literal's product fits 64 bits, and is the true product whenever that fits |
| Units.IecFactors | src/panko/core/units.hh:15-23 | the IEC factors are 2^10, 2^20, 2^30, 2^40 and 2^50 |
| Units.IecIsShift | src/panko/core/units.hh:15-23 | each IEC literal is a 64-bit left shift by 10, 20, 30, 40 or 50 bits, so the value's top bits are lost |
| Units.IecUnits | src/panko/core/units.hh:15-23 | `1_KiB` to `1_PiB` are 2^10 to 2^50, and `16384_PiB` wraps to 0 |
| Units.IecSteps | src/panko/core/units.hh:15-23 | where nothing wraps, each IEC unit is 1024 of the one before |
| Units.SiSteps | src/panko/core/units.hh:28-36 | where nothing wraps, each SI unit is 1000 of the one before |
| Units.KiB | src/panko/core/units.hh:15 | `_KiB` is a 64-bit multiple of 1024, and the value times 1024 whenever that fits 64 bits |
| Units.MiB | src/panko/core/units.hh:17 | `_MiB` is a 64-bit multiple of 2^20, and the value times 2^20 whenever that fits 64 bits |
| Units.GiB | src/panko/core/units.hh:19 | `_GiB` is a 64-bit multiple of 2^30, and the value times 2^30 whenever that fits 64 bits |
| Units.TiB | src/panko/core/units.hh:21 | `_TiB` is a 64-bit multiple of 2^40, and the value times 2^40 whenever that fits 64 bits |
| Units.PiB | src/panko/core/units.hh:23 | `_PiB` is a 64-bit multiple of 2^50, and the value times 2^50 whenever that fits 64 bits |
| Units.KB | src/panko/core/units.hh:28 | `_kB` fits 64 bits, and is the value times 1000 whenever that fits |
| Units.MB | src/panko/core/units.hh:30 | `_MB` fits 64 bits, and is the value times 10^6 whenever that fits |
| Units.GB | src/panko/core/units.hh:32 | `_GB` fits 64 bits, and is the value times 10^9 whenever that fits |
| Units.TB | src/panko/core/units.hh:34 | `_TB` fits 64 bits, and is the value times 10^12 whenever that fits |
| Units.PB | src/panko/core/units.hh:36 | `_PB` fits 64 bits, and is the value times 10^15 whenever that fits |
| Units.UnixEpoch | src/panko/core/units.hh:40-42 | `unix_epoch` is 62169911586 seconds |
| Units.ChronoLengths | src/panko/core/units.hh:40-42 | the year it counts is 365.2425 days and the month a twelfth of that year |
| ErrCodes.FileCode | src/panko/core/errcodes.hh:18-27 | every `file_error_t` code fits its 16-bit underlying type |
| ErrCodes.StrdecCode | src/panko/core/errcodes.hh:32-39 | every `strdec_error_t` code fits its 8-bit underlying type |
| ErrCodes.DecompCode | src/panko/core/errcodes.hh:44-49 | every `decomp_error_t` code fits its 8-bit underlying type |
| ErrCodes.Encodings | src/panko/core/errcodes.hh:18-49 | each Unspecified is its type's maximum and above every other code, and distinct errors have distinct codes |
| ErrCodes.FileMessages | src/panko/core/errcodes.cc:12-29 | each named file error has a message of its own, and every code naming no error reads as Unspecified |
| ErrCodes.StrdecOverrunFinding | src/panko/core/errcodes.cc:31-42 | as written, Overrun reads as "Unspecified string decoding error" |
| ErrCodes.StrdecMessagesFixed | src/panko/core/errcodes.cc:31-42 | with an Overrun case, each named string decoding error has a message of its own, and unnamed codes read as Unspecified |
| ErrCodes.DecompUnspecifiedFinding | src/panko/core/errcodes.cc:44-53 | as written, an unspecified decompression error gives the message of an unspecified string decoding error |
| ErrCodes.DecompMessagesFixed | src/panko/core/errcodes.cc:44-53 | with its own fallback text, no decompression message is a string decoding message, and its two named codes read differently |
| ErrCodes.FileErrorMessage | src/panko/core/errcodes.cc:12-29 | a 16-bit code reads "Unspecified file error" exactly when it is the code of no named file error |
| ErrCodes.StrdecErrorMessage | src/panko/core/errcodes.cc:31-42 | as written, a code reads "Unspecified string decoding error" exactly when it is neither Invalid's nor Malformed's, so Overrun's code reads so too |
| ErrCodes.StrdecErrorMessageFixed | src/panko/core/errcodes.cc:31-42 | with an Overrun case, a code reads "Unspecified string decoding error" exactly when it is the code of no named string decoding error |
| ErrCodes.DecompErrorMessage | src/panko/core/errcodes.cc:44-53 | as written, every code but Invalid's reads "Unspecified string decoding error" |
| ErrCodes.DecompErrorMessageFixed | src/panko/core/errcodes.cc:44-53 | with its own fallback text, every code but Invalid's reads "Unspecified decompression error" |
| LinktypeText.Split | contrib/scripts/gen_linktype_table.py:60 | splitting on the bar gives at least one piece, and no piece holds the separator |
| LinktypeText.JoinSplit | contrib/scripts/gen_linktype_table.py:60 | joining the pieces with the separator gives the line back, so nothing is lost by the split |
| LinktypeText.Strip | contrib/scripts/gen_linktype_table.py:62 | a stripped field neither starts nor ends with whitespace |
| LinktypeText.StripInfix | contrib/scripts/gen_linktype_table.py:62 | the stripped field is a contiguous part of the original, starting after its leading whitespace |
| LinktypeText.StripRemovesSpace | contrib/scripts/gen_linktype_table.py:62 | everything `strip` removes, at either end, is whitespace |
| LinktypeText.StripNoSpace | contrib/scripts/gen_linktype_table.py:62 | a field that neither starts nor ends with whitespace is left as it is |
| LinktypeText.StripIdempotent | contrib/scripts/gen_linktype_table.py:62 | stripping twice is stripping once |
| LinktypeText.Remove | contrib/scripts/gen_linktype_table.py:66 | after `replace('"', '')` no quote is left, nothing new appears, and a field without quotes is unchanged |
| LinktypeText.RemovePrefix | contrib/scripts/gen_linktype_table.py:68 | `removeprefix` drops the prefix exactly when the name starts with it, and otherwise leaves the name unchanged |
| LinktypeText.RemoveUnderscores | contrib/scripts/gen_linktype_table.py:73 | digit groups joined by underscores are plain digits once the underscores go |
| LinktypeText.ParseUnsigned | contrib/scripts/gen_linktype_table.py:73 | `int()` of a value without '-' succeeds exactly when, stripped and without one leading '+', it is digit groups joined by single underscores |
| LinktypeText.Decimal | contrib/scripts/gen_linktype_table.py:48 | `f'{n}'` is a nonempty digit string with no leading zero unless n is 0 |
| LinktypeText.Decimal3 | contrib/scripts/gen_linktype_table.py:29 | `f'{n:03d}'` is at least three digits |
| LinktypeText.DecimalRoundTrip | contrib/scripts/gen_linktype_table.py:48 | the digits `f'{n}'` prints spell n |
| LinktypeText.LeadingZeros | contrib/scripts/gen_linktype_table.py:29 | padding digits with zeros on the left keeps them digits and spells the same number |
| LinktypeText.ParseDigits | contrib/scripts/gen_linktype_table.py:73 | `int()` of a nonempty digit string is the number it spells |
| LinktypeText.ParseDecimal | contrib/scripts/gen_linktype_table.py:29 | `int()` reads back n from both `f'{n}'` and `f'{n:03d}'` |
| LinktypeText.Hex | contrib/scripts/gen_linktype_table.py:19 | `f'{n:X}'` is a nonempty string of upper-case hexadecimal digits |
| LinktypeText.Hex4 | contrib/scripts/gen_linktype_table.py:19 | `f'{n:04X}'` is at least four hexadecimal digits |
| LinktypeText.HexRoundTrip | contrib/scripts/gen_linktype_table.py:19 | the digits `f'{n:X}'` prints read back as n |
| LinktypeText.Hex4RoundTrip | contrib/scripts/gen_linktype_table.py:19 | the digits `f'{n:04X}'` prints read back as n |
| LinktypeText.Hex4Width | contrib/scripts/gen_linktype_table.py:19 | a 16-bit value prints as exactly four hexadecimal digits |
| LinktypeText.PadRight | contrib/scripts/gen_linktype_table.py:19 | `f'{s: <26}'` is s followed by spaces up to 26 characters, and s unchanged when it is already that long |
| LinktypeGen.StripAll | contrib/scripts/gen_linktype_table.py:62 | every field of the line is stripped, none added or dropped |
| LinktypeGen.NonEmpty | contrib/scripts/gen_linktype_table.py:64 | the filter keeps only nonempty fields, all from the line, and keeps all of them when none is empty |
| LinktypeGen.Dequote | contrib/scripts/gen_linktype_table.py:66 | every field loses its quotes, none added or dropped |
| LinktypeGen.Fields | contrib/scripts/gen_linktype_table.py:60-66 | the fields of a line hold no quotes and are no more than the pieces of its split |
| LinktypeGen.ToRecord | contrib/scripts/gen_linktype_table.py:68 | a record fails with `IndexError` exactly when the line has fewer than three fields; otherwise it holds the name without its `LINKTYPE_` prefix, the value and the description |
| LinktypeGen.Rows | contrib/scripts/gen_linktype_table.py:57-66 | one field list per line of the file, in order |
| LinktypeGen.Collect | contrib/scripts/gen_linktype_table.py:68 | converting a list succeeds exactly when every element converts, with the results in order; otherwise the first failure is raised |
| LinktypeGen.Records | contrib/scripts/gen_linktype_table.py:68 | building the records fails with `IndexError` exactly when some line has fewer than three fields; otherwise one record per line, in order |
| LinktypeGen.Singles | contrib/scripts/gen_linktype_table.py:71 | the kept records have no '-' in their value and come from the input |
| LinktypeGen.RangeRecords | contrib/scripts/gen_linktype_table.py:70 | the kept records have a '-' in their value and come from the input |
| LinktypeGen.Partition | contrib/scripts/gen_linktype_table.py:70-71 | the two filters split the records between them: together they hold each record exactly once |
| LinktypeGen.ToEntry | contrib/scripts/gen_linktype_table.py:73 | an entry fails with `ValueError` exactly when `int()` refuses the value; otherwise it is the name, the parsed value and the description |
| LinktypeGen.Entries | contrib/scripts/gen_linktype_table.py:73 | converting the single records fails with `ValueError` exactly when one of them fails; otherwise one entry per record, in order |
| LinktypeGen.ToRange | contrib/scripts/gen_linktype_table.py:75 | a range fails with `ValueError` exactly when `int()` refuses the part before the first '-'; otherwise its bound is that number and its text the comment built from the record |
| LinktypeGen.RangeList | contrib/scripts/gen_linktype_table.py:75 | converting the range records fails with `ValueError` exactly when one of them fails; otherwise one range per record, in order |
| LinktypeGen.StrLeTotal | contrib/scripts/gen_linktype_table.py:75 | the string order `sorted` uses as the tie-breaker compares any two strings |
| LinktypeGen.Insert | contrib/scripts/gen_linktype_table.py:75 | inserting into a sorted list keeps it sorted and adds exactly the one element |
| LinktypeGen.Sort | contrib/scripts/gen_linktype_table.py:75 | `sorted(ranges)` is sorted and a permutation of its input |
| LinktypeGen.SortedLows | contrib/scripts/gen_linktype_table.py:75 | in sorted ranges the lower bounds never decrease |
| LinktypeGen.Parse | contrib/scripts/gen_linktype_table.py:56-75 | parsing fails with `IndexError` when any line has fewer than three fields, and a successful parse gives sorted ranges |
| LinktypeGen.ParseResult | contrib/scripts/gen_linktype_table.py:56-75 | a successful parse has one entry or one range per line; the entries are the single records' in order, and the ranges a permutation of the range records' |
| LinktypeGen.Rename | contrib/scripts/gen_linktype_table.py:15-17 | `NULL` is the only name changed, and no member comes out named `NULL` |
| LinktypeGen.Body | contrib/scripts/gen_linktype_table.py:14-22 | the entries loop never leaves more ranges than it was given |
| LinktypeGen.BodyStep | contrib/scripts/gen_linktype_table.py:19-22 | one iteration prints the member, then the last range's comment exactly when ranges remain and the value exceeds the first range's bound |
| LinktypeGen.PrivMembers | contrib/scripts/gen_linktype_table.py:29-30 | one member per private use slot, in slot order |
| LinktypeGen.PrivateBlock | contrib/scripts/gen_linktype_table.py:25-32 | the private use block is the slots plus two markers |
| LinktypeGen.PrivBlock | contrib/scripts/gen_linktype_table.py:25-32 | a block of k slots has k + 2 lines |
| LinktypeGen.PrivMembersSnoc | contrib/scripts/gen_linktype_table.py:25-30 | one more slot appends that slot's member |
| LinktypeGen.PrivPartStep | contrib/scripts/gen_linktype_table.py:25-32 | each iteration of the private use loop appends what it prints |
| LinktypeGen.PrivateUseLines | contrib/scripts/gen_linktype_table.py:25-32 | the private use loop prints exactly the block: the BEG marker, every slot, the END marker |
| LinktypeGen.Enum | contrib/scripts/gen_linktype_table.py:12-33 | the enumeration opens and closes with its brace lines and holds only members and range comments between them: the entries loop's lines and the 537 private use lines |
| LinktypeGen.GenerateEnum | contrib/scripts/gen_linktype_table.py:12-33 | `generate_enum` prints the opening line, the entries loop's lines, the private use block and the closing line, and leaves `ranges` as the entries loop leaves it |
| LinktypeGen.Members | contrib/scripts/gen_linktype_table.py:19 | the member lines are picked out, in order |
| LinktypeGen.Comments | contrib/scripts/gen_linktype_table.py:22 | the comment lines are picked out, in order |
| LinktypeGen.CommentsOf | contrib/scripts/gen_linktype_table.py:22 | one comment per range, with its bound and text |
| LinktypeGen.BodyMembers | contrib/scripts/gen_linktype_table.py:14-19 | the entries loop prints one member per entry, in order, with `NULL` renamed |
| LinktypeGen.BodyComments | contrib/scripts/gen_linktype_table.py:14-22 | as written, the ranges left are a prefix of the list and the comments are the rest, last first: every range is left over or printed exactly once |
| LinktypeGen.BodyShape | contrib/scripts/gen_linktype_table.py:14-22 | the entries loop prints only members and comments, and every comment directly follows a member |
| LinktypeGen.PrivateBlockLayout | contrib/scripts/gen_linktype_table.py:8-9 | the block has 535 slots with values 0xFDE9 to 0xFFFF between the BEG and END markers, which repeat the first and last slots' values |
| LinktypeGen.PrivNamesDistinct | contrib/scripts/gen_linktype_table.py:29 | distinct slots get distinct names |
| LinktypeGen.PrivNamesNotMarkers | contrib/scripts/gen_linktype_table.py:28-32 | no slot is named like a marker |
| LinktypeGen.EntryNames | contrib/scripts/gen_linktype_table.py:38-43 | one table entry per registry entry, in order, under its renamed name and with its description |
| LinktypeGen.PrivNames | contrib/scripts/gen_linktype_table.py:45-48 | one table entry per slot, named like the enumeration's slot and described with its number |
| LinktypeGen.Table | contrib/scripts/gen_linktype_table.py:36-50 | the table has one line per entry, one per slot, and the opening and closing lines |
| LinktypeGen.GenerateStrs | contrib/scripts/gen_linktype_table.py:36-50 | `generate_strs` prints exactly the table |
| LinktypeGen.BodyMemberNames | contrib/scripts/gen_linktype_table.py:14-22 | the names the entries loop declares are the renamed entry names, in order |
| LinktypeGen.PrivateBlockNames | contrib/scripts/gen_linktype_table.py:25-32 | the block declares BEG, every slot as the table names it, then END |
| LinktypeGen.EnumNames | contrib/scripts/gen_linktype_table.py:12-33 | the enumeration declares the entries as the table names them, then BEG, the slots and END |
| LinktypeGen.TableNamesSplit | contrib/scripts/gen_linktype_table.py:36-50 | the table names the entries, then the slots |
| LinktypeGen.TableMatchesEnum | contrib/scripts/gen_linktype_table.py:12-50 | the string table names exactly the enumeration's members, in order, except the BEG and END markers, which no table entry names |
| LinktypeGen.RenderedValue | contrib/scripts/gen_linktype_table.py:19 | a member's value is printed as "0x", four hexadecimal digits that read back as the value, then "U" |
| LinktypeGen.RenderEnum | contrib/scripts/gen_linktype_table.py:13-33 | member and range comment lines, and only those, start with a tab; a member line names the member right after it, and a comment line is the tab and the comment |
| LinktypeGen.RenderTable | contrib/scripts/gen_linktype_table.py:37-50 | name lines, and only those, start with a tab; each opens with "{ linktype_t::" and the member's name |
| LinktypeGen.RenderAll | contrib/scripts/gen_linktype_table.py:19 | one printed line per enumeration line, in order |
| LinktypeGen.RenderAllTable | contrib/scripts/gen_linktype_table.py:43 | one printed line per table line, in order |
| LinktypeGen.Output | contrib/scripts/gen_linktype_table.py:53-85 | `main` fails exactly when parsing does; otherwise it prints the enumeration, one blank line, then the table |
| LinktypeGen.Run | contrib/scripts/gen_linktype_table.py:56-85 | running the two generators on the parse gives exactly the specified output |
| LinktypeGen.RangeCommentFinding | contrib/scripts/gen_linktype_table.py:21-22 | as written, member A = 20 with ranges starting at 10 and 200 is followed by the comment of the range starting at 200 |
| LinktypeGen.BodyFixed | contrib/scripts/gen_linktype_table.py:14-22 | popping the first range, the loop never leaves more ranges than it was given |
| LinktypeGen.BodyFixedComments | contrib/scripts/gen_linktype_table.py:14-22 | popping the first range, the comments are the first ranges in their own order and the rest is left over |
| LinktypeGen.BodyFixedPlacement | contrib/scripts/gen_linktype_table.py:14-22 | popping the first range, every comment directly follows a member whose value exceeds that range's lower bound |
| LinktypeGen.FixedCommentsAscending | contrib/scripts/gen_linktype_table.py:14-22 | on sorted ranges, the fixed loop prints the comments in ascending order of lower bound |

## Left out

- The network fetch in contrib/scripts/gen_linktype_table.py:54 is left out. The registry document's lines are the input of `LinktypeGen.Run`.
- `generate_enum` shrinks the caller's `ranges` list in place. `LinktypeGen.GenerateEnum` returns what is left of it instead.
- `LinktypeGen.ParseUnsigned` accepts only ASCII digits. Python's `int()` also accepts other Unicode decimal digits; the registry uses none.
- The `string_*` and `decompress_*` members of `bytearray_t` are not modelled. They are stubs in src/panko/core/bytearray.cc and carry no behaviour.
- The floating-point `from_bytes_be`/`from_bytes_le` overloads are not modelled, because they use `memcpy` on IEEE 754 values.
- The raw file (src/panko/support/io/raw_file.hh) is not part of this model. It is replaced by `Io.Stream`: bytes, a position and an open flag. `Seek`, `ReadRaw` and `WriteRaw` stand in for its system calls. `eof()` and the file descriptor conversion are not modelled.
- `atomic_move` (src/panko/support/file.cc:104-118) is not modelled, because it is a `renameat2` system call. Memory mapping and the path helpers are left out for the same reason.
- `zstd_file_t` is not part of this model. `Files.Open` takes its `valid_magic` as a predicate parameter.
- The front-end version strings, the Qt GUI and the command-line programs are not modelled. They are I/O and foreign code.
- `promoted_type_t` is not part of this model. The LEB128 carrier is taken to be 64 bits wide.
- Leb128.DecodeUnsigned: requires at most ten input bytes, because beyond that the source shifts its 64-bit carrier by 64 or more, which C++ leaves undefined.
- Leb128.DecodeSigned: requires at most ten input bytes, for the same reason.
- `intN_t`, `bitfield_t` and `bytearray_t` default-initialise their backing. The model starts them at zero (integers.hh:47, bitfield.hh:82, bytearray.hh:268).
- The signed `intN_t` `/`, `%` and `>>` are modelled as written, on the unsigned patterns. Lemmas relating them to integer division and shifts are stated only for unsigned types or non-negative operands.
- The Windows and Apple constants of `get_home` (src/panko/support/sys.cc:32-39) are not modelled. `Sys` uses the Linux ones.
- The int32/int64 LEB128 test vectors are not restated. The round-trip lemmas cover every value of every width.
- `Integers.Defined` leaves out the inputs C++ leaves undefined. These are a shift count at or beyond the width of T's backing type, and a zero divisor for `/` and `%`. `Integers.Wide`, `Integers.Binary`, `Integers.IntN.Apply` and `Integers.IntN.ApplyN` require it, so the model says nothing about those inputs.
- Files.Open: pairs the file kind with the underlying `Io.Stream` instead of building the `file_t` wrapper object (src/panko/support/file.cc:73-99). The wrappers' own operations are modelled on `Compressed.CompressedFile`.
- Integers.Digits10: bounds `_digits10` between 3/10 and 1/3 of the value bits, plus one, instead of restating the quotient. The exact value is proved for each of the ten aliases.

## Findings

| source | as written | input that shows it | evidently intended | confidence | as-written member | corrected member |
|---|---|---|---|---|---|---|
| src/panko/support/sys.cc:41-47 | `getenv` refuses a name not ending in NUL, but the `HOME`/`USER` name literals carry none | environment with HOME = "/root": `get_home()` is "~" | "/root" | high; not executed | Sys.GetHomeFinding | Sys.GetHomeFixed |
| src/panko/core/bytearray.hh:524-528 | the guard rejects only `end > size`, yet the slice is inclusive | a 256-byte view, `slice(0, 256)`: a 257-byte subspan | `out_of_range` for `end >= size` | high; not executed | ByteArrays.SliceGuardFinding | ByteArrays.ByteArray.Slice |
| src/panko/core/bytearray.hh:64-73 | `index(idx, data)` throws on every path, after writing only `data[0]` | `at<uint8_t>(0)` on a 4-byte view: `out_of_range` | the bytes copied into `data`, and the value returned | high; not executed | ByteArrays.ByteArray.At | ByteArrays.ByteArray.AtFixed |
| src/panko/core/integers.hh:107-111 | the sign fill is built in the unsigned type of U from the mask of T, so it stops at the width of T | `int24_t{0} - 1` converted to `int64_t`: 4294967295 | -1 | high; not executed | Integers.ConversionFinding | Integers.ConversionFixedIsValue |
| src/panko/core/integers.hh:497-539 | `<=>` and `==` between `intN_t` compare raw backings | `int24_t{0} - 1` is above `int24_t{0}` and differs from `int24_t{-1}` | compare the values | medium; not executed | Integers.CompareNFinding | Integers.CompareNFixedIsValue |
| src/panko/core/bitfield.hh:185-188 | `== value` compares the unsigned backing with the signed value | an `int8_t` bitfield assigned -1: `== -1` is false | true | medium; not executed | Bitfields.EqualsFinding | Bitfields.AssignedEqualsConverted |
| src/panko/core/errcodes.cc:31-42 | `strdec_error_message` has no case for `Overrun` | `Overrun`: "Unspecified string decoding error" | a message of its own | medium; not executed | ErrCodes.StrdecOverrunFinding | ErrCodes.StrdecMessagesFixed |
| src/panko/core/errcodes.cc:48-50 | the decompression fallback reuses the string decoding text | `decomp_error_t::Unspecified`: "Unspecified string decoding error" | a decompression message | medium; not executed | ErrCodes.DecompUnspecifiedFinding | ErrCodes.DecompMessagesFixed |
| contrib/scripts/gen_linktype_table.py:21-22 | compares the first range's bound, then pops the last range | entry A = 20 with ranges from 10 and 200: A is followed by the comment of the range from 200 | the comment of the range from 10 | medium; not executed | LinktypeGen.RangeCommentFinding | LinktypeGen.BodyFixedPlacement |
