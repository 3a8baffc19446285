/**
 * LEB128 ("little-endian base 128") encoding and decoding of fixed-width
 * integers (panko/support/leb128.hh). A value is cut into 7-bit groups,
 * least significant group first, one group per byte; every byte but the
 * last has its top bit (0x80) set. The templates are instantiated for the
 * 8-, 16-, 32- and 64-bit integral types (`bits`) and accumulate in a 64-bit
 * unsigned carrier.
 */
module Leb128 {
  import opened Bits

  /** Width of the unsigned carrier the groups are accumulated in. */
  const CarrierBits: nat := 64

  /** 2^CarrierBits: a cast to the carrier reduces modulo this. */
  const CarrierModulus: nat := 0x1_0000_0000_0000_0000

  /** The longest input whose every group is shifted by less than the carrier width. */
  const MaxDecodeLength: nat := 10

  /** A target integer type T of `bits` bits that fits in the carrier. */
  predicate IsWidth(bits: nat)
  {
    0 < bits <= CarrierBits
  }

  // ---------------------------------------------------------------------
  // Reference definitions

  /** The number the 7-bit groups of `bytes` spell, least significant first. */
  function Payload(bytes: seq<Byte>): nat
  {
    if bytes == [] then 0 else bytes[0] % 128 + 128 * Payload(bytes[1..])
  }

  /** The unsigned LEB128 encoding of x. */
  function UnsignedEncoding(x: nat): (r: seq<Byte>)
    ensures 1 <= |r|
    decreases x
  {
    if x < 128 then [x] else [x % 128 + 128] + UnsignedEncoding(x / 128)
  }

  /**
   * The signed LEB128 encoding of x: groups are emitted until what remains
   * is the sign extension of bit 6 of the last group.
   */
  function SignedEncoding(x: int): (r: seq<Byte>)
    ensures 1 <= |r|
    decreases if x >= 0 then x else -x - 1
  {
    if IsLastGroup(x) then [x % 128]
    else [x % 128 + 128] + SignedEncoding(x / 128)
  }

  /** The encoder stops after the group of x: what remains is its sign extension. */
  predicate IsLastGroup(x: int)
  {
    var group, rest := x % 128, x / 128;
    (rest == 0 && group < 64) || (rest == -1 && group >= 64)
  }

  /** Every byte but the last carries the continuation bit 0x80. */
  predicate Terminated(r: seq<Byte>)
  {
    |r| >= 1 && r[|r| - 1] < 128 && forall i :: 0 <= i < |r| - 1 ==> r[i] >= 128
  }

  /** What an unsigned decode into a T of `bits` bits yields. */
  function UnsignedValue(bytes: seq<Byte>, bits: nat): nat
  {
    Payload(bytes) % Pow2(bits)
  }

  /**
   * What a signed decode into a T of `bits` bits yields: when the 7·n
   * payload bits are fewer than T's, they are read as a two's-complement
   * number whose last bit is the sign; otherwise the payload is truncated
   * to T.
   */
  function SignedValue(bytes: seq<Byte>, bits: nat): (r: int)
    requires IsWidth(bits)
    ensures InSignedRange(r, bits)
  {
    var p, n := Payload(bytes), 7 * |bytes|;
    if n == 0 then 0
    else if n < bits then
      PayloadBound(bytes);
      SignedWiden(ToSigned(p, n), n, bits);
      ToSigned(p, n)
    else
      ToSigned(p % Pow2(bits), bits)
  }

  // ---------------------------------------------------------------------
  // Facts about the reference definitions

  /**
   * An unsigned encoding is terminated by its only byte without 0x80, and
   * is minimal: its last group is zero only when it is the only one.
   */
  lemma {:induction false} UnsignedEncodingShape(x: nat)
    ensures var r := UnsignedEncoding(x);
      Terminated(r) && (|r| == 1 || r[|r| - 1] != 0)
  {
    if x >= 128 {
      UnsignedEncodingShape(x / 128);
      var r, tail := UnsignedEncoding(x), UnsignedEncoding(x / 128);
      assert r == [x % 128 + 128] + tail;
      forall i | 0 <= i < |r| - 1
        ensures r[i] >= 128
      {
        if i > 0 {
          assert r[i] == tail[i - 1];
        }
      }
    }
  }

  /**
   * A signed encoding is terminated by its only byte without 0x80, and
   * bit 6 of that last byte is the sign of x.
   */
  lemma {:induction false} SignedEncodingShape(x: int)
    ensures var r := SignedEncoding(x);
      Terminated(r) && (r[|r| - 1] >= 64 <==> x < 0)
    decreases if x >= 0 then x else -x - 1
  {
    if !IsLastGroup(x) {
      RestSmaller(x);
      SignedEncodingShape(x / 128);
      var r, tail := SignedEncoding(x), SignedEncoding(x / 128);
      assert r == [x % 128 + 128] + tail;
      forall i | 0 <= i < |r| - 1
        ensures r[i] >= 128
      {
        if i > 0 {
          assert r[i] == tail[i - 1];
        }
      }
    }
  }

  lemma {:induction false} PayloadBound(bytes: seq<Byte>)
    ensures Payload(bytes) < Pow2(7 * |bytes|)
  {
    if bytes != [] {
      PayloadBound(bytes[1..]);
      Pow2Add(7, 7 * (|bytes| - 1));
      Pow2Small();
    }
  }

  /** Appending a byte adds its group above the ones already there. */
  lemma {:induction false} PayloadSnoc(bytes: seq<Byte>, b: Byte)
    ensures Payload(bytes + [b]) == Payload(bytes) + (b % 128) * Pow2(7 * |bytes|)
  {
    if bytes == [] {
      assert Payload([b]) == b % 128 + 128 * Payload([]);
    } else {
      var tail := bytes[1..];
      assert (bytes + [b])[1..] == tail + [b];
      PayloadSnoc(tail, b);
      var d, p := b % 128, Pow2(7 * |tail|);
      assert Pow2(7 * |bytes|) == 128 * p by {
        Pow2Add(7, 7 * |tail|);
        Pow2Small();
        assert 7 + 7 * |tail| == 7 * |bytes|;
      }
      MulSwap(d, 128, p);
      assert Payload(bytes + [b]) == bytes[0] % 128 + 128 * (Payload(tail) + d * p);
    }
  }

  lemma MulSwap(x: int, y: int, z: int)
    ensures x * (y * z) == y * (x * z)
  {
  }

  /** Unsigned round trip at the level of groups: the encoding spells x back. */
  lemma {:induction false} UnsignedPayload(x: nat)
    ensures Payload(UnsignedEncoding(x)) == x
  {
    if x >= 128 {
      var r := UnsignedEncoding(x);
      assert r[1..] == UnsignedEncoding(x / 128);
      UnsignedPayload(x / 128);
    }
  }

  /** An unsigned value below 2^(7n) needs at most n bytes. */
  lemma {:induction false} UnsignedLength(x: nat, n: nat)
    requires n >= 1 && x < Pow2(7 * n)
    ensures |UnsignedEncoding(x)| <= n
  {
    Pow2Values();
    if x >= 128 {
      Pow2Add(7, 7 * (n - 1));
      assert n > 1;
      DivModUnique(x, 128, x / 128, x % 128);
      UnsignedLength(x / 128, n - 1);
    }
  }

  /**
   * Signed round trip at the level of groups: the n bytes of the encoding
   * hold x modulo 2^(7n), and x is representable in 7n bits.
   */
  lemma {:induction false} SignedPayload(x: int)
    ensures Payload(SignedEncoding(x)) == x % Pow2(7 * |SignedEncoding(x)|)
    ensures InSignedRange(x, 7 * |SignedEncoding(x)|)
    decreases if x >= 0 then x else -x - 1
  {
    var r := SignedEncoding(x);
    if IsLastGroup(x) {
      assert r == [x % 128];
      GroupLast(x);
    } else {
      var tail := SignedEncoding(x / 128);
      assert r[1..] == tail && r[0] == x % 128 + 128;
      assert Payload(r) == x % 128 + 128 * Payload(tail);
      RestSmaller(x);
      SignedPayload(x / 128);
      GroupPrepend(x, 7 * |tail|, 7 * |r|, Payload(tail));
    }
  }

  lemma RestSmaller(x: int)
    requires !IsLastGroup(x)
    ensures x >= 0 ==> 0 <= x / 128 < x
    ensures x < 0 ==> x < x / 128 < 0
  {
  }

  /** The last group alone holds x when x is its sign extension. */
  lemma GroupLast(x: int)
    requires IsLastGroup(x)
    ensures x % Pow2(7) == x % 128 && InSignedRange(x, 7)
  {
    Pow2Small();
    if x / 128 == 0 {
      DivModUnique(x, 128, 0, x % 128);
    } else {
      DivModUnique(x, 128, -1, x % 128);
    }
  }

  /** One more group in front: x's low 7 bits, then the payload of x / 128. */
  lemma GroupPrepend(x: int, m: nat, n: nat, pay: nat)
    requires m >= 1 && n == m + 7
    requires pay == (x / 128) % Pow2(m) && InSignedRange(x / 128, m)
    ensures x % 128 + 128 * pay == x % Pow2(n) && InSignedRange(x, n)
  {
    Pow2Small();
    Pow2Add(7, m);
    Pow2Add(7, m - 1);
    assert Pow2(m + 7) == 128 * Pow2(m);
    assert Pow2(m + 6) == 128 * Pow2(m - 1);
    ModSplit(x, 128, Pow2(m));
    var half := Pow2(m - 1);
    var rest := x / 128;
    assert x == 128 * rest + x % 128;
    assert -half <= rest < half;
  }

  /** A value representable in 7n bits needs at most n bytes. */
  lemma {:induction false} SignedLength(x: int, n: nat)
    requires n >= 1 && InSignedRange(x, 7 * n)
    ensures |SignedEncoding(x)| <= n
    decreases n
  {
    if !IsLastGroup(x) {
      if n == 1 {
        Pow2Small();
        assert false;
      }
      RestNarrower(x, n - 1);
      SignedLength(x / 128, n - 1);
    }
  }

  lemma RestNarrower(x: int, m: nat)
    requires m >= 1 && InSignedRange(x, 7 * m + 7)
    ensures InSignedRange(x / 128, 7 * m)
  {
    Pow2Small();
    Pow2Add(7, 7 * m - 1);
    assert 7 * m + 7 - 1 == 7 + (7 * m - 1);
  }

  /** Decoding the unsigned encoding of any T value gives it back. */
  lemma UnsignedRoundTrip(x: nat, bits: nat)
    requires IsWidth(bits) && x < Pow2(bits)
    ensures |UnsignedEncoding(x)| <= MaxDecodeLength
    ensures UnsignedValue(UnsignedEncoding(x), bits) == x
  {
    Pow2Values();
    Pow2Monotone(bits, 70);
    UnsignedLength(x, 10);
    UnsignedPayload(x);
    DivModUnique(x, Pow2(bits), 0, x);
  }

  /** Decoding the signed encoding of any T value gives it back. */
  lemma SignedRoundTrip(x: int, bits: nat)
    requires IsWidth(bits) && InSignedRange(x, bits)
    ensures |SignedEncoding(x)| <= MaxDecodeLength
    ensures SignedValue(SignedEncoding(x), bits) == x
  {
    var r := SignedEncoding(x);
    var n := 7 * |r|;
    SignedPayload(x);
    SignedWiden(x, bits, 70);
    SignedLength(x, 10);
    if n < bits {
      ToSignedOfMod(x, n);
    } else {
      ModPow2Mod(x, n, bits);
      ToSignedOfMod(x, bits);
    }
  }

  // ---------------------------------------------------------------------
  // The encoders and decoders

  /** `leb128_encode` for an unsigned T of `bits` bits (leb128.hh:42-65). */
  method EncodeUnsigned(value: nat, bits: nat) returns (enc: seq<Byte>)
    requires IsWidth(bits) && value < Pow2(bits)
    ensures enc == UnsignedEncoding(value)
  {
    var num := value;
    enc := [];
    var more := true;
    while more
      invariant more ==> enc + UnsignedEncoding(num) == UnsignedEncoding(value)
      invariant !more ==> enc == UnsignedEncoding(value)
      decreases more, num
    {
      UnsignedStep(num);
      var byte: Byte := And(num, 0x7F);
      num := num / 128;
      if num != 0 {
        byte := Or(byte, 0x80);
      }
      assert num != 0 ==> enc + [byte] + UnsignedEncoding(num) == enc + ([byte] + UnsignedEncoding(num));
      enc := enc + [byte];
      more := num != 0;
    }
  }

  /** One round of the unsigned encoder emits the first byte of the encoding. */
  lemma UnsignedStep(num: nat)
    ensures And(num, 0x7F) < 128 && Or(And(num, 0x7F), 0x80) < 256
    ensures num / 128 != 0 ==> num / 128 < num
    ensures num / 128 != 0 ==>
      UnsignedEncoding(num) == [Or(And(num, 0x7F), 0x80)] + UnsignedEncoding(num / 128)
    ensures num / 128 == 0 ==> UnsignedEncoding(num) == [And(num, 0x7F)]
  {
    LowGroup(num);
    ContinuationBit(num % 128);
  }

  /** `leb128_encode` for a signed T of `bits` bits (leb128.hh:16-40). */
  method EncodeSigned(value: int, bits: nat) returns (enc: seq<Byte>)
    requires IsWidth(bits) && InSignedRange(value, bits)
    ensures enc == SignedEncoding(value)
  {
    var num := value;
    enc := [];
    var hasMore := true;
    while hasMore
      invariant hasMore ==> enc + SignedEncoding(num) == SignedEncoding(value)
      invariant !hasMore ==> enc == SignedEncoding(value)
      decreases hasMore, if num >= 0 then num else -num - 1
    {
      ghost var prev := num;
      var byte := And(num % CarrierModulus, 0x7F);
      num := num / 128;
      SignedStep(prev, byte, num);
      if (num == 0 && And(byte, 0x40) == 0) || (num == -1 && And(byte, 0x40) != 0) {
        hasMore := false;
      } else {
        byte := Or(byte, 0x80);
      }
      assert hasMore ==> enc + [byte] + SignedEncoding(num) == enc + ([byte] + SignedEncoding(num));
      enc := enc + [byte];
    }
  }

  /** One round of the signed encoder emits the first byte of the encoding. */
  lemma SignedStep(num: int, byte: nat, rest: int)
    requires byte == And(num % CarrierModulus, 0x7F) && rest == num / 128
    ensures byte < 128 && Or(byte, 0x80) < 256
    ensures IsLastGroup(num) <==>
      (rest == 0 && And(byte, 0x40) == 0) || (rest == -1 && And(byte, 0x40) != 0)
    ensures IsLastGroup(num) ==> SignedEncoding(num) == [byte]
    ensures !IsLastGroup(num) ==> SignedEncoding(num) == [Or(byte, 0x80)] + SignedEncoding(rest)
    ensures !IsLastGroup(num) && num >= 0 ==> 0 <= rest < num
    ensures !IsLastGroup(num) && num < 0 ==> num < rest < 0
  {
    Pow2Values();
    CarrierGroup(num);
    ContinuationBit(num % 128);
    if !IsLastGroup(num) {
      RestSmaller(num);
    }
  }

  /**
   * `static_cast<V>(num) & 0x7F` is the low group of num, and testing 0x40
   * in it tests the group's sign bit.
   */
  lemma CarrierGroup(num: int)
    ensures And(num % Pow2(CarrierBits), 0x7F) == num % 128
    ensures (And(num % 128, 0x40) != 0) == (num % 128 >= 64)
  {
    Pow2Small();
    AndLowMask(num % Pow2(CarrierBits), 7);
    ModPow2Mod(num, CarrierBits, 7);
    AndPow2(num % 128, 6);
    TopBit(num % 128, 6);
  }

  /** `num & 0x7F` is the low group of num. */
  lemma LowGroup(num: nat)
    ensures And(num, 0x7F) == num % 128
  {
    Pow2Small();
    AndLowMask(num, 7);
  }

  /** `byte |= 0x80` on a 7-bit group sets the continuation bit. */
  lemma ContinuationBit(byte: nat)
    requires byte < 128
    ensures Or(byte, 0x80) == byte + 128
  {
    Pow2Small();
    OrShifted(byte, 1, 7);
  }

  /** The accumulation loop both decoders share (leb128.hh:74-80, 98-104). */
  method GatherGroups(bytes: seq<Byte>) returns (enc: nat, shift: nat)
    requires |bytes| <= MaxDecodeLength
    ensures shift == 7 * |bytes|
    ensures enc == Payload(bytes) % Pow2(CarrierBits)
  {
    Pow2Values();
    enc, shift := 0, 0;
    for i := 0 to |bytes|
      invariant shift == 7 * i
      invariant enc == Payload(bytes[..i]) % Pow2(CarrierBits)
    {
      var prefix := bytes[..i];
      PayloadBound(prefix);
      Pow2Monotone(7 * i, 63);
      DivModUnique(Payload(prefix), Pow2(CarrierBits), 0, Payload(prefix));
      AndLowMask(bytes[i], 7);
      OrShiftLeft(enc, bytes[i] % 128, shift, CarrierBits);
      PayloadSnoc(prefix, bytes[i]);
      assert bytes[..i + 1] == prefix + [bytes[i]];
      enc := Or(enc, ShiftLeft(And(bytes[i], 0x7F), shift, CarrierBits));
      shift := shift + 7;
    }
    assert bytes[..|bytes|] == bytes;
  }

  /** `leb128_decode` for an unsigned T of `bits` bits (leb128.hh:91-107). */
  method DecodeUnsigned(bytes: seq<Byte>, bits: nat) returns (value: nat)
    requires IsWidth(bits) && |bytes| <= MaxDecodeLength
    ensures value == UnsignedValue(bytes, bits)
    ensures value < Pow2(bits)
  {
    var enc, _ := GatherGroups(bytes);
    ModPow2Mod(Payload(bytes), CarrierBits, bits);
    value := enc % Pow2(bits);
  }

  /** `leb128_decode` for a signed T of `bits` bits (leb128.hh:67-89). */
  method DecodeSigned(bytes: seq<Byte>, bits: nat) returns (value: int)
    requires IsWidth(bits) && |bytes| <= MaxDecodeLength
    ensures value == SignedValue(bytes, bits)
  {
    var enc: nat, shift: nat := GatherGroups(bytes);
    if shift != 0 && shift < bits {
      NarrowPayload(bytes, enc, shift, bits);
      enc := ExtendSign(enc, shift - 1, bits);
      value := ToSigned(enc % Pow2(bits), bits);
    } else {
      UnextendedValue(bytes, bits, enc);
      value := ToSigned(enc % Pow2(bits), bits);
    }
  }

  /**
   * The sign-extension loop of `leb128_decode` (leb128.hh:81-86): copies
   * bit `shift` of the payload into every bit above it, up to T's width.
   */
  method ExtendSign(p: nat, shift: nat, bits: nat) returns (enc: nat)
    requires IsWidth(bits) && shift + 1 < bits && p < Pow2(shift + 1)
    ensures enc < Pow2(bits) && ToSigned(enc % Pow2(bits), bits) == ToSigned(p, shift + 1)
  {
    enc := p;
    ghost var negative := Bit(p, shift);
    var i: nat := 1;
    while i < bits - shift
      invariant 1 <= i <= bits - shift
      invariant enc == p + (if negative then Pow2(shift + i) - Pow2(shift + 1) else 0)
    {
      SignExtendStep(p, enc, shift, i, bits);
      enc := Or(enc, ShiftLeft(And(enc, Pow2(shift)), i, CarrierBits));
      i := i + 1;
    }
    SignExtended(p, enc, shift, i, bits);
  }

  /** When the groups read are fewer than T's bits, nothing was truncated. */
  lemma NarrowPayload(bytes: seq<Byte>, enc: nat, n: nat, bits: nat)
    requires IsWidth(bits) && n == 7 * |bytes| && 0 < n < bits
    requires enc == Payload(bytes) % Pow2(CarrierBits)
    ensures enc == Payload(bytes) < Pow2(n)
    ensures SignedValue(bytes, bits) == ToSigned(enc, n)
  {
    PayloadBound(bytes);
    Pow2Monotone(n, CarrierBits);
    DivModUnique(Payload(bytes), Pow2(CarrierBits), 0, Payload(bytes));
  }

  /** Without sign extension, the value is the payload truncated to T. */
  lemma UnextendedValue(bytes: seq<Byte>, bits: nat, enc: nat)
    requires IsWidth(bits) && |bytes| <= MaxDecodeLength
    requires !(0 < 7 * |bytes| < bits)
    requires enc == Payload(bytes) % Pow2(CarrierBits)
    ensures ToSigned(enc % Pow2(bits), bits) == SignedValue(bytes, bits)
  {
    if bytes == [] {
      DivModUnique(0, Pow2(CarrierBits), 0, 0);
      DivModUnique(0, Pow2(bits), 0, 0);
    } else {
      ModPow2Mod(Payload(bytes), CarrierBits, bits);
    }
  }

  /** After the loop, bits n..bits-1 repeat the sign bit n-1 of the payload. */
  lemma SignExtended(p: nat, enc: nat, s: nat, i: nat, bits: nat)
    requires IsWidth(bits) && s + i == bits && s + 1 < bits && p < Pow2(s + 1)
    requires enc == p + (if Bit(p, s) then Pow2(s + i) - Pow2(s + 1) else 0)
    ensures enc < Pow2(bits) && ToSigned(enc % Pow2(bits), bits) == ToSigned(p, s + 1)
  {
    TopBit(p, s);
    Pow2Monotone(s + 1, bits - 1);
    Pow2Monotone(s, bits - 1);
    assert Pow2(bits) == 2 * Pow2(bits - 1);
    DivModUnique(enc, Pow2(bits), 0, enc);
  }

  /** One round of the sign-extension loop copies the sign bit one place up. */
  lemma SignExtendStep(p: nat, enc: nat, s: nat, i: nat, bits: nat)
    requires IsWidth(bits) && 1 <= i && s + i < bits
    requires p < Pow2(s + 1)
    requires enc == p + (if Bit(p, s) then Pow2(s + i) - Pow2(s + 1) else 0)
    ensures Or(enc, ShiftLeft(And(enc, Pow2(s)), i, CarrierBits))
         == p + (if Bit(p, s) then Pow2(s + i + 1) - Pow2(s + 1) else 0)
  {
    if Bit(p, s) {
      SignExtendNegative(p, enc, s, i, bits);
    } else {
      AndPow2(enc, s);
      DivModUnique(0, Pow2(CarrierBits), 0, 0);
      assert ShiftLeft(0, i, CarrierBits) == 0;
    }
  }

  lemma SignExtendNegative(p: nat, enc: nat, s: nat, i: nat, bits: nat)
    requires IsWidth(bits) && 1 <= i && s + i < bits
    requires p < Pow2(s + 1) && Bit(p, s)
    requires enc == p + Pow2(s + i) - Pow2(s + 1)
    ensures Or(enc, ShiftLeft(And(enc, Pow2(s)), i, CarrierBits)) == p + Pow2(s + i + 1) - Pow2(s + 1)
  {
    var k := s + i;
    Pow2Add(s + 1, i - 1);
    MulSubOne(Pow2(s + 1), Pow2(i - 1));
    DivModUnique(enc, Pow2(s + 1), Pow2(i - 1) - 1, p);
    ModPow2Bit(enc, s + 1, s);
    AndPow2(enc, s);
    assert And(enc, Pow2(s)) == Pow2(s);
    ShiftPow2(s, i, CarrierBits);
    Pow2Monotone(s + 1, k);
    OrShifted(enc, 1, k);
    assert 1 * Pow2(k) == Pow2(k);
    assert Or(enc, Pow2(k)) == enc + Pow2(k);
    assert Pow2(k + 1) == 2 * Pow2(k);
  }

  lemma MulSubOne(a: int, b: int)
    ensures a * (b - 1) == a * b - a
  {
  }

  // ---------------------------------------------------------------------
  // Vectors from the library's own test suite (tests/support/leb128.cc)

  lemma NegativeEncodingVectors()
    ensures SignedEncoding(-5) == [0x7B]
    ensures SignedEncoding(-32568) == [0xC8, 0x81, 0x7E]
    ensures SignedEncoding(-21574836) == [0xCC, 0x96, 0xDB, 0x75]
  {
  }

  lemma PositiveEncodingVectors()
    ensures SignedEncoding(18) == [0x12]
    ensures SignedEncoding(25535) == [0xBF, 0xC7, 0x01]
    ensures SignedEncoding(114848627) == [0xF3, 0xE6, 0xE1, 0x36]
  {
  }

  lemma UnsignedEncodingVectors()
    ensures UnsignedEncoding(29) == [0x1D]
    ensures UnsignedEncoding(46637) == [0xAD, 0xEC, 0x02]
    ensures UnsignedEncoding(327899725) == [0xCD, 0xB4, 0xAD, 0x9C, 0x01]
  {
  }

  lemma SignedDecodingVectors()
    ensures SignedValue([0x49], 8) == -55
  {
    Pow2Small();
  }

  lemma SignedDecodingPadded()
    ensures SignedValue([0xEE, 0x00], 8) == 110
  {
    Pow2Small();
    assert Payload([0xEE, 0x00]) == 110;
    DivModUnique(110, Pow2(8), 0, 110);
  }

  lemma SignedDecodingExtends()
    ensures SignedValue([0xCE, 0xCD, 0x7E], 16) == -22834
  {
    Pow2Small();
    Pow2Add(8, 8);
    assert Payload([0xCE, 0xCD, 0x7E]) == 2074318;
    DivModUnique(2074318, Pow2(16), 31, 42702);
  }

  lemma SignedDecodingTruncates()
    ensures SignedValue([0xB3, 0xF7, 0x01], 16) == 31667
  {
    Pow2Small();
    Pow2Add(8, 8);
    assert Payload([0xB3, 0xF7, 0x01]) == 31667;
    DivModUnique(31667, Pow2(16), 0, 31667);
  }

  lemma UnsignedDecodingVectors()
    ensures UnsignedValue([0xF0, 0x01], 8) == 240
  {
  }

  lemma UnsignedDecodingWide()
    ensures UnsignedValue([0x95, 0xA9, 0x03], 16) == 54421
  {
    Pow2Small();
    Pow2Add(8, 8);
    assert Payload([0x95, 0xA9, 0x03]) == 54421;
    DivModUnique(54421, Pow2(16), 0, 54421);
  }
}
