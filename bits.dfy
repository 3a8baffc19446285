/**
 * Arithmetic model of the fixed-width bit manipulation the library performs
 * on unsigned carriers: AND, OR and XOR on naturals, complement within a
 * width, and the facts about masks and shifts that the other modules use.
 * A value of an N-bit unsigned C++ type is a natural below Pow2(N); bit i of
 * a value is Bit(x, i).
 */
module Bits {

  /** An `std::uint8_t`. */
  type Byte = x: nat | x < 256

  function Pow2(n: nat): (r: nat)
    ensures r >= 1
  {
    if n == 0 then 1 else 2 * Pow2(n - 1)
  }

  /** Bit i of x, counting from the least significant bit. */
  predicate Bit(x: nat, i: nat)
  {
    if i == 0 then x % 2 == 1 else Bit(x / 2, i - 1)
  }

  function And(a: nat, b: nat): nat
  {
    if a == 0 || b == 0 then 0 else 2 * And(a / 2, b / 2) + (if a % 2 == 1 && b % 2 == 1 then 1 else 0)
  }

  function Or(a: nat, b: nat): nat
  {
    if a == 0 then b
    else if b == 0 then a
    else 2 * Or(a / 2, b / 2) + (if a % 2 == 1 || b % 2 == 1 then 1 else 0)
  }

  function Xor(a: nat, b: nat): nat
  {
    if a == 0 then b
    else if b == 0 then a
    else 2 * Xor(a / 2, b / 2) + (a % 2 + b % 2) % 2
  }

  /** `~a` on a w-bit unsigned carrier. */
  function Not(a: nat, w: nat): nat
    requires a < Pow2(w)
  {
    Pow2(w) - 1 - a
  }

  /** `x << k` on a w-bit unsigned carrier: the bits shifted past w are lost. */
  function ShiftLeft(x: nat, k: nat, w: nat): nat
  {
    (x * Pow2(k)) % Pow2(w)
  }

  /** `(1 << n) - 1`: the mask of the n low bits. */
  function LowMask(n: nat): nat
  {
    Pow2(n) - 1
  }

  // ---------------------------------------------------------------------
  // Powers of two

  lemma {:induction false} Pow2Add(a: nat, b: nat)
    ensures Pow2(a + b) == Pow2(a) * Pow2(b)
  {
    if a > 0 {
      Pow2Add(a - 1, b);
      assert Pow2(a + b) == 2 * Pow2(a - 1 + b);
    }
  }

  lemma {:induction false} Pow2Monotone(a: nat, b: nat)
    requires a <= b
    ensures Pow2(a) <= Pow2(b)
  {
    if a < b {
      Pow2Monotone(a, b - 1);
    }
  }

  lemma Pow2Small()
    ensures Pow2(6) == 64 && Pow2(7) == 128 && Pow2(8) == 256
  {
  }

  lemma Pow2Values()
    ensures Pow2(6) == 64 && Pow2(7) == 128 && Pow2(8) == 256
    ensures Pow2(16) == 0x1_0000
    ensures Pow2(24) == 0x100_0000
    ensures Pow2(32) == 0x1_0000_0000
    ensures Pow2(40) == 0x100_0000_0000
    ensures Pow2(48) == 0x1_0000_0000_0000
    ensures Pow2(56) == 0x100_0000_0000_0000
    ensures Pow2(64) == 0x1_0000_0000_0000_0000
  {
    Pow2Small();
    assert Pow2(16) == 0x1_0000 by { Pow2Add(8, 8); }
    assert Pow2(24) == 0x100_0000 by { Pow2Add(16, 8); }
    assert Pow2(32) == 0x1_0000_0000 by { Pow2Add(16, 16); }
    assert Pow2(40) == 0x100_0000_0000 by { Pow2Add(32, 8); }
    assert Pow2(48) == 0x1_0000_0000_0000 by { Pow2Add(32, 16); }
    assert Pow2(56) == 0x100_0000_0000_0000 by { Pow2Add(32, 24); }
    assert Pow2(64) == 0x1_0000_0000_0000_0000 by { Pow2Add(32, 32); }
  }

  // ---------------------------------------------------------------------
  // Division and remainder

  lemma MulAtLeast(m: int, d: int)
    requires m > 0 && d >= 1
    ensures m * d >= m
  {}

  lemma MulBelow(a: nat, r: nat, b: nat)
    requires r < b
    ensures a * r <= a * (b - 1)
  {}

  /** Euclidean division is unique: the only quotient/remainder pair. */
  lemma DivModUnique(x: int, m: int, q: int, r: int)
    requires m > 0 && 0 <= r < m && x == m * q + r
    ensures x / m == q && x % m == r
  {
    var q', r' := x / m, x % m;
    assert m * (q' - q) == r - r';
    if q' > q {
      MulAtLeast(m, q' - q);
    } else if q' < q {
      MulAtLeast(m, q - q');
    }
  }

  lemma DivDiv(x: nat, a: nat, b: nat)
    requires a > 0 && b > 0
    ensures x / a / b == x / (a * b)
  {
    var q, r := x / a, x % a;
    var q2, r2 := q / b, q % b;
    assert x == a * q + r;
    assert q == b * q2 + r2;
    assert a * q == (a * b) * q2 + a * r2 by {
      assert a * q == a * (b * q2 + r2);
    }
    MulBelow(a, r2, b);
    DivModUnique(x, a * b, q2, a * r2 + r);
  }

  /** x % (2m) seen as one bit below (x / 2) % m. */
  lemma ModDouble(x: nat, m: nat)
    requires m > 0
    ensures x % (2 * m) == 2 * ((x / 2) % m) + x % 2
    ensures (x % (2 * m)) / 2 == (x / 2) % m && (x % (2 * m)) % 2 == x % 2
  {
    var q := (x / 2) / m;
    var t := (x / 2) % m;
    assert x == (2 * m) * q + (2 * t + x % 2) by {
      assert x / 2 == m * q + t;
    }
    DivModUnique(x, 2 * m, q, 2 * t + x % 2);
  }

  // ---------------------------------------------------------------------
  // Bits of particular values

  lemma {:induction false} BitZero(i: nat)
    ensures !Bit(0, i)
  {
    if i > 0 {
      BitZero(i - 1);
    }
  }

  /** A value below 2^w has no bit at or above w. */
  lemma {:induction false} BitBelow(x: nat, w: nat, i: nat)
    requires x < Pow2(w) && w <= i
    ensures !Bit(x, i)
  {
    if w == 0 {
      BitZero(i);
    } else {
      BitBelow(x / 2, w - 1, i - 1);
    }
  }

  /** A set bit bounds the value from below. */
  lemma {:induction false} BitAbove(x: nat, i: nat)
    requires Bit(x, i)
    ensures x >= Pow2(i)
  {
    if i > 0 {
      BitAbove(x / 2, i - 1);
    }
  }

  /** Bit extensionality: two w-bit values with the same bits are equal. */
  lemma {:induction false} BitsEqual(x: nat, y: nat, w: nat)
    requires x < Pow2(w) && y < Pow2(w)
    requires forall i: nat :: i < w ==> Bit(x, i) == Bit(y, i)
    ensures x == y
  {
    if w > 0 {
      assert Bit(x, 0) == Bit(y, 0);
      forall i: nat | i < w - 1
        ensures Bit(x / 2, i) == Bit(y / 2, i)
      {
        assert Bit(x, i + 1) == Bit(y, i + 1);
      }
      BitsEqual(x / 2, y / 2, w - 1);
    }
  }

  lemma {:induction false} Pow2Bit(k: nat, i: nat)
    ensures Bit(Pow2(k), i) == (i == k)
  {
    if k == 0 {
      if i > 0 {
        BitZero(i - 1);
      }
    } else if i > 0 {
      Pow2Bit(k - 1, i - 1);
    }
  }

  /** Shifting left by k moves every bit up by k. */
  lemma {:induction false} MulPow2Bit(x: nat, k: nat, i: nat)
    ensures Bit(x * Pow2(k), i) == (k <= i && Bit(x, i - k))
  {
    if k > 0 {
      var y := x * Pow2(k - 1);
      assert x * Pow2(k) == 2 * y;
      if i > 0 {
        assert (2 * y) / 2 == y;
        MulPow2Bit(x, k - 1, i - 1);
      }
    }
  }

  lemma DivNonneg(x: nat, d: nat)
    requires d > 0
    ensures x / d >= 0
  {
  }

  /** `x >> k`. */
  function Shr(x: nat, k: nat): nat
  {
    DivNonneg(x, Pow2(k));
    x / Pow2(k)
  }

  /** Shifting right by k moves every bit down by k. */
  lemma {:induction false} DivPow2Bit(x: nat, k: nat, j: nat)
    ensures Bit(Shr(x, k), j) == Bit(x, j + k)
  {
    if k > 0 {
      DivDiv(x, 2, Pow2(k - 1));
      DivPow2Bit(x / 2, k - 1, j);
    }
  }

  /** Taking the remainder by 2^n keeps exactly the n low bits. */
  lemma {:induction false} ModPow2Bit(x: nat, n: nat, i: nat)
    ensures Bit(x % Pow2(n), i) == (i < n && Bit(x, i))
  {
    if n == 0 {
      BitZero(i);
    } else {
      ModDouble(x, Pow2(n - 1));
      if i > 0 {
        ModPow2Bit(x / 2, n - 1, i - 1);
      }
    }
  }

  /** `x << k` on a w-bit carrier: bit i is bit i - k of x, below w. */
  lemma ShiftLeftBit(x: nat, k: nat, w: nat, i: nat)
    ensures Bit(ShiftLeft(x, k, w), i) == (i < w && k <= i && Bit(x, i - k))
  {
    var y: nat := x * Pow2(k);
    ModPow2Bit(y, w, i);
    MulPow2Bit(x, k, i);
  }

  lemma {:induction false} LowMaskBit(n: nat, i: nat)
    ensures Bit(LowMask(n), i) == (i < n)
  {
    if i < n {
      NotBit(0, n, i);
      BitZero(i);
    } else {
      BitBelow(LowMask(n), n, i);
    }
  }

  // ---------------------------------------------------------------------
  // Bitwise operators, bit by bit

  /** Doubling and adding a bit can be undone. */
  lemma Halve(q: nat, r: nat)
    requires r < 2
    ensures (2 * q + r) / 2 == q && (2 * q + r) % 2 == r
  {
  }

  lemma {:induction false} AndBit(a: nat, b: nat, i: nat)
    ensures Bit(And(a, b), i) == (Bit(a, i) && Bit(b, i))
  {
    if a == 0 || b == 0 {
      BitZero(i);
    } else {
      Halve(And(a / 2, b / 2), (if a % 2 == 1 && b % 2 == 1 then 1 else 0));
      if i > 0 {
        AndBit(a / 2, b / 2, i - 1);
      }
    }
  }

  lemma {:induction false} OrBit(a: nat, b: nat, i: nat)
    ensures Bit(Or(a, b), i) == (Bit(a, i) || Bit(b, i))
  {
    if a == 0 || b == 0 {
      BitZero(i);
    } else {
      Halve(Or(a / 2, b / 2), (if a % 2 == 1 || b % 2 == 1 then 1 else 0));
      if i > 0 {
        OrBit(a / 2, b / 2, i - 1);
      }
    }
  }

  lemma {:induction false} XorBit(a: nat, b: nat, i: nat)
    ensures Bit(Xor(a, b), i) == (Bit(a, i) != Bit(b, i))
  {
    if a == 0 || b == 0 {
      BitZero(i);
    } else {
      Halve(Xor(a / 2, b / 2), (a % 2 + b % 2) % 2);
      if i > 0 {
        XorBit(a / 2, b / 2, i - 1);
      }
    }
  }

  lemma {:induction false} NotBit(a: nat, w: nat, i: nat)
    requires a < Pow2(w) && i < w
    ensures Bit(Not(a, w), i) == !Bit(a, i)
  {
    var p := Pow2(w - 1);
    var n := Pow2(w) - 1 - a;
    assert n == 2 * (p - 1 - a / 2) + (1 - a % 2);
    if i > 0 {
      NotBit(a / 2, w - 1, i - 1);
    }
  }

  // ---------------------------------------------------------------------
  // Bounds

  lemma {:induction false} AndBound(a: nat, b: nat)
    ensures And(a, b) <= a && And(a, b) <= b
  {
    if a != 0 && b != 0 {
      AndBound(a / 2, b / 2);
    }
  }

  lemma {:induction false} OrBound(a: nat, b: nat, w: nat)
    requires a < Pow2(w) && b < Pow2(w)
    ensures Or(a, b) < Pow2(w)
  {
    if a != 0 && b != 0 {
      OrBound(a / 2, b / 2, w - 1);
    }
  }

  lemma {:induction false} XorBound(a: nat, b: nat, w: nat)
    requires a < Pow2(w) && b < Pow2(w)
    ensures Xor(a, b) < Pow2(w)
  {
    if a != 0 && b != 0 {
      XorBound(a / 2, b / 2, w - 1);
    }
  }

  // ---------------------------------------------------------------------
  // Masks and disjoint ORs as arithmetic

  /** `x & ((1 << n) - 1)` is `x % 2^n`. */
  lemma AndLowMask(x: nat, n: nat)
    ensures And(x, LowMask(n)) == x % Pow2(n)
  {
    var l := And(x, LowMask(n));
    var r := x % Pow2(n);
    AndBound(x, LowMask(n));
    forall i: nat | i < n
      ensures Bit(l, i) == Bit(r, i)
    {
      AndBit(x, LowMask(n), i);
      LowMaskBit(n, i);
      ModPow2Bit(x, n, i);
    }
    BitsEqual(l, r, n);
  }

  /** `x & (1 << k)` isolates bit k. */
  lemma AndPow2(x: nat, k: nat)
    ensures And(x, Pow2(k)) == if Bit(x, k) then Pow2(k) else 0
  {
    var l := And(x, Pow2(k));
    var r := if Bit(x, k) then Pow2(k) else 0;
    AndBound(x, Pow2(k));
    Pow2Monotone(k, k + 1);
    forall i: nat | i < k + 1
      ensures Bit(l, i) == Bit(r, i)
    {
      AndBit(x, Pow2(k), i);
      Pow2Bit(k, i);
      BitZero(i);
    }
    BitsEqual(l, r, k + 1);
  }

  /** ORing a value into bits that are all clear is addition. */
  lemma {:induction false} OrShifted(a: nat, b: nat, k: nat)
    requires a < Pow2(k)
    ensures Or(a, b * Pow2(k)) == a + b * Pow2(k)
    ensures Or(b * Pow2(k), a) == a + b * Pow2(k)
  {
    if k > 0 && a != 0 && b != 0 {
      var y := b * Pow2(k - 1);
      assert b * Pow2(k) == 2 * y;
      assert (2 * y) / 2 == y && (2 * y) % 2 == 0;
      OrShifted(a / 2, b, k - 1);
    }
  }

  // ---------------------------------------------------------------------
  // Carriers of a fixed width

  /** Reducing modulo a multiple first does not change the remainder. */
  lemma ModMod(x: int, m: int, k: int)
    requires m > 0 && k > 0
    ensures (x % (m * k)) % m == x % m
  {
    var q := x / (m * k);
    var r := x % (m * k);
    assert x == m * (k * q + r / m) + r % m by {
      assert x == (m * k) * q + r;
      assert r == m * (r / m) + r % m;
    }
    DivModUnique(x, m, k * q + r / m, r % m);
  }

  lemma ModPow2Mod(x: int, a: nat, b: nat)
    requires b <= a
    ensures (x % Pow2(a)) % Pow2(b) == x % Pow2(b)
  {
    Pow2Add(b, a - b);
    ModMod(x, Pow2(b), Pow2(a - b));
  }

  /** The low digits of x in base m, then the next ones in base k. */
  lemma ModSplit(x: int, m: int, k: int)
    requires m > 0 && k > 0
    ensures x % (m * k) == x % m + m * ((x / m) % k)
  {
    var q := (x / m) / k;
    var t := (x / m) % k;
    assert x == (m * k) * q + (x % m + m * t) by {
      assert x == m * (x / m) + x % m;
      assert x / m == k * q + t;
      assert m * (x / m) == m * (k * q) + m * t;
    }
    MulBelow(m, t, k);
    DivModUnique(x, m * k, q, x % m + m * t);
  }

  /** Multiplying by p scales the remainder too. */
  lemma MulMod(c: nat, p: nat, m: nat)
    requires p > 0 && m > 0
    ensures (c * p) % (p * m) == (c % m) * p
  {
    var q, r := c / m, c % m;
    assert c * p == (p * m) * q + r * p by {
      assert c == m * q + r;
      assert (m * q + r) * p == (m * q) * p + r * p;
      assert (m * q) * p == (p * m) * q;
    }
    MulBelow(p, r, m);
    assert r * p <= p * (m - 1);
    DivModUnique(c * p, p * m, q, r * p);
  }

  /** A shifted value loses its high bits on a w-bit carrier. */
  lemma ShiftLeftMod(c: nat, k: nat, w: nat)
    requires k <= w
    ensures ShiftLeft(c, k, w) == (c % Pow2(w - k)) * Pow2(k)
  {
    Pow2Add(k, w - k);
    MulMod(c, Pow2(k), Pow2(w - k));
  }

  /** Adding a value below p to a multiple of p commutes with the remainder. */
  lemma AddMulMod(a: nat, c: nat, p: nat, m: nat)
    requires p > 0 && m > 0 && a < p
    ensures (a + c * p) % (p * m) == a + (c % m) * p
  {
    var q, r := c / m, c % m;
    assert a + c * p == (p * m) * q + (a + r * p) by {
      assert c == m * q + r;
      assert (m * q + r) * p == (m * q) * p + r * p;
      assert (m * q) * p == (p * m) * q;
    }
    MulBelow(p, r, m);
    assert r * p <= p * (m - 1);
    DivModUnique(a + c * p, p * m, q, a + r * p);
  }

  /**
   * `acc |= c << k` on a w-bit carrier when acc has no bit at or above k:
   * the carrier then holds the sum reduced modulo 2^w.
   */
  lemma OrShiftLeft(acc: nat, c: nat, k: nat, w: nat)
    requires k <= w && acc < Pow2(k)
    ensures Or(acc, ShiftLeft(c, k, w)) == (acc + c * Pow2(k)) % Pow2(w)
  {
    ShiftLeftMod(c, k, w);
    OrShifted(acc, c % Pow2(w - k), k);
    Pow2Add(k, w - k);
    AddMulMod(acc, c, Pow2(k), Pow2(w - k));
  }

  /** The top bit of a (k+1)-bit value says whether it reaches 2^k. */
  lemma TopBit(x: nat, k: nat)
    requires x < Pow2(k + 1)
    ensures Bit(x, k) <==> x >= Pow2(k)
  {
    DivPow2Bit(x, k, 0);
    if x >= Pow2(k) {
      DivModUnique(x, Pow2(k), 1, x - Pow2(k));
    } else {
      DivModUnique(x, Pow2(k), 0, x);
    }
  }

  /** Shifting the bit `1 << s` left by i inside a w-bit carrier. */
  lemma ShiftPow2(s: nat, i: nat, w: nat)
    requires s + i < w
    ensures ShiftLeft(Pow2(s), i, w) == Pow2(s + i)
  {
    Pow2Add(s, i);
    Pow2Monotone(s + i + 1, w);
    DivModUnique(Pow2(s + i), Pow2(w), 0, Pow2(s + i));
  }

  // ---------------------------------------------------------------------
  // Two's complement

  predicate InSignedRange(x: int, bits: nat)
    requires bits > 0
  {
    -(Pow2(bits - 1) as int) <= x < Pow2(bits - 1)
  }

  /** The signed `bits`-bit integer whose two's-complement bit pattern is u. */
  function ToSigned(u: nat, bits: nat): (r: int)
    requires bits > 0 && u < Pow2(bits)
    ensures InSignedRange(r, bits)
    ensures r % Pow2(bits) == u
  {
    assert Pow2(bits) == 2 * Pow2(bits - 1);
    if u < Pow2(bits - 1) then
      DivModUnique(u, Pow2(bits), 0, u);
      u
    else
      DivModUnique(u - Pow2(bits), Pow2(bits), -1, u);
      u - Pow2(bits)
  }

  /** A value representable in `bits` bits is representable in more. */
  lemma SignedWiden(x: int, bits: nat, wider: nat)
    requires 0 < bits <= wider && InSignedRange(x, bits)
    ensures InSignedRange(x, wider)
  {
    Pow2Monotone(bits - 1, wider - 1);
  }

  /** The bit pattern of a representable value reads back as that value. */
  lemma ToSignedOfMod(x: int, bits: nat)
    requires bits > 0 && InSignedRange(x, bits)
    ensures ToSigned(x % Pow2(bits), bits) == x
  {
    assert Pow2(bits) == 2 * Pow2(bits - 1);
    if x >= 0 {
      DivModUnique(x, Pow2(bits), 0, x);
    } else {
      DivModUnique(x, Pow2(bits), -1, x + Pow2(bits));
    }
  }

  // ---------------------------------------------------------------------
  // Congruences

  /** Addition, subtraction and multiplication respect reduction mod m. */
  lemma ModAdd(a: int, b: int, m: int)
    requires m > 0
    ensures (a % m + b % m) % m == (a + b) % m
  {
    var qa, qb := a / m, b / m;
    assert a == a % m + m * qa && b == b % m + m * qb;
    assert a + b == (a % m + b % m) + m * (qa + qb);
    ModShift(a % m + b % m, qa + qb, m);
  }

  lemma ModSub(a: int, b: int, m: int)
    requires m > 0
    ensures (a % m - b % m) % m == (a - b) % m
  {
    var qa, qb := a / m, b / m;
    assert a == a % m + m * qa && b == b % m + m * qb;
    assert a - b == (a % m - b % m) + m * (qa - qb);
    ModShift(a % m - b % m, qa - qb, m);
  }

  lemma ModMul(a: int, b: int, m: int)
    requires m > 0
    ensures ((a % m) * (b % m)) % m == (a * b) % m
  {
    var ra, rb := a % m, b % m;
    var qa, qb := a / m, b / m;
    assert a == ra + m * qa && b == rb + m * qb;
    var k := qa * rb + ra * qb + m * qa * qb;
    assert a * b == (ra + m * qa) * (rb + m * qb);
    Expand(ra, rb, qa, qb, m);
    assert a * b == ra * rb + m * k;
    ModShift(ra * rb, k, m);
  }

  lemma Expand(ra: int, rb: int, qa: int, qb: int, m: int)
    ensures (ra + m * qa) * (rb + m * qb) == ra * rb + m * (qa * rb + ra * qb + m * qa * qb)
  {
  }

  /** Adding a multiple of m does not change the remainder. */
  lemma ModShift(x: int, q: int, m: int)
    requires m > 0
    ensures (x + m * q) % m == x % m
  {
    DivModUnique(x + m * q, m, x / m + q, x % m);
  }

  /** Subtracting a multiple of m does not change the remainder. */
  lemma ModShiftDown(x: int, q: int, m: int)
    requires m > 0
    ensures (x - m * q) % m == x % m
  {
    DivModUnique(x - m * q, m, x / m - q, x % m);
  }

  /** Adding 2^w, a multiple of 2^n, leaves the residue modulo 2^n alone. */
  lemma WrapResidue(x: int, n: nat, w: nat)
    requires n <= w
    ensures (x + Pow2(w)) % Pow2(n) == x % Pow2(n)
  {
    var k := w - n;
    Pow2Add(n, k);
    assert Pow2(w) == Pow2(n) * Pow2(k);
    ModShift(x, Pow2(k), Pow2(n));
  }

  lemma MulPred(h: int, p: int)
    ensures (h - 1) * p == h * p - p
  {
  }

  /** 2^a - 2^b is the mask of a - b bits shifted up by b. */
  lemma Pow2Diff(a: nat, b: nat)
    requires b <= a
    ensures Pow2(a) - Pow2(b) == LowMask(a - b) * Pow2(b)
  {
    MaskShifted(a - b, b);
  }

  lemma MaskShifted(k: nat, b: nat)
    ensures Pow2(k + b) - Pow2(b) == LowMask(k) * Pow2(b)
  {
    Pow2Add(k, b);
    MulPred(Pow2(k), Pow2(b));
  }

  /** The bits of 2^a - 2^b are exactly those from b up to a. */
  lemma Pow2DiffBit(a: nat, b: nat, i: nat)
    requires b <= a
    ensures Pow2(a) - Pow2(b) >= 0
    ensures Bit(Pow2(a) - Pow2(b), i) == (b <= i < a)
  {
    Pow2Diff(a, b);
    MulPow2Bit(LowMask(a - b), b, i);
    if b <= i {
      LowMaskBit(a - b, i - b);
    }
  }

  /** OR-ing in bits that are already set changes nothing. */
  lemma OrAbsorb(e: nat, f: nat, x: nat, w: nat)
    requires e < Pow2(w) && f < Pow2(w) && x < Pow2(w)
    requires forall i: nat :: i < w && Bit(e, i) ==> Bit(f, i)
    requires Or(f, x) == x
    ensures Or(e, x) == x
  {
    OrBound(e, x, w);
    forall i: nat | i < w
      ensures Bit(Or(e, x), i) == Bit(x, i)
    {
      OrBit(e, x, i);
      OrBit(f, x, i);
    }
    BitsEqual(Or(e, x), x, w);
  }

  /** OR is idempotent in its first argument. */
  lemma OrTwice(e: nat, x: nat, w: nat)
    requires e < Pow2(w) && x < Pow2(w)
    ensures Or(e, Or(e, x)) == Or(e, x)
  {
    OrBound(e, x, w);
    OrBound(e, Or(e, x), w);
    forall i: nat | i < w
      ensures Bit(Or(e, Or(e, x)), i) == Bit(Or(e, x), i)
    {
      OrBit(e, Or(e, x), i);
      OrBit(e, x, i);
    }
    BitsEqual(Or(e, Or(e, x)), Or(e, x), w);
  }
}
